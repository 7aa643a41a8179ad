/**
  The style string of the terminal: every SGR sequence parses it into an ordered property map,
  edits the map and prints it again. SGR is section 8.3.117 of ECMA-48.
 */
module Sgr {
  import opened Sequences

  /** One entry of the JavaScript object `styles`; the sequence keeps the object's key order. */
  datatype Declaration = Declaration(property: string, value: string)

  type StyleMap = seq<Declaration>

  const FONT_WEIGHT := "font-weight"
  const FONT_STYLE := "font-style"
  const TEXT_DECORATION := "text-decoration"
  const COLOR := "color"
  const BACKGROUND := "background-color"

  const FG_COLORS: seq<string> :=
    ["#000000", "#cd3131", "#0dbc79", "#e5e510", "#2472c8", "#bc3fbc", "#11a8cd", "#e5e5e5"]
  const BRIGHT_COLORS: seq<string> :=
    ["#666666", "#f14c4c", "#23d18b", "#f5f543", "#3b8eea", "#d670d6", "#29b8db", "#ffffff"]
  const BG_COLORS: seq<string> :=
    ["#000000", "#cd3131", "#0dbc79", "#e5e510", "#2472c8", "#bc3fbc", "#11a8cd", "#e5e5e5"]

  // ----- The ordered map -----

  /** `styles[property] = value`: a property that is present keeps its place. */
  function Put(m: StyleMap, property: string, value: string): StyleMap
  {
    if m == [] then [Declaration(property, value)]
    else if m[0].property == property then [Declaration(property, value)] + m[1..]
    else [m[0]] + Put(m[1..], property, value)
  }

  /** `delete styles[property]` */
  function Delete(m: StyleMap, property: string): StyleMap
  {
    if m == [] then []
    else if m[0].property == property then m[1..]
    else [m[0]] + Delete(m[1..], property)
  }

  function Lookup(m: StyleMap, property: string): Option<string>
  {
    if m == [] then None
    else if m[0].property == property then Some(m[0].value)
    else Lookup(m[1..], property)
  }

  ghost predicate DistinctProperties(m: StyleMap)
  {
    forall i, j :: 0 <= i < j < |m| ==> m[i].property != m[j].property
  }

  // ----- The string form -----

  /** White space as `String.prototype.trim` sees it. */
  predicate IsSpace(c: char)
  {
    || '\U{9}' <= c <= '\U{D}'
    || c in {' ', '\U{A0}', '\U{1680}', '\U{2028}', '\U{2029}', '\U{202F}', '\U{205F}', '\U{3000}', '\U{FEFF}'}
    || '\U{2000}' <= c <= '\U{200A}'
  }

  /** One `part` of the style string: it counts only when it has exactly one colon. */
  function ParsePart(m: StyleMap, part: string): StyleMap
  {
    var kv := Split(part, ':');
    if |kv| == 2 then Put(m, Trim(kv[0], IsSpace), Trim(kv[1], IsSpace)) else m
  }

  function ParseParts(m: StyleMap, parts: seq<string>): StyleMap
    decreases |parts|
  {
    if parts == [] then m else ParseParts(ParsePart(m, parts[0]), parts[1..])
  }

  function Parse(style: string): StyleMap
  {
    ParseParts([], Split(style, ';'))
  }

  function PrintDeclaration(d: Declaration): string
  {
    d.property + [':'] + d.value
  }

  function PrintParts(m: StyleMap): seq<string>
  {
    seq(|m|, i requires 0 <= i < |m| => PrintDeclaration(m[i]))
  }

  function Print(m: StyleMap): string
  {
    Join(PrintParts(m), ';')
  }

  // ----- SGR parameters -----

  function ApplyParam(m: StyleMap, p: nat): StyleMap
  {
    if p == 0 then []
    else if p == 1 then Put(m, FONT_WEIGHT, "700")
    else if p == 3 then Put(m, FONT_STYLE, "italic")
    else if p == 4 then Put(m, TEXT_DECORATION, "underline")
    else if p == 22 then Delete(m, FONT_WEIGHT)
    else if p == 23 then Delete(m, FONT_STYLE)
    else if p == 24 then Delete(m, TEXT_DECORATION)
    else if p == 39 then Delete(m, COLOR)
    else if p == 49 then Delete(m, BACKGROUND)
    else if 30 <= p <= 37 then Put(m, COLOR, FG_COLORS[p - 30])
    else if 90 <= p <= 97 then Put(m, COLOR, BRIGHT_COLORS[p - 90])
    else if 40 <= p <= 47 then Put(m, BACKGROUND, BG_COLORS[p - 40])
    else if 100 <= p <= 107 then Put(m, BACKGROUND, BRIGHT_COLORS[p - 100])
    else m
  }

  function ApplyParams(m: StyleMap, params: seq<nat>): StyleMap
    decreases |params|
  {
    if params == [] then m else ApplyParams(ApplyParam(m, params[0]), params[1..])
  }

  /** An empty parameter list stands for a single 0. */
  function Effective(params: seq<nat>): seq<nat>
  {
    if params == [] then [0] else params
  }

  /** What `setSgr` leaves in `currentStyle`. */
  function SetSgr(style: string, params: seq<nat>): string
  {
    Print(ApplyParams(Parse(style), Effective(params)))
  }

  // ----- Well-formed maps -----

  predicate KnownDeclaration(d: Declaration)
  {
    || (d.property == FONT_WEIGHT && d.value == "700")
    || (d.property == FONT_STYLE && d.value == "italic")
    || (d.property == TEXT_DECORATION && d.value == "underline")
    || (d.property == COLOR && (d.value in FG_COLORS || d.value in BRIGHT_COLORS))
    || (d.property == BACKGROUND && (d.value in BG_COLORS || d.value in BRIGHT_COLORS))
  }

  /** Distinct properties, all five of them known, with the values the code can give them. */
  ghost predicate Known(m: StyleMap)
  {
    && DistinctProperties(m)
    && forall i :: 0 <= i < |m| ==> KnownDeclaration(m[i])
  }

  /** A style string that is the printed form of a known map. */
  ghost predicate ValidStyle(style: string)
  {
    Known(Parse(style)) && Print(Parse(style)) == style
  }

  predicate NameChar(c: char)
  {
    'a' <= c <= 'z' || '0' <= c <= '9' || c == '-' || c == '#'
  }

  /** A piece of a declaration that survives `split` and `trim`: no colon, semicolon, quote or space. */
  ghost predicate Clean(s: string)
  {
    s != [] && forall i :: 0 <= i < |s| ==> NameChar(s[i])
  }

  predicate HexDigit(c: char)
  {
    '0' <= c <= '9' || 'a' <= c <= 'f'
  }

  predicate HexColor(s: string)
  {
    && |s| == 7 && s[0] == '#' && HexDigit(s[1]) && HexDigit(s[2]) && HexDigit(s[3])
    && HexDigit(s[4]) && HexDigit(s[5]) && HexDigit(s[6])
  }

  lemma HexColorClean(s: string)
    requires HexColor(s)
    ensures Clean(s)
  {
  }

  lemma TablesAreHex()
    ensures forall s :: s in FG_COLORS || s in BRIGHT_COLORS || s in BG_COLORS ==> HexColor(s)
  {
  }

  lemma NamesClean()
    ensures Clean(FONT_WEIGHT) && Clean(FONT_STYLE) && Clean(TEXT_DECORATION) && Clean(COLOR) && Clean(BACKGROUND)
  {
  }

  lemma KeywordsClean()
    ensures Clean("700") && Clean("italic") && Clean("underline")
  {
  }

  lemma KnownIsClean(d: Declaration)
    requires KnownDeclaration(d)
    ensures Clean(d.property) && Clean(d.value)
  {
    NamesClean();
    if d.property == COLOR || d.property == BACKGROUND {
      TablesAreHex();
      HexColorClean(d.value);
    } else {
      KeywordsClean();
    }
  }

  // ----- Editing keeps maps known -----

  lemma LookupCons(d: Declaration, m: StyleMap, p: string)
    ensures Lookup([d] + m, p) == if d.property == p then Some(d.value) else Lookup(m, p)
  {
    assert ([d] + m)[1..] == m;
  }

  lemma DistinctCons(d: Declaration, m: StyleMap)
    requires DistinctProperties(m) && forall i :: 0 <= i < |m| ==> m[i].property != d.property
    ensures DistinctProperties([d] + m)
  {
  }

  lemma DistinctTail(m: StyleMap)
    requires m != [] && DistinctProperties(m)
    ensures DistinctProperties(m[1..]) && forall i :: 0 <= i < |m[1..]| ==> m[1..][i].property != m[0].property
  {
  }

  lemma {:induction false} PutIn(m: StyleMap, property: string, value: string)
    requires DistinctProperties(m)
    ensures var r := Put(m, property, value);
            && |m| <= |r|
            && DistinctProperties(r)
            && (forall i :: 0 <= i < |r| ==> r[i] in m || r[i] == Declaration(property, value))
            && (forall p :: Lookup(r, p) == if p == property then Some(value) else Lookup(m, p))
  {
    var d, r := Declaration(property, value), Put(m, property, value);
    if m == [] {
      forall p
        ensures Lookup(r, p) == if p == property then Some(value) else Lookup(m, p)
      {
        LookupCons(d, [], p);
      }
    } else {
      var tail := m[1..];
      DistinctTail(m);
      assert m == [m[0]] + tail;
      var head, rest := if m[0].property == property then d else m[0],
                        if m[0].property == property then tail else Put(tail, property, value);
      assert r == [head] + rest;
      if m[0].property != property {
        PutIn(tail, property, value);
      }
      hide Put, Lookup, DistinctProperties;
      forall i | 0 <= i < |rest|
        ensures rest[i].property != head.property && (rest[i] in m || rest[i] == d)
      {
        assert rest[i] in tail || rest[i] == d;
      }
      DistinctCons(head, rest);
      forall p
        ensures Lookup(r, p) == if p == property then Some(value) else Lookup(m, p)
      {
        LookupCons(head, rest, p);
        LookupCons(m[0], tail, p);
      }
    }
  }

  lemma {:induction false} DeleteIn(m: StyleMap, property: string)
    requires DistinctProperties(m)
    ensures var r := Delete(m, property);
            && DistinctProperties(r)
            && (forall i :: 0 <= i < |r| ==> r[i] in m)
            && (forall p :: Lookup(r, p) == if p == property then None else Lookup(m, p))
  {
    if m != [] {
      var r, tail := Delete(m, property), m[1..];
      DistinctTail(m);
      assert m == [m[0]] + tail;
      if m[0].property == property {
        LookupAbsent(tail, property);
        hide Lookup, DistinctProperties;
        forall p
          ensures Lookup(r, p) == if p == property then None else Lookup(m, p)
        {
          LookupCons(m[0], tail, p);
        }
      } else {
        var rest := Delete(tail, property);
        assert r == [m[0]] + rest;
        DeleteIn(tail, property);
        hide Delete, Lookup, DistinctProperties;
        assert forall i :: 0 <= i < |rest| ==> rest[i] in tail;
        DistinctCons(m[0], rest);
        forall p
          ensures Lookup(r, p) == if p == property then None else Lookup(m, p)
        {
          LookupCons(m[0], rest, p);
          LookupCons(m[0], tail, p);
        }
      }
    }
  }

  lemma {:induction false} LookupAbsent(m: StyleMap, property: string)
    requires forall i :: 0 <= i < |m| ==> m[i].property != property
    ensures Lookup(m, property) == None
  {
    if m != [] {
      LookupAbsent(m[1..], property);
    }
  }

  lemma ApplyKeepsKnown(m: StyleMap, p: nat)
    requires Known(m)
    ensures Known(ApplyParam(m, p))
  {
    var r := ApplyParam(m, p);
    if p in {22, 23, 24, 39, 49} {
      DeleteIn(m, if p == 22 then FONT_WEIGHT else if p == 23 then FONT_STYLE
                  else if p == 24 then TEXT_DECORATION else if p == 39 then COLOR else BACKGROUND);
    } else if p in {1, 3, 4} {
      PutIn(m, if p == 1 then FONT_WEIGHT else if p == 3 then FONT_STYLE else TEXT_DECORATION,
            if p == 1 then "700" else if p == 3 then "italic" else "underline");
    } else if 30 <= p <= 37 {
      PutIn(m, COLOR, FG_COLORS[p - 30]);
    } else if 90 <= p <= 97 {
      PutIn(m, COLOR, BRIGHT_COLORS[p - 90]);
    } else if 40 <= p <= 47 {
      PutIn(m, BACKGROUND, BG_COLORS[p - 40]);
    } else if 100 <= p <= 107 {
      PutIn(m, BACKGROUND, BRIGHT_COLORS[p - 100]);
    }
  }

  lemma {:induction false} ApplyAllKeepsKnown(m: StyleMap, params: seq<nat>)
    requires Known(m)
    ensures Known(ApplyParams(m, params))
    decreases |params|
  {
    if params != [] {
      ApplyKeepsKnown(m, params[0]);
      ApplyAllKeepsKnown(ApplyParam(m, params[0]), params[1..]);
    }
  }

  lemma {:induction false} ApplyAppend(m: StyleMap, p: seq<nat>, q: seq<nat>)
    ensures ApplyParams(m, p + q) == ApplyParams(ApplyParams(m, p), q)
    decreases |p|
  {
    if p == [] {
      assert p + q == q;
    } else {
      assert (p + q)[1..] == p[1..] + q;
      ApplyAppend(ApplyParam(m, p[0]), p[1..], q);
    }
  }

  // ----- Printing and parsing are inverse -----

  lemma {:induction false} PutFresh(m: StyleMap, d: Declaration)
    requires forall i :: 0 <= i < |m| ==> m[i].property != d.property
    ensures Put(m, d.property, d.value) == m + [d]
  {
    if m != [] {
      PutFresh(m[1..], d);
      assert [m[0]] + (m[1..] + [d]) == m + [d];
    }
  }

  lemma CleanSplits(s: string)
    requires Clean(s)
    ensures ':' !in s && ';' !in s && Trim(s, IsSpace) == s
  {
  }

  lemma SplitPrinted(d: Declaration)
    requires KnownDeclaration(d)
    ensures Split(PrintDeclaration(d), ':') == [d.property, d.value]
    ensures Trim(d.property, IsSpace) == d.property && Trim(d.value, IsSpace) == d.value
    ensures ';' !in PrintDeclaration(d)
  {
    KnownIsClean(d);
    CleanSplits(d.property);
    CleanSplits(d.value);
    SplitHead(d.property, d.value, ':');
    SplitWhole(d.value, ':');
  }

  lemma ParsePrinted(m: StyleMap, d: Declaration)
    requires KnownDeclaration(d)
    requires forall i :: 0 <= i < |m| ==> m[i].property != d.property
    ensures ParsePart(m, PrintDeclaration(d)) == m + [d]
    ensures ';' !in PrintDeclaration(d)
  {
    SplitPrinted(d);
    PutFresh(m, d);
  }

  lemma {:induction false} ParsePrintedParts(m: StyleMap, k: nat)
    requires Known(m) && k <= |m|
    ensures ParseParts(m[..k], PrintParts(m)[k..]) == m
    decreases |m| - k
  {
    var parts := PrintParts(m)[k..];
    if k < |m| {
      ParsePrinted(m[..k], m[k]);
      assert m[..k] + [m[k]] == m[..k + 1];
      assert parts[1..] == PrintParts(m)[k + 1..];
      ParsePrintedParts(m, k + 1);
    }
  }

  /** Printing an ordered map of known declarations and parsing it again is the identity. */
  lemma ParsePrint(m: StyleMap)
    requires Known(m)
    ensures Parse(Print(m)) == m
  {
    var parts := PrintParts(m);
    if m == [] {
      assert Split("", ';') == [""];
      assert Split("", ':') == [""];
      assert ParsePart([], "") == [];
      assert [""][1..] == [];
    } else {
      forall i | 0 <= i < |parts|
        ensures ';' !in parts[i]
      {
        ParsePrinted([], m[i]);
      }
      SplitJoin(parts, ';');
      ParsePrintedParts(m, 0);
      assert m[..0] == [] && parts[0..] == parts;
    }
  }

  /** A character that may stand in a style string: safe inside a quoted HTML attribute of one line. */
  predicate StyleChar(c: char)
  {
    c != '"' && c != '\n' && c < '\U{80}'
  }

  lemma {:induction false} JoinedStyleChars(parts: seq<string>)
    requires forall i :: 0 <= i < |parts| ==> forall k :: 0 <= k < |parts[i]| ==> StyleChar(parts[i][k])
    ensures forall k :: 0 <= k < |Join(parts, ';')| ==> StyleChar(Join(parts, ';')[k])
    decreases |parts|
  {
    if |parts| > 1 {
      JoinedStyleChars(parts[1..]);
    }
  }

  lemma DeclarationChars(d: Declaration)
    requires KnownDeclaration(d)
    ensures forall k :: 0 <= k < |PrintDeclaration(d)| ==> StyleChar(PrintDeclaration(d)[k])
  {
    KnownIsClean(d);
    hide KnownDeclaration;
    var printed := PrintDeclaration(d);
    forall k | 0 <= k < |printed|
      ensures StyleChar(printed[k])
    {
      assert printed[k] == if k < |d.property| then d.property[k]
                           else if k == |d.property| then ':' else d.value[k - |d.property| - 1];
    }
  }

  lemma StyleChars(style: string)
    requires ValidStyle(style)
    ensures forall k :: 0 <= k < |style| ==> StyleChar(style[k])
  {
    hide KnownDeclaration, Parse, Join, DistinctProperties, StyleChar, PrintDeclaration;
    var m := Parse(style);
    var parts := PrintParts(m);
    forall i | 0 <= i < |parts|
      ensures forall k :: 0 <= k < |parts[i]| ==> StyleChar(parts[i][k])
    {
      DeclarationChars(m[i]);
    }
    JoinedStyleChars(parts);
  }

  /** Every style an SGR sequence can leave is valid: distinct, known properties in printed form. */
  lemma SetSgrKeepsValid(style: string, params: seq<nat>)
    requires ValidStyle(style)
    ensures ValidStyle(SetSgr(style, params))
  {
    ApplyAllKeepsKnown(Parse(style), Effective(params));
    ParsePrint(ApplyParams(Parse(style), Effective(params)));
  }

  /** No parameter at all resets, like a single 0. */
  lemma EmptyResets(style: string)
    ensures SetSgr(style, []) == "" && SetSgr(style, [0]) == ""
  {
    assert [0][1..] == [];
    assert forall m: StyleMap :: ApplyParams(m, [0]) == [];
  }

  /** Two SGR sequences in a row leave the very string that one sequence with both lists leaves. */
  lemma Composition(style: string, p: seq<nat>, q: seq<nat>)
    requires ValidStyle(style)
    ensures SetSgr(SetSgr(style, p), q)
            == SetSgr(style, (if p == [] then [0] else p) + (if q == [] then [0] else q))
    ensures p != [] && q != [] ==> SetSgr(SetSgr(style, p), q) == SetSgr(style, p + q)
  {
    var m := Parse(style);
    ApplyAllKeepsKnown(m, Effective(p));
    ParsePrint(ApplyParams(m, Effective(p)));
    ApplyAppend(m, Effective(p), Effective(q));
  }

  // ----- The order of the declarations -----

  ghost predicate Declares(m: StyleMap, property: string)
  {
    exists i :: 0 <= i < |m| && m[i].property == property
  }

  /** A property that is new goes to the end. */
  lemma {:induction false} PutNew(m: StyleMap, property: string, value: string)
    requires !Declares(m, property)
    ensures Put(m, property, value) == m + [Declaration(property, value)]
  {
    PutFresh(m, Declaration(property, value));
  }

  /** One that is there keeps its place. */
  lemma {:induction false} PutOld(m: StyleMap, i: nat, value: string)
    requires i < |m| && DistinctProperties(m)
    ensures Put(m, m[i].property, value) == m[i := Declaration(m[i].property, value)]
    decreases |m|
  {
    if i > 0 {
      DistinctTail(m);
      PutOld(m[1..], i - 1, value);
    }
  }

  /** Deleting takes one declaration out and leaves the others in their order. */
  lemma {:induction false} DeleteOld(m: StyleMap, i: nat)
    requires i < |m| && DistinctProperties(m)
    ensures Delete(m, m[i].property) == m[..i] + m[i + 1..]
    decreases |m|
  {
    if i > 0 {
      DistinctTail(m);
      DeleteOld(m[1..], i - 1);
      assert m[..i] + m[i + 1..] == [m[0]] + (m[1..][..i - 1] + m[1..][i..]);
    }
  }

  /** Declarations are printed in order as `property:value`, with semicolons between them. */
  lemma {:induction false} PrintSnoc(m: StyleMap, d: Declaration)
    ensures Print([]) == ""
    ensures Print(m + [d]) == (if m == [] then "" else Print(m) + ";") + d.property + ":" + d.value
  {
    var parts, last := PrintParts(m), PrintDeclaration(d);
    assert PrintParts(m + [d]) == parts + [last];
    JoinSnoc(parts, last, ';');
    if m != [] {
      assert Print(m) + [';'] + (d.property + ":" + d.value) == (Print(m) + ";") + d.property + ":" + d.value;
    }
  }

  // ----- Meaning: an order-free record of attributes -----

  /** Colours are numbers here, 0xRRGGBB. */
  datatype Rendition = Rendition(
    bold: bool, italic: bool, underline: bool, foreground: Option<nat>, background: Option<nat>)

  const PLAIN := Rendition(false, false, false, None, None)

  /** The eight colours of the terminal, dim and bright. */
  function Dim(n: nat): nat
  {
    match n
    case 0 => 0x000000
    case 1 => 0xcd3131
    case 2 => 0x0dbc79
    case 3 => 0xe5e510
    case 4 => 0x2472c8
    case 5 => 0xbc3fbc
    case 6 => 0x11a8cd
    case _ => 0xe5e5e5
  }

  function Bright(n: nat): nat
  {
    match n
    case 0 => 0x666666
    case 1 => 0xf14c4c
    case 2 => 0x23d18b
    case 3 => 0xf5f543
    case 4 => 0x3b8eea
    case 5 => 0xd670d6
    case 6 => 0x29b8db
    case _ => 0xffffff
  }

  /** SGR read as an update of independent attributes. */
  function Update(r: Rendition, p: nat): Rendition
  {
    if p == 0 then PLAIN
    else if p == 1 || p == 22 then r.(bold := p == 1)
    else if p == 3 || p == 23 then r.(italic := p == 3)
    else if p == 4 || p == 24 then r.(underline := p == 4)
    else if 30 <= p <= 37 then r.(foreground := Some(Dim(p - 30)))
    else if 90 <= p <= 97 then r.(foreground := Some(Bright(p - 90)))
    else if p == 39 then r.(foreground := None)
    else if 40 <= p <= 47 then r.(background := Some(Dim(p - 40)))
    else if 100 <= p <= 107 then r.(background := Some(Bright(p - 100)))
    else if p == 49 then r.(background := None)
    else r
  }

  function UpdateAll(r: Rendition, params: seq<nat>): Rendition
    decreases |params|
  {
    if params == [] then r else UpdateAll(Update(r, params[0]), params[1..])
  }

  function HexValue(c: char): nat
  {
    if '0' <= c <= '9' then c as int - '0' as int
    else if 'a' <= c <= 'f' then c as int - 'a' as int + 10
    else 0
  }

  /** The number a CSS colour `#rrggbb` stands for. */
  function ColorValue(s: string): Option<nat>
  {
    if |s| == 7 && s[0] == '#' then
      Some(0x10_0000 * HexValue(s[1]) + 0x1_0000 * HexValue(s[2]) + 0x1000 * HexValue(s[3])
           + 0x100 * HexValue(s[4]) + 0x10 * HexValue(s[5]) + HexValue(s[6]))
    else None
  }

  function ColorOf(declared: Option<string>): Option<nat>
  {
    match declared
    case None => None
    case Some(s) => ColorValue(s)
  }

  /** What the declarations mean in CSS. */
  function Meaning(m: StyleMap): Rendition
  {
    Rendition(
      Lookup(m, "font-weight") == Some("700"), Lookup(m, "font-style") == Some("italic"),
      Lookup(m, "text-decoration") == Some("underline"), ColorOf(Lookup(m, "color")),
      ColorOf(Lookup(m, "background-color")))
  }

  lemma TablesMean(n: nat)
    requires n < 8
    ensures ColorValue(FG_COLORS[n]) == Some(Dim(n)) && ColorValue(BRIGHT_COLORS[n]) == Some(Bright(n))
    ensures ColorValue(BG_COLORS[n]) == Some(Dim(n))
  {
    assert BG_COLORS[n] == FG_COLORS[n];
    DimTable(n);
    BrightTable(n);
  }

  lemma DimTable(n: nat)
    requires n < 8
    ensures ColorValue(FG_COLORS[n]) == Some(Dim(n))
  {
  }

  lemma BrightTable(n: nat)
    requires n < 8
    ensures ColorValue(BRIGHT_COLORS[n]) == Some(Bright(n))
  {
  }

  /** What a declaration of one property, or its absence, makes of a rendition. */
  function With(r: Rendition, property: string, declared: Option<string>): Rendition
  {
    if property == "font-weight" then r.(bold := declared == Some("700"))
    else if property == "font-style" then r.(italic := declared == Some("italic"))
    else if property == "text-decoration" then r.(underline := declared == Some("underline"))
    else if property == "color" then r.(foreground := ColorOf(declared))
    else if property == "background-color" then r.(background := ColorOf(declared))
    else r
  }

  lemma PutMeans(m: StyleMap, property: string, value: string)
    requires DistinctProperties(m)
    ensures Meaning(Put(m, property, value)) == With(Meaning(m), property, Some(value))
  {
    hide Put, Lookup, ColorOf, DistinctProperties;
    PutIn(m, property, value);
  }

  lemma DeleteMeans(m: StyleMap, property: string)
    requires DistinctProperties(m)
    ensures Meaning(Delete(m, property)) == With(Meaning(m), property, None)
  {
    hide Delete, Lookup, ColorOf, DistinctProperties;
    DeleteIn(m, property);
  }

  lemma ApplyMeans(m: StyleMap, p: nat)
    requires Known(m)
    ensures Meaning(ApplyParam(m, p)) == Update(Meaning(m), p)
  {
    assert Meaning([]) == PLAIN;
    hide Put, Delete, Meaning, ColorValue, Dim, Bright, DistinctProperties;
    if p in {22, 23, 24, 39, 49} {
      DeleteMeans(m, if p == 22 then FONT_WEIGHT else if p == 23 then FONT_STYLE
                     else if p == 24 then TEXT_DECORATION else if p == 39 then COLOR else BACKGROUND);
    } else if p in {1, 3, 4} {
      PutMeans(m, if p == 1 then FONT_WEIGHT else if p == 3 then FONT_STYLE else TEXT_DECORATION,
               if p == 1 then "700" else if p == 3 then "italic" else "underline");
    } else if 30 <= p <= 37 {
      TablesMean(p - 30);
      PutMeans(m, COLOR, FG_COLORS[p - 30]);
    } else if 90 <= p <= 97 {
      TablesMean(p - 90);
      PutMeans(m, COLOR, BRIGHT_COLORS[p - 90]);
    } else if 40 <= p <= 47 {
      TablesMean(p - 40);
      PutMeans(m, BACKGROUND, BG_COLORS[p - 40]);
    } else if 100 <= p <= 107 {
      TablesMean(p - 100);
      PutMeans(m, BACKGROUND, BRIGHT_COLORS[p - 100]);
    }
  }

  lemma {:induction false} ApplyAllMeans(m: StyleMap, params: seq<nat>)
    requires Known(m)
    ensures Meaning(ApplyParams(m, params)) == UpdateAll(Meaning(m), params)
    decreases |params|
  {
    if params != [] {
      ApplyMeans(m, params[0]);
      ApplyKeepsKnown(m, params[0]);
      ApplyAllMeans(ApplyParam(m, params[0]), params[1..]);
    }
  }

  /** The string that `setSgr` prints means what the parameters say, attribute by attribute. */
  lemma SetSgrMeans(style: string, params: seq<nat>)
    requires ValidStyle(style)
    ensures Meaning(Parse(SetSgr(style, params)))
            == UpdateAll(Meaning(Parse(style)), if params == [] then [0] else params)
  {
    ApplyAllMeans(Parse(style), Effective(params));
    ApplyAllKeepsKnown(Parse(style), Effective(params));
    ParsePrint(ApplyParams(Parse(style), Effective(params)));
  }
}
