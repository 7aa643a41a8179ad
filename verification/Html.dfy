/**
  The HTML printer of the terminal: cells are grouped into runs of one style, text is escaped in three
  passes and lines are joined by newlines. `ReadHtml` is a reader for this format, used only to say that
  nothing is lost.
 */
module Html {
  import opened Sequences
  import opened Lexer
  import opened Screen
  import Sgr

  const AMP: CodeUnit := 0x26
  const LESS: CodeUnit := 0x3c
  const GREATER: CodeUnit := 0x3e
  const QUOTE: CodeUnit := 0x22

  // "&amp;", "&lt;", "&gt;"
  const AMP_ENTITY: Text := [0x26, 0x61, 0x6d, 0x70, 0x3b]
  const LESS_ENTITY: Text := [0x26, 0x6c, 0x74, 0x3b]
  const GREATER_ENTITY: Text := [0x26, 0x67, 0x74, 0x3b]
  // <span style="
  const SPAN_OPEN: Text := [0x3c, 0x73, 0x70, 0x61, 0x6e, 0x20, 0x73, 0x74, 0x79, 0x6c, 0x65, 0x3d, 0x22]
  // ">
  const SPAN_MIDDLE: Text := [0x22, 0x3e]
  // </span>
  const SPAN_CLOSE: Text := [0x3c, 0x2f, 0x73, 0x70, 0x61, 0x6e, 0x3e]

  /** The code units of a style string. */
  function Units(s: string): (t: Text)
    ensures |t| == |s|
    ensures forall i :: 0 <= i < |s| && s[i] < '\U{80}' ==> t[i] as int == s[i] as int
  {
    seq(|s|, i requires 0 <= i < |s| => if s[i] as int < 0x1_0000 then s[i] as int as CodeUnit else 0xfffd)
  }

  function Chars(t: Text): (s: string)
    ensures |s| == |t|
  {
    seq(|t|, i requires 0 <= i < |t| => if t[i] < 0xd800 then t[i] as int as char else '?')
  }

  // ----- Escaping -----

  /** `text.replace(/c/g, by)` */
  function Replace(text: Text, c: CodeUnit, entity: Text): Text
  {
    if text == [] then []
    else (if text[0] == c then entity else [text[0]]) + Replace(text[1..], c, entity)
  }

  /** `escapeHtml`: three passes over the whole text, the ampersand first. */
  function EscapeHtml(text: Text): Text
  {
    Replace(Replace(Replace(text, AMP, AMP_ENTITY), LESS, LESS_ENTITY), GREATER, GREATER_ENTITY)
  }

  function EscapeUnit(c: CodeUnit): Text
  {
    if c == AMP then AMP_ENTITY
    else if c == LESS then LESS_ENTITY
    else if c == GREATER then GREATER_ENTITY
    else [c]
  }

  /** One pass, unit by unit. */
  function EscapeEach(text: Text): Text
  {
    if text == [] then [] else EscapeUnit(text[0]) + EscapeEach(text[1..])
  }

  lemma {:induction false} ReplaceAppend(a: Text, b: Text, c: CodeUnit, entity: Text)
    ensures Replace(a + b, c, entity) == Replace(a, c, entity) + Replace(b, c, entity)
    decreases |a|
  {
    if a == [] {
      assert a + b == b;
    } else {
      assert (a + b)[1..] == a[1..] + b;
      ReplaceAppend(a[1..], b, c, entity);
    }
  }

  lemma {:induction false} ReplaceAbsent(a: Text, c: CodeUnit, entity: Text)
    requires c !in a
    ensures Replace(a, c, entity) == a
    decreases |a|
  {
    if a != [] {
      ReplaceAbsent(a[1..], c, entity);
    }
  }

  lemma ReplaceOne(d: CodeUnit, c: CodeUnit, entity: Text)
    ensures Replace([d], c, entity) == if d == c then entity else [d]
  {
  }

  lemma EscapeUnitPasses(c: CodeUnit)
    ensures EscapeHtml([c]) == EscapeUnit(c)
  {
    ReplaceOne(c, AMP, AMP_ENTITY);
    ReplaceOne(c, LESS, LESS_ENTITY);
    ReplaceOne(c, GREATER, GREATER_ENTITY);
    ReplaceAbsent(AMP_ENTITY, LESS, LESS_ENTITY);
    ReplaceAbsent(AMP_ENTITY, GREATER, GREATER_ENTITY);
    ReplaceAbsent(LESS_ENTITY, GREATER, GREATER_ENTITY);
  }

  /** The ampersand and both angle brackets become entities, every other unit stays. */
  lemma EscapesAre(c: CodeUnit)
    ensures EscapeHtml([0x26]) == Units("&amp;")
    ensures EscapeHtml([0x3c]) == Units("&lt;")
    ensures EscapeHtml([0x3e]) == Units("&gt;")
    ensures c != 0x26 && c != 0x3c && c != 0x3e ==> EscapeHtml([c]) == [c]
  {
    EscapeUnitPasses(0x26);
    EscapeUnitPasses(0x3c);
    EscapeUnitPasses(0x3e);
    EscapeUnitPasses(c);
    hide EscapeHtml;
  }

  /** The three chained passes are one unit-by-unit escape. */
  lemma {:induction false} EscapePasses(text: Text)
    ensures EscapeHtml(text) == EscapeEach(text)
    decreases |text|
  {
    if text != [] {
      var a, b := [text[0]], text[1..];
      assert text == a + b;
      ReplaceAppend(a, b, AMP, AMP_ENTITY);
      var a1, b1 := Replace(a, AMP, AMP_ENTITY), Replace(b, AMP, AMP_ENTITY);
      ReplaceAppend(a1, b1, LESS, LESS_ENTITY);
      var a2, b2 := Replace(a1, LESS, LESS_ENTITY), Replace(b1, LESS, LESS_ENTITY);
      ReplaceAppend(a2, b2, GREATER, GREATER_ENTITY);
      EscapeUnitPasses(text[0]);
      EscapePasses(b);
    }
  }

  /** Escaped text holds no markup character, and no newline that the text did not hold. */
  lemma {:induction false} EscapedIsInert(text: Text)
    ensures LESS !in EscapeEach(text) && GREATER !in EscapeEach(text)
    ensures LF !in text ==> LF !in EscapeEach(text)
    decreases |text|
  {
    if text != [] {
      EscapedIsInert(text[1..]);
    }
  }

  function Unescape(t: Text): Text
    decreases |t|
  {
    if t == [] then []
    else if AMP_ENTITY <= t then [AMP] + Unescape(t[5..])
    else if LESS_ENTITY <= t then [LESS] + Unescape(t[4..])
    else if GREATER_ENTITY <= t then [GREATER] + Unescape(t[4..])
    else [t[0]] + Unescape(t[1..])
  }

  lemma {:induction false} UnescapeEscaped(text: Text)
    ensures Unescape(EscapeEach(text)) == text
    decreases |text|
  {
    if text != [] {
      var head, tail := EscapeUnit(text[0]), EscapeEach(text[1..]);
      var t := head + tail;
      UnescapeEscaped(text[1..]);
      assert t[|head|..] == tail;
      assert t[0] == head[0];
      if text[0] == AMP || text[0] == LESS || text[0] == GREATER {
        assert t[1] == head[1];
        assert head <= t;
      } else {
        assert head == [text[0]];
        assert !(AMP_ENTITY <= t) && !(LESS_ENTITY <= t) && !(GREATER_ENTITY <= t);
      }
    }
  }

  // ----- Runs -----

  /** A stretch of cells printed as one chunk. */
  datatype Run = Run(style: string, text: Text)

  function TextOf(line: Row): (t: Text)
    ensures |t| == |line|
  {
    seq(|line|, i requires 0 <= i < |line| => line[i].ch)
  }

  /** How many cells from the start share the style of the first. */
  function RunLength(line: Row): (n: nat)
    requires line != []
    ensures 1 <= n <= |line|
    ensures forall i :: 0 <= i < n ==> line[i].style == line[0].style
    ensures n < |line| ==> line[n].style != line[0].style
  {
    if |line| > 1 && line[1].style == line[0].style then 1 + RunLength(line[1..]) else 1
  }

  function Runs(line: Row): seq<Run>
  {
    if line == [] then []
    else
      var n := RunLength(line);
      [Run(line[0].style, TextOf(line[..n]))] + Runs(line[n..])
  }

  function PrintRun(run: Run): Text
  {
    if run.style != "" then
      SPAN_OPEN + Units(run.style) + SPAN_MIDDLE + EscapeHtml(run.text) + SPAN_CLOSE
    else EscapeHtml(run.text)
  }

  function PrintRuns(runs: seq<Run>): Text
  {
    if runs == [] then [] else PrintRun(runs[0]) + PrintRuns(runs[1..])
  }

  function PrintLine(line: Row): Text
  {
    PrintRuns(Runs(line))
  }

  function PrintLines(lines: seq<Row>): (r: seq<Text>)
    ensures |r| == |lines|
  {
    seq(|lines|, i requires 0 <= i < |lines| => PrintLine(lines[i]))
  }

  /** The value `render` gives to `innerHTML`. */
  function PrintHtml(lines: seq<Row>): Text
  {
    Join(PrintLines(lines), LF)
  }

  /** A styled run is a span with the style in double quotes, an unstyled one is plain text. */
  lemma SpanIs(run: Run)
    ensures run.style == "" ==> PrintRun(run) == EscapeHtml(run.text)
    ensures run.style != "" ==>
              PrintRun(run) == Units("<span style=\"") + Units(run.style) + Units("\">") + EscapeHtml(run.text)
                               + Units("</span>")
  {
    hide EscapeHtml;
    assert Units("<span style=\"") == SPAN_OPEN;
    assert Units("\">") == SPAN_MIDDLE;
    assert Units("</span>") == SPAN_CLOSE;
    hide Units;
  }

  /** Lines are joined by line feeds. */
  lemma LinesJoined(lines: seq<Row>, line: Row)
    ensures PrintHtml([]) == []
    ensures PrintHtml(lines + [line])
            == if lines == [] then PrintLine(line) else PrintHtml(lines) + [0x0a] + PrintLine(line)
  {
    hide PrintLine;
    assert PrintLines(lines + [line]) == PrintLines(lines) + [PrintLine(line)];
    JoinSnoc(PrintLines(lines), PrintLine(line), LF);
  }

  function CellsOf(run: Run): Row
  {
    seq(|run.text|, i requires 0 <= i < |run.text| => Cell(run.text[i], run.style))
  }

  function CellsOfRuns(runs: seq<Run>): Row
  {
    if runs == [] then [] else CellsOf(runs[0]) + CellsOfRuns(runs[1..])
  }

  /** Runs cover the line in order. */
  lemma {:induction false} RunsCover(line: Row)
    ensures CellsOfRuns(Runs(line)) == line
    decreases |line|
  {
    assert CellsOfRuns(Runs([])) == [];
    hide Runs, CellsOf, CellsOfRuns, TextOf;
    if line != [] {
      var n := RunLength(line);
      RunsCover(line[n..]);
      RunsUnfold(line);
      CellsOfPrefix(line, n);
      CellsOfCons(Run(line[0].style, TextOf(line[..n])), Runs(line[n..]));
      assert line[..n] + line[n..] == line;
    }
  }

  lemma CellsOfCons(run: Run, runs: seq<Run>)
    ensures CellsOfRuns([run] + runs) == CellsOf(run) + CellsOfRuns(runs)
  {
  }

  lemma RunsUnfold(line: Row)
    requires line != []
    ensures var n := RunLength(line);
            && Runs(line) == [Run(line[0].style, TextOf(line[..n]))] + Runs(line[n..])
            && (n < |line| ==> Runs(line[n..]) != [] && Runs(line[n..])[0].style != line[0].style)
  {
  }

  /** Runs are non-empty and maximal: neighbours differ in style. */
  lemma {:induction false} RunsMaximal(line: Row)
    ensures forall i :: 0 <= i < |Runs(line)| ==> Runs(line)[i].text != []
    ensures forall i :: 0 < i < |Runs(line)| ==> Runs(line)[i].style != Runs(line)[i - 1].style
    decreases |line|
  {
    if line != [] {
      var n := RunLength(line);
      var runs, tail := Runs(line), Runs(line[n..]);
      RunsMaximal(line[n..]);
      RunsUnfold(line);
      forall i | 0 < i < |runs|
        ensures runs[i].text != [] && runs[i].style != runs[i - 1].style
      {
        assert runs[i] == tail[i - 1];
      }
    }
  }

  lemma CellsOfPrefix(line: Row, n: nat)
    requires n <= |line| && line != []
    requires forall i :: 0 <= i < n ==> line[i].style == line[0].style
    ensures CellsOf(Run(line[0].style, TextOf(line[..n]))) == line[..n]
  {
  }

  // ----- Reading the HTML back -----

  function IndexOf(t: Text, c: CodeUnit): (r: nat)
    ensures r <= |t|
    ensures c !in t[..r]
    ensures r < |t| ==> t[r] == c
  {
    if t == [] || t[0] == c then 0 else 1 + IndexOf(t[1..], c)
  }

  /** What follows a given prefix. */
  function After(h: Text, prefix: Text): (r: Option<Text>)
    ensures r.Some? <==> prefix <= h
    ensures r.Some? ==> h == prefix + r.value
  {
    if prefix <= h then Some(h[|prefix|..]) else None
  }

  /** The part before the first `c`, and the part from there on. */
  function Until(h: Text, c: CodeUnit): (r: (Text, Text))
    ensures r.0 + r.1 == h
  {
    var i := IndexOf(h, c);
    (h[..i], h[i..])
  }

  /** A span at the start of `h`: its run, and what follows it. */
  function ReadSpan(h: Text): (r: Option<(Run, Text)>)
    ensures r.Some? ==> |r.value.1| < |h|
  {
    match After(h, SPAN_OPEN)
    case None => None
    case Some(attribute) =>
      var (style, quoted) := Until(attribute, QUOTE);
      match After(quoted, SPAN_MIDDLE)
      case None => None
      case Some(body) =>
        var (text, tail) := Until(body, LESS);
        match After(tail, SPAN_CLOSE)
        case None => None
        case Some(rest) => Some((Run(Chars(style), Unescape(text)), rest))
  }

  /** The first chunk of a non-empty line: a span, or plain text up to the next span. */
  function ReadChunk(h: Text): (r: Option<(Run, Text)>)
    requires h != []
    ensures r.Some? ==> |r.value.1| < |h|
  {
    if h[0] == LESS then ReadSpan(h)
    else
      var e := IndexOf(h, LESS);
      Some((Run("", Unescape(h[..e])), h[e..]))
  }

  /** A reader for one printed line: one cell per unescaped unit. */
  function ReadLine(h: Text): Option<Row>
    decreases |h|
  {
    if h == [] then Some([])
    else
      match ReadChunk(h)
      case None => None
      case Some((run, rest)) =>
        match ReadLine(rest)
        case None => None
        case Some(cells) => Some(CellsOf(run) + cells)
  }

  function ReadLines(lines: seq<Text>): Option<seq<Row>>
  {
    if lines == [] then Some([])
    else
      match (ReadLine(lines[0]), ReadLines(lines[1..]))
      case (Some(row), Some(rest)) => Some([row] + rest)
      case _ => None
  }

  function ReadHtml(html: Text): Option<seq<Row>>
  {
    ReadLines(Split(html, LF))
  }

  lemma {:induction false} IndexOfAfter(a: Text, rest: Text, c: CodeUnit)
    requires c !in a
    requires rest != [] ==> rest[0] == c
    ensures IndexOf(a + rest, c) == |a|
    decreases |a|
  {
    if a == [] {
      assert a + rest == rest;
    } else {
      assert (a + rest)[1..] == a[1..] + rest;
      IndexOfAfter(a[1..], rest, c);
    }
  }

  lemma StyleUnits(style: string)
    requires Sgr.ValidStyle(style)
    ensures QUOTE !in Units(style) && LF !in Units(style) && Chars(Units(style)) == style
  {
    Sgr.StyleChars(style);
    forall i | 0 <= i < |style|
      ensures Units(style)[i] != QUOTE && Units(style)[i] != LF && Chars(Units(style))[i] == style[i]
    {
      assert Sgr.StyleChar(style[i]);
    }
  }

  lemma ReadPlainChunk(text: Text, rest: Text)
    requires text != []
    requires rest != [] ==> rest[0] == LESS
    ensures var h := PrintRun(Run("", text)) + rest;
            h != [] && ReadChunk(h) == Some((Run("", text), rest))
  {
    var escaped := EscapeEach(text);
    EscapePasses(text);
    EscapedIsInert(text);
    UnescapeEscaped(text);
    IndexOfAfter(escaped, rest, LESS);
    var h := escaped + rest;
    assert escaped != [] by { assert EscapeUnit(text[0]) != []; }
    assert h[0] == escaped[0] && escaped[0] in escaped;
    assert h[..|escaped|] == escaped && h[|escaped|..] == rest;
  }

  lemma AfterPrefix(prefix: Text, rest: Text)
    ensures After(prefix + rest, prefix) == Some(rest)
  {
  }

  lemma UntilFirst(a: Text, rest: Text, c: CodeUnit)
    requires c !in a
    requires rest != [] ==> rest[0] == c
    ensures Until(a + rest, c) == (a, rest)
  {
    IndexOfAfter(a, rest, c);
  }

  lemma ReadSpanBody(units: Text, escaped: Text, rest: Text)
    requires QUOTE !in units && LESS !in escaped
    ensures ReadSpan(SPAN_OPEN + (units + (SPAN_MIDDLE + (escaped + (SPAN_CLOSE + rest)))))
            == Some((Run(Chars(units), Unescape(escaped)), rest))
  {
    var tail := SPAN_CLOSE + rest;
    var body := escaped + tail;
    var quoted := SPAN_MIDDLE + body;
    AfterPrefix(SPAN_OPEN, units + quoted);
    UntilFirst(units, quoted, QUOTE);
    AfterPrefix(SPAN_MIDDLE, body);
    UntilFirst(escaped, tail, LESS);
    AfterPrefix(SPAN_CLOSE, rest);
  }

  lemma Reassociate(a: Text, b: Text, c: Text, d: Text, e: Text, f: Text)
    ensures a + b + c + d + e + f == a + (b + (c + (d + (e + f))))
  {
  }

  lemma ReadSpanChunk(style: string, text: Text, rest: Text)
    requires style != "" && Sgr.ValidStyle(style)
    ensures var h := PrintRun(Run(style, text)) + rest;
            h != [] && ReadChunk(h) == Some((Run(style, text), rest))
  {
    EscapePasses(text);
    EscapedIsInert(text);
    UnescapeEscaped(text);
    StyleUnits(style);
    ReadSpanBody(Units(style), EscapeEach(text), rest);
    Reassociate(SPAN_OPEN, Units(style), SPAN_MIDDLE, EscapeEach(text), SPAN_CLOSE, rest);
    var h := PrintRun(Run(style, text)) + rest;
    assert h[0] == SPAN_OPEN[0];
  }

  lemma PrintedStart(runs: seq<Run>)
    requires runs != [] && runs[0].style != ""
    ensures PrintRuns(runs) != [] && PrintRuns(runs)[0] == LESS
  {
  }

  lemma {:induction false} ReadPrintedRuns(runs: seq<Run>)
    requires forall i :: 0 <= i < |runs| ==> runs[i].text != [] && Sgr.ValidStyle(runs[i].style)
    requires forall i :: 0 < i < |runs| ==> runs[i].style != runs[i - 1].style
    ensures ReadLine(PrintRuns(runs)) == Some(CellsOfRuns(runs))
    decreases |runs|
  {
    if runs != [] {
      ReadPrintedRuns(runs[1..]);
      var rest := PrintRuns(runs[1..]);
      if runs[0].style == "" {
        if |runs| > 1 {
          PrintedStart(runs[1..]);
        }
        ReadPlainChunk(runs[0].text, rest);
      } else {
        ReadSpanChunk(runs[0].style, runs[0].text, rest);
      }
    }
  }

  lemma {:induction false} RunsValid(line: Row)
    requires ValidRow(line)
    ensures forall i :: 0 <= i < |Runs(line)| ==>
              Sgr.ValidStyle(Runs(line)[i].style) && LF !in Runs(line)[i].text
    decreases |line|
  {
    if line != [] {
      var n := RunLength(line);
      RunsValid(line[n..]);
      assert ValidCell(line[0]);
      forall i | 0 <= i < n
        ensures TextOf(line[..n])[i] != LF
      {
        assert ValidCell(line[i]);
      }
    }
  }

  lemma {:induction false} PrintedRunsOneLine(runs: seq<Run>)
    requires forall i :: 0 <= i < |runs| ==> Sgr.ValidStyle(runs[i].style) && LF !in runs[i].text
    ensures LF !in PrintRuns(runs)
    decreases |runs|
  {
    if runs != [] {
      PrintedRunsOneLine(runs[1..]);
      PrintedRunOneLine(runs[0]);
    }
  }

  lemma PrintedRunOneLine(run: Run)
    requires Sgr.ValidStyle(run.style) && LF !in run.text
    ensures LF !in PrintRun(run)
  {
    EscapePasses(run.text);
    EscapedIsInert(run.text);
    StyleUnits(run.style);
    assert LF !in SPAN_OPEN && LF !in SPAN_MIDDLE && LF !in SPAN_CLOSE;
  }

  lemma ReadPrintedLine(line: Row)
    requires ValidRow(line)
    ensures ReadLine(PrintLine(line)) == Some(line) && LF !in PrintLine(line)
  {
    RunsCover(line);
    RunsMaximal(line);
    RunsValid(line);
    ReadPrintedRuns(Runs(line));
    PrintedRunsOneLine(Runs(line));
  }

  lemma {:induction false} ReadPrintedLines(lines: seq<Row>)
    requires forall i :: 0 <= i < |lines| ==> ValidRow(lines[i])
    ensures ReadLines(PrintLines(lines)) == Some(lines)
    decreases |lines|
  {
    if lines != [] {
      ReadPrintedLine(lines[0]);
      ReadPrintedLines(lines[1..]);
      PrintLinesHead(lines);
      ReadLinesCons(PrintLines(lines), lines);
    }
  }

  lemma {:induction false} ReadLinesCons(printed: seq<Text>, lines: seq<Row>)
    requires printed != [] && lines != []
    requires ReadLine(printed[0]) == Some(lines[0]) && ReadLines(printed[1..]) == Some(lines[1..])
    ensures ReadLines(printed) == Some(lines)
  {
    hide ReadLine;
    assert [lines[0]] + lines[1..] == lines;
  }

  lemma PrintLinesHead(lines: seq<Row>)
    requires lines != []
    ensures PrintLines(lines)[0] == PrintLine(lines[0]) && PrintLines(lines)[1..] == PrintLines(lines[1..])
  {
  }

  /** The HTML of a valid screen reads back as exactly its rows of cells. */
  lemma PrinterInversion(lines: seq<Row>)
    requires |lines| >= 1
    requires forall i :: 0 <= i < |lines| ==> ValidRow(lines[i])
    ensures ReadHtml(PrintHtml(lines)) == Some(lines)
  {
    forall i | 0 <= i < |lines|
      ensures LF !in PrintLines(lines)[i]
    {
      ReadPrintedLine(lines[i]);
    }
    SplitJoin(PrintLines(lines), LF);
    ReadPrintedLines(lines);
  }

  /** Whatever texts the terminal has been given, its HTML loses nothing of the screen. */
  lemma ReachablePrinterInversion(texts: seq<Text>)
    ensures var s := ProcessAll(INITIAL, texts);
            ReadHtml(PrintHtml(s.lines)) == Some(s.lines)
  {
    InitialValid();
    ReachableValid(INITIAL, texts);
    PrinterInversion(ProcessAll(INITIAL, texts).lines);
  }
}
