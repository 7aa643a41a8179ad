/**
  The scanner inside `processText`: text is cut into tokens, one per turn of its main loop.
  Control sequences have the form of section 5.4 of ECMA-48.
 */
module Lexer {
  import opened Sequences

  /** A JavaScript string element: one UTF-16 code unit. */
  newtype CodeUnit = u: int | 0 <= u < 0x1_0000

  type Text = seq<CodeUnit>

  const BEL: CodeUnit := 0x07
  const BS: CodeUnit := 0x08
  const TAB: CodeUnit := 0x09
  const LF: CodeUnit := 0x0a
  const CR: CodeUnit := 0x0d
  const ESC: CodeUnit := 0x1b
  const SPACE: CodeUnit := 0x20
  const ZERO: CodeUnit := 0x30
  const NINE: CodeUnit := 0x39
  const SEMICOLON: CodeUnit := 0x3b
  const LEFT_BRACKET: CodeUnit := 0x5b
  const BACKSLASH: CodeUnit := 0x5c
  const RIGHT_BRACKET: CodeUnit := 0x5d

  /** The effect of one turn of the loop; `Skip` has none. */
  datatype Token =
    | Put(ch: CodeUnit)
    | CarriageReturn
    | LineFeed
    | Backspace
    | Csi(cmd: CodeUnit, params: seq<nat>)
    | Skip

  predicate IsLetter(c: CodeUnit)
  {
    0x41 <= c <= 0x5a || 0x61 <= c <= 0x7a
  }

  predicate IsParamChar(c: CodeUnit)
  {
    ZERO <= c <= NINE || c == SEMICOLON
  }

  /** Index of the final letter of a CSI sequence, or the length when there is none. */
  function ScanCsi(s: Text, j: nat): (r: nat)
    requires j <= |s|
    ensures j <= r <= |s|
    ensures forall k :: j <= k < r ==> !IsLetter(s[k])
    ensures r < |s| ==> IsLetter(s[r])
    decreases |s| - j
  {
    if j < |s| && !IsLetter(s[j]) then ScanCsi(s, j + 1) else j
  }

  /** Does an OSC string end at `k`, by BEL or by ESC-backslash? */
  predicate OscEnd(s: Text, k: nat)
    requires k < |s|
  {
    s[k] == BEL || (s[k] == ESC && k + 1 < |s| && s[k + 1] == BACKSLASH)
  }

  /** Index of the terminator of an OSC string, or the length when there is none. */
  function ScanOsc(s: Text, k: nat): (r: nat)
    requires k <= |s|
    ensures k <= r <= |s|
    ensures forall i :: k <= i < r ==> !OscEnd(s, i)
    ensures r < |s| ==> OscEnd(s, r)
    decreases |s| - k
  {
    if k < |s| && !OscEnd(s, k) then ScanOsc(s, k + 1) else k
  }

  /** `replace(/[^0-9;]/g, "")` */
  function KeepParamChars(s: Text): (r: Text)
    ensures forall i :: 0 <= i < |r| ==> IsParamChar(r[i])
  {
    if s == [] then []
    else if IsParamChar(s[0]) then [s[0]] + KeepParamChars(s[1..])
    else KeepParamChars(s[1..])
  }

  predicate Digits(s: Text)
  {
    forall i :: 0 <= i < |s| ==> ZERO <= s[i] <= NINE
  }

  function DigitValue(c: CodeUnit): nat
  {
    if ZERO <= c <= NINE then (c - ZERO) as nat else 0
  }

  /** `parseInt(x, 10) || 0` on a string of digits; the empty string gives NaN, hence 0. */
  function ParseDigits(s: Text): nat
    requires Digits(s)
  {
    Number(s, DigitValue)
  }

  lemma {:induction false} JoinedDigits(parts: seq<Text>)
    requires forall i :: 0 <= i < |parts| ==> SEMICOLON !in parts[i]
    requires forall i :: 0 <= i < |Join(parts, SEMICOLON)| ==> IsParamChar(Join(parts, SEMICOLON)[i])
    ensures forall i :: 0 <= i < |parts| ==> Digits(parts[i])
    decreases |parts|
  {
    if |parts| == 1 {
      assert Join(parts, SEMICOLON) == parts[0];
    } else if |parts| > 1 {
      var whole := Join(parts, SEMICOLON);
      var rest := Join(parts[1..], SEMICOLON);
      assert whole == parts[0] + [SEMICOLON] + rest;
      forall i | 0 <= i < |rest|
        ensures IsParamChar(rest[i])
      {
        assert rest[i] == whole[|parts[0]| + 1 + i];
      }
      JoinedDigits(parts[1..]);
      forall i | 0 <= i < |parts[0]|
        ensures ZERO <= parts[0][i] <= NINE
      {
        assert parts[0][i] == whole[i];
        assert parts[0][i] in parts[0];
      }
      forall i | 0 < i < |parts|
        ensures Digits(parts[i])
      {
        assert parts[i] == parts[1..][i - 1];
      }
    }
  }

  /** The numeric parameters between `ESC [` and the final letter; there is always at least one. */
  function Params(body: Text): (params: seq<nat>)
    ensures |params| >= 1
  {
    var kept := KeepParamChars(body);
    var parts := Split(kept, SEMICOLON);
    JoinedDigits(parts);
    seq(|parts|, i requires 0 <= i < |parts| => ParseDigits(parts[i]))
  }

  // ----- What the parameters mean -----

  lemma {:induction false} KeepAppend(a: Text, b: Text)
    ensures KeepParamChars(a + b) == KeepParamChars(a) + KeepParamChars(b)
    decreases |a|
  {
    if a == [] {
      assert a + b == b;
    } else {
      assert (a + b)[1..] == a[1..] + b;
      KeepAppend(a[1..], b);
    }
  }

  lemma {:induction false} KeepAll(s: Text)
    requires forall i :: 0 <= i < |s| ==> IsParamChar(s[i])
    ensures KeepParamChars(s) == s
    decreases |s|
  {
    if s != [] {
      KeepAll(s[1..]);
    }
  }

  /** Characters other than digits and semicolons make no difference, wherever they stand. */
  lemma ParamsIgnoreJunk(a: Text, junk: CodeUnit, b: Text)
    requires junk < 0x30 || (junk > 0x39 && junk != 0x3b)
    ensures Params(a + [junk] + b) == Params(a + b)
  {
    KeepAppend(a + [junk], b);
    KeepAppend(a, [junk]);
    KeepAppend(a, b);
    assert KeepParamChars([junk]) == [];
    assert KeepParamChars(a + [junk] + b) == KeepParamChars(a + b);
  }

  /** The decimal numeral of a number. */
  function Decimal(n: nat): (s: Text)
    ensures Digits(s)
  {
    Numeral(n, Digit)
  }

  function Digit(d: nat): CodeUnit
  {
    0x30 + (d % 10) as CodeUnit
  }

  lemma {:induction false} JoinedParamChars(parts: seq<Text>)
    requires forall i :: 0 <= i < |parts| ==> Digits(parts[i])
    ensures forall i :: 0 <= i < |Join(parts, SEMICOLON)| ==> IsParamChar(Join(parts, SEMICOLON)[i])
    decreases |parts|
  {
    if |parts| > 1 {
      JoinedParamChars(parts[1..]);
      assert forall i :: 0 <= i < |parts[0]| ==> IsParamChar(parts[0][i]);
      assert Join(parts, SEMICOLON) == parts[0] + [SEMICOLON] + Join(parts[1..], SEMICOLON);
    }
  }

  /** Strings of digits joined by semicolons give their values in order; an empty one counts as 0. */
  lemma ParamsOfParts(parts: seq<Text>)
    requires |parts| >= 1
    requires forall i, k :: 0 <= i < |parts| && 0 <= k < |parts[i]| ==> 0x30 <= parts[i][k] <= 0x39
    ensures var params := Params(Join(parts, 0x3b));
            && |params| == |parts|
            && forall i :: 0 <= i < |parts| ==> Digits(parts[i]) && params[i] == ParseDigits(parts[i])
  {
    assert forall i :: 0 <= i < |parts| ==> Digits(parts[i]);
    JoinedParamChars(parts);
    KeepAll(Join(parts, SEMICOLON));
    forall i | 0 <= i < |parts|
      ensures SEMICOLON !in parts[i]
    {
      assert Digits(parts[i]);
    }
    SplitJoin(parts, SEMICOLON);
  }

  /** The value of a string of digits, read from the left. */
  lemma ParseDigitsSnoc(s: Text, d: CodeUnit)
    requires Digits(s) && 0x30 <= d <= 0x39
    ensures Digits(s + [d]) && ParseDigits(s + [d]) == 10 * ParseDigits(s) + (d - 0x30) as nat
    ensures ParseDigits([]) == 0
  {
    assert (s + [d])[..|s|] == s;
  }

  function PrintParams(params: seq<nat>): Text
  {
    Join(seq(|params|, i requires 0 <= i < |params| => Decimal(params[i])), 0x3b)
  }

  /** Printed parameters are read back as they are. */
  lemma ParamsRoundTrip(params: seq<nat>)
    requires |params| >= 1
    ensures Params(PrintParams(params)) == params
  {
    hide Join, Params;
    var parts := seq(|params|, i requires 0 <= i < |params| => Decimal(params[i]));
    ParamsOfParts(parts);
    forall i | 0 <= i < |params|
      ensures ParseDigits(parts[i]) == params[i]
    {
      NumeralInverts(params[i], Digit, DigitValue);
    }
  }

  // ----- Tokens -----

  /** One turn of the loop on a non-empty rest: the token, and how far `i` moves. */
  function Next(s: Text): (r: (Token, nat))
    requires s != []
    ensures r.1 >= 1
  {
    var c := s[0];
    if c == ESC then
      if |s| > 1 && s[1] == LEFT_BRACKET then
        var j := ScanCsi(s, 2);
        if j < |s| then (Csi(s[j], Params(s[2..j])), j + 1) else (Skip, |s|)
      else if |s| > 1 && s[1] == RIGHT_BRACKET then
        var k := ScanOsc(s, 2);
        (Skip, if k < |s| && s[k] == BEL then k + 1 else if k < |s| && s[k] == ESC then k + 2 else |s|)
      else (Skip, 2)
    else if c == CR then (CarriageReturn, 1)
    else if c == LF then (LineFeed, 1)
    else if c == BS then (Backspace, 1)
    else if c < SPACE && c != TAB then (Skip, 1)
    else (Put(c), 1)
  }

  /** All the tokens of a text. */
  function Lex(s: Text): seq<Token>
  {
    if s == [] then []
    else
      var (t, n) := Next(s);
      if n >= |s| then [t] else [t] + Lex(s[n..])
  }

  /** The first token of `s` ends inside `s`: no escape sequence is cut off. */
  predicate Whole(s: Text)
    requires s != []
  {
    s[0] == ESC ==>
      && |s| > 1
      && (s[1] == LEFT_BRACKET ==> ScanCsi(s, 2) < |s|)
      && (s[1] == RIGHT_BRACKET ==> ScanOsc(s, 2) < |s|)
  }

  /** Every escape sequence of `s` is complete. */
  predicate Complete(s: Text)
  {
    s == [] || (Whole(s) && (Next(s).1 >= |s| || Complete(s[Next(s).1..])))
  }

  // ----- Scanning more text -----

  lemma {:induction false} ScanCsiExtends(a: Text, b: Text, j: nat)
    requires j <= |a| && ScanCsi(a, j) < |a|
    ensures ScanCsi(a + b, j) == ScanCsi(a, j)
    decreases |a| - j
  {
    if j < |a| && !IsLetter(a[j]) {
      ScanCsiExtends(a, b, j + 1);
    }
  }

  lemma {:induction false} ScanOscExtends(a: Text, b: Text, k: nat)
    requires k <= |a| && ScanOsc(a, k) < |a|
    ensures ScanOsc(a + b, k) == ScanOsc(a, k)
    decreases |a| - k
  {
    if k < |a| && !OscEnd(a, k) {
      assert k + 1 < |a|;
      assert !OscEnd(a + b, k);
      ScanOscExtends(a, b, k + 1);
    }
  }

  /** A complete first token is the same whatever follows. */
  lemma NextExtends(a: Text, b: Text)
    requires a != [] && Whole(a)
    ensures Next(a + b) == Next(a) && Next(a).1 <= |a|
  {
    var s := a + b;
    assert s[0] == a[0];
    if a[0] == ESC {
      assert s[1] == a[1];
      if a[1] == LEFT_BRACKET {
        ScanCsiExtends(a, b, 2);
        var j := ScanCsi(a, 2);
        assert s[2..j] == a[2..j] && s[j] == a[j];
      } else if a[1] == RIGHT_BRACKET {
        ScanOscExtends(a, b, 2);
        var k := ScanOsc(a, 2);
        assert OscEnd(a, k) && s[k] == a[k];
      }
    }
  }

  /** Lexing is a homomorphism on complete prefixes. */
  lemma {:induction false} LexAppend(a: Text, b: Text)
    requires Complete(a)
    ensures Lex(a + b) == Lex(a) + Lex(b)
    decreases |a|
  {
    if a == [] {
      assert a + b == b;
    } else {
      hide Next, Whole;
      NextExtends(a, b);
      var (t, n) := Next(a);
      if n == |a| {
        assert (a + b)[n..] == b;
        if b == [] {
          assert a + b == a;
        }
      } else {
        LexAppend(a[n..], b);
        assert (a + b)[n..] == a[n..] + b;
        assert [t] + (Lex(a[n..]) + Lex(b)) == [t] + Lex(a[n..]) + Lex(b);
      }
    }
  }

  /** A complete text followed by a complete text is complete. */
  lemma {:induction false} CompleteAppend(a: Text, b: Text)
    requires Complete(a) && Complete(b)
    ensures Complete(a + b)
    decreases |a|
  {
    if a == [] {
      assert a + b == b;
    } else {
      NextExtends(a, b);
      var n := Next(a).1;
      if a[0] == ESC && a[1] == LEFT_BRACKET {
        ScanCsiExtends(a, b, 2);
      } else if a[0] == ESC && a[1] == RIGHT_BRACKET {
        ScanOscExtends(a, b, 2);
      }
      if n == |a| {
        assert (a + b)[n..] == b;
      } else {
        CompleteAppend(a[n..], b);
        assert (a + b)[n..] == a[n..] + b;
      }
    }
  }

  const LOWER_X: CodeUnit := 0x78

  /** A text whose first token is cut off: one more letter either ends it harmlessly or is swallowed. */
  lemma CutFirst(a: Text) returns (t: Token)
    requires a != [] && !Whole(a)
    ensures Lex(a) == [Skip]
    ensures Lex(a + [LOWER_X]) == [t] && (t == Skip || (t.Csi? && t.cmd == LOWER_X))
  {
    var s := a + [LOWER_X];
    t := Next(s).0;
    assert s[0] == a[0] && s[|a|] == LOWER_X;
    if |a| > 1 {
      assert s[1] == a[1];
      forall i | 2 <= i < |a|
        ensures s[i] == a[i] && OscEnd(s, i) == OscEnd(a, i)
      {
      }
      assert a[1] == LEFT_BRACKET ==> ScanCsi(s, 2) == |a|;
      assert a[1] == RIGHT_BRACKET ==> ScanOsc(s, 2) == |s|;
    }
  }

  /**
    A text that is not complete is a complete one and a token that is cut off: this has no effect, nor has it after
    one more letter `x`.
   */
  lemma {:induction false} CutOff(a: Text) returns (front: Text, t: Token)
    requires !Complete(a)
    ensures Complete(front) && front < a && a[|front|] == 0x1b
    ensures Lex(a) == Lex(front) + [Skip]
    ensures Lex(a + [LOWER_X]) == Lex(front) + [t] && (t == Skip || (t.Csi? && t.cmd == LOWER_X))
    decreases |a|
  {
    if !Whole(a) {
      t := CutFirst(a);
      front := [];
    } else {
      hide *;
      var n := Next(a).1;
      CutOffLater(a);
      var rest;
      rest, t := CutOff(a[n..]);
      CutOffAfter(a, rest, t);
      front := a[..n] + rest;
    }
  }

  lemma CutOffLater(a: Text)
    requires !Complete(a) && Whole(a)
    ensures Next(a).1 <= |a| && !Complete(a[Next(a).1..])
  {
    NextExtends(a, []);
  }

  lemma CutOffAfter(a: Text, rest: Text, t: Token)
    requires a != [] && Whole(a) && Next(a).1 <= |a|
    requires var tail := a[Next(a).1..];
             && Complete(rest) && rest < tail && tail[|rest|] == 0x1b
             && Lex(tail) == Lex(rest) + [Skip] && Lex(tail + [LOWER_X]) == Lex(rest) + [t]
    ensures var front := a[..Next(a).1] + rest;
            && Complete(front) && front < a && a[|front|] == 0x1b
            && Lex(a) == Lex(front) + [Skip] && Lex(a + [LOWER_X]) == Lex(front) + [t]
  {
    var n := Next(a).1;
    FirstPiece(a, rest);
    NextExtends(a, [LOWER_X]);
    LexStep(a);
    LexStep(a + [LOWER_X]);
    hide *;
    assert (a + [LOWER_X])[n..] == a[n..] + [LOWER_X];
    assert a[..n] + a[n..] == a;
    var front := a[..n] + rest;
    assert Lex(front) + [Skip] == [Next(a).0] + (Lex(rest) + [Skip]);
    assert Lex(front) + [t] == [Next(a).0] + (Lex(rest) + [t]);
  }

  lemma LexStep(a: Text)
    requires a != [] && Next(a).1 <= |a|
    ensures Lex(a) == [Next(a).0] + Lex(a[Next(a).1..])
  {
  }

  lemma FirstPiece(a: Text, rest: Text)
    requires a != [] && Whole(a) && Complete(rest) && Next(a).1 <= |a|
    ensures var front := a[..Next(a).1] + rest; Complete(front) && Lex(front) == [Next(a).0] + Lex(rest)
  {
    var n := Next(a).1;
    var front := a[..n] + rest;
    WholePiece(a);
    NextExtends(a[..n], rest);
    WholeExtends(a[..n], rest);
    assert front[n..] == rest;
    hide Next, Whole;
  }

  lemma WholeExtends(a: Text, b: Text)
    requires a != [] && Whole(a)
    ensures Whole(a + b)
  {
    if a[0] == ESC && a[1] == LEFT_BRACKET {
      ScanCsiExtends(a, b, 2);
    } else if a[0] == ESC && a[1] == RIGHT_BRACKET {
      ScanOscExtends(a, b, 2);
    }
  }

  /** The units of a complete first token are by themselves that token. */
  lemma WholePiece(a: Text)
    requires a != [] && Whole(a) && Next(a).1 <= |a|
    ensures var p := a[..Next(a).1]; Whole(p) && Next(p) == Next(a)
  {
    var n := Next(a).1;
    var p := a[..n];
    if a[0] == ESC && a[1] == LEFT_BRACKET {
      ScanCsiPrefix(a, n, 2);
      assert p[2..n - 1] == a[2..n - 1];
    } else if a[0] == ESC && a[1] == RIGHT_BRACKET {
      ScanOscPrefix(a, n, 2);
    }
  }

  lemma {:induction false} ScanCsiPrefix(a: Text, n: nat, j: nat)
    requires j <= n <= |a| && ScanCsi(a, j) < n
    ensures ScanCsi(a[..n], j) == ScanCsi(a, j)
    decreases |a| - j
  {
    if j < |a| && !IsLetter(a[j]) {
      ScanCsiPrefix(a, n, j + 1);
    }
  }

  lemma {:induction false} ScanOscPrefix(a: Text, n: nat, k: nat)
    requires k <= n <= |a| && ScanOsc(a, k) < n
    requires a[ScanOsc(a, k)] == BEL || ScanOsc(a, k) + 1 < n
    ensures ScanOsc(a[..n], k) == ScanOsc(a, k)
    decreases |a| - k
  {
    if k < n && !OscEnd(a, k) {
      assert !OscEnd(a[..n], k);
      ScanOscPrefix(a, n, k + 1);
    }
  }

  // ----- The pieces of a text, by their code units -----

  /** A control sequence: ESC, `[`, no letter, and a letter. */
  predicate IsControlSequence(p: Text)
  {
    && |p| >= 3 && p[0] == 0x1b && p[1] == 0x5b
    && (0x41 <= p[|p| - 1] <= 0x5a || 0x61 <= p[|p| - 1] <= 0x7a)
    && forall k :: 2 <= k < |p| - 1 ==> !(0x41 <= p[k] <= 0x5a || 0x61 <= p[k] <= 0x7a)
  }

  /** An OSC string: ESC, `]`, and the first BEL or ESC-backslash at its end. */
  predicate IsOscString(p: Text)
  {
    && |p| >= 3 && p[0] == 0x1b && p[1] == 0x5d
    && (p[|p| - 1] == 0x07 || (|p| >= 4 && p[|p| - 2] == 0x1b && p[|p| - 1] == 0x5c))
    && (forall k :: 2 <= k < |p| - 1 ==> p[k] != 0x07)
    && (forall k :: 2 <= k < |p| - 2 ==> !(p[k] == 0x1b && p[k + 1] == 0x5c))
  }

  /** ESC and one unit that opens neither. */
  predicate IsTwoUnitEscape(p: Text)
  {
    |p| == 2 && p[0] == 0x1b && p[1] != 0x5b && p[1] != 0x5d
  }

  predicate IsPiece(p: Text)
  {
    (|p| == 1 && p[0] != 0x1b) || IsTwoUnitEscape(p) || IsControlSequence(p) || IsOscString(p)
  }

  /** What a piece is read as. */
  ghost predicate Reads(p: Text, t: Token)
    requires IsPiece(p)
  {
    if |p| == 1 then
      && (t == LineFeed <==> p[0] == 0x0a)
      && (t == CarriageReturn <==> p[0] == 0x0d)
      && (t == Backspace <==> p[0] == 0x08)
      && (t.Put? <==> p[0] == 0x09 || p[0] >= 0x20)
      && (t.Put? ==> t.ch == p[0])
      && !t.Csi?
    else if IsControlSequence(p) then t == Csi(p[|p| - 1], Params(p[2..|p| - 1]))
    else t == Skip
  }

  /** A single piece is one token. */
  lemma PieceReads(p: Text)
    requires IsPiece(p)
    ensures Complete(p) && |Lex(p)| == 1 && Reads(p, Lex(p)[0])
  {
    PieceIsWhole(p);
    hide Whole;
  }

  lemma PieceIsWhole(p: Text)
    requires IsPiece(p)
    ensures Whole(p) && Next(p).1 == |p| && Reads(p, Next(p).0)
  {
    if IsControlSequence(p) {
      CsiEnds(p, 2);
    } else if IsOscString(p) {
      OscEnds(p, 2);
    }
  }

  lemma {:induction false} CsiEnds(p: Text, j: nat)
    requires IsControlSequence(p) && 2 <= j < |p|
    ensures ScanCsi(p, j) == |p| - 1
    decreases |p| - j
  {
    if j < |p| - 1 {
      CsiEnds(p, j + 1);
    }
  }

  lemma {:induction false} OscEnds(p: Text, k: nat)
    requires IsOscString(p) && 2 <= k && k < |p| - (if p[|p| - 1] == 0x07 then 0 else 1)
    ensures ScanOsc(p, k) == |p| - if p[|p| - 1] == 0x07 then 1 else 2
    decreases |p| - k
  {
    if !OscEnd(p, k) {
      OscEnds(p, k + 1);
    }
  }

  function Concat(texts: seq<Text>): Text
  {
    if texts == [] then [] else texts[0] + Concat(texts[1..])
  }

  /** Any pieces in a row make a complete text, which is read piece by piece. */
  lemma {:induction false} PiecesRead(ps: seq<Text>)
    requires forall i :: 0 <= i < |ps| ==> IsPiece(ps[i])
    ensures Complete(Concat(ps)) && |Lex(Concat(ps))| == |ps|
    ensures forall i :: 0 <= i < |ps| ==> Reads(ps[i], Lex(Concat(ps))[i])
    decreases |ps|
  {
    hide Reads, IsPiece, Next, Whole;
    if ps != [] {
      PieceReads(ps[0]);
      PiecesRead(ps[1..]);
      CompleteAppend(ps[0], Concat(ps[1..]));
      LexAppend(ps[0], Concat(ps[1..]));
    }
  }

  /** A complete first token is a piece. */
  lemma FirstIsPiece(a: Text)
    requires a != [] && Whole(a) && Next(a).1 <= |a|
    ensures IsPiece(a[..Next(a).1])
  {
    var p := a[..Next(a).1];
    if a[0] == ESC && a[1] == LEFT_BRACKET {
      assert IsControlSequence(p);
    } else if a[0] == ESC && a[1] == RIGHT_BRACKET {
      var e := ScanOsc(a, 2);
      forall k | 2 <= k < e
        ensures a[k] != 0x07 && !(a[k] == 0x1b && k + 1 < |a| && a[k + 1] == 0x5c)
      {
        assert !OscEnd(a, k);
      }
      assert OscEnd(a, e);
      assert IsOscString(p);
    }
  }

  /** Every complete text is made of pieces. */
  lemma {:induction false} CutIntoPieces(a: Text) returns (ps: seq<Text>)
    requires Complete(a)
    ensures Concat(ps) == a && forall i :: 0 <= i < |ps| ==> IsPiece(ps[i])
    decreases |a|
  {
    if a == [] {
      ps := [];
    } else {
      NextExtends(a, []);
      assert a + [] == a;
      var n := Next(a).1;
      FirstIsPiece(a);
      var rest := CutIntoPieces(a[n..]);
      ps := [a[..n]] + rest;
      assert a[..n] + a[n..] == a;
    }
  }
}
