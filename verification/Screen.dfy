/**
  The screen of the terminal as a value: ragged rows of cells, a cursor, a saved cursor and a style.
  One function per branch of `processText` and `processCsi`, in the shape the code has
  (rows are padded, sliced and spliced).
 */
module Screen {
  import opened Sequences
  import opened Lexer
  import Sgr

  datatype Cell = Cell(ch: CodeUnit, style: string)

  type Row = seq<Cell>

  const BLANK := Cell(SPACE, "")

  datatype State = State(
    lines: seq<Row>, row: nat, col: nat, style: string, savedRow: nat, savedCol: nat)

  const INITIAL := State([[]], 0, 0, "", 0, 0)

  function Max(a: int, b: int): int
  {
    if a < b then b else a
  }

  /** `ensureRow`: rows are appended until row `row` exists. */
  function EnsureRow(lines: seq<Row>, row: nat): (r: seq<Row>)
    ensures |r| == Max(|lines|, row + 1)
    ensures lines <= r
    ensures forall i :: |lines| <= i < |r| ==> r[i] == []
  {
    if |lines| <= row then lines + seq(row + 1 - |lines|, _ => []) else lines
  }

  /** The padding loops: blank cells are appended until the row has `width` cells. */
  function Pad(line: Row, width: nat): (r: Row)
    ensures |r| == Max(|line|, width)
    ensures line <= r
    ensures forall i :: |line| <= i < |r| ==> r[i] == BLANK
  {
    if |line| < width then line + seq(width - |line|, _ => BLANK) else line
  }

  function Truncate(line: Row, width: nat): Row
  {
    if |line| <= width then line else line[..width]
  }

  function PutCell(line: Row, col: nat, cell: Cell): Row
  {
    var padded := Pad(line, col);
    if col < |padded| then padded[col := cell] else padded + [cell]
  }

  function PutChar(s: State, ch: CodeUnit): State
  {
    var lines := EnsureRow(s.lines, s.row);
    s.(lines := lines[s.row := PutCell(lines[s.row], s.col, Cell(ch, s.style))], col := s.col + 1)
  }

  /** A parameter that is absent or 0 reads as 1. */
  function Count(params: seq<nat>, i: nat): nat
  {
    if i < |params| && params[i] != 0 then params[i] else 1
  }

  /** The first parameter, an absent one reading as 0. */
  function Mode(params: seq<nat>): nat
  {
    if |params| > 0 then params[0] else 0
  }

  function EraseInLine(s: State, mode: nat): State
  {
    var lines := EnsureRow(s.lines, s.row);
    var line := lines[s.row];
    if mode == 0 then s.(lines := lines[s.row := Truncate(line, s.col)])
    else if mode == 1 then
      var padded := Pad(line, s.col);
      s.(lines := lines[s.row := seq(s.col, _ => BLANK) + padded[s.col..]])
    else if mode == 2 then s.(lines := lines[s.row := []])
    else s.(lines := lines)
  }

  function EraseInDisplay(s: State, mode: nat): State
  {
    var lines := EnsureRow(s.lines, s.row);
    if mode == 0 then s.(lines := lines[s.row := Truncate(lines[s.row], s.col)][..s.row + 1])
    else if mode == 1 then s.(lines := lines[s.row..], row := 0, col := 0)
    else if mode == 2 || mode == 3 then s.(lines := [[]], row := 0, col := 0)
    else s.(lines := lines)
  }

  const CMD_A: CodeUnit := 0x41
  const CMD_B: CodeUnit := 0x42
  const CMD_C: CodeUnit := 0x43
  const CMD_D: CodeUnit := 0x44
  const CMD_G: CodeUnit := 0x47
  const CMD_H: CodeUnit := 0x48
  const CMD_J: CodeUnit := 0x4a
  const CMD_K: CodeUnit := 0x4b
  const CMD_F: CodeUnit := 0x66
  const CMD_M: CodeUnit := 0x6d
  const CMD_S: CodeUnit := 0x73
  const CMD_U: CodeUnit := 0x75

  /** `processCsi` */
  function ProcessCsi(s: State, cmd: CodeUnit, params: seq<nat>): State
  {
    var n := Count(params, 0);
    if cmd == CMD_A then s.(row := Max(0, s.row - n))
    else if cmd == CMD_B then s.(row := s.row + n, lines := EnsureRow(s.lines, s.row + n))
    else if cmd == CMD_C then s.(col := s.col + n)
    else if cmd == CMD_D then s.(col := Max(0, s.col - n))
    else if cmd == CMD_G then s.(col := Max(0, n - 1))
    else if cmd == CMD_S then s.(savedRow := s.row, savedCol := s.col)
    else if cmd == CMD_U then
      s.(row := s.savedRow, col := s.savedCol, lines := EnsureRow(s.lines, s.savedRow))
    else if cmd == CMD_M then s.(style := Sgr.SetSgr(s.style, params))
    else if cmd == CMD_H || cmd == CMD_F then
      var row := Max(0, n - 1);
      s.(row := row, col := Max(0, Count(params, 1) - 1), lines := EnsureRow(s.lines, row))
    else if cmd == CMD_K then EraseInLine(s, Mode(params))
    else if cmd == CMD_J then EraseInDisplay(s, Mode(params))
    else s
  }

  /** Parameter `i` says `n`; absent or 0 it says 1. */
  predicate Says(params: seq<nat>, i: nat, n: nat)
  {
    if |params| <= i then n == 1 else n > 0 && (params[i] == n || (params[i] == 0 && n == 1))
  }

  /** Where A, B, C, D and G put the cursor. */
  lemma CursorMoves(s: State, params: seq<nat>, n: nat)
    requires Says(params, 0, n)
    ensures ProcessCsi(s, 0x41, params) == s.(row := if n <= s.row then s.row - n else 0)
    ensures ProcessCsi(s, 0x42, params).row == s.row + n && ProcessCsi(s, 0x42, params).col == s.col
    ensures ProcessCsi(s, 0x43, params) == s.(col := s.col + n)
    ensures ProcessCsi(s, 0x44, params) == s.(col := if n <= s.col then s.col - n else 0)
    ensures ProcessCsi(s, 0x47, params) == s.(col := n - 1)
  {
  }

  /** H and f put it at a row and column counted from 1; s and u save and restore it. */
  lemma CursorPlaced(s: State, params: seq<nat>, n: nat, m: nat)
    requires Says(params, 0, n) && Says(params, 1, m)
    ensures ProcessCsi(s, 0x48, params).row == n - 1 && ProcessCsi(s, 0x48, params).col == m - 1
    ensures ProcessCsi(s, 0x66, params) == ProcessCsi(s, 0x48, params)
    ensures ProcessCsi(s, 0x73, params) == s.(savedRow := s.row, savedCol := s.col)
    ensures ProcessCsi(s, 0x75, params).row == s.savedRow && ProcessCsi(s, 0x75, params).col == s.savedCol
  {
  }

  /** One turn of the main loop of `processText`. */
  function Apply(s: State, t: Token): State
  {
    match t
    case Put(ch) => PutChar(s, ch)
    case CarriageReturn => s.(col := 0)
    case LineFeed => s.(row := s.row + 1, lines := EnsureRow(s.lines, s.row + 1))
    case Backspace => s.(col := Max(0, s.col - 1))
    case Csi(cmd, params) => ProcessCsi(s, cmd, params)
    case Skip => s
  }

  function Run(s: State, ts: seq<Token>): State
    decreases |ts|
  {
    if ts == [] then s else Run(Apply(s, ts[0]), ts[1..])
  }

  /** `processText` */
  function ProcessText(s: State, text: Text): State
  {
    Run(s, Lex(text))
  }

  function ProcessAll(s: State, texts: seq<Text>): State
    decreases |texts|
  {
    if texts == [] then s else ProcessAll(ProcessText(s, texts[0]), texts[1..])
  }

  // ----- Splitting the stream -----

  lemma {:induction false} RunAppend(s: State, a: seq<Token>, b: seq<Token>)
    ensures Run(s, a + b) == Run(Run(s, a), b)
    decreases |a|
  {
    if a == [] {
      assert a + b == b;
    } else {
      assert (a + b)[1..] == a[1..] + b;
      RunAppend(Apply(s, a[0]), a[1..], b);
    }
  }

  lemma RunOne(s: State, t: Token)
    ensures Run(s, [t]) == Apply(s, t)
  {
  }

  /** Text may be cut in two wherever no escape sequence is cut. */
  lemma StreamSplit(s: State, a: Text, b: Text)
    requires Complete(a)
    ensures ProcessText(s, a + b) == ProcessText(ProcessText(s, a), b)
  {
    LexAppend(a, b);
    RunAppend(s, Lex(a), Lex(b));
  }

  /** Cutting inside an escape sequence is seen at once: the next letter is printed instead of consumed. */
  lemma SplitFails(s: State, a: Text)
    requires !Complete(a)
    ensures ProcessText(s, a + [LOWER_X]) != ProcessText(ProcessText(s, a), [LOWER_X])
  {
    var front, t := CutOff(a);
    var ts := Lex(front);
    var before := Run(s, ts);
    RunAppend(s, ts, [Skip]);
    RunAppend(s, ts, [t]);
    RunOne(before, Skip);
    RunOne(before, t);
    assert ProcessText(s, a) == before && ProcessText(s, a + [LOWER_X]) == before;
    assert Lex([LOWER_X]) == [Put(LOWER_X)];
    RunOne(before, Put(LOWER_X));
    assert PutChar(before, LOWER_X).col == before.col + 1;
  }

  /** The exact condition under which a cut after `a` is invisible. */
  lemma SplitExactly(s: State, a: Text)
    ensures Complete(a) <==> forall b :: ProcessText(s, a + b) == ProcessText(ProcessText(s, a), b)
  {
    if Complete(a) {
      forall b
        ensures ProcessText(s, a + b) == ProcessText(ProcessText(s, a), b)
      {
        StreamSplit(s, a, b);
      }
    } else {
      SplitFails(s, a);
    }
  }

  lemma {:induction false} Flatten(s: State, texts: seq<Text>)
    requires forall i :: 0 <= i < |texts| ==> Complete(texts[i])
    ensures ProcessAll(s, texts) == ProcessText(s, Concat(texts)) && Complete(Concat(texts))
    decreases |texts|
  {
    if texts != [] {
      Flatten(ProcessText(s, texts[0]), texts[1..]);
      StreamSplit(s, texts[0], Concat(texts[1..]));
      CompleteAppend(texts[0], Concat(texts[1..]));
    }
  }

  // ----- What every step keeps -----

  /** What `putChar` is ever called with: of the C0 control characters only the tab. */
  predicate Printable(c: CodeUnit)
  {
    c >= SPACE || c == TAB
  }

  ghost predicate ValidCell(c: Cell)
  {
    Printable(c.ch) && Sgr.ValidStyle(c.style)
  }

  ghost predicate ValidRow(line: Row)
  {
    forall i :: 0 <= i < |line| ==> ValidCell(line[i])
  }

  ghost predicate Valid(s: State)
  {
    && s.row < |s.lines|
    && Sgr.ValidStyle(s.style)
    && forall i :: 0 <= i < |s.lines| ==> ValidRow(s.lines[i])
  }

  ghost predicate ValidToken(t: Token)
  {
    t.Put? ==> Printable(t.ch)
  }

  lemma {:induction false} LexValid(s: Text)
    ensures forall i :: 0 <= i < |Lex(s)| ==> ValidToken(Lex(s)[i])
    decreases |s|
  {
    if s != [] {
      var (t, n) := Next(s);
      assert ValidToken(t);
      if n < |s| {
        LexValid(s[n..]);
      }
    }
  }

  lemma InitialValid()
    ensures Valid(INITIAL)
  {
  }

  lemma PutKeepsValid(s: State, ch: CodeUnit)
    requires Valid(s) && Printable(ch)
    ensures Valid(PutChar(s, ch))
  {
  }

  lemma BlankValid()
    ensures ValidCell(BLANK)
  {
  }

  lemma EraseInLineKeepsValid(s: State, mode: nat)
    requires Valid(s)
    ensures Valid(EraseInLine(s, mode))
  {
    BlankValid();
    assert ValidRow(s.lines[s.row]);
    assert ValidRow(EraseInLine(s, mode).lines[s.row]);
  }

  lemma EraseInDisplayKeepsValid(s: State, mode: nat)
    requires Valid(s)
    ensures Valid(EraseInDisplay(s, mode))
  {
    assert ValidRow(s.lines[s.row]);
    assert ValidRow(Truncate(s.lines[s.row], s.col));
  }

  lemma EnsureRowKeepsValid(s: State, row: nat)
    requires Valid(s)
    ensures forall i :: 0 <= i < |EnsureRow(s.lines, row)| ==> ValidRow(EnsureRow(s.lines, row)[i])
  {
  }

  lemma ApplyKeepsValid(s: State, t: Token)
    requires Valid(s) && ValidToken(t)
    ensures Valid(Apply(s, t))
  {
    match t
    case Put(ch) => PutKeepsValid(s, ch);
    case LineFeed => EnsureRowKeepsValid(s, s.row + 1);
    case CarriageReturn =>
    case Backspace =>
    case Skip =>
    case Csi(cmd, params) => CsiKeepsValid(s, cmd, params);
  }

  /** Every other control sequence only moves the cursor, adding empty rows down to it. */
  lemma OthersMove(s: State, cmd: CodeUnit, params: seq<nat>)
    requires s.row < |s.lines| && cmd != CMD_M && cmd != CMD_K && cmd != CMD_J
    ensures var r := ProcessCsi(s, cmd, params);
            && r.style == s.style
            && r.lines == EnsureRow(s.lines, r.row)
  {
  }

  lemma CsiKeepsValid(s: State, cmd: CodeUnit, params: seq<nat>)
    requires Valid(s)
    ensures Valid(ProcessCsi(s, cmd, params))
  {
    if cmd == CMD_M {
      Sgr.SetSgrKeepsValid(s.style, params);
    } else if cmd == CMD_K {
      EraseInLineKeepsValid(s, Mode(params));
    } else if cmd == CMD_J {
      EraseInDisplayKeepsValid(s, Mode(params));
    } else {
      OthersMove(s, cmd, params);
      EnsureRowKeepsValid(s, ProcessCsi(s, cmd, params).row);
    }
  }

  lemma {:induction false} RunKeepsValid(s: State, ts: seq<Token>)
    requires Valid(s) && forall i :: 0 <= i < |ts| ==> ValidToken(ts[i])
    ensures Valid(Run(s, ts))
    decreases |ts|
  {
    if ts != [] {
      ApplyKeepsValid(s, ts[0]);
      RunKeepsValid(Apply(s, ts[0]), ts[1..]);
    }
  }

  lemma {:induction false} ReachableValid(s: State, texts: seq<Text>)
    requires Valid(s)
    ensures Valid(ProcessAll(s, texts))
    decreases |texts|
  {
    if texts != [] {
      LexValid(texts[0]);
      RunKeepsValid(s, Lex(texts[0]));
      ReachableValid(ProcessText(s, texts[0]), texts[1..]);
    }
  }
}
