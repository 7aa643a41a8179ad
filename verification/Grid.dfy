/**
  The specification of the screen: an unbounded grid of cells, blank by default, with a height and a width for each
  row. There are no rows to pad, slice or splice here; every operation says what each cell and each width becomes.
  Commands, parameters and the blank cell are read here again, independently of the screen.
 */
module Grid {
  import opened Lexer
  import opened Screen
  import Sgr

  datatype Board = Board(
    at: (nat, nat) -> Cell, width: nat -> nat, height: nat,
    row: nat, col: nat, style: string, savedRow: nat, savedCol: nat)

  const EMPTY := Board((r: nat, c: nat) => Cell(0x20, ""), (r: nat) => 0, 1, 0, 0, "", 0, 0)

  /** Blank out the cells of a region and keep the rest. */
  function Erase(g: Board, region: (nat, nat) -> bool): Board
  {
    g.(at := (r: nat, c: nat) => if region(r, c) then Cell(0x20, "") else g.at(r, c))
  }

  /** Change the width of the cursor row. */
  function Resize(g: Board, width: nat): Board
  {
    var before: nat -> nat := g.width;
    g.(width := (r: nat) => if r == g.row then width else before(r))
  }

  /** Rows exist down to row `row`. */
  function Extend(g: Board, row: nat): Board
  {
    g.(height := if g.height <= row then row + 1 else g.height)
  }

  /** Move the cursor; rows exist down to it. */
  function MoveTo(g: Board, row: nat, col: nat): Board
  {
    Extend(g, row).(row := row, col := col)
  }

  /** At least `n`, and at most `n`. */
  function AtLeast(n: nat, x: nat): nat
  {
    if x < n then n else x
  }

  function AtMost(n: nat, x: nat): nat
  {
    if x > n then n else x
  }

  /** `a - b`, but not below 0. */
  function Minus(a: nat, b: nat): nat
  {
    if a > b then a - b else 0
  }

  function Write(g: Board, ch: CodeUnit): Board
  {
    var painted := g.(at := (r: nat, c: nat) => if r == g.row && c == g.col then Cell(ch, g.style) else g.at(r, c));
    MoveTo(Resize(painted, AtLeast(g.col + 1, g.width(g.row))), g.row, g.col + 1)
  }

  /** Parameter `i`, or the default when it is absent or 0. */
  function Arg(params: seq<nat>, i: nat, default: nat): nat
  {
    if i >= |params| || params[i] == 0 then default else params[i]
  }

  function EraseLine(g: Board, mode: nat): Board
  {
    match mode
    case 0 => Resize(Erase(g, (r: nat, c: nat) => r == g.row && c >= g.col), AtMost(g.col, g.width(g.row)))
    case 1 => Resize(Erase(g, (r: nat, c: nat) => r == g.row && c < g.col), AtLeast(g.col, g.width(g.row)))
    case 2 => Resize(Erase(g, (r: nat, c: nat) => r == g.row), 0)
    case _ => g
  }

  function EraseDisplay(g: Board, mode: nat): Board
  {
    match mode
    case 0 =>
      Erase(g, (r: nat, c: nat) => r > g.row || (r == g.row && c >= g.col)).(
        width := (r: nat) => if r > g.row then 0 else if r == g.row then AtMost(g.col, g.width(r)) else g.width(r),
        height := g.row + 1)
    case 1 =>
      g.(at := (r: nat, c: nat) => g.at(r + g.row, c), width := (r: nat) => g.width(r + g.row),
         height := Minus(g.height, g.row), row := 0, col := 0)
    case 2 => Erase(g, (r: nat, c: nat) => true).(width := (r: nat) => 0, height := 1, row := 0, col := 0)
    case 3 => Erase(g, (r: nat, c: nat) => true).(width := (r: nat) => 0, height := 1, row := 0, col := 0)
    case _ => g
  }

  /** The control sequences, by their final letters A, B, C, D, G, H, f, s, u, m, K and J. */
  function Control(g: Board, cmd: CodeUnit, params: seq<nat>): Board
  {
    var n := Arg(params, 0, 1);
    if cmd == 0x41 then MoveTo(g, Minus(g.row, n), g.col)
    else if cmd == 0x42 then MoveTo(g, g.row + n, g.col)
    else if cmd == 0x43 then MoveTo(g, g.row, g.col + n)
    else if cmd == 0x44 then MoveTo(g, g.row, Minus(g.col, n))
    else if cmd == 0x47 then MoveTo(g, g.row, Minus(n, 1))
    else if cmd == 0x48 || cmd == 0x66 then MoveTo(g, Minus(n, 1), Minus(Arg(params, 1, 1), 1))
    else if cmd == 0x73 then g.(savedRow := g.row, savedCol := g.col)
    else if cmd == 0x75 then MoveTo(g, g.savedRow, g.savedCol)
    else if cmd == 0x6d then g.(style := Sgr.SetSgr(g.style, params))
    else if cmd == 0x4b then EraseLine(g, Arg(params, 0, 0))
    else if cmd == 0x4a then EraseDisplay(g, Arg(params, 0, 0))
    else g
  }

  function Step(g: Board, t: Token): Board
  {
    match t
    case Put(ch) => Write(g, ch)
    case CarriageReturn => MoveTo(g, g.row, 0)
    case LineFeed => MoveTo(g, g.row + 1, g.col)
    case Backspace => MoveTo(g, g.row, Minus(g.col, 1))
    case Csi(cmd, params) => Control(g, cmd, params)
    case Skip => g
  }

  function Steps(g: Board, ts: seq<Token>): Board
    decreases |ts|
  {
    if ts == [] then g else Steps(Step(g, ts[0]), ts[1..])
  }

  function StepsAll(g: Board, texts: seq<Text>): Board
    decreases |texts|
  {
    if texts == [] then g else StepsAll(Steps(g, Lex(texts[0])), texts[1..])
  }

  // ----- Refinement -----

  /** The cell shown at a position; positions outside the ragged rows are blank. */
  function CellAt(lines: seq<Row>, r: nat, c: nat): Cell
  {
    if r < |lines| && c < |lines[r]| then lines[r][c] else Cell(0x20, "")
  }

  function WidthAt(lines: seq<Row>, r: nat): nat
  {
    if r < |lines| then |lines[r]| else 0
  }

  ghost predicate SameCells(lines: seq<Row>, at: (nat, nat) -> Cell)
  {
    forall r: nat, c: nat :: CellAt(lines, r, c) == at(r, c)
  }

  ghost predicate SameWidths(lines: seq<Row>, width: nat -> nat)
  {
    forall r: nat :: WidthAt(lines, r) == width(r)
  }

  /** The state shows exactly the board, and its cursor is on an existing row. */
  ghost predicate Refines(s: State, g: Board)
  {
    && s.row < |s.lines| == g.height
    && s.row == g.row && s.col == g.col && s.style == g.style
    && s.savedRow == g.savedRow && s.savedCol == g.savedCol
    && SameCells(s.lines, g.at)
    && SameWidths(s.lines, g.width)
  }

  /** A board leaves no freedom: it is shown by one state only. */
  lemma OneState(s: State, t: State, g: Board)
    requires Refines(s, g) && Refines(t, g)
    ensures s == t
  {
    forall r | 0 <= r < |s.lines|
      ensures s.lines[r] == t.lines[r]
    {
      assert WidthAt(s.lines, r) == WidthAt(t.lines, r);
      forall c | 0 <= c < |s.lines[r]|
        ensures s.lines[r][c] == t.lines[r][c]
      {
        assert CellAt(s.lines, r, c) == CellAt(t.lines, r, c);
      }
    }
  }

  lemma InitialRefines()
    ensures Refines(INITIAL, EMPTY)
  {
  }

  lemma EnsureRowShows(lines: seq<Row>, row: nat)
    ensures forall r: nat, c: nat :: CellAt(EnsureRow(lines, row), r, c) == CellAt(lines, r, c)
    ensures forall r: nat :: WidthAt(EnsureRow(lines, row), r) == WidthAt(lines, r)
  {
  }

  lemma PutShows(s: State, g: Board, ch: CodeUnit)
    requires Refines(s, g)
    ensures Refines(PutChar(s, ch), Write(g, ch))
  {
  }

  /** `ESC [ ... K` */
  lemma EraseInLineShows(s: State, g: Board, params: seq<nat>)
    requires Refines(s, g)
    ensures Refines(ProcessCsi(s, 0x4b, params), EraseLine(g, Arg(params, 0, 0)))
  {
  }

  lemma EraseBelowShows(s: State, g: Board)
    requires Refines(s, g)
    ensures Refines(EraseInDisplay(s, 0), EraseDisplay(g, 0))
  {
  }

  lemma EraseAboveShows(s: State, g: Board)
    requires Refines(s, g)
    ensures Refines(EraseInDisplay(s, 1), EraseDisplay(g, 1))
  {
    NoRowToAppend(s.lines, s.row);
  }

  lemma EraseAllShows(s: State, g: Board, mode: nat)
    requires Refines(s, g) && mode >= 2
    ensures Refines(EraseInDisplay(s, mode), EraseDisplay(g, mode))
  {
    NoRowToAppend(s.lines, s.row);
  }

  /** `ESC [ ... J` */
  lemma EraseInDisplayShows(s: State, g: Board, params: seq<nat>)
    requires Refines(s, g)
    ensures Refines(ProcessCsi(s, 0x4a, params), EraseDisplay(g, Arg(params, 0, 0)))
  {
    hide EraseInDisplay, EraseDisplay, Refines;
    if Arg(params, 0, 0) == 0 {
      EraseBelowShows(s, g);
    } else if Arg(params, 0, 0) == 1 {
      EraseAboveShows(s, g);
    } else {
      EraseAllShows(s, g, Arg(params, 0, 0));
    }
  }

  /** Moving the cursor and appending rows down to it. */
  lemma MoveShows(s: State, g: Board, row: nat, col: nat)
    requires Refines(s, g)
    ensures Refines(s.(row := row, col := col, lines := EnsureRow(s.lines, row)), MoveTo(g, row, col))
  {
    EnsureRowShows(s.lines, row);
  }

  lemma NoRowToAppend(lines: seq<Row>, row: nat)
    requires row < |lines|
    ensures EnsureRow(lines, row) == lines
  {
  }

  /** All other sequences. */
  lemma MovesShow(s: State, g: Board, cmd: CodeUnit, params: seq<nat>)
    requires Refines(s, g)
    requires cmd != 0x4b && cmd != 0x4a
    ensures Refines(ProcessCsi(s, cmd, params), Control(g, cmd, params))
  {
    hide EnsureRow, MoveTo, SameCells, SameWidths, Sgr.SetSgr;
    var moved := ProcessCsi(s, cmd, params);
    MoveShows(s, g, moved.row, moved.col);
    if moved.row <= s.row {
      NoRowToAppend(s.lines, moved.row);
    }
  }

  /** One step on the ragged rows is the same step on the board. */
  lemma StepRefines(s: State, g: Board, t: Token)
    requires Refines(s, g)
    ensures Refines(Apply(s, t), Step(g, t))
  {
    match t
    case Put(ch) => PutShows(s, g, ch);
    case LineFeed => EnsureRowShows(s.lines, s.row + 1);
    case CarriageReturn =>
    case Backspace =>
    case Skip =>
    case Csi(cmd, params) =>
      if cmd == 0x4b {
        EraseInLineShows(s, g, params);
      } else if cmd == 0x4a {
        EraseInDisplayShows(s, g, params);
      } else {
        MovesShow(s, g, cmd, params);
      }
  }

  lemma {:induction false} RunRefines(s: State, g: Board, ts: seq<Token>)
    requires Refines(s, g)
    ensures Refines(Run(s, ts), Steps(g, ts))
    decreases |ts|
  {
    if ts != [] {
      StepRefines(s, g, ts[0]);
      RunRefines(Apply(s, ts[0]), Step(g, ts[0]), ts[1..]);
    }
  }

  /** Over every run, the ragged rows refine the unbounded grid. */
  lemma {:induction false} ScreenRefinesGrid(s: State, g: Board, texts: seq<Text>)
    requires Refines(s, g)
    ensures Refines(ProcessAll(s, texts), StepsAll(g, texts))
    decreases |texts|
  {
    if texts != [] {
      RunRefines(s, g, Lex(texts[0]));
      ScreenRefinesGrid(ProcessText(s, texts[0]), Steps(g, Lex(texts[0])), texts[1..]);
    }
  }
}
