/**
  The terminal as the program has it: shared variables changed in place by loops. Every method is proved
  to do what the value functions of `Screen`, `Sgr` and `Html` say.
 */
module TerminalUi {
  import opened Sequences
  import opened Lexer
  import opened Screen
  import Html
  import Sgr

  class Terminal {
    var lines: seq<Row>
    var row: nat
    var col: nat
    var currentStyle: string
    var savedRow: nat
    var savedCol: nat

    ghost function Now(): State
      reads this
    {
      State(lines, row, col, currentStyle, savedRow, savedCol)
    }

    constructor ()
      ensures Now() == INITIAL == State([[]], 0, 0, "", 0, 0)
    {
      lines, row, col, currentStyle, savedRow, savedCol := [[]], 0, 0, "", 0, 0;
    }

    method EnsureRow()
      modifies this`lines
      ensures lines == Screen.EnsureRow(old(lines), row)
    {
      while |lines| <= row
        invariant old(lines) <= lines && |lines| <= Max(|old(lines)|, row + 1)
        invariant forall i :: |old(lines)| <= i < |lines| ==> lines[i] == []
      {
        lines := lines + [[]];
      }
    }

    /** `while (lines[row].length < col) lines[row].push(blankCell())` */
    method PadRow()
      requires row < |lines|
      modifies this`lines
      ensures lines == old(lines)[row := Pad(old(lines)[row], col)]
    {
      while |lines[row]| < col
        invariant |lines| == |old(lines)|
        invariant old(lines)[row] <= lines[row] && |lines[row]| <= Max(|old(lines)[row]|, col)
        invariant forall i :: |old(lines)[row]| <= i < |lines[row]| ==> lines[row][i] == BLANK
        invariant forall i :: 0 <= i < |lines| && i != row ==> lines[i] == old(lines)[i]
      {
        lines := lines[row := lines[row] + [BLANK]];
      }
      assert lines[row] == Pad(old(lines)[row], col);
    }

    method PutChar(ch: CodeUnit)
      modifies this`lines, this`col
      ensures Now() == Screen.PutChar(old(Now()), ch)
    {
      EnsureRow();
      PadRow();
      var line := lines[row];
      line := if col < |line| then line[col := Cell(ch, currentStyle)] else line + [Cell(ch, currentStyle)];
      lines := lines[row := line];
      col := col + 1;
    }

    method SetSgr(params: seq<nat>)
      modifies this`currentStyle
      ensures currentStyle == Sgr.SetSgr(old(currentStyle), params)
    {
      var effective := if |params| == 0 then [0] else params;
      var styles: Sgr.StyleMap := [];
      var parts := Split(currentStyle, ';');
      for i := 0 to |parts|
        invariant Sgr.ParseParts(styles, parts[i..]) == Sgr.Parse(currentStyle)
      {
        var kv := Split(parts[i], ':');
        assert parts[i..][1..] == parts[i + 1..];
        if |kv| == 2 {
          styles := Sgr.Put(styles, Trim(kv[0], Sgr.IsSpace), Trim(kv[1], Sgr.IsSpace));
        }
      }
      for i := 0 to |effective|
        invariant Sgr.ApplyParams(styles, effective[i..]) == Sgr.ApplyParams(Sgr.Parse(currentStyle), effective)
      {
        assert effective[i..][1..] == effective[i + 1..];
        styles := Sgr.ApplyParam(styles, effective[i]);
      }
      currentStyle := Sgr.Print(styles);
    }

    method EraseInLine(mode: nat)
      modifies this`lines
      ensures Now() == Screen.EraseInLine(old(Now()), mode)
    {
      EnsureRow();
      if mode == 0 {
        lines := lines[row := Truncate(lines[row], col)];
      } else if mode == 1 {
        ghost var before := lines;
        PadRow();
        ghost var padded := lines;
        for i := 0 to col
          invariant |lines| == |padded| && |lines[row]| == |padded[row]|
          invariant forall k :: 0 <= k < i ==> lines[row][k] == BLANK
          invariant forall k :: i <= k < |lines[row]| ==> lines[row][k] == padded[row][k]
          invariant forall r :: 0 <= r < |lines| && r != row ==> lines[r] == before[r]
        {
          lines := lines[row := lines[row][i := BLANK]];
        }
        assert lines[row] == seq(col, _ => BLANK) + padded[row][col..];
        assert lines == before[row := lines[row]];
      } else if mode == 2 {
        lines := lines[row := []];
      }
    }

    method EraseInDisplay(mode: nat)
      modifies this`lines, this`row, this`col
      ensures Now() == Screen.EraseInDisplay(old(Now()), mode)
    {
      EnsureRow();
      if mode == 0 {
        lines := lines[row := Truncate(lines[row], col)];
        lines := lines[..row + 1];
      } else if mode == 1 {
        lines := lines[row..];
        row, col := 0, 0;
      } else if mode == 2 || mode == 3 {
        lines, row, col := [[]], 0, 0;
      }
    }

    method ProcessCsi(cmd: CodeUnit, params: seq<nat>)
      modifies this
      ensures Now() == Screen.ProcessCsi(old(Now()), cmd, params)
    {
      var n := Count(params, 0);
      if cmd == CMD_A {
        row := Max(0, row - n);
      } else if cmd == CMD_B {
        row := row + n;
        EnsureRow();
      } else if cmd == CMD_C {
        col := col + n;
      } else if cmd == CMD_D {
        col := Max(0, col - n);
      } else if cmd == CMD_G {
        col := Max(0, n - 1);
      } else if cmd == CMD_S {
        savedRow, savedCol := row, col;
      } else if cmd == CMD_U {
        row, col := savedRow, savedCol;
        EnsureRow();
      } else if cmd == CMD_M {
        SetSgr(params);
      } else if cmd == CMD_H || cmd == CMD_F {
        row := Max(0, n - 1);
        col := Max(0, Count(params, 1) - 1);
        EnsureRow();
      } else if cmd == CMD_K {
        EraseInLine(Mode(params));
      } else if cmd == CMD_J {
        EraseInDisplay(Mode(params));
      }
    }

    /** The tokens from offset `i` on; `i` may stand one past the end after a lone ESC. */
    static ghost function LexFrom(str: Text, i: nat): seq<Token>
    {
      if i >= |str| then [] else Lex(str[i..])
    }

    /** The branch of the main loop for `ESC [`. */
    method Csi(str: Text, i: nat) returns (next: nat)
      requires i + 1 < |str| && str[i] == ESC && str[i + 1] == LEFT_BRACKET
      modifies this
      ensures Now() == Apply(old(Now()), Next(str[i..]).0) && next == i + Next(str[i..]).1
    {
      ghost var rest := str[i..];
      var j := i + 2;
      while j < |str| && !IsLetter(str[j])
        invariant i + 2 <= j <= |str|
        invariant ScanCsi(rest, j - i) == ScanCsi(rest, 2)
      {
        j := j + 1;
      }
      if j < |str| {
        assert rest[2..j - i] == str[i + 2..j];
        ProcessCsi(str[j], Params(str[i + 2..j]));
        next := j + 1;
      } else {
        next := |str|;
      }
    }

    /** The branch of the main loop for `ESC ]`, which only skips. */
    static method SkipOsc(str: Text, i: nat) returns (next: nat)
      requires i + 1 < |str| && str[i] == ESC && str[i + 1] == RIGHT_BRACKET
      ensures Next(str[i..]) == (Skip, next - i)
    {
      ghost var rest := str[i..];
      var k := i + 2;
      while k < |str| && str[k] != BEL && !(str[k] == ESC && k + 1 < |str| && str[k + 1] == BACKSLASH)
        invariant i + 2 <= k <= |str|
        invariant ScanOsc(rest, k - i) == ScanOsc(rest, 2)
      {
        assert !OscEnd(rest, k - i);
        k := k + 1;
      }
      assert k < |str| ==> OscEnd(rest, k - i);
      next := if k < |str| && str[k] == BEL then k + 1 else if k < |str| && str[k] == ESC then k + 2 else |str|;
    }

    /** The body of the main loop. */
    method Turn(str: Text, i: nat) returns (next: nat)
      requires i < |str|
      modifies this
      ensures Now() == Apply(old(Now()), Next(str[i..]).0) && next == i + Next(str[i..]).1
    {
      var c := str[i];
      if c == ESC {
        if i + 1 < |str| && str[i + 1] == LEFT_BRACKET {
          next := Csi(str, i);
        } else if i + 1 < |str| && str[i + 1] == RIGHT_BRACKET {
          next := SkipOsc(str, i);
        } else {
          next := i + 2;
        }
      } else {
        if c == CR {
          col := 0;
        } else if c == LF {
          row := row + 1;
          EnsureRow();
        } else if c == BS {
          col := Max(0, col - 1);
        } else if c >= SPACE || c == TAB {
          PutChar(c);
        }
        next := i + 1;
      }
    }

    method ProcessText(str: Text)
      modifies this
      ensures Now() == Screen.ProcessText(old(Now()), str)
    {
      hide *;
      var i := 0;
      ghost var target := Screen.ProcessText(Now(), str);
      RunStart(Now(), str);
      while i < |str|
        invariant Run(Now(), LexFrom(str, i)) == target
        decreases |str| - i
      {
        RunNext(Now(), str, i);
        i := Turn(str, i);
      }
      RunEnd(Now(), str, i);
    }

    static lemma RunStart(s: State, str: Text)
      ensures Run(s, LexFrom(str, 0)) == Screen.ProcessText(s, str)
    {
    }

    static lemma RunEnd(s: State, str: Text, i: nat)
      requires i >= |str|
      ensures Run(s, LexFrom(str, i)) == s
    {
    }

    /** A turn of the loop takes the first token off the rest. */
    static lemma RunNext(s: State, str: Text, i: nat)
      requires i < |str|
      ensures var (t, n) := Next(str[i..]);
              Run(s, LexFrom(str, i)) == Run(Apply(s, t), LexFrom(str, i + n))
    {
    }

    /** The inner function `flush`: the pending run becomes a chunk. */
    static method Flush(html: Text, style: string, text: Text) returns (r: Text)
      ensures r == if text == [] then html else html + Html.PrintRun(Html.Run(style, text))
    {
      if text == [] {
        return html;
      }
      var escaped := Html.EscapeHtml(text);
      r := html + if style != "" then
                    Html.SPAN_OPEN + Html.Units(style) + Html.SPAN_MIDDLE + escaped + Html.SPAN_CLOSE
                  else escaped;
    }

    /** A longest stretch of one style is printed as one run. */
    static lemma TakeRun(line: Row, start: nat, end: nat)
      requires start < end <= |line|
      requires forall k :: start <= k < end ==> line[k].style == line[start].style
      requires end < |line| ==> line[end].style != line[start].style
      ensures Html.PrintLine(line[start..])
              == Html.PrintRun(Html.Run(line[start].style, Html.TextOf(line[start..end]))) + Html.PrintLine(line[end..])
    {
      var rest, n := line[start..], end - start;
      assert Html.RunLength(rest) == n;
      assert rest[..n] == line[start..end] && rest[n..] == line[end..];
      var first := Html.Run(line[start].style, Html.TextOf(line[start..end]));
      assert ([first] + Html.Runs(line[end..]))[1..] == Html.Runs(line[end..]);
    }

    static lemma Concatenate(a: Text, b: Text, c: Text)
      ensures (a + b) + c == a + (b + c)
    {
    }

    static lemma PrintEmpty(line: Row)
      ensures Html.PrintLine(line[|line|..]) == []
    {
    }

    static lemma TextGrows(line: Row, start: nat, i: nat)
      requires start <= i < |line|
      ensures Html.TextOf(line[start..i + 1]) == Html.TextOf(line[start..i]) + [line[i].ch]
    {
    }

    /** The callback of `lines.map` in `render`. */
    static method RenderLine(line: Row) returns (html: Text)
      ensures html == Html.PrintLine(line)
    {
      hide Html.PrintLine;
      html := [];
      var style, text := None, [];
      ghost var start := 0;
      assert line[0..] == line;
      for i := 0 to |line|
        invariant if i == 0 then style == None && text == [] && html == [] && start == 0
                  else start < i && style == Some(line[start].style)
        invariant text == Html.TextOf(line[start..i])
        invariant forall k :: start <= k < i ==> line[k].style == line[start].style
        invariant html + Html.PrintLine(line[start..]) == Html.PrintLine(line)
      {
        if Some(line[i].style) != style {
          if i > 0 {
            html := FlushRun(html, line, start, i, text);
          }
          style, text, start := Some(line[i].style), [], i;
        }
        TextGrows(line, start, i);
        text := text + [line[i].ch];
      }
      if |line| > 0 {
        html := FlushRun(html, line, start, |line|, text);
      }
      PrintEmpty(line);
    }

    /** Flushing the stretch from `start` to `end`. */
    static method FlushRun(html: Text, line: Row, ghost start: nat, end: nat, text: Text) returns (r: Text)
      requires start < end <= |line| && text == Html.TextOf(line[start..end])
      requires forall k :: start <= k < end ==> line[k].style == line[start].style
      requires end < |line| ==> line[end].style != line[start].style
      ensures r + Html.PrintLine(line[end..]) == html + Html.PrintLine(line[start..])
    {
      ghost var printed := Html.PrintRun(Html.Run(line[start].style, text));
      TakeRun(line, start, end);
      r := Flush(html, line[end - 1].style, text);
      assert |text| == end - start;
      Concatenate(html, printed, Html.PrintLine(line[end..]));
    }

    /** `render`, as far as the text given to `innerHTML`. */
    method Render() returns (html: Text)
      ensures html == Html.PrintHtml(lines)
    {
      var printed := [];
      for i := 0 to |lines|
        invariant |printed| == i
        invariant forall k :: 0 <= k < i ==> printed[k] == Html.PrintLine(lines[k])
      {
        var line := RenderLine(lines[i]);
        printed := printed + [line];
      }
      assert printed == Html.PrintLines(lines);
      html := Join(printed, LF);
    }

    /** `write`, for text that is already a string. On a valid terminal the HTML shown reads back as the screen. */
    method Write(text: Text) returns (html: Text)
      requires Valid(Now())
      modifies this
      ensures Now() == Screen.ProcessText(old(Now()), text) && Valid(Now())
      ensures html == Html.PrintHtml(lines) && Html.ReadHtml(html) == Some(lines)
    {
      LexValid(text);
      RunKeepsValid(Now(), Lex(text));
      ProcessText(text);
      html := Render();
      Html.PrinterInversion(lines);
    }
  }
}
