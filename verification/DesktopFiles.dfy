/** The two copies of the desktop file parser, in the Crostini bridge and in register-apps. */
module DesktopFiles {
  import opened Sequences

  /** The bridge's record of an app. */
  datatype App = App(id: string, name: string, exec: string)

  /** The record of register-apps, which has the window class too. */
  datatype RegisteredApp = RegisteredApp(id: string, name: string, exec: string, wmClass: string)

  // ----- Go's string helpers -----

  /** White space as `strings.TrimSpace` sees it. */
  predicate IsSpace(c: char)
  {
    || '\U{9}' <= c <= '\U{D}'
    || c in {' ', '\U{85}', '\U{A0}', '\U{1680}', '\U{2028}', '\U{2029}', '\U{202F}', '\U{205F}', '\U{3000}'}
    || '\U{2000}' <= c <= '\U{200A}'
  }

  function TrimSpace(s: string): string
  {
    Trim(s, IsSpace)
  }

  /** `strings.Cut(s, "=")` */
  function Cut(s: string): Option<(string, string)>
  {
    if s == [] then None
    else if s[0] == '=' then Some(([], s[1..]))
    else
      match Cut(s[1..])
      case None => None
      case Some((k, v)) => Some(([s[0]] + k, v))
  }

  /** The cut is at the first equals sign. */
  lemma {:induction false} CutExactly(s: string)
    ensures Cut(s) == None ==> '=' !in s
    ensures Cut(s).Some? ==> var (k, v) := Cut(s).value; s == k + "=" + v && '=' !in k
  {
    if s != [] && s[0] != '=' {
      CutExactly(s[1..]);
    }
  }

  /** The white space characters, by code point. */
  lemma SpacesAre(c: char)
    ensures IsSpace(c) <==>
              || c as int in {9, 10, 11, 12, 13, 32, 133, 160, 5760, 8232, 8233, 8239, 8287, 12288}
              || 8192 <= c as int <= 8202
  {
  }

  function ToLower(c: char): char
  {
    if 'A' <= c <= 'Z' then (c as int + 32) as char else c
  }

  /** `strings.EqualFold(s, "true")`: none of the four letters has a further case variant. */
  predicate FoldsToTrue(s: string)
  {
    |s| == 4 && ToLower(s[0]) == 't' && ToLower(s[1]) == 'r' && ToLower(s[2]) == 'u' && ToLower(s[3]) == 'e'
  }

  lemma TrueAre(s: string)
    ensures FoldsToTrue(s) <==>
              |s| == 4 && s[0] in "tT" && s[1] in "rR" && s[2] in "uU" && s[3] in "eE"
  {
    CaseOf(if |s| == 4 then s[0] else 't');
    CaseOf(if |s| == 4 then s[1] else 't');
    CaseOf(if |s| == 4 then s[2] else 't');
    CaseOf(if |s| == 4 then s[3] else 't');
    hide ToLower;
  }

  lemma CaseOf(c: char)
    ensures ToLower(c) == 't' <==> c in "tT"
    ensures ToLower(c) == 'r' <==> c in "rR"
    ensures ToLower(c) == 'u' <==> c in "uU"
    ensures ToLower(c) == 'e' <==> c in "eE"
  {
  }

  const HEADER := "[Desktop Entry]"

  // ----- The parser of the bridge -----

  /** The local variables of the loop. */
  datatype Locals = Locals(name: string, exec: string, appType: string, inEntry: bool)

  /** One line; `None` is the early return for a hidden app. */
  function ReadLine(st: Locals, raw: string): Option<Locals>
  {
    var line := TrimSpace(raw);
    if line == HEADER then Some(st.(inEntry := true))
    else if "[" <= line then Some(st.(inEntry := false))
    else if !st.inEntry then Some(st)
    else
      match Cut(line)
      case None => Some(st)
      case Some((k, v)) =>
        var key := TrimSpace(k);
        if key == "Name" then Some(if st.name == "" then st.(name := TrimSpace(v)) else st)
        else if key == "Exec" then Some(st.(exec := TrimSpace(v)))
        else if key == "Type" then Some(st.(appType := TrimSpace(v)))
        else if key == "NoDisplay" && FoldsToTrue(TrimSpace(v)) then None
        else Some(st)
  }

  function ReadLines(st: Locals, lines: seq<string>): Option<Locals>
    decreases |lines|
  {
    if lines == [] then Some(st)
    else
      match ReadLine(st, lines[0])
      case None => None
      case Some(next) => ReadLines(next, lines[1..])
  }

  /** `parseDesktop` of the bridge, given what reading the file gave. */
  function Parse(file: Option<string>, id: string): (r: Option<App>)
    ensures r.Some? ==> r.value.id == id && r.value.name != ""
  {
    match file
    case None => None
    case Some(data) =>
      match ReadLines(Locals("", "", "", false), Split(data, '\n'))
      case None => None
      case Some(st) =>
        if st.appType != "Application" || st.name == "" then None else Some(App(id, st.name, st.exec))
  }

  /** The loop of `parseDesktop` in the bridge. */
  method ParseDesktop(file: Option<string>, id: string) returns (r: Option<App>)
    ensures r == Parse(file, id)
  {
    hide Trim, Cut;
    if file.None? {
      return None;
    }
    var lines := Split(file.value, '\n');
    var name, execLine, appType, inEntry := "", "", "", false;
    assert lines[0..] == lines;
    for i := 0 to |lines|
      invariant ReadLines(Locals(name, execLine, appType, inEntry), lines[i..])
                == ReadLines(Locals("", "", "", false), lines)
    {
      assert lines[i..][1..] == lines[i + 1..];
      var line := TrimSpace(lines[i]);
      if line == HEADER {
        inEntry := true;
        continue;
      }
      if "[" <= line {
        inEntry := false;
        continue;
      }
      if !inEntry {
        continue;
      }
      var cut := Cut(line);
      if cut.None? {
        continue;
      }
      var (k, v) := cut.value;
      var key := TrimSpace(k);
      if key == "Name" {
        if name == "" {
          name := TrimSpace(v);
        }
      } else if key == "Exec" {
        execLine := TrimSpace(v);
      } else if key == "Type" {
        appType := TrimSpace(v);
      } else if key == "NoDisplay" {
        if FoldsToTrue(TrimSpace(v)) {
          return None;
        }
      }
    }
    if appType != "Application" || name == "" {
      return None;
    }
    return Some(App(id, name, execLine));
  }

  // ----- What a desktop file says -----

  /** The key-value pairs of the lines inside `[Desktop Entry]` groups, in order. */
  function Pairs(lines: seq<string>, inEntry: bool): seq<(string, string)>
    decreases |lines|
  {
    if lines == [] then []
    else
      var line := TrimSpace(lines[0]);
      if line == "[Desktop Entry]" then Pairs(lines[1..], true)
      else if "[" <= line then Pairs(lines[1..], false)
      else
        match Cut(line)
        case Some((k, v)) =>
          if inEntry then [(TrimSpace(k), TrimSpace(v))] + Pairs(lines[1..], true) else Pairs(lines[1..], false)
        case None => Pairs(lines[1..], inEntry)
  }

  ghost predicate Hidden(pairs: seq<(string, string)>)
  {
    exists i :: 0 <= i < |pairs| && pairs[i].0 == "NoDisplay" && FoldsToTrue(pairs[i].1)
  }

  /** The value of the last pair with a key, or a default. */
  function LastValue(pairs: seq<(string, string)>, key: string, default: string): string
  {
    if pairs == [] then default
    else if pairs[|pairs| - 1].0 == key then pairs[|pairs| - 1].1
    else LastValue(pairs[..|pairs| - 1], key, default)
  }

  /** The first value of a key that is not empty, or the empty string. */
  function FirstValue(pairs: seq<(string, string)>, key: string): string
  {
    if pairs == [] then ""
    else if pairs[0].0 == key && pairs[0].1 != "" then pairs[0].1
    else FirstValue(pairs[1..], key)
  }

  /** The locals after some pairs have been read. */
  ghost predicate Read(st: Locals, pairs: seq<(string, string)>, end: Locals)
  {
    && end.name == (if st.name != "" then st.name else FirstValue(pairs, "Name"))
    && end.exec == LastValue(pairs, "Exec", st.exec)
    && end.appType == LastValue(pairs, "Type", st.appType)
  }

  /** What the loop of `parseDesktop` does with one pair. */
  function UsePair(st: Locals, key: string, value: string): Locals
  {
    if key == "Name" then (if st.name == "" then st.(name := value) else st)
    else if key == "Exec" then st.(exec := value)
    else if key == "Type" then st.(appType := value)
    else st
  }

  lemma {:induction false} LastValueCons(
    p: (string, string), pairs: seq<(string, string)>, key: string, default: string)
    ensures LastValue([p] + pairs, key, default) == LastValue(pairs, key, if p.0 == key then p.1 else default)
    decreases |pairs|
  {
    var all := [p] + pairs;
    if pairs != [] {
      var n := |pairs| - 1;
      assert all[..|all| - 1] == [p] + pairs[..n];
      assert all[|all| - 1] == pairs[n];
      LastValueCons(p, pairs[..n], key, default);
    } else {
      assert all[..0] == [];
    }
  }

  lemma ReadCons(st: Locals, p: (string, string), pairs: seq<(string, string)>, end: Locals)
    requires Read(UsePair(st, p.0, p.1), pairs, end)
    ensures Read(st, [p] + pairs, end)
  {
    LastValueCons(p, pairs, "Exec", st.exec);
    LastValueCons(p, pairs, "Type", st.appType);
    assert ([p] + pairs)[1..] == pairs;
  }

  lemma HiddenCons(p: (string, string), pairs: seq<(string, string)>)
    ensures Hidden([p] + pairs) <==> (p.0 == "NoDisplay" && FoldsToTrue(p.1)) || Hidden(pairs)
  {
    var all := [p] + pairs;
    assert all[0] == p && forall i :: 0 <= i < |pairs| ==> all[i + 1] == pairs[i];
    if Hidden(all) {
      var i :| 0 <= i < |all| && all[i].0 == "NoDisplay" && FoldsToTrue(all[i].1);
      assert i > 0 ==> pairs[i - 1] == all[i];
    }
  }

  /** One line: it is a header, or it adds at most one pair, which decides what becomes of the locals. */
  lemma LineMeans(st: Locals, lines: seq<string>)
    requires lines != []
    ensures var line, pairs := TrimSpace(lines[0]), Pairs(lines, st.inEntry);
            match ReadLine(st, lines[0])
            case None =>
              pairs != [] && pairs[0].0 == "NoDisplay" && FoldsToTrue(pairs[0].1)
            case Some(next) =>
              || (pairs == Pairs(lines[1..], next.inEntry) && next == st.(inEntry := next.inEntry))
              || (pairs != [] && pairs[1..] == Pairs(lines[1..], next.inEntry)
                  && !(pairs[0].0 == "NoDisplay" && FoldsToTrue(pairs[0].1))
                  && next == UsePair(st, pairs[0].0, pairs[0].1))
  {
  }

  lemma {:induction false} LoopMeans(st: Locals, lines: seq<string>)
    ensures var pairs := Pairs(lines, st.inEntry);
            match ReadLines(st, lines)
            case None => Hidden(pairs)
            case Some(end) => !Hidden(pairs) && Read(st, pairs, end)
    decreases |lines|
  {
    hide ReadLine, Pairs, FoldsToTrue;
    if lines == [] {
      NoPairs(st.inEntry);
    } else {
      LineMeans(st, lines);
      var pairs := Pairs(lines, st.inEntry);
      match ReadLine(st, lines[0])
      case None => assert Hidden(pairs);
      case Some(next) =>
        LoopMeans(next, lines[1..]);
        if next != st.(inEntry := next.inEntry) || pairs != Pairs(lines[1..], next.inEntry) {
          assert pairs == [pairs[0]] + pairs[1..];
          HiddenCons(pairs[0], pairs[1..]);
          var end := ReadLines(next, lines[1..]);
          if end.Some? {
            ReadCons(st, pairs[0], pairs[1..], end.value);
          }
        }
    }
  }

  lemma NoPairs(inEntry: bool)
    ensures Pairs([], inEntry) == []
  {
  }

  /**
    A desktop file is accepted exactly when no pair of its entry hides it, the last Type is Application and
    some Name is not empty; the app then has the first such Name and the last Exec.
   */
  lemma ParseMeans(data: string, id: string)
    ensures var pairs := Pairs(Split(data, '\n'), false);
            Parse(Some(data), id)
            == if Hidden(pairs) || LastValue(pairs, "Type", "") != "Application" || FirstValue(pairs, "Name") == ""
               then None
               else Some(App(id, FirstValue(pairs, "Name"), LastValue(pairs, "Exec", "")))
  {
    hide ReadLines, Pairs, Split, LastValue, FirstValue, Hidden;
    LoopMeans(Locals("", "", "", false), Split(data, '\n'));
  }

  // ----- The parser of register-apps -----

  datatype MoreLocals = MoreLocals(name: string, exec: string, appType: string, wmClass: string, inEntry: bool)

  function ReadLineMore(st: MoreLocals, raw: string): Option<MoreLocals>
  {
    var line := TrimSpace(raw);
    if line == HEADER then Some(st.(inEntry := true))
    else if "[" <= line then Some(st.(inEntry := false))
    else if !st.inEntry then Some(st)
    else
      match Cut(line)
      case None => Some(st)
      case Some((k, v)) =>
        var key := TrimSpace(k);
        if key == "Name" then Some(if st.name == "" then st.(name := TrimSpace(v)) else st)
        else if key == "Exec" then Some(st.(exec := TrimSpace(v)))
        else if key == "Type" then Some(st.(appType := TrimSpace(v)))
        else if key == "NoDisplay" && FoldsToTrue(TrimSpace(v)) then None
        else if key == "StartupWMClass" then Some(st.(wmClass := TrimSpace(v)))
        else Some(st)
  }

  function ReadLinesMore(st: MoreLocals, lines: seq<string>): Option<MoreLocals>
    decreases |lines|
  {
    if lines == [] then Some(st)
    else
      match ReadLineMore(st, lines[0])
      case None => None
      case Some(next) => ReadLinesMore(next, lines[1..])
  }

  /** `parseDesktop` of register-apps. */
  function ParseRegistered(file: Option<string>, id: string): (r: Option<RegisteredApp>)
    ensures r.Some? ==> r.value.id == id && r.value.name != ""
  {
    match file
    case None => None
    case Some(data) =>
      match ReadLinesMore(MoreLocals("", "", "", "", false), Split(data, '\n'))
      case None => None
      case Some(st) =>
        if st.appType != "Application" || st.name == "" then None
        else Some(RegisteredApp(id, st.name, st.exec, st.wmClass))
  }

  // ----- The two parsers agree -----

  function Narrow(st: MoreLocals): Locals
  {
    Locals(st.name, st.exec, st.appType, st.inEntry)
  }

  function Strip(app: RegisteredApp): App
  {
    App(app.id, app.name, app.exec)
  }

  lemma LinesAgree(st: MoreLocals, raw: string)
    ensures match ReadLineMore(st, raw)
            case None => ReadLine(Narrow(st), raw) == None
            case Some(next) => ReadLine(Narrow(st), raw) == Some(Narrow(next))
  {
  }

  lemma {:induction false} LoopsAgree(st: MoreLocals, lines: seq<string>)
    ensures match ReadLinesMore(st, lines)
            case None => ReadLines(Narrow(st), lines) == None
            case Some(next) => ReadLines(Narrow(st), lines) == Some(Narrow(next))
    decreases |lines|
  {
    hide ReadLine, ReadLineMore;
    if lines != [] {
      LinesAgree(st, lines[0]);
      match ReadLineMore(st, lines[0])
      case None =>
      case Some(next) => LoopsAgree(next, lines[1..]);
    }
  }

  /** Both parsers accept the same files and agree on id, name and command line. */
  lemma ParsersAgree(file: Option<string>, id: string)
    ensures match ParseRegistered(file, id)
            case None => Parse(file, id) == None
            case Some(app) => Parse(file, id) == Some(Strip(app))
  {
    hide ReadLines, ReadLinesMore;
    match file
    case None =>
    case Some(data) => LoopsAgree(MoreLocals("", "", "", "", false), Split(data, '\n'));
  }

  /** The window class is the last StartupWMClass. */
  lemma {:induction false} WmClassMeans(st: MoreLocals, lines: seq<string>)
    ensures match ReadLinesMore(st, lines)
            case None => true
            case Some(end) =>
              end.wmClass == LastValue(Pairs(lines, st.inEntry), "StartupWMClass", st.wmClass)
    decreases |lines|
  {
    hide ReadLineMore, Pairs, LastValue;
    if lines == [] {
      NoWmClass(st.wmClass, st.inEntry);
    } else {
      WmClassLine(st, lines);
      match ReadLineMore(st, lines[0])
      case None =>
      case Some(next) => WmClassMeans(next, lines[1..]);
    }
  }

  lemma NoWmClass(default: string, inEntry: bool)
    ensures LastValue(Pairs([], inEntry), "StartupWMClass", default) == default
  {
  }

  lemma WmClassLine(st: MoreLocals, lines: seq<string>)
    requires lines != []
    ensures match ReadLineMore(st, lines[0])
            case None => true
            case Some(next) =>
              LastValue(Pairs(lines, st.inEntry), "StartupWMClass", st.wmClass)
              == LastValue(Pairs(lines[1..], next.inEntry), "StartupWMClass", next.wmClass)
  {
    hide LastValue, Pairs, ReadLineMore;
    WmClassOfLine(st, lines);
    var pairs := Pairs(lines, st.inEntry);
    if pairs != [] {
      LastValueCons(pairs[0], pairs[1..], "StartupWMClass", st.wmClass);
      assert [pairs[0]] + pairs[1..] == pairs;
    }
  }

  lemma WmClassOfLine(st: MoreLocals, lines: seq<string>)
    requires lines != []
    ensures var pairs := Pairs(lines, st.inEntry);
            match ReadLineMore(st, lines[0])
            case None => true
            case Some(next) =>
              || (pairs == Pairs(lines[1..], next.inEntry) && next.wmClass == st.wmClass)
              || (pairs != [] && pairs[1..] == Pairs(lines[1..], next.inEntry)
                  && next.wmClass == if pairs[0].0 == "StartupWMClass" then pairs[0].1 else st.wmClass)
  {
    hide Trim, Cut, FoldsToTrue;
  }

  /** The parser of register-apps, in terms of the pairs of the entry. */
  lemma ParseRegisteredMeans(data: string, id: string)
    ensures var pairs := Pairs(Split(data, '\n'), false);
            ParseRegistered(Some(data), id)
            == if Hidden(pairs) || LastValue(pairs, "Type", "") != "Application" || FirstValue(pairs, "Name") == ""
               then None
               else Some(RegisteredApp(id, FirstValue(pairs, "Name"), LastValue(pairs, "Exec", ""),
                                       LastValue(pairs, "StartupWMClass", "")))
  {
    ParsersAgree(Some(data), id);
    ParseMeans(data, id);
    WmClassMeans(MoreLocals("", "", "", "", false), Split(data, '\n'));
    hide ReadLinesMore, Pairs, Split, LastValue, FirstValue, Hidden, Parse;
  }

  // ----- A file as a text editor would show it -----

  /** A value that can stand behind an equals sign: one line without white space at its ends. */
  ghost predicate Plain(v: string)
  {
    '\n' !in v && (v != [] ==> !IsSpace(v[0]) && !IsSpace(v[|v| - 1]))
  }

  function FileText(app: RegisteredApp): string
  {
    "[Desktop Entry]" + "\n" + (
      "Type=" + "Application" + "\n" + (
        "Name=" + app.name + "\n" + (
          "Exec=" + app.exec + "\n" + (
            "StartupWMClass=" + app.wmClass))))
  }

  function FileLines(app: RegisteredApp): seq<string>
  {
    ["[Desktop Entry]"] + (
      ["Type=" + "Application"] + (["Name=" + app.name] + (["Exec=" + app.exec] + ["StartupWMClass=" + app.wmClass])))
  }

  lemma TextOfLines(app: RegisteredApp)
    requires Plain(app.name) && Plain(app.exec) && Plain(app.wmClass)
    ensures Split(FileText(app), '\n') == FileLines(app)
  {
    var header, t, n := "[Desktop Entry]", "Type=" + "Application", "Name=" + app.name;
    var e, w := "Exec=" + app.exec, "StartupWMClass=" + app.wmClass;
    assert '\n' !in header && '\n' !in t && '\n' !in n && '\n' !in e && '\n' !in w;
    assert "\n" == ['\n'];
    hide Plain, Join, Split;
    JoinCons(w, [], '\n');
    assert [w] + [] == [w];
    JoinCons(e, [w], '\n');
    JoinCons(n, [e] + [w], '\n');
    JoinCons(t, [n] + ([e] + [w]), '\n');
    JoinCons(header, [t] + ([n] + ([e] + [w])), '\n');
    SplitJoin(FileLines(app), '\n');
  }

  /** A line `key=value` gives that pair. */
  lemma PairLine(key: string, value: string, rest: seq<string>)
    requires Plain(key) && key != [] && '=' !in key && key[0] != '[' && Plain(value)
    ensures Pairs([key + "=" + value] + rest, true) == [(key, value)] + Pairs(rest, true)
  {
    var line := key + "=" + value;
    TrimNothing(line, IsSpace);
    TrimNothing(key, IsSpace);
    TrimNothing(value, IsSpace);
    CutAt(key, value);
    assert ([line] + rest)[1..] == rest;
  }

  lemma {:induction false} CutAt(key: string, value: string)
    requires '=' !in key
    ensures Cut(key + "=" + value) == Some((key, value))
    decreases |key|
  {
    var s := key + "=" + value;
    if key != [] {
      assert s[1..] == key[1..] + "=" + value;
      CutAt(key[1..], value);
      assert [key[0]] + key[1..] == key;
    } else {
      assert s[1..] == value;
    }
  }

  function FilePairs(app: RegisteredApp): seq<(string, string)>
  {
    [("Type", "Application")] + (
      [("Name", app.name)] + ([("Exec", app.exec)] + ([("StartupWMClass", app.wmClass)] + [])))
  }

  lemma HeaderLine(rest: seq<string>)
    ensures Pairs(["[Desktop Entry]"] + rest, false) == Pairs(rest, true)
    ensures Pairs([], true) == []
  {
    TrimNothing("[Desktop Entry]", IsSpace);
    assert (["[Desktop Entry]"] + rest)[1..] == rest;
  }

  lemma KeysPlain()
    ensures Plain("Type") && Plain("Name") && Plain("Exec") && Plain("StartupWMClass") && Plain("Application")
  {
  }

  lemma PairsOfLines(app: RegisteredApp)
    requires Plain(app.name) && Plain(app.exec) && Plain(app.wmClass)
    ensures Pairs(FileLines(app), false) == FilePairs(app)
  {
    hide Pairs, Plain;
    KeysPlain();
    KeyLines(app);
    var t, n := "Type=" + "Application", "Name=" + app.name;
    var e, w := "Exec=" + app.exec, "StartupWMClass=" + app.wmClass;
    HeaderLine([t] + ([n] + ([e] + [w])));
    assert [w] + [] == [w];
    PairLine("StartupWMClass", app.wmClass, []);
    PairLine("Exec", app.exec, [w]);
    PairLine("Name", app.name, [e] + [w]);
    PairLine("Type", "Application", [n] + ([e] + [w]));
  }

  lemma KeyLines(app: RegisteredApp)
    ensures "Type" + "=" == "Type=" && "Name" + "=" == "Name=" && "Exec" + "=" == "Exec="
    ensures "StartupWMClass" + "=" == "StartupWMClass="
  {
  }

  lemma FileValues(app: RegisteredApp)
    requires app.name != ""
    ensures var pairs := FilePairs(app);
            && !Hidden(pairs) && LastValue(pairs, "Type", "") == "Application"
            && FirstValue(pairs, "Name") == app.name
            && LastValue(pairs, "Exec", "") == app.exec && LastValue(pairs, "StartupWMClass", "") == app.wmClass
  {
    var t, n, e := ("Type", "Application"), ("Name", app.name), ("Exec", app.exec);
    var ws := [("StartupWMClass", app.wmClass)] + [];
    LastOf(t, n, e, ws, "Type");
    LastOf(t, n, e, ws, "Exec");
    LastOf(t, n, e, ws, "StartupWMClass");
    HiddenCons(t, [n] + ([e] + ws));
    HiddenCons(n, [e] + ws);
    HiddenCons(e, ws);
    assert ([t] + ([n] + ([e] + ws)))[1..] == [n] + ([e] + ws);
    hide Hidden, LastValue;
  }

  lemma LastOf(
    t: (string, string), n: (string, string), e: (string, string), ws: seq<(string, string)>, key: string)
    ensures LastValue([t] + ([n] + ([e] + ws)), key, "")
            == LastValue(
                 ws, key, if e.0 == key then e.1 else if n.0 == key then n.1 else if t.0 == key then t.1 else "")
  {
    hide LastValue;
    var d := if t.0 == key then t.1 else "";
    var d2 := if n.0 == key then n.1 else d;
    LastValueCons(t, [n] + ([e] + ws), key, "");
    LastValueCons(n, [e] + ws, key, d);
    LastValueCons(e, ws, key, d2);
  }

  /** Every app written down like this is read back by both parsers. */
  lemma WrittenAppParses(app: RegisteredApp)
    requires Plain(app.name) && app.name != "" && Plain(app.exec) && Plain(app.wmClass)
    ensures ParseRegistered(Some(FileText(app)), app.id) == Some(app)
    ensures Parse(Some(FileText(app)), app.id) == Some(App(app.id, app.name, app.exec))
  {
    hide *;
    TextOfLines(app);
    PairsOfLines(app);
    FileValues(app);
    ParseMeans(FileText(app), app.id);
    ParseRegisteredMeans(FileText(app), app.id);
  }
}
