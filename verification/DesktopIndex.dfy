/**
  The index of installed apps: `scanApps` walks the application directories once, `findApp` looks one id up.
  The file system is a fixed snapshot.
 */
module DesktopIndex {
  import opened Sequences
  import opened DesktopFiles

  datatype Entry = Entry(name: string, isDir: bool)

  /** Readable directories with their entries, and readable files by directory and name. */
  datatype Snapshot = Snapshot(dirs: map<string, seq<Entry>>, files: map<(string, string), string>)

  /** A file that can be read is listed, as a file, in a directory that can be listed. */
  ghost predicate Consistent(fs: Snapshot)
  {
    forall d, n :: (d, n) in fs.files ==> d in fs.dirs && Entry(n, false) in fs.dirs[d]
  }

  const SUFFIX := ".desktop"

  /** `os.ReadFile(filepath.Join(dir, name))`, for a name without a slash. */
  function ReadFile(fs: Snapshot, dir: string, name: string): Option<string>
  {
    if (dir, name) in fs.files then Some(fs.files[(dir, name)]) else None
  }

  /** The id in a file name, when it ends in `.desktop`. */
  function IdOf(name: string): (r: Option<string>)
    ensures forall id: string :: r == Some(id) <==> name == id + ".desktop"
  {
    if |name| >= |SUFFIX| && name[|name| - |SUFFIX|..] == SUFFIX then Some(name[..|name| - |SUFFIX|]) else None
  }

  // Both programs have the same scan around their own parser and record, hence the parameters.

  /** A parser of one of the two programs, with the id of its record. */
  datatype Reader<!A> = Reader(parse: (Option<string>, string) -> Option<A>, idOf: A -> string)

  /** A parsed app comes from a file that could be read, and carries the id it was looked up by. */
  ghost predicate KeepsIds<A(!new)>(r: Reader<A>)
  {
    forall file, id :: r.parse(file, id).Some? ==> file.Some? && r.idOf(r.parse(file, id).value) == id
  }

  function ParseIn<A>(r: Reader<A>, fs: Snapshot, dir: string, id: string): Option<A>
  {
    r.parse(ReadFile(fs, dir, id + SUFFIX), id)
  }

  /** `findApp`: the first directory whose file parses. */
  function Find<A>(r: Reader<A>, fs: Snapshot, dirs: seq<string>, id: string): Option<A>
  {
    if dirs == [] then None
    else
      match ParseIn(r, fs, dirs[0], id)
      case Some(app) => Some(app)
      case None => Find(r, fs, dirs[1..], id)
  }

  predicate Seen<A>(r: Reader<A>, apps: seq<A>, id: string)
  {
    exists i :: 0 <= i < |apps| && r.idOf(apps[i]) == id
  }

  /** The inner loop of `scanApps`: the entries of one directory. */
  function ScanEntries<A>(r: Reader<A>, fs: Snapshot, dir: string, entries: seq<Entry>, apps: seq<A>): seq<A>
    decreases |entries|
  {
    if entries == [] then apps
    else
      var e := entries[0];
      var next :=
        if e.isDir || IdOf(e.name).None? then apps
        else
          var id := IdOf(e.name).value;
          if Seen(r, apps, id) then apps
          else
            match ParseIn(r, fs, dir, id)
            case None => apps
            case Some(app) => apps + [app];
      ScanEntries(r, fs, dir, entries[1..], next)
  }

  /** The outer loop of `scanApps`: one directory after the other, unreadable ones being skipped. */
  function ScanDirs<A>(r: Reader<A>, fs: Snapshot, dirs: seq<string>, apps: seq<A>): seq<A>
    decreases |dirs|
  {
    if dirs == [] then apps
    else
      ScanDirs(r, fs, dirs[1..],
               if dirs[0] in fs.dirs then ScanEntries(r, fs, dirs[0], fs.dirs[dirs[0]], apps) else apps)
  }

  function Scan<A>(r: Reader<A>, fs: Snapshot, dirs: seq<string>): seq<A>
  {
    ScanDirs(r, fs, dirs, [])
  }

  // ----- The loops -----

  method ScanApps<A(!new)>(r: Reader<A>, fs: Snapshot, appDirs: seq<string>) returns (apps: seq<A>)
    requires KeepsIds(r)
    ensures apps == Scan(r, fs, appDirs)
  {
    var seen: set<string> := {};
    apps := [];
    assert appDirs[0..] == appDirs;
    for d := 0 to |appDirs|
      invariant ScanDirs(r, fs, appDirs[d..], apps) == Scan(r, fs, appDirs)
      invariant forall id :: id in seen <==> Seen(r, apps, id)
    {
      var dir := appDirs[d];
      assert appDirs[d..][1..] == appDirs[d + 1..];
      if dir !in fs.dirs {
        continue;
      }
      apps, seen := ScanDirectory(r, fs, dir, apps, seen);
    }
  }

  method ScanDirectory<A(!new)>(r: Reader<A>, fs: Snapshot, dir: string, before: seq<A>, seenBefore: set<string>)
    returns (apps: seq<A>, seen: set<string>)
    requires KeepsIds(r)
    requires dir in fs.dirs
    requires forall id :: id in seenBefore <==> Seen(r, before, id)
    ensures apps == ScanEntries(r, fs, dir, fs.dirs[dir], before)
    ensures forall id :: id in seen <==> Seen(r, apps, id)
  {
    apps, seen := before, seenBefore;
    var entries := fs.dirs[dir];
    assert entries[0..] == entries;
    for i := 0 to |entries|
      invariant ScanEntries(r, fs, dir, entries[i..], apps) == ScanEntries(r, fs, dir, entries, before)
      invariant forall id :: id in seen <==> Seen(r, apps, id)
    {
      var e := entries[i];
      assert entries[i..][1..] == entries[i + 1..];
      if e.isDir || IdOf(e.name).None? {
        continue;
      }
      var id := IdOf(e.name).value;
      if id in seen {
        continue;
      }
      var app := ParseIn(r, fs, dir, id);
      if app.Some? {
        SeenGrows(r, apps, app.value);
        seen := seen + {id};
        apps := apps + [app.value];
      }
    }
  }

  method FindApp<A>(r: Reader<A>, fs: Snapshot, appDirs: seq<string>, id: string) returns (app: Option<A>)
    ensures app == Find(r, fs, appDirs, id)
  {
    assert appDirs[0..] == appDirs;
    for d := 0 to |appDirs|
      invariant Find(r, fs, appDirs[d..], id) == Find(r, fs, appDirs, id)
    {
      app := ParseIn(r, fs, appDirs[d], id);
      if app.Some? {
        return;
      }
      assert appDirs[d..][1..] == appDirs[d + 1..];
    }
    return None;
  }

  // ----- The index agrees with lookup -----

  lemma SeenGrows<A>(r: Reader<A>, apps: seq<A>, app: A)
    ensures forall id :: Seen(r, apps + [app], id) <==> Seen(r, apps, id) || r.idOf(app) == id
  {
    forall id
      ensures Seen(r, apps + [app], id) <==> Seen(r, apps, id) || r.idOf(app) == id
    {
      var more := apps + [app];
      if Seen(r, apps, id) {
        var i :| 0 <= i < |apps| && r.idOf(apps[i]) == id;
        assert more[i] == apps[i];
      }
      if r.idOf(app) == id {
        assert more[|apps|] == app;
      }
    }
  }

  lemma {:induction false} FindSnoc<A>(r: Reader<A>, fs: Snapshot, dirs: seq<string>, dir: string, id: string)
    ensures Find(r, fs, dirs + [dir], id)
            == if Find(r, fs, dirs, id).Some? then Find(r, fs, dirs, id) else ParseIn(r, fs, dir, id)
    decreases |dirs|
  {
    if dirs == [] {
      assert dirs + [dir] == [dir] && [dir][1..] == [];
    } else {
      assert (dirs + [dir])[1..] == dirs[1..] + [dir];
      FindSnoc(r, fs, dirs[1..], dir, id);
    }
  }

  ghost predicate DistinctIds<A(!new)>(r: Reader<A>, apps: seq<A>)
  {
    forall i, j :: 0 <= i < j < |apps| ==> r.idOf(apps[i]) != r.idOf(apps[j])
  }

  /** Every listed app is what lookup in `dirs` gives for its id. */
  ghost predicate AllFound<A(!new)>(r: Reader<A>, fs: Snapshot, dirs: seq<string>, apps: seq<A>)
  {
    forall i :: 0 <= i < |apps| ==> Find(r, fs, dirs, r.idOf(apps[i])) == Some(apps[i])
  }

  /** Every id that lookup in `dirs` finds is listed. */
  ghost predicate AllListed<A(!new)>(r: Reader<A>, fs: Snapshot, dirs: seq<string>, apps: seq<A>)
  {
    forall id :: Find(r, fs, dirs, id).Some? ==> Seen(r, apps, id)
  }

  /** What scanning the entries of the next directory adds. */
  lemma {:induction false} EntriesScanned<A(!new)>(
    r: Reader<A>, fs: Snapshot, dirs: seq<string>, dir: string, entries: seq<Entry>, apps: seq<A>)
    requires KeepsIds(r)
    requires DistinctIds(r, apps) && AllFound(r, fs, dirs + [dir], apps) && AllListed(r, fs, dirs, apps)
    ensures var out := ScanEntries(r, fs, dir, entries, apps);
            && DistinctIds(r, out) && AllFound(r, fs, dirs + [dir], out) && AllListed(r, fs, dirs, out)
            && (forall id :: Seen(r, apps, id) ==> Seen(r, out, id))
            && (forall id :: Entry(id + SUFFIX, false) in entries && ParseIn(r, fs, dir, id).Some? ==> Seen(r, out, id))
    decreases |entries|
  {
    hide Find, ParseIn;
    if entries != [] {
      var e, rest := entries[0], entries[1..];
      var id := IdOf(e.name);
      if !e.isDir && id.Some? && !Seen(r, apps, id.value) && ParseIn(r, fs, dir, id.value).Some? {
        var app := ParseIn(r, fs, dir, id.value).value;
        ParsedId(r, fs, dir, id.value);
        FindSnoc(r, fs, dirs, dir, id.value);
        SeenGrows(r, apps, app);
        EntriesScanned(r, fs, dirs, dir, rest, apps + [app]);
      } else {
        EntriesScanned(r, fs, dirs, dir, rest, apps);
      }
    }
  }

  lemma ParsedId<A(!new)>(r: Reader<A>, fs: Snapshot, dir: string, id: string)
    requires KeepsIds(r)
    ensures ParseIn(r, fs, dir, id).Some? ==> r.idOf(ParseIn(r, fs, dir, id).value) == id
    ensures ParseIn(r, fs, dir, id).Some? && Consistent(fs) ==>
              dir in fs.dirs && Entry(id + SUFFIX, false) in fs.dirs[dir]
  {
  }

  /** One more directory. */
  lemma DirectoryScanned<A(!new)>(r: Reader<A>, fs: Snapshot, dirs: seq<string>, dir: string, apps: seq<A>)
    requires KeepsIds(r) && Consistent(fs)
    requires DistinctIds(r, apps) && AllFound(r, fs, dirs, apps) && AllListed(r, fs, dirs, apps)
    ensures var out := if dir in fs.dirs then ScanEntries(r, fs, dir, fs.dirs[dir], apps) else apps;
            DistinctIds(r, out) && AllFound(r, fs, dirs + [dir], out) && AllListed(r, fs, dirs + [dir], out)
  {
    hide Find, ScanEntries, ParseIn;
    forall id
      ensures Find(r, fs, dirs + [dir], id)
              == if Find(r, fs, dirs, id).Some? then Find(r, fs, dirs, id) else ParseIn(r, fs, dir, id)
    {
      FindSnoc(r, fs, dirs, dir, id);
    }
    forall id | ParseIn(r, fs, dir, id).Some?
      ensures dir in fs.dirs && Entry(id + SUFFIX, false) in fs.dirs[dir]
    {
      ParsedId(r, fs, dir, id);
    }
    if dir in fs.dirs {
      EntriesScanned(r, fs, dirs, dir, fs.dirs[dir], apps);
    }
  }

  lemma {:induction false} DirsScanned<A(!new)>(
    r: Reader<A>, fs: Snapshot, done: seq<string>, dirs: seq<string>, apps: seq<A>)
    requires KeepsIds(r) && Consistent(fs)
    requires DistinctIds(r, apps) && AllFound(r, fs, done, apps) && AllListed(r, fs, done, apps)
    ensures var out := ScanDirs(r, fs, dirs, apps);
            DistinctIds(r, out) && AllFound(r, fs, done + dirs, out) && AllListed(r, fs, done + dirs, out)
    decreases |dirs|
  {
    hide Find, ScanEntries, DistinctIds, AllFound, AllListed;
    if dirs == [] {
      assert done + dirs == done;
    } else {
      var dir := dirs[0];
      DirectoryScanned(r, fs, done, dir, apps);
      var next := if dir in fs.dirs then ScanEntries(r, fs, dir, fs.dirs[dir], apps) else apps;
      DirsScanned(r, fs, done + [dir], dirs[1..], next);
      assert done + [dir] + dirs[1..] == done + dirs;
    }
  }

  /**
    The index and the lookup agree: ids are listed once, and an app is listed exactly when lookup of its id
    returns that very app, that is, when it is in the first directory whose file for that id parses.
   */
  lemma IndexAgreesWithLookup<A(!new)>(r: Reader<A>, fs: Snapshot, dirs: seq<string>)
    requires KeepsIds(r) && Consistent(fs)
    ensures DistinctIds(r, Scan(r, fs, dirs))
    ensures forall app :: app in Scan(r, fs, dirs) <==> Find(r, fs, dirs, r.idOf(app)) == Some(app)
  {
    hide ScanDirs, Find;
    var apps := Scan(r, fs, dirs);
    FindNowhere(r, fs);
    DirsScanned(r, fs, [], dirs, []);
    assert [] + dirs == dirs;
    forall app | Find(r, fs, dirs, r.idOf(app)) == Some(app)
      ensures app in apps
    {
      assert Seen(r, apps, r.idOf(app));
      var i :| 0 <= i < |apps| && r.idOf(apps[i]) == r.idOf(app);
      assert Find(r, fs, dirs, r.idOf(apps[i])) == Some(apps[i]);
    }
  }

  lemma FindNowhere<A>(r: Reader<A>, fs: Snapshot)
    ensures forall id :: Find(r, fs, [], id) == None
  {
  }

  // ----- The order of the index -----

  lemma {:induction false} EntriesExtend<A>(
    r: Reader<A>, fs: Snapshot, dir: string, entries: seq<Entry>, more: seq<Entry>, apps: seq<A>)
    ensures apps <= ScanEntries(r, fs, dir, entries, apps) <= ScanEntries(r, fs, dir, entries + more, apps)
    decreases |entries| + |more|
  {
    hide ParseIn, IdOf, Seen;
    if entries == [] {
      assert entries + more == more;
      if more != [] {
        EntriesExtend(r, fs, dir, [], more[1..], ScanEntries(r, fs, dir, [more[0]], apps));
        assert [] + more[1..] == more[1..];
        OneEntry(r, fs, dir, more[0], apps);
        EntriesHead(r, fs, dir, more, apps);
      }
    } else {
      EntriesHead(r, fs, dir, entries, apps);
      EntriesHead(r, fs, dir, entries + more, apps);
      OneEntry(r, fs, dir, entries[0], apps);
      assert (entries + more)[1..] == entries[1..] + more;
      EntriesExtend(r, fs, dir, entries[1..], more, ScanEntries(r, fs, dir, [entries[0]], apps));
    }
  }

  lemma OneEntry<A>(r: Reader<A>, fs: Snapshot, dir: string, e: Entry, apps: seq<A>)
    ensures apps <= ScanEntries(r, fs, dir, [e], apps)
  {
    hide ParseIn, IdOf, Seen;
    assert [e][1..] == [];
  }

  lemma EntriesHead<A>(r: Reader<A>, fs: Snapshot, dir: string, entries: seq<Entry>, apps: seq<A>)
    requires entries != []
    ensures ScanEntries(r, fs, dir, entries, apps)
            == ScanEntries(r, fs, dir, entries[1..], ScanEntries(r, fs, dir, [entries[0]], apps))
  {
    hide ParseIn, IdOf, Seen;
    assert [entries[0]][1..] == [];
  }

  lemma {:induction false} DirsExtend<A>(r: Reader<A>, fs: Snapshot, dirs: seq<string>, more: seq<string>, apps: seq<A>)
    ensures apps <= ScanDirs(r, fs, dirs, apps) <= ScanDirs(r, fs, dirs + more, apps)
    decreases |dirs| + |more|
  {
    hide ScanEntries;
    if dirs == [] {
      assert dirs + more == more;
      if more != [] {
        var next := if more[0] in fs.dirs then ScanEntries(r, fs, more[0], fs.dirs[more[0]], apps) else apps;
        EntriesExtend(r, fs, more[0], if more[0] in fs.dirs then fs.dirs[more[0]] else [], [], apps);
        DirsExtend(r, fs, [], more[1..], next);
        assert [] + more[1..] == more[1..];
      }
    } else {
      var next := if dirs[0] in fs.dirs then ScanEntries(r, fs, dirs[0], fs.dirs[dirs[0]], apps) else apps;
      EntriesExtend(r, fs, dirs[0], if dirs[0] in fs.dirs then fs.dirs[dirs[0]] else [], [], apps);
      assert (dirs + more)[1..] == dirs[1..] + more;
      DirsExtend(r, fs, dirs[1..], more, next);
    }
  }

  /** Apps are listed in the order of the directories and, within one, of its entries. */
  lemma ListedInOrder<A>(
    r: Reader<A>, fs: Snapshot, dirs: seq<string>, more: seq<string>, dir: string, entries: seq<Entry>,
    later: seq<Entry>)
    ensures Scan(r, fs, dirs) <= Scan(r, fs, dirs + more)
    ensures ScanEntries(r, fs, dir, entries, []) <= ScanEntries(r, fs, dir, entries + later, [])
  {
    DirsExtend(r, fs, dirs, more, []);
    EntriesExtend(r, fs, dir, entries, later, []);
  }

  // ----- The two programs -----

  const BRIDGE: Reader<App> := Reader(Parse, (a: App) => a.id)
  const REGISTER: Reader<RegisteredApp> := Reader(ParseRegistered, (a: RegisteredApp) => a.id)

  lemma ReadersKeepIds()
    ensures KeepsIds(BRIDGE) && KeepsIds(REGISTER)
  {
  }

  lemma {:induction false} LookupsAgree(fs: Snapshot, dirs: seq<string>, id: string)
    ensures match Find(REGISTER, fs, dirs, id)
            case None => Find(BRIDGE, fs, dirs, id) == None
            case Some(app) => Find(BRIDGE, fs, dirs, id) == Some(Strip(app))
    decreases |dirs|
  {
    if dirs != [] {
      hide Parse, ParseRegistered;
      ParsersAgree(ReadFile(fs, dirs[0], id + SUFFIX), id);
      LookupsAgree(fs, dirs[1..], id);
    }
  }

  /** Every app that register-apps puts into the registry is found by the bridge, with the same name and command. */
  lemma RegisteredAppsAreFound(fs: Snapshot, dirs: seq<string>, app: RegisteredApp)
    requires Consistent(fs) && app in Scan(REGISTER, fs, dirs)
    ensures Find(BRIDGE, fs, dirs, app.id) == Some(Strip(app))
    ensures Strip(app) in Scan(BRIDGE, fs, dirs)
  {
    hide Scan, Find;
    ReadersKeepIds();
    IndexAgreesWithLookup(REGISTER, fs, dirs);
    IndexAgreesWithLookup(BRIDGE, fs, dirs);
    LookupsAgree(fs, dirs, app.id);
  }

  /** Conversely, every app in the bridge's index is put into the registry. */
  lemma FoundAppsAreRegistered(fs: Snapshot, dirs: seq<string>, app: App)
    requires Consistent(fs) && app in Scan(BRIDGE, fs, dirs)
    ensures exists more :: more in Scan(REGISTER, fs, dirs) && Strip(more) == app
  {
    hide Scan, Find;
    ReadersKeepIds();
    IndexAgreesWithLookup(REGISTER, fs, dirs);
    IndexAgreesWithLookup(BRIDGE, fs, dirs);
    LookupsAgree(fs, dirs, app.id);
    FindKeepsId(REGISTER, fs, dirs, app.id);
    var more := Find(REGISTER, fs, dirs, app.id).value;
    assert more in Scan(REGISTER, fs, dirs);
  }

  lemma {:induction false} FindKeepsId<A(!new)>(r: Reader<A>, fs: Snapshot, dirs: seq<string>, id: string)
    requires KeepsIds(r)
    ensures Find(r, fs, dirs, id).Some? ==> r.idOf(Find(r, fs, dirs, id).value) == id
    decreases |dirs|
  {
    if dirs != [] {
      FindKeepsId(r, fs, dirs[1..], id);
    }
  }
}
