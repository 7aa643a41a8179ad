/** The registry merge of register-apps, and the ids it gives to apps. */
module Registry {
  import opened Sequences
  import opened DesktopFiles
  import opened Varint

  /** Preferences are JSON: objects, strings, and every other value as it is written. */
  datatype Json = Object(members: map<string, Json>) | Text(text: string) | Value(token: string)

  // ----- App ids -----

  /** `'a' + n` for a nibble */
  function Letter(n: nat): (c: char)
    requires n < 16
    ensures 'a' <= c <= 'p'
  {
    ('a' as int + n) as char
  }

  /** The id printed from the truncated hash: two letters per byte, the high nibble first. */
  function Letters(hash: Bytes): (id: string)
    ensures |id| == 2 * |hash|
    ensures forall i :: 0 <= i < |id| ==> 'a' <= id[i] <= 'p'
  {
    if hash == [] then [] else [Letter(hash[0] / 16), Letter(hash[0] % 16)] + Letters(hash[1..])
  }

  predicate IsId(id: string)
  {
    |id| % 2 == 0 && forall i :: 0 <= i < |id| ==> 'a' <= id[i] <= 'p'
  }

  /** The bytes an id stands for. */
  function Unletters(id: string): Bytes
    requires IsId(id)
  {
    if id == [] then []
    else [(id[0] as int - 'a' as int) * 16 + (id[1] as int - 'a' as int)] + Unletters(id[2..])
  }

  lemma {:induction false} LettersInvert(hash: Bytes)
    ensures IsId(Letters(hash)) && Unletters(Letters(hash)) == hash
    decreases |hash|
  {
    if hash != [] {
      LettersInvert(hash[1..]);
      assert Letters(hash)[2..] == Letters(hash[1..]);
    }
  }

  /** The loop of `generateAppID` over the first 16 bytes of the hash. */
  method PrintId(hash: Bytes) returns (id: string)
    requires |hash| == 32
    ensures id == Letters(hash[..16]) && |id| == 32
  {
    var buf := new char[32](_ => 'a');
    for i := 0 to 16
      invariant buf[..2 * i] == Letters(hash[..i])
    {
      var b := hash[i];
      buf[i * 2] := Letter(b / 16);
      buf[i * 2 + 1] := Letter(b % 16);
      LettersSnoc(hash[..i], b);
      assert hash[..i] + [b] == hash[..i + 1];
      assert buf[..2 * (i + 1)] == buf[..2 * i] + [Letter(b / 16), Letter(b % 16)];
    }
    id := buf[..];
  }

  lemma {:induction false} LettersSnoc(hash: Bytes, b: byte)
    ensures Letters(hash + [b]) == Letters(hash) + [Letter(b / 16), Letter(b % 16)]
    decreases |hash|
  {
    if hash == [] {
      assert [b][1..] == [];
      assert hash + [b] == [b];
    } else {
      assert (hash + [b])[1..] == hash[1..] + [b];
      LettersSnoc(hash[1..], b);
    }
  }

  /** SHA-256, of which only the length of its result matters here. */
  type Hash = string -> Bytes

  ghost predicate Is256Bit(sha: Hash)
  {
    forall s :: |sha(s)| == 32
  }

  /** The text that is hashed. */
  function IdInput(desktopFileId: string): string
  {
    "crostini:termina/penguin/" + desktopFileId
  }

  function AppId(sha: Hash, desktopFileId: string): string
  {
    var h := sha(IdInput(desktopFileId));
    Letters(if |h| >= 16 then h[..16] else h)
  }

  /** Ids are 32 letters from a to p, and collide only if the truncated hashes do. */
  lemma IdsCollideWithHashes(sha: Hash, a: string, b: string)
    requires Is256Bit(sha)
    ensures |AppId(sha, a)| == 32 && IsId(AppId(sha, a))
    ensures AppId(sha, a) == AppId(sha, b) <==>
              sha("crostini:termina/penguin/" + a)[..16] == sha("crostini:termina/penguin/" + b)[..16]
  {
    LettersInvert(sha(IdInput(a))[..16]);
    LettersInvert(sha(IdInput(b))[..16]);
  }

  lemma {:induction false} LettersAt(hash: Bytes, i: nat)
    requires i < |hash|
    ensures Letters(hash)[2 * i] == ('a' as int + hash[i] / 16) as char
    ensures Letters(hash)[2 * i + 1] == ('a' as int + hash[i] % 16) as char
    decreases |hash|
  {
    if i > 0 {
      LettersAt(hash[1..], i - 1);
      var id := Letters(hash);
      assert id[2..] == Letters(hash[1..]);
      assert id[2 * i] == id[2..][2 * (i - 1)] && id[2 * i + 1] == id[2..][2 * (i - 1) + 1];
    }
  }

  /** Each of the first 16 bytes of the hash is two letters, the high half first. */
  lemma AppIdIs(sha: Hash, id: string, i: nat)
    requires Is256Bit(sha) && i < 16
    ensures var h := sha("crostini:termina/penguin/" + id);
            && AppId(sha, id)[2 * i] == ('a' as int + h[i] / 16) as char
            && AppId(sha, id)[2 * i + 1] == ('a' as int + h[i] % 16) as char
  {
    LettersAt(sha(IdInput(id))[..16], i);
  }

  // ----- The merge -----

  /** `buildAppEntry`; the install time is opaque. */
  function BuildAppEntry(app: RegisteredApp, now: string): map<string, Json>
  {
    map[
      "desktop_file_id" := Text(app.id), "vm_type" := Value("0"), "vm_name" := Text("termina"),
      "container_name" := Text("penguin"), "name" := Object(map["" := Text(app.name)]),
      "exec" := Text(app.exec), "executable_file_name" := Text(""), "extensions" := Value("[]"),
      "mime_types" := Value("[]"), "keywords" := Object(map["" := Value("[]")]), "no_display" := Value("false"),
      "terminal" := Value("false"), "startup_wm_class" := Text(app.wmClass), "startup_notify" := Value("false"),
      "package_id" := Text(""), "install_time" := Text(now), "last_launch_time" := Text("")]
  }

  type Entries = map<string, map<string, Json>>

  /** The old entries that are objects; others are dropped. */
  function OldEntries(registry: Json): Entries
  {
    match registry
    case Object(members) => map k | k in members && members[k].Object? :: members[k].members
    case _ => map[]
  }

  /** The loop over the scanned apps: an id that is there already is left alone. */
  function AddApps(sha: Hash, registry: Entries, apps: seq<RegisteredApp>, now: string): Entries
    decreases |apps|
  {
    if apps == [] then registry
    else
      var id := AppId(sha, apps[0].id);
      AddApps(sha, if id in registry then registry else registry[id := BuildAppEntry(apps[0], now)], apps[1..], now)
  }

  /** The registry as it is written back. */
  function ToJson(registry: Entries): Json
  {
    Object(map k | k in registry :: Object(registry[k]))
  }

  function Member(members: map<string, Json>, key: string): Option<Json>
  {
    if key in members then Some(members[key]) else None
  }

  /** The object under a key; any other value, or none, reads as an empty object. */
  function ObjectAt(members: map<string, Json>, key: string): map<string, Json>
  {
    if key in members && members[key].Object? then members[key].members else map[]
  }

  function RegistryOf(prefs: map<string, Json>): Entries
  {
    match Member(ObjectAt(prefs, "crostini"), "registry")
    case None => map[]
    case Some(registry) => OldEntries(registry)
  }

  /** What `main` makes of the preferences. */
  function Update(sha: Hash, prefs: map<string, Json>, apps: seq<RegisteredApp>, now: string): map<string, Json>
  {
    var registry := AddApps(sha, RegistryOf(prefs), apps, now);
    prefs["crostini" := Object(
      ObjectAt(prefs, "crostini")["enabled" := Value("true")]["registry" := ToJson(registry)])]
  }

  /** The merge in `main`, over the preferences that were read. */
  method Merge(sha: Hash, prefs: map<string, Json>, apps: seq<RegisteredApp>, now: string)
    returns (merged: map<string, Json>)
    ensures merged == Update(sha, prefs, apps, now)
  {
    hide AppId, BuildAppEntry;
    var crostini := ObjectAt(prefs, "crostini");
    crostini := crostini["enabled" := Value("true")];
    var registry: Entries := map[];
    if "registry" in crostini {
      registry := OldEntries(crostini["registry"]);
    }
    assert registry == RegistryOf(prefs);
    assert apps[0..] == apps;
    for i := 0 to |apps|
      invariant AddApps(sha, registry, apps[i..], now) == AddApps(sha, RegistryOf(prefs), apps, now)
    {
      assert apps[i..][1..] == apps[i + 1..];
      var id := AppId(sha, apps[i].id);
      if id !in registry {
        registry := registry[id := BuildAppEntry(apps[i], now)];
      }
    }
    crostini := crostini["registry" := ToJson(registry)];
    merged := prefs["crostini" := Object(crostini)];
  }

  // ----- What the merge promises -----

  function Ids(sha: Hash, apps: seq<RegisteredApp>): set<string>
  {
    set i | 0 <= i < |apps| :: AppId(sha, apps[i].id)
  }

  lemma {:induction false} AddedApps(sha: Hash, registry: Entries, apps: seq<RegisteredApp>, now: string)
    ensures var out := AddApps(sha, registry, apps, now);
            && out.Keys == registry.Keys + Ids(sha, apps)
            && (forall k :: k in registry ==> out[k] == registry[k])
            && (forall i :: 0 <= i < |apps| && AppId(sha, apps[i].id) !in registry
                  && (forall j :: 0 <= j < i ==> AppId(sha, apps[j].id) != AppId(sha, apps[i].id))
                  ==> out[AppId(sha, apps[i].id)] == BuildAppEntry(apps[i], now))
    decreases |apps|
  {
    hide AppId, BuildAppEntry;
    if apps != [] {
      var id, tail := AppId(sha, apps[0].id), apps[1..];
      var next := if id in registry then registry else registry[id := BuildAppEntry(apps[0], now)];
      AddedApps(sha, next, tail, now);
      assert forall i :: 0 < i < |apps| ==> apps[i] == tail[i - 1];
      IdsHead(sha, apps);
      var out := AddApps(sha, registry, apps, now);
      forall i | 0 <= i < |apps| && AppId(sha, apps[i].id) !in registry
                  && (forall j :: 0 <= j < i ==> AppId(sha, apps[j].id) != AppId(sha, apps[i].id))
        ensures out[AppId(sha, apps[i].id)] == BuildAppEntry(apps[i], now)
      {
        if i > 0 {
          assert AppId(sha, apps[0].id) != AppId(sha, apps[i].id);
          assert forall j :: 0 <= j < i - 1 ==> tail[j] == apps[j + 1];
        }
      }
    }
  }

  lemma IdsHead(sha: Hash, apps: seq<RegisteredApp>)
    requires apps != []
    ensures Ids(sha, apps) == {AppId(sha, apps[0].id)} + Ids(sha, apps[1..])
  {
  }

  lemma {:induction false} NothingToAdd(sha: Hash, registry: Entries, apps: seq<RegisteredApp>, now: string)
    requires Ids(sha, apps) <= registry.Keys
    ensures AddApps(sha, registry, apps, now) == registry
    decreases |apps|
  {
    hide AppId, BuildAppEntry;
    if apps != [] {
      IdsHead(sha, apps);
      NothingToAdd(sha, registry, apps[1..], now);
    }
  }

  /**
    The registry after a run: its keys are the old object-valued keys and the ids of the scanned apps, old
    entries are as they were, and a new id has the entry of the first app with that id. The rest of the
    preferences is untouched.
   */
  lemma MergeKeeps(sha: Hash, prefs: map<string, Json>, apps: seq<RegisteredApp>, now: string)
    ensures var out := Update(sha, prefs, apps, now);
            && RegistryOf(out).Keys == RegistryOf(prefs).Keys + Ids(sha, apps)
            && (forall k :: k in RegistryOf(prefs) ==> RegistryOf(out)[k] == RegistryOf(prefs)[k])
            && (forall i :: 0 <= i < |apps| && AppId(sha, apps[i].id) !in RegistryOf(prefs)
                  && (forall j :: 0 <= j < i ==> AppId(sha, apps[j].id) != AppId(sha, apps[i].id))
                  ==> RegistryOf(out)[AppId(sha, apps[i].id)] == BuildAppEntry(apps[i], now))
            && (forall k :: k in prefs && k != "crostini" ==> k in out && out[k] == prefs[k])
  {
    UpdatedRegistry(sha, prefs, apps, now);
    hide AppId, BuildAppEntry, RegistryOf, AddApps, Ids;
    AddedApps(sha, RegistryOf(prefs), apps, now);
  }

  lemma UpdatedRegistry(sha: Hash, prefs: map<string, Json>, apps: seq<RegisteredApp>, now: string)
    ensures RegistryOf(Update(sha, prefs, apps, now)) == AddApps(sha, RegistryOf(prefs), apps, now)
  {
  }

  /** A second run with the same apps changes nothing, at whatever time it runs. */
  lemma MergeIsFixpoint(sha: Hash, prefs: map<string, Json>, apps: seq<RegisteredApp>, now: string, later: string)
    ensures var once := Update(sha, prefs, apps, now);
            Update(sha, once, apps, later) == once
  {
    var once := Update(sha, prefs, apps, now);
    UpdatedRegistry(sha, prefs, apps, now);
    MergeKeeps(sha, prefs, apps, now);
    hide AppId, BuildAppEntry, RegistryOf, AddApps, Ids;
    NothingToAdd(sha, RegistryOf(once), apps, later);
    var registry := RegistryOf(once);
    var members := ObjectAt(once, "crostini");
    assert members["enabled"] == Value("true") && members["registry"] == ToJson(registry);
    assert members["enabled" := Value("true")]["registry" := ToJson(registry)] == members;
    assert once["crostini" := Object(members)] == once;
  }

  // ----- The written file, by its members -----

  /** The entry of the registry under `k`, if there is an object there. */
  function EntryAt(prefs: map<string, Json>, k: string): Option<map<string, Json>>
  {
    if "crostini" in prefs && prefs["crostini"].Object? then
      var crostini := prefs["crostini"].members;
      if "registry" in crostini && crostini["registry"].Object? && k in crostini["registry"].members
         && crostini["registry"].members[k].Object?
      then Some(crostini["registry"].members[k].members) else None
    else None
  }

  lemma EntryAtIs(prefs: map<string, Json>, k: string)
    ensures EntryAt(prefs, k) == if k in RegistryOf(prefs) then Some(RegistryOf(prefs)[k]) else None
  {
  }

  /** What a new entry says. */
  ghost predicate NewEntry(e: map<string, Json>, app: RegisteredApp, now: string)
  {
    && e.Keys == {"desktop_file_id", "vm_type", "vm_name", "container_name", "name", "exec", "executable_file_name",
                  "extensions", "mime_types", "keywords", "no_display", "terminal", "startup_wm_class",
                  "startup_notify", "package_id", "install_time", "last_launch_time"}
    && e["desktop_file_id"] == Text(app.id) && e["name"] == Object(map["" := Text(app.name)])
    && e["exec"] == Text(app.exec) && e["startup_wm_class"] == Text(app.wmClass) && e["install_time"] == Text(now)
    && e["vm_type"] == Value("0") && e["vm_name"] == Text("termina") && e["container_name"] == Text("penguin")
    && e["no_display"] == e["terminal"] == e["startup_notify"] == Value("false")
    && e["executable_file_name"] == e["package_id"] == e["last_launch_time"] == Text("")
    && e["extensions"] == e["mime_types"] == Value("[]") && e["keywords"] == Object(map["" := Value("[]")])
  }

  lemma BuiltEntry(app: RegisteredApp, now: string)
    ensures NewEntry(BuildAppEntry(app, now), app, now)
  {
    BuiltKeys(app, now);
    var e := BuildAppEntry(app, now);
    assert e["vm_type"] == Value("0") && e["vm_name"] == Text("termina") && e["container_name"] == Text("penguin");
  }

  lemma BuiltKeys(app: RegisteredApp, now: string)
    ensures BuildAppEntry(app, now).Keys
            == {"desktop_file_id", "vm_type", "vm_name", "container_name", "name", "exec", "executable_file_name",
                "extensions", "mime_types", "keywords", "no_display", "terminal", "startup_wm_class",
                "startup_notify", "package_id", "install_time", "last_launch_time"}
  {
  }

  /** Members of the crostini object other than these two are left alone. */
  lemma OtherMembersStay(sha: Hash, prefs: map<string, Json>, apps: seq<RegisteredApp>, now: string)
    ensures var out := Update(sha, prefs, apps, now);
            && out.Keys == prefs.Keys + {"crostini"} && out["crostini"].Object?
            && var after := out["crostini"].members;
            && "enabled" in after && after["enabled"] == Value("true")
            && "registry" in after && after["registry"].Object?
            && (forall k :: k in after["registry"].members ==> after["registry"].members[k].Object?)
            && var before := if "crostini" in prefs && prefs["crostini"].Object? then prefs["crostini"].members
                             else map[];
            && after.Keys == before.Keys + {"enabled", "registry"}
            && forall k :: k in before && k != "enabled" && k != "registry" ==> after[k] == before[k]
  {
    hide AddApps, RegistryOf;
  }

  /** Old entries stay, and a new id has a new entry of the first app with that id. */
  lemma EntriesWritten(sha: Hash, prefs: map<string, Json>, apps: seq<RegisteredApp>, now: string)
    ensures var out := Update(sha, prefs, apps, now);
            && (forall k :: EntryAt(prefs, k).Some? ==> EntryAt(out, k) == EntryAt(prefs, k))
            && (forall k :: EntryAt(out, k).Some? ==> EntryAt(prefs, k).Some? || k in Ids(sha, apps))
            && (forall i :: 0 <= i < |apps| && EntryAt(prefs, AppId(sha, apps[i].id)).None?
                  && (forall j :: 0 <= j < i ==> AppId(sha, apps[j].id) != AppId(sha, apps[i].id))
                  ==> EntryAt(out, AppId(sha, apps[i].id)).Some?
                      && NewEntry(EntryAt(out, AppId(sha, apps[i].id)).value, apps[i], now))
  {
    hide *;
    var out := Update(sha, prefs, apps, now);
    MergeKeeps(sha, prefs, apps, now);
    forall k
      ensures EntryAt(prefs, k) == if k in RegistryOf(prefs) then Some(RegistryOf(prefs)[k]) else None
      ensures EntryAt(out, k) == if k in RegistryOf(out) then Some(RegistryOf(out)[k]) else None
    {
      EntryAtIs(prefs, k);
      EntryAtIs(out, k);
    }
    forall i | 0 <= i < |apps|
      ensures NewEntry(BuildAppEntry(apps[i], now), apps[i], now)
      ensures AppId(sha, apps[i].id) in Ids(sha, apps)
    {
      BuiltEntry(apps[i], now);
      InIds(sha, apps, i);
    }
  }

  lemma InIds(sha: Hash, apps: seq<RegisteredApp>, i: nat)
    requires i < |apps|
    ensures AppId(sha, apps[i].id) in Ids(sha, apps)
  {
  }
}
