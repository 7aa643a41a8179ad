/**
  The shill bridge's view of NetworkManager: device and connection lists become shill devices and services
  under dense object paths.
 */
module Network {
  import opened Sequences

  // ----- Object paths -----

  /** `fmt.Sprintf("%d", n)` */
  function Decimal(n: nat): string
  {
    Numeral(n, Digit)
  }

  function Digit(d: nat): char
  {
    ('0' as int + d % 10) as char
  }

  function DigitValue(c: char): nat
  {
    if '0' <= c <= '9' then c as int - '0' as int else 0
  }

  function DevicePath(j: nat): string
  {
    "/device/" + Decimal(j)
  }

  function ServicePath(i: nat): string
  {
    "/service/" + Decimal(i)
  }

  /** Paths name their index: different devices, and different services, have different paths. */
  lemma PathsInjective(i: nat, j: nat)
    ensures DevicePath(i) == DevicePath(j) ==> i == j
    ensures ServicePath(i) == ServicePath(j) ==> i == j
    ensures DevicePath(i) != ServicePath(j)
  {
    hide Numeral, Number;
    NumeralInverts(i, Digit, DigitValue);
    NumeralInverts(j, Digit, DigitValue);
    assert DevicePath(i)[8..] == Decimal(i) && DevicePath(j)[8..] == Decimal(j);
    assert ServicePath(i)[9..] == Decimal(i) && ServicePath(j)[9..] == Decimal(j);
    assert DevicePath(i)[1] == 'd' && ServicePath(j)[1] == 's';
  }

  // ----- What NetworkManager reports -----

  /** A device; its type is missing when the property could not be read. */
  datatype NmDevice = NmDevice(path: string, deviceType: Option<nat>, iface: string)

  /** An active connection; `strength` is what `wifiStrength` would find for its devices. */
  datatype NmConnection =
    NmConnection(rawType: string, id: string, state: nat, devices: seq<string>, strength: nat)

  /** One query of NetworkManager; a missing part is a failed property read. */
  datatype Snapshot = Snapshot(
    state: Option<nat>, devices: Option<seq<NmDevice>>, active: Option<seq<NmConnection>>)

  datatype DeviceInfo = DeviceInfo(
    path: string, devType: string, iface: string, name: string, powered: bool, scanning: bool)

  datatype ServiceInfo = ServiceInfo(
    path: string, connType: string, name: string, state: string, strength: nat, guid: string, devicePath: string,
    visible: bool)

  function NmToShillState(nm: nat): (s: string)
    ensures s != ""
  {
    if nm == 70 then "online"
    else if nm == 60 || nm == 50 then "portal"
    else if nm == 40 then "association"
    else "offline"
  }

  function NmAcToShillState(nm: nat): string
  {
    if nm == 2 then "online" else if nm == 1 then "association" else "idle"
  }

  function NmDeviceTypeToShill(nm: nat): string
  {
    if nm == 1 then "ethernet" else if nm == 2 then "wifi" else ""
  }

  /** `strings.Contains` */
  predicate Contains(s: string, part: string)
  {
    part <= s || (s != [] && Contains(s[1..], part))
  }

  /** The connection type; none for connections that are skipped. */
  function ConnType(rawType: string): Option<string>
  {
    if Contains(rawType, "wireless") || Contains(rawType, "wifi") then Some("wifi")
    else if rawType == "802-3-ethernet" || rawType == "ethernet" then Some("ethernet")
    else None
  }

  // ----- Which devices and connections are kept -----

  predicate Kept(d: NmDevice)
  {
    d.deviceType.Some? && NmDeviceTypeToShill(d.deviceType.value) != ""
  }

  function KeptDevices(nm: seq<NmDevice>): (r: seq<NmDevice>)
    ensures forall i :: 0 <= i < |r| ==> r[i] in nm && Kept(r[i])
  {
    if nm == [] then []
    else
      var front, last := KeptDevices(nm[..|nm| - 1]), nm[|nm| - 1];
      if Kept(last) then front + [last] else front
  }

  function KeptConnections(active: seq<NmConnection>): (r: seq<NmConnection>)
    ensures forall i :: 0 <= i < |r| ==> r[i] in active && ConnType(r[i].rawType).Some?
  {
    if active == [] then []
    else
      var front, last := KeptConnections(active[..|active| - 1]), active[|active| - 1];
      if ConnType(last.rawType).Some? then front + [last] else front
  }

  /** The device built from the `j`-th kept NetworkManager device. */
  function DeviceFrom(d: NmDevice, j: nat): DeviceInfo
    requires Kept(d)
  {
    var devType := NmDeviceTypeToShill(d.deviceType.value);
    DeviceInfo(DevicePath(j), devType, d.iface, if d.iface == "" then devType + Decimal(j) else d.iface, true, false)
  }

  function DevicesFrom(kept: seq<NmDevice>): (r: seq<DeviceInfo>)
    requires forall i :: 0 <= i < |kept| ==> Kept(kept[i])
    ensures |r| == |kept|
  {
    seq(|kept|, j requires 0 <= j < |kept| => DeviceFrom(kept[j], j))
  }

  function PathsOf(kept: seq<NmDevice>): (r: seq<string>)
    ensures |r| == |kept|
  {
    seq(|kept|, j requires 0 <= j < |kept| => kept[j].path)
  }

  /** The last index of a path, as the map built by overwriting gives it. */
  function LastIndex(paths: seq<string>, path: string): (r: Option<nat>)
    ensures r.Some? ==> r.value < |paths| && paths[r.value] == path
    ensures r.Some? ==> path !in paths[r.value + 1..]
    ensures r.None? <==> path !in paths
  {
    if paths == [] then None
    else if paths[|paths| - 1] == path then Some(|paths| - 1)
    else
      var front := paths[..|paths| - 1];
      var r := LastIndex(front, path);
      assert paths == front + [paths[|paths| - 1]];
      assert r.Some? ==> paths[r.value + 1..] == front[r.value + 1..] + [paths[|paths| - 1]];
      r
  }

  /** The device path of a connection: that of the device built from its first NetworkManager device. */
  function DevicePathOf(c: NmConnection, matched: seq<string>): string
  {
    if c.devices == [] then ""
    else
      match LastIndex(matched, c.devices[0])
      case None => ""
      case Some(j) => DevicePath(j)
  }

  function ServiceFrom(c: NmConnection, i: nat, matched: seq<string>): ServiceInfo
    requires ConnType(c.rawType).Some?
  {
    var connType := ConnType(c.rawType).value;
    ServiceInfo(
      ServicePath(i), connType, c.id, NmAcToShillState(c.state), if connType == "wifi" then c.strength else 0,
      c.id + "_guid", DevicePathOf(c, matched), true)
  }

  function ServicesFrom(kept: seq<NmConnection>, matched: seq<string>): (r: seq<ServiceInfo>)
    requires forall i :: 0 <= i < |kept| ==> ConnType(kept[i].rawType).Some?
    ensures |r| == |kept|
  {
    seq(|kept|, i requires 0 <= i < |kept| => ServiceFrom(kept[i], i, matched))
  }

  datatype View = View(state: string, services: seq<ServiceInfo>, devices: seq<DeviceInfo>)

  function NmDevices(s: Snapshot): seq<NmDevice>
  {
    if s.devices.Some? then KeptDevices(s.devices.value) else []
  }

  function NmConnections(s: Snapshot): seq<NmConnection>
  {
    if s.active.Some? then KeptConnections(s.active.value) else []
  }

  /** What a query makes of a snapshot; none when the overall state cannot be read. */
  function Query(s: Snapshot): Option<View>
  {
    if s.state.None? then None
    else
      var kept := NmDevices(s);
      Some(View(NmToShillState(s.state.value), ServicesFrom(NmConnections(s), PathsOf(kept)), DevicesFrom(kept)))
  }

  // ----- What the records say -----

  /** Decimal numerals, digit by digit. */
  lemma DecimalIs(n: nat, d: nat)
    requires d < 10
    ensures Decimal(d) == ["0123456789"[d]]
    ensures n > 0 ==> Decimal(10 * n + d) == Decimal(n) + ["0123456789"[d]]
  {
  }

  lemma {:induction false} ContainsExactly(s: string, part: string)
    ensures Contains(s, part) <==> exists i :: 0 <= i <= |s| && part <= s[i..]
    decreases |s|
  {
    if part <= s {
      assert s[0..] == s;
    } else if s != [] {
      ContainsExactly(s[1..], part);
      if Contains(s, part) {
        var i :| 0 <= i <= |s[1..]| && part <= s[1..][i..];
        assert s[1..][i..] == s[i + 1..];
      }
      TailsOf(s, part);
    }
  }

  lemma TailsOf(s: string, part: string)
    requires s != []
    ensures (exists i :: 0 <= i <= |s| && part <= s[i..]) ==>
              part <= s || exists i :: 0 <= i <= |s[1..]| && part <= s[1..][i..]
  {
    assert s[0..] == s;
    assert forall i :: 1 <= i <= |s| ==> s[1..][i - 1..] == s[i..];
  }

  /** The states and types of NetworkManager, by their numbers and names. */
  lemma NumbersMean(n: nat)
    ensures NmToShillState(n) == "online" <==> n == 70
    ensures NmToShillState(n) == "portal" <==> n == 50 || n == 60
    ensures NmToShillState(n) == "association" <==> n == 40
    ensures NmToShillState(n) == "offline" <==> n !in {40, 50, 60, 70}
    ensures NmAcToShillState(n) == "online" <==> n == 2
    ensures NmAcToShillState(n) == "association" <==> n == 1
    ensures NmAcToShillState(n) == "idle" <==> n != 1 && n != 2
    ensures NmDeviceTypeToShill(n) == "ethernet" <==> n == 1
    ensures NmDeviceTypeToShill(n) == "wifi" <==> n == 2
    ensures NmDeviceTypeToShill(n) == "" <==> n != 1 && n != 2
  {
  }

  lemma ConnectionTypes(rawType: string)
    ensures ConnType(rawType) == Some("wifi") <==>
              exists i :: 0 <= i <= |rawType| && ("wireless" <= rawType[i..] || "wifi" <= rawType[i..])
    ensures ConnType(rawType) == Some("ethernet") <==> rawType == "802-3-ethernet" || rawType == "ethernet"
    ensures ConnType(rawType) in {Some("wifi"), Some("ethernet"), None}
  {
    ContainsExactly(rawType, "wireless");
    ContainsExactly(rawType, "wifi");
    NotWireless("802-3-ethernet");
    NotWireless("ethernet");
    hide Contains;
  }

  lemma NotWireless(s: string)
    requires s == "802-3-ethernet" || s == "ethernet"
    ensures !Contains(s, "wireless") && !Contains(s, "wifi")
  {
    assert 'w' !in s;
    NoLetter(s, "wireless");
    NoLetter(s, "wifi");
  }

  lemma HeadOf(s: string, part: string, i: nat)
    requires part != "" && i <= |s|
    ensures part <= s[i..] ==> part[0] in s
  {
    if part <= s[i..] {
      assert s[i..][0] == s[i];
    }
  }

  lemma NoLetter(s: string, part: string)
    requires part != "" && part[0] !in s
    ensures !Contains(s, part)
  {
    ContainsExactly(s, part);
    forall i | 0 <= i <= |s|
      ensures !(part <= s[i..])
    {
      HeadOf(s, part, i);
    }
  }

  /** Devices of type 1 and 2 are kept, and connections of a known type, each in their order. */
  lemma KeptInOrder(nm: seq<NmDevice>, d: NmDevice, active: seq<NmConnection>, c: NmConnection)
    ensures KeptDevices([]) == [] && KeptConnections([]) == []
    ensures KeptDevices(nm + [d])
            == if d.deviceType == Some(1) || d.deviceType == Some(2) then KeptDevices(nm) + [d] else KeptDevices(nm)
    ensures KeptConnections(active + [c])
            == if ConnType(c.rawType).Some? then KeptConnections(active) + [c] else KeptConnections(active)
  {
    hide ConnType;
    assert (nm + [d])[..|nm|] == nm && (active + [c])[..|active|] == active;
  }

  /** The records of a view, field by field. */
  ghost predicate DeviceSays(r: DeviceInfo, d: NmDevice, j: nat)
  {
    && r.path == "/device/" + Decimal(j)
    && (d.deviceType == Some(1) ==> r.devType == "ethernet") && (d.deviceType == Some(2) ==> r.devType == "wifi")
    && r.iface == d.iface
    && (d.iface != "" ==> r.name == d.iface) && (d.iface == "" ==> r.name == r.devType + Decimal(j))
    && r.powered && !r.scanning
  }

  ghost predicate ServiceSays(r: ServiceInfo, c: NmConnection, i: nat)
  {
    && r.path == "/service/" + Decimal(i)
    && Some(r.connType) == ConnType(c.rawType) && r.name == c.id && r.guid == c.id + "_guid" && r.visible
    && (r.state == "online" <==> c.state == 2) && (r.state == "association" <==> c.state == 1)
    && (r.state == "idle" <==> c.state != 1 && c.state != 2)
    && r.strength == (if r.connType == "wifi" then c.strength else 0)
  }

  lemma ViewSays(s: Snapshot)
    requires Query(s).Some?
    ensures var view := Query(s).value;
            && s.state.Some? && view.state == NmToShillState(s.state.value)
            && |view.devices| == |NmDevices(s)| && |view.services| == |NmConnections(s)|
            && (forall j :: 0 <= j < |view.devices| ==> DeviceSays(view.devices[j], NmDevices(s)[j], j))
            && (forall i :: 0 <= i < |view.services| ==> ServiceSays(view.services[i], NmConnections(s)[i], i))
            && NmDevices(s) == (if s.devices.Some? then KeptDevices(s.devices.value) else [])
            && NmConnections(s) == (if s.active.Some? then KeptConnections(s.active.value) else [])
  {
    hide ConnType, KeptDevices, KeptConnections, Decimal, LastIndex, NmToShillState;
  }

  // ----- The loops -----

  /** `queryNMDevices` */
  method QueryNMDevices(nm: seq<NmDevice>) returns (devices: seq<DeviceInfo>, matched: seq<string>)
    ensures devices == DevicesFrom(KeptDevices(nm)) && matched == PathsOf(KeptDevices(nm))
  {
    hide DeviceFrom;
    devices, matched := [], [];
    for i := 0 to |nm|
      invariant devices == DevicesFrom(KeptDevices(nm[..i])) && matched == PathsOf(KeptDevices(nm[..i]))
    {
      var d := nm[i];
      assert nm[..i + 1][..i] == nm[..i];
      if d.deviceType.None? || NmDeviceTypeToShill(d.deviceType.value) == "" {
        continue;
      }
      devices := devices + [DeviceFrom(d, |devices|)];
      matched := matched + [d.path];
    }
    assert nm[..|nm|] == nm;
  }

  /** The index built over the matched paths: later duplicates overwrite earlier ones. */
  method IndexPaths(matched: seq<string>) returns (index: map<string, nat>)
    ensures forall p :: p in index <==> LastIndex(matched, p).Some?
    ensures forall p :: p in index ==> LastIndex(matched, p) == Some(index[p])
  {
    index := map[];
    for i := 0 to |matched|
      invariant forall p :: p in index <==> LastIndex(matched[..i], p).Some?
      invariant forall p :: p in index ==> LastIndex(matched[..i], p) == Some(index[p])
    {
      assert matched[..i + 1][..i] == matched[..i];
      index := index[matched[i] := i];
    }
    assert matched[..|matched|] == matched;
  }

  /** `queryNM` */
  method QueryNM(s: Snapshot) returns (view: Option<View>)
    ensures view == Query(s)
  {
    if s.state.None? {
      return None;
    }
    var managerState := NmToShillState(s.state.value);
    var devices, matched := QueryNMDevices(if s.devices.Some? then s.devices.value else []);
    var index := IndexPaths(matched);
    if s.active.None? {
      return Some(View(managerState, [], devices));
    }
    var services := QueryServices(s.active.value, matched, index);
    return Some(View(managerState, services, devices));
  }

  /** The loop of `queryNM` over the active connections. */
  method QueryServices(active: seq<NmConnection>, ghost matched: seq<string>, index: map<string, nat>)
    returns (services: seq<ServiceInfo>)
    requires forall p :: p in index <==> LastIndex(matched, p).Some?
    requires forall p :: p in index ==> LastIndex(matched, p) == Some(index[p])
    ensures services == ServicesFrom(KeptConnections(active), matched)
  {
    hide ConnType, LastIndex, NmAcToShillState, ServicePath, DevicePath;
    services := [];
    for i := 0 to |active|
      invariant services == ServicesFrom(KeptConnections(active[..i]), matched)
    {
      var c := active[i];
      assert active[..i + 1][..i] == active[..i];
      var connType := ConnType(c.rawType);
      var devPath := "";
      if |c.devices| > 0 {
        if c.devices[0] in index {
          devPath := DevicePath(index[c.devices[0]]);
        }
      }
      if connType.None? {
        continue;
      }
      var strength := if connType.value == "wifi" then c.strength else 0;
      services := services + [ServiceInfo(
        ServicePath(|services|), connType.value, c.id, NmAcToShillState(c.state), strength, c.id + "_guid",
        devPath, true)];
    }
    assert active[..|active|] == active;
  }

  // ----- Reference integrity -----

  ghost predicate DenseServices(services: seq<ServiceInfo>)
  {
    forall i :: 0 <= i < |services| ==> services[i].path == ServicePath(i)
  }

  ghost predicate DenseDevices(devices: seq<DeviceInfo>)
  {
    forall j :: 0 <= j < |devices| ==> devices[j].path == DevicePath(j)
  }

  /**
    Every query gives dense, pairwise distinct paths, and the device path of a service is empty exactly when
    its first NetworkManager device is not among the kept ones, and otherwise is the path of a listed device
    built from that NetworkManager device.
   */
  lemma ReferenceIntegrity(s: Snapshot)
    requires Query(s).Some?
    ensures var view := Query(s).value;
            && DenseServices(view.services) && DenseDevices(view.devices)
            && (forall i, j :: 0 <= i < j < |view.services| ==> view.services[i].path != view.services[j].path)
            && (forall i, j :: 0 <= i < j < |view.devices| ==> view.devices[i].path != view.devices[j].path)
            && (forall i, j :: 0 <= i < |view.services| && 0 <= j < |view.devices| ==>
                  view.services[i].path != view.devices[j].path)
    ensures var view, kept := Query(s).value, NmDevices(s);
            |view.services| == |NmConnections(s)| && |view.devices| == |kept| &&
            forall i :: 0 <= i < |view.services| ==> RefersTo(view.services[i], NmConnections(s)[i], view.devices, kept)
  {
    hide ConnType, Kept, Decimal, ServicePath, DevicePath, KeptDevices, KeptConnections, LastIndex;
    forall i: nat, j: nat
      ensures DevicePath(i) == DevicePath(j) ==> i == j
      ensures ServicePath(i) == ServicePath(j) ==> i == j
      ensures DevicePath(i) != ServicePath(j)
    {
      PathsInjective(i, j);
    }
  }

  /** The service built from `c` points to no device, or to the one built from the first device of `c`. */
  ghost predicate RefersTo(service: ServiceInfo, c: NmConnection, devices: seq<DeviceInfo>, kept: seq<NmDevice>)
    requires |devices| == |kept|
  {
    if c.devices == [] || c.devices[0] !in PathsOf(kept) then service.devicePath == ""
    else exists j :: 0 <= j < |devices| && service.devicePath == devices[j].path && kept[j].path == c.devices[0]
  }

  // ----- Exported objects -----

  /** `syncServiceObjects`: exporting replaces what was exported under a path and never removes anything. */
  method SyncServiceObjects(exported: map<string, ServiceInfo>, services: seq<ServiceInfo>)
    returns (r: map<string, ServiceInfo>)
    requires DenseServices(services)
    ensures forall i :: 0 <= i < |services| ==> services[i].path in r && r[services[i].path] == services[i]
    ensures forall p :: p in exported && (forall i :: 0 <= i < |services| ==> services[i].path != p) ==>
              p in r && r[p] == exported[p]
  {
    hide ServicePath;
    r := exported;
    for k := 0 to |services|
      invariant forall i :: 0 <= i < k ==> services[i].path in r && r[services[i].path] == services[i]
      invariant forall p :: p in exported && (forall i :: 0 <= i < k ==> services[i].path != p) ==>
                  p in r && r[p] == exported[p]
    {
      forall i | 0 <= i < k
        ensures services[i].path != services[k].path
      {
        PathsInjective(i, k);
      }
      r := r[services[k].path := services[k]];
    }
  }

  /** `syncDeviceObjects` */
  method SyncDeviceObjects(exported: map<string, DeviceInfo>, devices: seq<DeviceInfo>)
    returns (r: map<string, DeviceInfo>)
    requires DenseDevices(devices)
    ensures forall j :: 0 <= j < |devices| ==> devices[j].path in r && r[devices[j].path] == devices[j]
    ensures forall p :: p in exported && (forall j :: 0 <= j < |devices| ==> devices[j].path != p) ==>
              p in r && r[p] == exported[p]
  {
    hide DevicePath;
    r := exported;
    for k := 0 to |devices|
      invariant forall j :: 0 <= j < k ==> devices[j].path in r && r[devices[j].path] == devices[j]
      invariant forall p :: p in exported && (forall j :: 0 <= j < k ==> devices[j].path != p) ==>
                  p in r && r[p] == exported[p]
    {
      forall j | 0 <= j < k
        ensures devices[j].path != devices[k].path
      {
        PathsInjective(j, k);
      }
      r := r[devices[k].path := devices[k]];
    }
  }
}
