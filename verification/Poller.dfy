/**
  The poll loop of the shill bridge: it stores each query's result and announces changes, comparing only the
  lengths of the service and device lists.
 */
module Poller {
  import opened Sequences
  import opened Network

  /** A `PropertyChanged` signal of the manager. */
  datatype Emission =
    | StateChanged(state: string)
    | ServicesChanged(paths: seq<string>)
    | DevicesChanged(paths: seq<string>)

  function ServicePaths(services: seq<ServiceInfo>): (r: seq<string>)
    ensures |r| == |services|
  {
    seq(|services|, i requires 0 <= i < |services| => services[i].path)
  }

  function DevicePaths(devices: seq<DeviceInfo>): (r: seq<string>)
    ensures |r| == |devices|
  {
    seq(|devices|, j requires 0 <= j < |devices| => devices[j].path)
  }

  // ----- What an observer of the signals knows -----

  function LastState(log: seq<Emission>): Option<string>
  {
    if log == [] then None
    else if log[|log| - 1].StateChanged? then Some(log[|log| - 1].state)
    else LastState(log[..|log| - 1])
  }

  function LastServices(log: seq<Emission>): Option<seq<string>>
  {
    if log == [] then None
    else if log[|log| - 1].ServicesChanged? then Some(log[|log| - 1].paths)
    else LastServices(log[..|log| - 1])
  }

  function LastDevices(log: seq<Emission>): Option<seq<string>>
  {
    if log == [] then None
    else if log[|log| - 1].DevicesChanged? then Some(log[|log| - 1].paths)
    else LastDevices(log[..|log| - 1])
  }

  lemma Observes(log: seq<Emission>, e: Emission)
    ensures LastState(log + [e]) == if e.StateChanged? then Some(e.state) else LastState(log)
    ensures LastServices(log + [e]) == if e.ServicesChanged? then Some(e.paths) else LastServices(log)
    ensures LastDevices(log + [e]) == if e.DevicesChanged? then Some(e.paths) else LastDevices(log)
  {
  }

  // ----- One tick -----

  /** The manager's view, the loop's variables, and the signals sent so far. */
  datatype Loop = Loop(
    view: View, lastState: string, lastSvcCount: int, lastDevCount: int, log: seq<Emission>)

  function Start(view: View): Loop
  {
    Loop(view, "", -1, -1, [])
  }

  /** The signals of a tick. */
  function Announce(l: Loop, view: View): seq<Emission>
  {
    (if view.state != l.lastState then [StateChanged(view.state)] else [])
    + (if |view.services| != l.lastSvcCount then [ServicesChanged(ServicePaths(view.services))] else [])
    + (if |view.devices| != l.lastDevCount then [DevicesChanged(DevicePaths(view.devices))] else [])
  }

  /** A tick: a failed query changes nothing. */
  function Tick(l: Loop, s: Snapshot): Loop
  {
    match Query(s)
    case None => l
    case Some(view) => Loop(view, view.state, |view.services|, |view.devices|, l.log + Announce(l, view))
  }

  function Ticks(l: Loop, snapshots: seq<Snapshot>): Loop
    decreases |snapshots|
  {
    if snapshots == [] then l else Ticks(Tick(l, snapshots[0]), snapshots[1..])
  }

  // ----- The program -----

  class Manager {
    var state: string
    var services: seq<ServiceInfo>
    var devices: seq<DeviceInfo>
    var exportedServices: map<string, ServiceInfo>
    var exportedDevices: map<string, DeviceInfo>
    var lastState: string
    var lastSvcCount: int
    var lastDevCount: int
    var log: seq<Emission>

    ghost function Now(): Loop
      reads this
    {
      Loop(View(state, services, devices), lastState, lastSvcCount, lastDevCount, log)
    }

    /** Every listed object is exported with its current record. */
    ghost predicate Exported()
      reads this
    {
      && (forall i :: 0 <= i < |services| ==>
            services[i].path in exportedServices && exportedServices[services[i].path] == services[i])
      && (forall j :: 0 <= j < |devices| ==>
            devices[j].path in exportedDevices && exportedDevices[devices[j].path] == devices[j])
    }

    /** The start of `main`: one query before the loop, which announces nothing. */
    constructor (s: Snapshot)
      ensures Now() == Start(match Query(s) case Some(view) => view case None => View("offline", [], []))
      ensures Exported()
    {
      state, services, devices := "offline", [], [];
      exportedServices, exportedDevices := map[], map[];
      lastState, lastSvcCount, lastDevCount, log := "", -1, -1, [];
      new;
      var view := QueryNM(s);
      if view.Some? {
        Store(s, view.value);
      }
    }

    /** Storing a query's result and exporting its objects. */
    method Store(ghost s: Snapshot, view: View)
      requires Query(s) == Some(view)
      modifies this`state, this`services, this`devices, this`exportedServices, this`exportedDevices
      ensures View(state, services, devices) == view && Exported()
    {
      ReferenceIntegrity(s);
      state, services, devices := view.state, view.services, view.devices;
      exportedServices := SyncServiceObjects(exportedServices, view.services);
      exportedDevices := SyncDeviceObjects(exportedDevices, view.devices);
    }

    /** The body of the poll loop. */
    method Poll(s: Snapshot)
      modifies this
      ensures Now() == Tick(old(Now()), s)
      ensures Query(s).Some? || old(Exported()) ==> Exported()
    {
      hide Query, DenseServices, DenseDevices;
      var query := QueryNM(s);
      if query.None? {
        return;
      }
      var view := query.value;
      Store(s, view);
      Send(view);
    }

    /** The second half of the body: signals for what has changed. */
    method Send(view: View)
      modifies this`log, this`lastState, this`lastSvcCount, this`lastDevCount
      ensures log == old(log) + Announce(old(Now()), view)
      ensures lastState == view.state && lastSvcCount == |view.services| && lastDevCount == |view.devices|
    {
      var paths := ServicePaths(view.services);
      var devicePaths := DevicePaths(view.devices);
      if view.state != lastState {
        log := log + [StateChanged(view.state)];
        lastState := view.state;
      }
      if |view.services| != lastSvcCount {
        log := log + [ServicesChanged(paths)];
        lastSvcCount := |view.services|;
      }
      if |view.devices| != lastDevCount {
        log := log + [DevicesChanged(devicePaths)];
        lastDevCount := |view.devices|;
      }
    }
  }

  // ----- The observer agrees -----

  /** An observer of the signals knows the manager's state and both path lists. */
  ghost predicate Agrees(l: Loop)
  {
    && LastState(l.log) == Some(l.view.state)
    && LastServices(l.log) == Some(ServicePaths(l.view.services))
    && LastDevices(l.log) == Some(DevicePaths(l.view.devices))
  }

  /** Before the first successful tick nothing was said; afterwards the observer agrees and the counts are current. */
  ghost predicate Consistent(l: Loop)
  {
    || (l.lastState == "" && l.lastSvcCount == -1 && l.lastDevCount == -1 && l.log == [])
    || (Agrees(l) && DenseServices(l.view.services) && DenseDevices(l.view.devices)
        && l.lastState == l.view.state && l.lastSvcCount == |l.view.services| && l.lastDevCount == |l.view.devices|)
  }

  /** Dense lists of equal length are equal as lists of paths. */
  lemma DensePaths(a: seq<ServiceInfo>, b: seq<ServiceInfo>, c: seq<DeviceInfo>, d: seq<DeviceInfo>)
    requires DenseServices(a) && DenseServices(b) && DenseDevices(c) && DenseDevices(d)
    ensures |a| == |b| ==> ServicePaths(a) == ServicePaths(b)
    ensures |c| == |d| ==> DevicePaths(c) == DevicePaths(d)
  {
  }

  /** After every successful tick the observer agrees with the manager. */
  lemma TickAgrees(l: Loop, s: Snapshot)
    requires Consistent(l)
    ensures Consistent(Tick(l, s))
    ensures Query(s).Some? ==> Agrees(Tick(l, s))
  {
    if Query(s).Some? {
      var view := Query(s).value;
      ReferenceIntegrity(s);
      if Agrees(l) && DenseServices(l.view.services) && DenseDevices(l.view.devices) {
        DensePaths(view.services, l.view.services, view.devices, l.view.devices);
      }
      hide Query, LastState, LastServices, LastDevices;
      assert view.state != "" by { StateNamed(s); }
      Announced(l, view);
    }
  }

  lemma StateNamed(s: Snapshot)
    requires Query(s).Some?
    ensures Query(s).value.state != ""
  {
  }

  /** What the observer knows after the signals of a tick. */
  lemma Announced(l: Loop, view: View)
    ensures var log := l.log + Announce(l, view);
            && LastState(log) == (if view.state != l.lastState then Some(view.state) else LastState(l.log))
            && LastServices(log)
               == (if |view.services| != l.lastSvcCount then Some(ServicePaths(view.services)) else LastServices(l.log))
            && LastDevices(log)
               == (if |view.devices| != l.lastDevCount then Some(DevicePaths(view.devices)) else LastDevices(l.log))
  {
    hide LastState, LastServices, LastDevices;
    var a := if view.state != l.lastState then [StateChanged(view.state)] else [];
    var b := if |view.services| != l.lastSvcCount then [ServicesChanged(ServicePaths(view.services))] else [];
    var c := if |view.devices| != l.lastDevCount then [DevicesChanged(DevicePaths(view.devices))] else [];
    var log1 := l.log + a;
    var log2 := log1 + b;
    Observes(l.log, StateChanged(view.state));
    Observes(log1, ServicesChanged(ServicePaths(view.services)));
    Observes(log2, DevicesChanged(DevicePaths(view.devices)));
    assert l.log + Announce(l, view) == log2 + c;
    assert a == [] ==> log1 == l.log;
    assert b == [] ==> log2 == log1;
    assert c == [] ==> log2 + c == log2;
  }

  /** The kinds of signals in the order they are sent. */
  function Kind(e: Emission): nat
  {
    match e
    case StateChanged(_) => 0
    case ServicesChanged(_) => 1
    case DevicesChanged(_) => 2
  }

  /**
    A tick tells an observer nothing it knows: each signal is of news, at most one of a kind, state before services
    before devices. What was sent before stays.
   */
  lemma OnlyNews(l: Loop, s: Snapshot)
    requires Consistent(l)
    ensures l.log <= Tick(l, s).log
    ensures var sent := Tick(l, s).log[|l.log|..];
            && (forall i :: 0 <= i < |sent| ==>
                  && (sent[i].StateChanged? ==> LastState(l.log) != Some(sent[i].state))
                  && (sent[i].ServicesChanged? ==> LastServices(l.log) != Some(sent[i].paths))
                  && (sent[i].DevicesChanged? ==> LastDevices(l.log) != Some(sent[i].paths)))
            && (forall i, j :: 0 <= i < j < |sent| ==> Kind(sent[i]) < Kind(sent[j]))
  {
    if Query(s).Some? {
      var view := Query(s).value;
      assert Tick(l, s).log[|l.log|..] == Announce(l, view);
      hide Query, LastState, LastServices, LastDevices, Announce;
      NothingSaid();
      News(l, view, LastState(l.log), LastServices(l.log), LastDevices(l.log));
    } else {
      assert Tick(l, s).log[|l.log|..] == [];
    }
  }

  lemma News(
    l: Loop, view: View, state: Option<string>, services: Option<seq<string>>, devices: Option<seq<string>>)
    requires state == None || state == Some(l.lastState)
    requires services == None || |services.value| == l.lastSvcCount
    requires devices == None || |devices.value| == l.lastDevCount
    ensures var sent := Announce(l, view);
            && (forall i :: 0 <= i < |sent| ==>
                  && (sent[i].StateChanged? ==> state != Some(sent[i].state))
                  && (sent[i].ServicesChanged? ==> services != Some(sent[i].paths))
                  && (sent[i].DevicesChanged? ==> devices != Some(sent[i].paths)))
            && (forall i, j :: 0 <= i < j < |sent| ==> Kind(sent[i]) < Kind(sent[j]))
  {
    hide ServicePaths, DevicePaths;
  }

  lemma NothingSaid()
    ensures LastState([]) == None && LastServices([]) == None && LastDevices([]) == None
  {
  }

  /** Over every run of the poll loop: once a query has succeeded, the observer agrees after every tick. */
  lemma {:induction false} ObserverAgreement(view: View, snapshots: seq<Snapshot>)
    ensures Consistent(Ticks(Start(view), snapshots))
    ensures (exists i :: 0 <= i < |snapshots| && Query(snapshots[i]).Some?) ==> Agrees(Ticks(Start(view), snapshots))
  {
    hide Query, Agrees;
    AgreementFrom(Start(view), snapshots);
  }

  lemma {:induction false} AgreementFrom(l: Loop, snapshots: seq<Snapshot>)
    requires Consistent(l)
    ensures Consistent(Ticks(l, snapshots))
    ensures Agrees(l) || (exists i :: 0 <= i < |snapshots| && Query(snapshots[i]).Some?) ==> Agrees(Ticks(l, snapshots))
    decreases |snapshots|
  {
    hide Query, Agrees, Consistent;
    if snapshots != [] {
      TickAgrees(l, snapshots[0]);
      AgreementFrom(Tick(l, snapshots[0]), snapshots[1..]);
      assert forall i :: 0 < i < |snapshots| ==> snapshots[i] == snapshots[1..][i - 1];
    }
  }
}
