/**
  The tethering state machine of the shill bridge. Each critical section is one step; hotspot attempts run in
  goroutines of their own and finish at any later time, in any order.
 */
module Tethering {
  import opened Network

  // ----- States and steps -----

  /** The manager's guarded fields, the calls that are between their two critical sections, and the attempts. */
  datatype World = World(
    active: bool, state: string, clients: int, devices: seq<DeviceInfo>, pending: nat, attempts: set<nat>, next: nat)

  const INITIAL := World(false, "", 0, [], 0, {}, 0)

  datatype Event =
    | DevicesPolled(devices: seq<DeviceInfo>)
    | EnableRequested
    | EnableCommitted
    | Disabled
    | AttemptFailed(id: nat)
    | AttemptSucceeded(id: nat)

  /** The name of the first wifi device, empty when there is none. */
  function WifiName(devices: seq<DeviceInfo>): string
  {
    if devices == [] then ""
    else if devices[0].devType == "wifi" then devices[0].name
    else WifiName(devices[1..])
  }

  /** The first device of type wifi gives the name. */
  lemma {:induction false} WifiExactly(devices: seq<DeviceInfo>)
    ensures (forall i :: 0 <= i < |devices| ==> devices[i].devType != "wifi") ==> WifiName(devices) == ""
    ensures forall k ::
              (0 <= k < |devices| && devices[k].devType == "wifi"
               && forall i :: 0 <= i < k ==> devices[i].devType != "wifi")
              ==> WifiName(devices) == devices[k].name
    decreases |devices|
  {
    if devices != [] && devices[0].devType != "wifi" {
      WifiExactly(devices[1..]);
      assert forall i :: 0 < i < |devices| ==> devices[i] == devices[1..][i - 1];
    }
  }

  predicate Possible(w: World, e: Event)
  {
    match e
    case EnableCommitted => w.pending > 0
    case AttemptFailed(id) => id in w.attempts
    case AttemptSucceeded(id) => id in w.attempts
    case _ => true
  }

  /**
    One step. `EnableTethering` reads the devices in one critical section and commits in another, which also
    launches an attempt. A failed attempt clears both fields, a successful one sets only the state.
   */
  function Step(w: World, e: Event): World
  {
    match e
    case DevicesPolled(devices) => w.(devices := devices)
    case EnableRequested => if WifiName(w.devices) == "" then w else w.(pending := w.pending + 1)
    case EnableCommitted =>
      w.(active := true, state := "starting", clients := 0, pending := if w.pending > 0 then w.pending - 1 else 0,
         attempts := w.attempts + {w.next}, next := w.next + 1)
    case Disabled => w.(active := false, state := "idle")
    case AttemptFailed(id) => w.(active := false, state := "idle", attempts := w.attempts - {id})
    case AttemptSucceeded(id) => w.(state := "active", attempts := w.attempts - {id})
  }

  function Run(w: World, es: seq<Event>): World
  {
    if es == [] then w else Step(Run(w, es[..|es| - 1]), es[|es| - 1])
  }

  /** An interleaving in which every step is possible when it is taken. */
  predicate Feasible(w: World, es: seq<Event>)
  {
    es == [] || (Feasible(w, es[..|es| - 1]) && Possible(Run(w, es[..|es| - 1]), es[|es| - 1]))
  }

  /** The state that is reported. */
  function Status(w: World): string
  {
    if !w.active || w.state == "idle" then "idle" else w.state
  }

  /** An entry of the reported variant; the list of clients never has any. */
  datatype Entry = Text(text: string) | Clients(list: seq<map<string, string>>)

  const IDLE_REPORT := map["state" := Text("idle"), "idle_reason" := Text("user_exit")]
  const STARTING_REPORT := map["state" := Text("starting")]
  const ACTIVE_REPORT := map["state" := Text("active"), "clients" := Clients([])]

  // ----- The program -----

  class ShillManager {
    var devices: seq<DeviceInfo>
    var tetheringActive: bool
    var tetheringState: string
    var tetheringClients: int
    // Bookkeeping of calls and goroutines under way.
    ghost var pending: nat
    ghost var attempts: set<nat>
    ghost var next: nat

    ghost function Now(): World
      reads this
    {
      World(tetheringActive, tetheringState, tetheringClients, devices, pending, attempts, next)
    }

    constructor ()
      ensures Now() == INITIAL == World(false, "", 0, [], 0, {}, 0)
    {
      devices, tetheringActive, tetheringState, tetheringClients := [], false, "", 0;
      pending, attempts, next := 0, {}, 0;
    }

    /** The first critical section of `EnableTethering`, and the search for a wifi device. */
    method FindWifi() returns (ok: bool)
      modifies this`pending
      ensures Now() == Step(old(Now()), EnableRequested)
      ensures ok <==> WifiName(devices) != ""
    {
      var wifiPath := "";
      assert devices[0..] == devices;
      for i := 0 to |devices|
        invariant wifiPath == "" && WifiName(devices[i..]) == WifiName(devices)
      {
        assert devices[i..][1..] == devices[i + 1..];
        if devices[i].devType == "wifi" {
          wifiPath := devices[i].name;
          break;
        }
      }
      if wifiPath == "" {
        return false;
      }
      pending := pending + 1;
      return true;
    }

    /** The second critical section of `EnableTethering`. */
    method CommitEnable()
      requires Possible(Now(), EnableCommitted)
      modifies this
      ensures Now() == Step(old(Now()), EnableCommitted)
    {
      tetheringActive := true;
      tetheringState := "starting";
      tetheringClients := 0;
      pending, attempts, next := pending - 1, attempts + {next}, next + 1;
    }

    method DisableTethering()
      modifies this
      ensures Now() == Step(old(Now()), Disabled)
    {
      tetheringActive := false;
      tetheringState := "idle";
    }

    /** The end of `createNMHotspot`: `ok` says whether NetworkManager accepted the hotspot. */
    method FinishHotspot(ok: bool, ghost id: nat)
      requires id in attempts
      modifies this
      ensures Now() == Step(old(Now()), if ok then AttemptSucceeded(id) else AttemptFailed(id))
    {
      if !ok {
        tetheringState := "idle";
        tetheringActive := false;
      } else {
        tetheringState := "active";
      }
      attempts := attempts - {id};
    }

    /** `tetheringStatusVariant` on the guarded fields. */
    method TetheringStatus() returns (m: map<string, Entry>)
      ensures Reported(Now(), m)
    {
      if !tetheringActive || tetheringState == "idle" {
        return map["state" := Text("idle"), "idle_reason" := Text("user_exit")];
      }
      m := map["state" := Text(tetheringState)];
      if tetheringState == "active" {
        m := m["clients" := Clients([])];
      }
    }
  }

  // ----- The status over every interleaving -----

  /** Event `e` is the latest committed Enable of the history. */
  ghost predicate LatestEnable(es: seq<Event>, e: nat)
  {
    e < |es| && es[e].EnableCommitted? && forall k :: e < k < |es| ==> !es[k].EnableCommitted?
  }

  ghost predicate NeverEnabled(es: seq<Event>)
  {
    forall k :: 0 <= k < |es| ==> !es[k].EnableCommitted?
  }

  /** After event `e`, tethering was disabled or some attempt failed. */
  ghost predicate EndedSince(es: seq<Event>, e: nat)
  {
    exists k :: e < k < |es| && (es[k].Disabled? || es[k].AttemptFailed?)
  }

  /** After event `e`, some attempt succeeded. */
  ghost predicate SucceededSince(es: seq<Event>, e: nat)
  {
    exists k :: e < k < |es| && es[k].AttemptSucceeded?
  }

  /** The id of the attempt launched by event `e`: the number of Enables committed before it. */
  function AttemptOf(es: seq<Event>, e: nat): nat
    requires e <= |es|
  {
    if e == 0 then 0 else AttemptOf(es, e - 1) + if es[e - 1].EnableCommitted? then 1 else 0
  }

  /** What the fields hold in terms of the history alone. */
  ghost predicate Explained(w: World, es: seq<Event>)
  {
    && (NeverEnabled(es) ==> !w.active)
    && (forall e: nat :: LatestEnable(es, e) ==>
          && (w.active <==> !EndedSince(es, e))
          && (w.active ==> w.state == if SucceededSince(es, e) then "active" else "starting"))
  }

  lemma ExplainedStep(front: seq<Event>, last: Event, w: World)
    requires Explained(w, front)
    ensures Explained(Step(w, last), front + [last])
  {
    var es := front + [last];
    var n := |front|;
    assert es[n] == last && forall k :: 0 <= k < n ==> es[k] == front[k];
    if NeverEnabled(es) {
      assert !es[n].EnableCommitted?;
      assert forall k :: 0 <= k < n ==> front[k] == es[k];
      assert NeverEnabled(front);
    }
    forall e: nat | LatestEnable(es, e)
      ensures Step(w, last).active <==> !EndedSince(es, e)
      ensures Step(w, last).active ==> Step(w, last).state == if SucceededSince(es, e) then "active" else "starting"
    {
      if e < n {
        LatestBefore(front, last, e);
        SinceSnoc(front, last, e);
      } else {
        assert last.EnableCommitted?;
      }
    }
  }

  lemma LatestBefore(front: seq<Event>, last: Event, e: nat)
    requires e < |front| && LatestEnable(front + [last], e)
    ensures LatestEnable(front, e) && !last.EnableCommitted?
  {
    var es := front + [last];
    assert es[|front|] == last;
    assert forall k :: 0 <= k < |front| ==> front[k] == es[k];
  }

  lemma SinceSnoc(front: seq<Event>, last: Event, e: nat)
    requires e < |front|
    ensures EndedSince(front + [last], e) <==> EndedSince(front, e) || last.Disabled? || last.AttemptFailed?
    ensures SucceededSince(front + [last], e) <==> SucceededSince(front, e) || last.AttemptSucceeded?
  {
    var es := front + [last];
    assert es[|front|] == last;
    assert forall k :: 0 <= k < |front| ==> front[k] == es[k];
    if EndedSince(front, e) {
      var k :| e < k < |front| && (front[k].Disabled? || front[k].AttemptFailed?);
      assert es[k].Disabled? || es[k].AttemptFailed?;
    }
    if SucceededSince(front, e) {
      var k :| e < k < |front| && front[k].AttemptSucceeded?;
      assert es[k].AttemptSucceeded?;
    }
  }

  lemma {:induction false} AlwaysExplained(es: seq<Event>)
    ensures Explained(Run(INITIAL, es), es)
    decreases |es|
  {
    hide Explained, Step;
    if es == [] {
      NothingHappened();
    } else {
      var front, last := es[..|es| - 1], es[|es| - 1];
      AlwaysExplained(front);
      ExplainedStep(front, last, Run(INITIAL, front));
      assert front + [last] == es;
    }
  }

  lemma NothingHappened()
    ensures Explained(INITIAL, [])
  {
  }

  /**
    The reported status after every interleaving, exactly: "idle" before the first Enable and from the first
    Disable or failed attempt after the latest Enable on; otherwise "active" once any attempt, old or new, has
    succeeded since the latest Enable; otherwise "starting".
   */
  lemma StatusExactly(es: seq<Event>)
    ensures NeverEnabled(es) ==> Status(Run(INITIAL, es)) == "idle"
    ensures forall e: nat :: LatestEnable(es, e) ==>
              Status(Run(INITIAL, es))
              == if EndedSince(es, e) then "idle" else if SucceededSince(es, e) then "active" else "starting"
    ensures Status(Run(INITIAL, es)) == "idle" <==> !Run(INITIAL, es).active
  {
    AlwaysExplained(es);
    hide Run;
    if !NeverEnabled(es) {
      var e := FindLatest(es);
    }
  }

  /** What `TetheringStatus` promises about the variant it returns. */
  ghost predicate Reported(w: World, m: map<string, Entry>)
  {
    && m.Keys <= {"state", "idle_reason", "clients"}
    && "state" in m && m["state"] == Text(Status(w))
    && ("idle_reason" in m <==> Status(w) == "idle")
    && ("idle_reason" in m ==> m["idle_reason"] == Text("user_exit"))
    && ("clients" in m <==> Status(w) == "active")
    && ("clients" in m ==> m["clients"] == Clients([]))
  }

  /**
    The whole variant after every interleaving is one of three: the reason "user_exit" is given whenever the
    report is idle, also when an attempt failed, and the list of clients exactly when it is active.
   */
  lemma ReportExactly(es: seq<Event>, m: map<string, Entry>)
    requires Reported(Run(INITIAL, es), m)
    ensures NeverEnabled(es) ==> m == IDLE_REPORT
    ensures forall e: nat :: LatestEnable(es, e) ==>
              m == if EndedSince(es, e) then IDLE_REPORT
                   else if SucceededSince(es, e) then ACTIVE_REPORT else STARTING_REPORT
  {
    hide Run, LatestEnable, EndedSince, SucceededSince, NeverEnabled, Status;
    StatusExactly(es);
    var w := Run(INITIAL, es);
    if Status(w) == "idle" {
      assert m == IDLE_REPORT;
    } else if Status(w) == "active" {
      assert m == ACTIVE_REPORT;
    } else if Status(w) == "starting" {
      assert m == STARTING_REPORT;
    }
  }

  lemma {:induction false} FindLatest(es: seq<Event>) returns (e: nat)
    requires !NeverEnabled(es)
    ensures LatestEnable(es, e)
    decreases |es|
  {
    var n := |es| - 1;
    if es[n].EnableCommitted? {
      e := n;
    } else {
      var front := es[..n];
      var k :| 0 <= k < |es| && es[k].EnableCommitted?;
      assert front[k].EnableCommitted?;
      e := FindLatest(front);
      assert es[e] == front[e];
      assert forall j :: e < j < n ==> es[j] == front[j];
    }
  }

  // ----- Calls under way, and clients -----

  /** How many Enables found a wifi device, and how many were committed. */
  function Accepted(es: seq<Event>): nat
  {
    if es == [] then 0
    else
      var n := |es| - 1;
      Accepted(es[..n]) + if es[n].EnableRequested? && WifiName(Run(INITIAL, es[..n]).devices) != "" then 1 else 0
  }

  function Committed(es: seq<Event>): nat
  {
    if es == [] then 0
    else Committed(es[..|es| - 1]) + if es[|es| - 1].EnableCommitted? then 1 else 0
  }

  /** The calls between their two sections are those accepted and not committed; no client is ever counted. */
  lemma {:induction false} PendingCounts(es: seq<Event>)
    requires Feasible(INITIAL, es)
    ensures Run(INITIAL, es).pending + Committed(es) == Accepted(es)
    ensures Run(INITIAL, es).clients == 0
    decreases |es|
  {
    hide WifiName;
    if es != [] {
      PendingCounts(es[..|es| - 1]);
    }
  }

  // ----- Attempts outstanding -----

  /** While nothing has finished since the latest Enable, its attempt is under way. */
  lemma {:induction false} LatestAttemptOutstanding(es: seq<Event>, e: nat)
    requires LatestEnable(es, e)
    requires forall k :: e < k < |es| ==> !es[k].AttemptFailed? && !es[k].AttemptSucceeded?
    ensures AttemptOf(es, e) in Run(INITIAL, es).attempts
    decreases |es|
  {
    var n := |es| - 1;
    var front := es[..n];
    if e == n {
      NextCounts(front);
      AttemptOfFront(es, n, n);
    } else {
      assert forall k :: 0 <= k < n ==> front[k] == es[k];
      LatestAttemptOutstanding(front, e);
      AttemptOfFront(es, n, e);
    }
  }

  lemma {:induction false} NextCounts(es: seq<Event>)
    ensures Run(INITIAL, es).next == AttemptOf(es, |es|)
    decreases |es|
  {
    if es != [] {
      var n := |es| - 1;
      NextCounts(es[..n]);
      AttemptOfFront(es, n, n);
    }
  }

  lemma {:induction false} AttemptOfFront(es: seq<Event>, n: nat, e: nat)
    requires e <= n <= |es|
    ensures AttemptOf(es[..n], e) == AttemptOf(es, e)
    decreases e
  {
    if e > 0 {
      AttemptOfFront(es, n, e - 1);
    }
  }

  /** A report of "starting" means that the attempt launched by the latest Enable is still outstanding. */
  lemma StartingMeansOutstanding(es: seq<Event>)
    requires Status(Run(INITIAL, es)) == "starting"
    ensures exists e: nat :: LatestEnable(es, e) && AttemptOf(es, e) in Run(INITIAL, es).attempts
  {
    hide Run, AttemptOf;
    StatusExactly(es);
    var e := FindLatest(es);
    assert !EndedSince(es, e) && !SucceededSince(es, e);
    LatestAttemptOutstanding(es, e);
  }

  /** A report of "active" means that an attempt has succeeded since the latest Enable. */
  lemma ActiveMeansSucceeded(es: seq<Event>)
    requires Status(Run(INITIAL, es)) == "active"
    ensures exists e: nat :: LatestEnable(es, e) && SucceededSince(es, e) && !EndedSince(es, e)
  {
    hide Run;
    StatusExactly(es);
    var e := FindLatest(es);
  }

  /** After a Disable the report stays idle until the next Enable, whatever old attempts do. */
  lemma {:induction false} IdleUntilEnable(w: World, es: seq<Event>)
    requires NeverEnabled(es)
    ensures Status(Run(Step(w, Disabled), es)) == "idle" && !Run(Step(w, Disabled), es).active
    decreases |es|
  {
    if es != [] {
      var n := |es| - 1;
      assert forall k :: 0 <= k < n ==> es[..n][k] == es[k];
      IdleUntilEnable(w, es[..n]);
    }
  }

  /**
    A successful attempt of the latest Enable does not make the report "active" when an older attempt fails
    late: two Enables, the second attempt succeeds, then the first one fails.
   */
  lemma LateFailureHidesSuccess(wifi: DeviceInfo)
    requires wifi.devType == "wifi" && wifi.name != ""
    ensures var es := [DevicesPolled([wifi]), EnableRequested, EnableRequested, EnableCommitted, EnableCommitted,
                       AttemptSucceeded(1), AttemptFailed(0)];
            && Feasible(INITIAL, es)
            && LatestEnable(es, 4) && AttemptOf(es, 4) == 1 && SucceededSince(es, 4)
            && Status(Run(INITIAL, es)) == "idle"
  {
    RunNothing();
    hide Run, Feasible;
    var e0, e1, e2 := DevicesPolled([wifi]), EnableRequested, EnableCommitted;
    var e3, e4 := AttemptSucceeded(1), AttemptFailed(0);
    var h1 := [] + [e0];
    var h2 := h1 + [e1];
    var h3 := h2 + [e1];
    var h4 := h3 + [e2];
    var h5 := h4 + [e2];
    var h6 := h5 + [e3];
    RunOn([], e0);
    assert [wifi][0] == wifi;
    RunOn(h1, e1);
    RunOn(h2, e1);
    RunOn(h3, e2);
    RunOn(h4, e2);
    RunOn(h5, e3);
    RunOn(h6, e4);
    var es := [e0, e1, e1, e2, e2, e3, e4];
    assert es == h6 + [e4];
    assert AttemptOf(es, 1) == 0 && AttemptOf(es, 2) == 0 && AttemptOf(es, 3) == 0;
    assert es[5].AttemptSucceeded?;
  }

  lemma RunNothing()
    ensures Feasible(INITIAL, []) && Run(INITIAL, []) == INITIAL
  {
  }

  lemma RunOn(front: seq<Event>, last: Event)
    requires Feasible(INITIAL, front) && Possible(Run(INITIAL, front), last)
    ensures Feasible(INITIAL, front + [last])
    ensures Run(INITIAL, front + [last]) == Step(Run(INITIAL, front), last)
  {
  }
}
