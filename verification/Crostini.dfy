/**
  The Crostini bridge as a server: it learns the owner id from requests, tracks whether the VM was started
  and answers in the wire format. Handlers run concurrently; the two locks make each access to the owner id or the
  flag one step, and a history is any sequence of such steps.
 */
module Crostini {
  import opened Sequences
  import opened Varint
  import opened Wire
  import opened WireLaws
  import Utf8

  /** A Go string constant: one byte per ASCII character. */
  function Lit(s: string): (b: Bytes)
    ensures |b| == |s|
    ensures forall i :: 0 <= i < |s| && s[i] < '\U{80}' ==> b[i] == s[i] as int
  {
    seq(|s|, i requires 0 <= i < |s| => if s[i] < '\U{80}' then s[i] as int else 0)
  }

  const VM_NAME := Lit("termina")
  const CONTAINER_NAME := Lit("penguin")
  const CONTAINER_USER := Lit("user")
  const CONTAINER_TOKEN := Lit("termina-penguin")

  // ----- State and steps -----

  datatype Session = Session(owner: Bytes, ready: bool)

  const INITIAL := Session(Lit("test-user"), false)

  /**
    The steps that change the session. `Learn` is the first step of `StopVm`, `GetVmInfo`, `ListVms` and the many
    handlers that only learn the owner id, `Launch` that of `LaunchContainerApplication`. `MarkReady` is the step of
    `StartVm`, `MarkStopped` the second one of `StopVm`.
   */
  datatype Action = MarkReady | MarkStopped | Learn(req: Bytes) | Launch(req: Bytes)

  /** A step on a request whose declared lengths fit, so that `decodeStringFields` returns. */
  predicate Decodable(a: Action)
  {
    a.Learn? || a.Launch? ==> Strings(a.req, 0, Utf8.ValidString).Some?
  }

  function Fields(req: Bytes): map<nat, Bytes>
    requires Strings(req, 0, Utf8.ValidString).Some?
  {
    Strings(req, 0, Utf8.ValidString).value
  }

  /** A Go map read: a missing key gives the empty string. */
  function Get(fields: map<nat, Bytes>, k: nat): Bytes
  {
    if k in fields then fields[k] else []
  }

  /** Names that are never taken for an owner id. */
  predicate Reserved(v: Bytes)
  {
    || v == [] || v == VM_NAME || v == CONTAINER_NAME || v == CONTAINER_USER
    || v == Lit("borealis") || v == Lit("bruschetta") || v == Lit("baguette")
  }

  function SetOwner(s: Session, v: Bytes): Session
  {
    if Reserved(v) then s else s.(owner := v)
  }

  const OWNER_FIELDS: seq<nat> := [2, 1, 7, 5, 3]

  /** The first non-empty field among those that may hold an owner id. */
  function Candidate(fields: map<nat, Bytes>, order: seq<nat>): Bytes
  {
    if order == [] then []
    else if Get(fields, order[0]) != [] then Get(fields, order[0])
    else Candidate(fields, order[1..])
  }

  /** The owner id a step proposes; empty when it proposes none. */
  function Proposed(a: Action): Bytes
    requires Decodable(a)
  {
    match a
    case Learn(req) => Candidate(Fields(req), OWNER_FIELDS)
    case Launch(req) => Get(Fields(req), 4)
    case _ => []
  }

  function Act(s: Session, a: Action): Session
    requires Decodable(a)
  {
    match a
    case MarkReady => s.(ready := true)
    case MarkStopped => s.(ready := false)
    case _ => SetOwner(s, Proposed(a))
  }

  predicate AllDecodable(acts: seq<Action>)
  {
    forall i :: 0 <= i < |acts| ==> Decodable(acts[i])
  }

  function Run(s: Session, acts: seq<Action>): Session
    requires AllDecodable(acts)
    decreases |acts|
  {
    if acts == [] then s else Act(Run(s, acts[..|acts| - 1]), acts[|acts| - 1])
  }

  // ----- Responses -----

  function EncodeVmInfo(): Bytes
  {
    AppendUint64(AppendUint64(AppendUint64([], 3, 4), 6, 1), 8, 1)
  }

  function EncodeGetVmInfoResponse(success: bool): Bytes
  {
    var b := AppendBool([], 1, success);
    if success then AppendBytes(b, 2, EncodeVmInfo()) else b
  }

  function EncodeVm(owner: Bytes): Bytes
  {
    AppendUint64(AppendBytes(AppendBytes(AppendBytes([], 1, VM_NAME), 2, owner), 3, EncodeVmInfo()), 4, 1)
  }

  function EncodeListVmsResponse(owner: Bytes): Bytes
  {
    AppendBytes(AppendBool([], 1, true), 3, EncodeVm(owner))
  }

  function EncodeStartVmResponse(): Bytes
  {
    AppendUint64(AppendBool([], 1, true), 4, 1)
  }

  function EncodeVmId(owner: Bytes): Bytes
  {
    AppendBytes(AppendBytes([], 1, owner), 2, VM_NAME)
  }

  function EncodeVmStartedSignal(owner: Bytes): Bytes
  {
    AppendUint64(AppendBytes([], 1, EncodeVmId(owner)), 3, 1)
  }

  function EncodeContainerStarted(owner: Bytes): Bytes
  {
    var b := AppendBytes(AppendBytes(AppendBytes([], 1, VM_NAME), 2, CONTAINER_NAME), 3, owner);
    var c := AppendBytes(AppendBytes(b, 4, CONTAINER_USER), 5, Lit("/home/user"));
    AppendBytes(AppendBytes(c, 6, Lit("127.0.0.1")), 8, CONTAINER_TOKEN)
  }

  /** `s` is the session when the flag is read. */
  predicate Succeeds(s: Session, req: Bytes)
    requires Decodable(Learn(req))
  {
    Get(Fields(req), 1) == VM_NAME && s.ready
  }

  // ----- The program -----

  /**
    The bridge's two guarded variables, the steps on them and the handlers. What a handler ensures is its outcome
    when no other one steps in between; the lemmas about histories say what holds when others do.
   */
  class Bridge {
    var owner: Bytes
    var ready: bool

    ghost function Now(): Session
      reads this
    {
      Session(owner, ready)
    }

    constructor ()
      ensures Now() == INITIAL == Session(Lit("test-user"), false)
    {
      owner, ready := Lit("test-user"), false;
    }

    method SetOwnerID(v: Bytes)
      modifies this`owner
      ensures Now() == SetOwner(old(Now()), v)
    {
      if Reserved(v) {
        return;
      }
      if owner != v {
        owner := v;
      }
    }

    method LearnOwnerID(fields: map<nat, Bytes>)
      modifies this`owner
      ensures Now() == SetOwner(old(Now()), Candidate(fields, OWNER_FIELDS))
    {
      assert OWNER_FIELDS[0..] == OWNER_FIELDS;
      for i := 0 to |OWNER_FIELDS|
        invariant Candidate(fields, OWNER_FIELDS[i..]) == Candidate(fields, OWNER_FIELDS)
        invariant Now() == old(Now())
      {
        var v := Get(fields, OWNER_FIELDS[i]);
        if v != [] {
          SetOwnerID(v);
          return;
        }
        assert OWNER_FIELDS[i..][1..] == OWNER_FIELDS[i + 1..];
      }
    }

    method MarkSessionReady()
      modifies this`ready
      ensures Now() == Act(old(Now()), MarkReady)
    {
      ready := true;
    }

    method MarkSessionStopped()
      modifies this`ready
      ensures Now() == Act(old(Now()), MarkStopped)
    {
      ready := false;
    }

    method StartVm() returns (response: Bytes)
      modifies this`ready
      ensures Now() == Act(old(Now()), MarkReady)
      ensures response == EncodeStartVmResponse()
    {
      MarkSessionReady();
      response := EncodeStartVmResponse();
    }

    /** The first signal after a start, 200 ms later, with the owner id of that moment. */
    method VmStarted() returns (signal: Bytes)
      ensures signal == EncodeVmStartedSignal(owner)
    {
      signal := EncodeVmStartedSignal(owner);
    }

    /** The second signal, 800 ms after the first. */
    method ContainerStarted() returns (signal: Bytes)
      ensures signal == EncodeContainerStarted(owner)
    {
      signal := EncodeContainerStarted(owner);
    }

    method StopVm(req: Bytes) returns (response: Bytes)
      requires Decodable(Learn(req))
      modifies this
      ensures Now() == Act(Act(old(Now()), Learn(req)), MarkStopped)
      ensures response == AppendBool([], 1, true)
    {
      var fields := DecodeStringFields(req, Utf8.ValidString);
      LearnOwnerID(fields.value);
      MarkSessionStopped();
      response := AppendBool([], 1, true);
    }

    method GetVmInfo(req: Bytes) returns (response: Bytes)
      requires Decodable(Learn(req))
      modifies this
      ensures Now() == Act(old(Now()), Learn(req))
      ensures response == EncodeGetVmInfoResponse(Succeeds(Now(), req))
    {
      var fields := DecodeStringFields(req, Utf8.ValidString);
      LearnOwnerID(fields.value);
      var name := Get(fields.value, 1);
      response := EncodeGetVmInfoResponse(name == VM_NAME && ready);
    }

    method ListVms(req: Bytes) returns (response: Bytes)
      requires Decodable(Learn(req))
      modifies this
      ensures Now() == Act(old(Now()), Learn(req))
      ensures response == EncodeListVmsResponse(owner)
    {
      var fields := DecodeStringFields(req, Utf8.ValidString);
      LearnOwnerID(fields.value);
      response := EncodeListVmsResponse(owner);
    }

    /** The owner id part of `LaunchContainerApplication`. */
    method LaunchContainerApplication(req: Bytes)
      requires Decodable(Launch(req))
      modifies this
      ensures Now() == Act(old(Now()), Launch(req))
    {
      var fields := DecodeStringFields(req, Utf8.ValidString);
      SetOwnerID(Get(fields.value, 4));
    }
  }

  // ----- What is proposed, and what is refused -----

  /** The first of fields 2, 1, 7, 5 and 3 that is not empty; for a launch, field 4. */
  lemma ProposesExactly(req: Bytes)
    requires Decodable(Learn(req))
    ensures var f, v := Fields(req), Proposed(Learn(req));
            && (Get(f, 2) != [] ==> v == Get(f, 2))
            && (Get(f, 2) == [] && Get(f, 1) != [] ==> v == Get(f, 1))
            && (Get(f, 2) == Get(f, 1) == [] && Get(f, 7) != [] ==> v == Get(f, 7))
            && (Get(f, 2) == Get(f, 1) == Get(f, 7) == [] && Get(f, 5) != [] ==> v == Get(f, 5))
            && (Get(f, 2) == Get(f, 1) == Get(f, 7) == Get(f, 5) == [] ==> v == Get(f, 3))
    ensures Proposed(Launch(req)) == Get(Fields(req), 4)
  {
    hide Strings, Get;
    var f := Fields(req);
    assert [2, 1, 7, 5, 3][1..] == [1, 7, 5, 3] && [1, 7, 5, 3][1..] == [7, 5, 3];
    assert [7, 5, 3][1..] == [5, 3] && [5, 3][1..] == [3] && [3][1..] == [];
    assert Candidate(f, []) == [];
    assert Candidate(f, [3]) == Get(f, 3);
    assert Candidate(f, [5, 3]) == if Get(f, 5) != [] then Get(f, 5) else Get(f, 3);
    assert Candidate(f, [7, 5, 3]) == if Get(f, 7) != [] then Get(f, 7) else Candidate(f, [5, 3]);
    assert Candidate(f, [1, 7, 5, 3]) == if Get(f, 1) != [] then Get(f, 1) else Candidate(f, [7, 5, 3]);
  }

  /** The empty string and six names are refused, and nothing else. */
  lemma RefusesExactly(v: Bytes)
    ensures Reserved(v) <==>
              v in {[], Lit("termina"), Lit("penguin"), Lit("user"), Lit("borealis"), Lit("bruschetta"),
                    Lit("baguette")}
    ensures forall s: Session :: SetOwner(s, v) == if Reserved(v) then s else Session(v, s.ready)
  {
    hide Lit;
  }

  // ----- The owner id over every history -----

  /** Every decoded payload passes the decoder's test. */
  lemma {:induction false} DecodedPass(s: Bytes, base: nat, keep: Bytes -> bool)
    ensures Strings(s, base, keep).Some? ==>
              forall k :: k in Strings(s, base, keep).value ==> keep(Strings(s, base, keep).value[k])
    decreases |s|
  {
    hide StringStep, Drop;
    if s != [] {
      EntryPasses(s, base, keep);
      var step := StringStep(s, base, keep);
      if step.Go? {
        var rest := Strings(Drop(s, step.size), base + step.size, keep);
        DecodedPass(Drop(s, step.size), base + step.size, keep);
        if rest.Some? {
          assert Strings(s, base, keep) == Some(EntryMap(step.entry) + rest.value);
        }
      }
    }
  }

  lemma EntryPasses(s: Bytes, base: nat, keep: Bytes -> bool)
    requires s != []
    ensures var step := StringStep(s, base, keep);
            step.Go? && step.entry.Some? ==> keep(step.entry.value.1)
  {
  }

  lemma {:induction false} CandidateValid(fields: map<nat, Bytes>, order: seq<nat>)
    requires forall k :: k in fields ==> Utf8.ValidString(fields[k])
    ensures Utf8.ValidString(Candidate(fields, order))
  {
    if order != [] {
      CandidateValid(fields, order[1..]);
    }
  }

  lemma ProposedValid(a: Action)
    requires Decodable(a)
    ensures Utf8.ValidString(Proposed(a))
  {
    if a.Learn? || a.Launch? {
      DecodedPass(a.req, 0, Utf8.ValidString);
      CandidateValid(Fields(a.req), OWNER_FIELDS);
    }
  }

  ghost predicate OwnerOk(owner: Bytes)
  {
    Utf8.ValidString(owner) && !Reserved(owner)
  }

  lemma InitialOwnerOk()
    ensures OwnerOk(INITIAL.owner)
  {
    var v := INITIAL.owner;
    Utf8.AsciiValid(v);
    assert |v| == 9 && v[0] == 't' as int;
    assert Lit("bruschetta")[0] == 'b' as int && Lit("borealis")[0] == 'b' as int && Lit("baguette")[0] == 'b' as int;
  }

  /** Over every history the owner id is non-empty, valid UTF-8 and none of the six reserved names. */
  lemma {:induction false} OwnerAlwaysOk(s: Session, acts: seq<Action>)
    requires OwnerOk(s.owner) && AllDecodable(acts)
    ensures OwnerOk(Run(s, acts).owner)
    decreases |acts|
  {
    hide Reserved, Proposed;
    if acts != [] {
      OwnerAlwaysOk(s, acts[..|acts| - 1]);
      ProposedValid(acts[|acts| - 1]);
    }
  }

  /** Step `i` makes the last acceptable proposal. */
  ghost predicate LastProposal(acts: seq<Action>, i: nat): (last: bool)
    requires AllDecodable(acts)
    ensures last ==> i < |acts|
  {
    i < |acts| && !Reserved(Proposed(acts[i])) && forall j :: i < j < |acts| ==> Reserved(Proposed(acts[j]))
  }

  ghost predicate NoProposal(acts: seq<Action>)
    requires AllDecodable(acts)
  {
    forall i :: 0 <= i < |acts| ==> Reserved(Proposed(acts[i]))
  }

  /** The owner id is the last acceptable proposal, or the initial one when there was none. */
  lemma {:induction false} OwnerIsLastProposal(s: Session, acts: seq<Action>)
    requires AllDecodable(acts)
    ensures forall i: nat :: LastProposal(acts, i) ==> Run(s, acts).owner == Proposed(acts[i])
    ensures NoProposal(acts) ==> Run(s, acts).owner == s.owner
    decreases |acts|
  {
    hide Reserved, Proposed;
    if acts != [] {
      var front, last := acts[..|acts| - 1], acts[|acts| - 1];
      OwnerIsLastProposal(s, front);
      OwnerStep(Run(s, front), last);
      assert forall i :: 0 <= i < |front| ==> front[i] == acts[i];
      forall i: nat | LastProposal(acts, i)
        ensures Run(s, acts).owner == Proposed(acts[i])
      {
        assert i < |front| ==> LastProposal(front, i);
      }
    }
  }

  lemma OwnerStep(s: Session, a: Action)
    requires Decodable(a)
    ensures Act(s, a).owner == if Reserved(Proposed(a)) then s.owner else Proposed(a)
  {
  }

  // ----- The session flag over every history -----

  /** Among the steps that mark the session, the latest marked it ready. */
  ghost predicate LatestIsReady(acts: seq<Action>)
  {
    exists i :: 0 <= i < |acts| && acts[i].MarkReady? && forall j :: i < j < |acts| ==> !acts[j].MarkStopped?
  }

  lemma LatestSnoc(front: seq<Action>, last: Action)
    ensures LatestIsReady(front + [last]) <==> last.MarkReady? || (!last.MarkStopped? && LatestIsReady(front))
  {
    var acts := front + [last];
    if last.MarkReady? {
      assert acts[|front|].MarkReady?;
    }
    if LatestIsReady(front) && !last.MarkStopped? {
      var i :| 0 <= i < |front| && front[i].MarkReady? && forall j :: i < j < |front| ==> !front[j].MarkStopped?;
      assert acts[i].MarkReady?;
    }
    if LatestIsReady(acts) && !last.MarkReady? {
      var i :| 0 <= i < |acts| && acts[i].MarkReady? && forall j :: i < j < |acts| ==> !acts[j].MarkStopped?;
      assert !acts[|front|].MarkStopped?;
      assert front[i] == acts[i] && forall j :: i < j < |front| ==> front[j] == acts[j];
    }
  }

  /** The session is ready exactly when the latest marking step was that of a StartVm. */
  lemma {:induction false} ReadyMeans(s: Session, acts: seq<Action>)
    requires AllDecodable(acts) && !s.ready
    ensures Run(s, acts).ready <==> LatestIsReady(acts)
    decreases |acts|
  {
    hide Proposed, SetOwner;
    if acts != [] {
      var front, last := acts[..|acts| - 1], acts[|acts| - 1];
      ReadyMeans(s, front);
      hide LatestIsReady;
      LatestSnoc(front, last);
      assert front + [last] == acts;
      RunLast(s, acts);
      hide Run, Act;
      FlagStep(Run(s, front), last);
    }
  }

  lemma RunLast(s: Session, acts: seq<Action>)
    requires acts != [] && AllDecodable(acts)
    ensures Run(s, acts) == Act(Run(s, acts[..|acts| - 1]), acts[|acts| - 1])
  {
  }

  lemma FlagStep(s: Session, a: Action)
    requires Decodable(a)
    ensures Act(s, a).ready == (a.MarkReady? || (!a.MarkStopped? && s.ready))
  {
  }

  // ----- Responses decode -----

  function VmFieldsOf(owner: Bytes): seq<Field>
  {
    [BytesField(1, VM_NAME), BytesField(2, owner), BytesField(3, EncodeVmInfo()), VarintField(4, 1)]
  }

  lemma VmFields(owner: Bytes)
    ensures EncodeVm(owner) == Serialize(VmFieldsOf(owner))
  {
    hide Serialize, AppendUint64, AppendBytes, EncodeVmInfo;
    var name, id, info := BytesField(1, VM_NAME), BytesField(2, owner), BytesField(3, EncodeVmInfo());
    SerializeNone();
    AppendsBytes([], 1, VM_NAME);
    AppendsBytes([name], 2, owner);
    AppendsBytes([name, id], 3, EncodeVmInfo());
    AppendsVarint([name, id, info], 4, 1);
    assert [] + [name] == [name];
    assert [name] + [id] == [name, id];
    assert [name, id] + [info] == [name, id, info];
    assert [name, id, info] + [VarintField(4, 1)] == [name, id, info, VarintField(4, 1)];
  }

  lemma ListVmsFields(owner: Bytes)
    ensures EncodeListVmsResponse(owner) == Serialize([VarintField(1, 1), BytesField(3, EncodeVm(owner))])
  {
    hide Serialize, AppendBool, AppendBytes, EncodeVm;
    SerializeNone();
    AppendsBool([], 1, true);
    AppendsBytes([VarintField(1, 1)], 3, EncodeVm(owner));
    assert [] + [VarintField(1, 1)] == [VarintField(1, 1)];
    assert [VarintField(1, 1)] + [BytesField(3, EncodeVm(owner))]
           == [VarintField(1, 1), BytesField(3, EncodeVm(owner))];
  }

  lemma GetVmInfoFields(success: bool)
    ensures EncodeGetVmInfoResponse(success)
            == Serialize(if success then [VarintField(1, 1), BytesField(2, EncodeVmInfo())] else [VarintField(1, 0)])
  {
    hide Serialize, AppendBool, AppendBytes, EncodeVmInfo;
    SerializeNone();
    AppendsBool([], 1, success);
    AppendsBytes([VarintField(1, 1)], 2, EncodeVmInfo());
    assert [] + [VarintField(1, 1)] == [VarintField(1, 1)];
    assert [] + [VarintField(1, 0)] == [VarintField(1, 0)];
    assert [VarintField(1, 1)] + [BytesField(2, EncodeVmInfo())]
           == [VarintField(1, 1), BytesField(2, EncodeVmInfo())];
  }

  /** The D-Bus limit on a message, section "Message Format" of the D-Bus specification: 128 MiB. */
  const MESSAGE_LIMIT: nat := 134217728

  lemma BytesFieldLength(num: nat, payload: Bytes)
    requires 1 <= num <= 15 && |payload| < TWO_64
    ensures |SerializeField(BytesField(num, payload))| <= 11 + |payload|
  {
    ShortTag(num, 2);
    RoundTrip(|payload|, []);
  }

  lemma OneByteVarint(num: nat, v: nat)
    requires 1 <= num <= 15 && v < 128
    ensures SerializeField(VarintField(num, v)) == [Tag(num, 0), v]
  {
  }

  lemma InfoBytes()
    ensures EncodeVmInfo() == [0x18, 4, 0x30, 1, 0x40, 1]
  {
  }

  /** What success of `GetVmInfo` means to the client, over every history up to the reading of the flag. */
  lemma GetVmInfoSucceedsExactly(acts: seq<Action>, req: Bytes)
    requires AllDecodable(acts) && Decodable(Learn(req))
    ensures var response := EncodeGetVmInfoResponse(Succeeds(Run(INITIAL, acts), req));
            && Uints(response, 0).Some? && 1 in Uints(response, 0).value
            && (Uints(response, 0).value[1] == 1 <==> Get(Fields(req), 1) == Lit("termina") && LatestIsReady(acts))
  {
    hide Run, Uints, EncodeGetVmInfoResponse, LatestIsReady, Fields, Succeeds, Strings, Reserved;
    ReadyMeans(INITIAL, acts);
    SuccessFlag(Run(INITIAL, acts), req);
    SuccessDecodes(Succeeds(Run(INITIAL, acts), req));
  }

  lemma SuccessFlag(s: Session, req: Bytes)
    requires Decodable(Learn(req))
    ensures Succeeds(s, req) <==> Get(Fields(req), 1) == VM_NAME && s.ready
  {
  }

  lemma SuccessDecodes(success: bool)
    ensures var response := EncodeGetVmInfoResponse(success);
            && Uints(response, 0).Some? && 1 in Uints(response, 0).value
            && Uints(response, 0).value[1] == if success then 1 else 0
  {
    hide Uints, Serialize, EncodeVmInfo, SerializeField, EncodeGetVmInfoResponse;
    GetVmInfoFields(success);
    InfoBytes();
    var flag, info := VarintField(1, if success then 1 else 0), BytesField(2, EncodeVmInfo());
    var fs := if success then [flag, info] else [flag];
    OneByteVarint(1, if success then 1 else 0);
    BytesFieldLength(2, EncodeVmInfo());
    SerializeAtMostTwo(fs);
    MessageRoundTrip(fs, _ => true);
    LastUintWins(fs, 1);
    assert fs[0] == flag;
  }

  lemma SerializeAtMostTwo(fs: seq<Field>)
    requires 1 <= |fs| <= 2
    ensures |Serialize(fs)| == |SerializeField(fs[0])| + if |fs| == 2 then |SerializeField(fs[1])| else 0
  {
  }

  // ----- The nested record of ListVms -----

  lemma {:induction false} VmBytes(owner: Bytes)
    ensures EncodeVm(owner)
            == ([0x0a, 7] + VM_NAME + [0x12])
               + (Encode(|owner|) + (owner + [0x1a, 6, 0x18, 4, 0x30, 1, 0x40, 1, 0x20, 1]))
  {
    hide Encode, EncodeVmInfo, AppendBytes, Lit;
    InfoBytes();
    SmallLengths();
    ShortTag(4, 0);
    var a := AppendBytes([], 1, VM_NAME);
    var b := AppendBytes(a, 2, owner);
    var c := AppendBytes(b, 3, EncodeVmInfo());
    assert EncodeVm(owner) == c + [0x20] + [1];
    hide EncodeVm;
    AppendBytesShort([], 1, VM_NAME);
    AppendBytesShort(a, 2, owner);
    AppendBytesShort(b, 3, EncodeVmInfo());
    VmShape(VM_NAME, Encode(|owner|), owner, a, b, c);
  }

  lemma VmShape(name: Bytes, e: Bytes, owner: Bytes, a: Bytes, b: Bytes, c: Bytes)
    requires a == [] + [0x0a] + [7] + name
    requires b == a + [0x12] + e + owner
    requires c == b + [0x1a] + [6] + [0x18, 4, 0x30, 1, 0x40, 1]
    ensures c + [0x20] + [1]
            == ([0x0a, 7] + name + [0x12]) + (e + (owner + [0x1a, 6, 0x18, 4, 0x30, 1, 0x40, 1, 0x20, 1]))
  {
  }

  lemma SmallLengths()
    ensures Encode(7) == [7] && Encode(6) == [6] && Encode(1) == [1]
  {
  }

  lemma AppendBytesShort(b: Bytes, num: nat, v: Bytes)
    requires 1 <= num <= 15
    ensures AppendBytes(b, num, v) == b + [Tag(num, 2)] + Encode(|v|) + v
  {
  }

  /** The VM record is valid UTF-8 exactly when the length prefix of the owner id happens to be. */
  lemma VmValidExactly(owner: Bytes)
    requires Utf8.ValidString(owner)
    ensures Utf8.ValidString(EncodeVm(owner)) <==> Utf8.ValidString(Encode(|owner|))
  {
    hide Encode, EncodeVm, Utf8.ValidString;
    VmBytes(owner);
    var front := [0x0a, 7] + VM_NAME + [0x12];
    var e, tail := Encode(|owner|), [0x1a, 6, 0x18, 4, 0x30, 1, 0x40, 1, 0x20, 1];
    Utf8.AsciiValid(front);
    Utf8.AsciiValid(tail);
    Utf8.ValidAppend(front, e + (owner + tail));
    Utf8.ValidAppend(owner, tail);
    if Utf8.ValidString(e) {
      Utf8.ValidAppend(e, owner + tail);
    }
    if Utf8.ValidString(e + (owner + tail)) {
      Utf8.ValidPrefix(e, owner + tail);
    }
  }

  lemma VmLength(owner: Bytes)
    requires |owner| <= MESSAGE_LIMIT
    ensures |EncodeVm(owner)| <= |owner| + 30
  {
    hide Encode;
    VmBytes(owner);
    RoundTrip(|owner|, []);
  }

  lemma NameValid()
    ensures |VM_NAME| == 7 && Utf8.ValidString(VM_NAME)
  {
    Utf8.AsciiValid(VM_NAME);
  }

  lemma VmDecodes(owner: Bytes)
    requires Utf8.ValidString(owner) && |owner| <= MESSAGE_LIMIT
    ensures var m := Strings(EncodeVm(owner), 0, Utf8.ValidString);
            m.Some? && 1 in m.value && m.value[1] == VM_NAME && 2 in m.value && m.value[2] == owner
  {
    hide *;
    VmFields(owner);
    VmLength(owner);
    NameValid();
    VmFieldsValid(owner);
    MessageRoundTrip(VmFieldsOf(owner), Utf8.ValidString);
    VmStrings(owner);
  }

  lemma VmFieldsValid(owner: Bytes)
    requires |owner| <= MESSAGE_LIMIT
    ensures ValidFields(VmFieldsOf(owner))
    ensures |owner| + 30 < TWO_63
  {
    hide EncodeVmInfo, Lit;
    InfoBytes();
  }

  lemma VmStrings(owner: Bytes)
    requires Utf8.ValidString(owner) && Utf8.ValidString(VM_NAME)
    ensures var m := StringsOf(VmFieldsOf(owner), Utf8.ValidString);
            1 in m && m[1] == VM_NAME && 2 in m && m[2] == owner
  {
    hide StringsOf, EncodeVmInfo, Utf8.ValidString, Lit;
    var fs := VmFieldsOf(owner);
    LastStringWins(fs, Utf8.ValidString, 1);
    LastStringWins(fs, Utf8.ValidString, 2);
    assert fs[0] == BytesField(1, VM_NAME) && fs[1] == BytesField(2, owner);
  }

  lemma ResponseDecodes(owner: Bytes, keep: Bytes -> bool)
    requires |owner| <= MESSAGE_LIMIT
    ensures var m := Strings(EncodeListVmsResponse(owner), 0, keep);
            m.Some? && (3 in m.value <==> keep(EncodeVm(owner))) && (3 in m.value ==> m.value[3] == EncodeVm(owner))
  {
    hide Strings, Serialize, EncodeVm, EncodeListVmsResponse, SerializeField;
    var fs := [VarintField(1, 1), BytesField(3, EncodeVm(owner))];
    ListVmsFields(owner);
    VmLength(owner);
    OneByteVarint(1, 1);
    BytesFieldLength(3, EncodeVm(owner));
    SerializeAtMostTwo(fs);
    MessageRoundTrip(fs, keep);
    LastStringWins(fs, keep, 3);
    assert fs[1] == BytesField(3, EncodeVm(owner));
  }

  /**
    The nested record of a ListVms response. A reader that takes every payload finds a VM record that decodes
    to the current owner id. The bridge's own decoder takes only valid UTF-8, and so finds the record exactly
    when the length prefix of the owner id is valid UTF-8 by itself.
   */
  lemma ListVmsNestedOwner(owner: Bytes)
    requires OwnerOk(owner) && |owner| <= MESSAGE_LIMIT
    ensures var raw := Strings(EncodeListVmsResponse(owner), 0, (_: Bytes) => true);
            && raw.Some? && 3 in raw.value
            && var vm := Strings(raw.value[3], 0, Utf8.ValidString);
            vm.Some? && 2 in vm.value && vm.value[2] == owner
    ensures var own := Strings(EncodeListVmsResponse(owner), 0, Utf8.ValidString);
            && own.Some?
            && (3 in own.value <==> Utf8.ValidString(Encode(|owner|)))
            && (3 in own.value ==> own.value[3] == EncodeVm(owner))
  {
    hide Strings, EncodeVm, EncodeListVmsResponse, Utf8.ValidString, Encode, Reserved;
    VmDecodes(owner);
    VmValidExactly(owner);
    ResponseDecodes(owner, (_: Bytes) => true);
    ResponseDecodes(owner, Utf8.ValidString);
  }

  /** The lengths whose varint is valid UTF-8, below 2^28. */
  predicate PrefixValid(n: nat)
  {
    var a, b, c := n % 128, n / 128 % 128, n / 16384 % 128;
    || n < 128
    || (16384 <= n < 2097152 && 66 <= a <= 95 && b < 64)
    || (2097152 <= n && 96 <= a <= 111 && Utf8.SecondByte(a + 128, b + 128) && c < 64)
  }

  /** None from 128 to 16383; above, those whose low groups look like a character of two or three bytes. */
  lemma PrefixValidExactly(n: nat)
    requires n < 0x1000_0000
    ensures Utf8.ValidString(Encode(n)) <==> PrefixValid(n)
  {
    if n < 128 {
      Utf8.OneCharacter(n);
    } else if n < 16384 {
      TwoBytesInvalid(n);
    } else if n < 2097152 {
      ThreeBytes(n);
      ThreeValid(n % 128 + 128, n / 128 % 128 + 128, n / 16384);
      hide Encode, Utf8.ValidString;
    } else {
      FourBytes(n);
      FourValid(n % 128 + 128, n / 128 % 128 + 128, n / 16384 % 128 + 128, n / 2097152);
      hide Encode, Utf8.ValidString, Utf8.SecondByte;
    }
  }

  lemma TwoBytesInvalid(n: nat)
    requires 128 <= n < 16384
    ensures !Utf8.ValidString(Encode(n))
  {
    TwoBytes(n);
    LastByte(n % 128 + 128, n / 128);
    hide Encode, Utf8.ValidString;
  }

  lemma TwoBytes(n: nat)
    requires 128 <= n < 16384
    ensures Encode(n) == [n % 128 + 128, n / 128]
  {
  }

  lemma ThreeBytes(n: nat)
    requires 16384 <= n < 2097152
    ensures Encode(n) == [n % 128 + 128, n / 128 % 128 + 128, n / 16384]
  {
    TwoBytes(n / 128);
    assert Encode(n) == [n % 128 + 128] + Encode(n / 128);
    hide Encode;
    assert n / 128 / 128 == n / 16384;
  }

  lemma FourBytes(n: nat)
    requires 2097152 <= n < 0x1000_0000
    ensures Encode(n) == [n % 128 + 128, n / 128 % 128 + 128, n / 16384 % 128 + 128, n / 2097152]
  {
    ThreeBytes(n / 128);
    assert Encode(n) == [n % 128 + 128] + Encode(n / 128);
    hide Encode;
    assert n / 128 / 128 == n / 16384 && n / 128 / 16384 == n / 2097152;
  }

  lemma ThreeValid(a: byte, b: byte, c: byte)
    requires a >= 0x80 && b >= 0x80 && c < 0x80
    ensures Utf8.ValidString([a, b, c]) <==> 0xc2 <= a <= 0xdf && b <= 0xbf
  {
    assert [a, b, c][2..] == [c];
    Utf8.OneCharacter(c);
  }

  lemma FourValid(a: byte, b: byte, c: byte, d: byte)
    requires a >= 0x80 && b >= 0x80 && c >= 0x80 && d < 0x80
    ensures Utf8.ValidString([a, b, c, d]) <==> 0xe0 <= a <= 0xef && Utf8.SecondByte(a, b) && c <= 0xbf
  {
    assert [a, b, c, d][2..] == [c, d] && [a, b, c, d][3..] == [d];
    Utf8.OneCharacter(d);
    LastByte(c, d);
  }

  lemma LastByte(c: byte, d: byte)
    requires c >= 0x80 && d < 0x80
    ensures !Utf8.ValidString([c, d])
  {
  }

  /** The bridge's own decoder finds the VM record exactly for the owner ids of such lengths. */
  lemma OwnDecoderFindsExactly(owner: Bytes)
    requires OwnerOk(owner) && |owner| <= MESSAGE_LIMIT
    ensures var own := Strings(EncodeListVmsResponse(owner), 0, Utf8.ValidString);
            own.Some? && (3 in own.value <==> PrefixValid(|owner|))
  {
    assert |owner| < 0x1000_0000;
    hide *;
    ListVmsNestedOwner(owner);
    PrefixValidExactly(|owner|);
  }
}
