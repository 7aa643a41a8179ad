/**
  What clients of the Crostini bridge can rely on over every history of its steps: which owner ids can become
  current, whose owner id an answer holds when handlers overlap, and what the answers and signals decode to.
 */
module CrostiniRuns {
  import opened Sequences
  import opened Varint
  import opened Wire
  import opened WireLaws
  import opened Crostini
  import Utf8

  // ----- The owner ids that can become current -----

  /** A request that proposes an owner id. */
  function OwnerRequest(owner: Bytes): Bytes
  {
    AppendBytes([], 2, owner)
  }

  lemma OwnerRequestDecodes(owner: Bytes)
    requires OwnerOk(owner) && |owner| <= MESSAGE_LIMIT
    ensures Decodable(Learn(OwnerRequest(owner))) && Proposed(Learn(OwnerRequest(owner))) == owner
  {
    hide Strings, Serialize, SerializeField, AppendBytes, Utf8.ValidString;
    var fs := [BytesField(2, owner)];
    SerializeNone();
    AppendsBytes([], 2, owner);
    assert [] + fs == fs;
    BytesFieldLength(2, owner);
    SerializeAtMostTwo(fs);
    MessageRoundTrip(fs, Utf8.ValidString);
    LastStringWins(fs, Utf8.ValidString, 2);
    assert fs[0] == BytesField(2, owner);
    CandidateFirst(Fields(OwnerRequest(owner)));
  }

  lemma CandidateFirst(fields: map<nat, Bytes>)
    requires Get(fields, 2) != []
    ensures Candidate(fields, OWNER_FIELDS) == Get(fields, 2)
  {
  }

  /** From any state one request makes any acceptable owner id current. */
  lemma AnyOwnerBecomesCurrent(s: Session, owner: Bytes)
    requires OwnerOk(owner) && |owner| <= MESSAGE_LIMIT
    ensures Decodable(Learn(OwnerRequest(owner))) && Act(s, Learn(OwnerRequest(owner))).owner == owner
  {
    OwnerRequestDecodes(owner);
    hide OwnerRequest, Proposed, Decodable;
  }

  ghost predicate Reachable(owner: Bytes)
  {
    exists acts :: AllDecodable(acts) && Run(INITIAL, acts).owner == owner
  }

  /** The owner ids some history leads to are exactly the acceptable ones. */
  lemma ReachableExactly(owner: Bytes)
    requires |owner| <= MESSAGE_LIMIT
    ensures Reachable(owner) <==> OwnerOk(owner)
  {
    hide OwnerOk, Decodable, OwnerRequest;
    if Reachable(owner) {
      var acts :| AllDecodable(acts) && Run(INITIAL, acts).owner == owner;
      InitialOwnerOk();
      OwnerAlwaysOk(INITIAL, acts);
    }
    if OwnerOk(owner) {
      OneStep(owner);
    }
  }

  lemma OneStep(owner: Bytes)
    requires OwnerOk(owner) && |owner| <= MESSAGE_LIMIT
    ensures var acts := [Learn(OwnerRequest(owner))];
            AllDecodable(acts) && Run(INITIAL, acts).owner == owner
  {
    AnyOwnerBecomesCurrent(INITIAL, owner);
    hide Act, Decodable, OwnerRequest, OwnerOk;
    assert [Learn(OwnerRequest(owner))][..0] == [];
  }

  // ----- Handlers that overlap -----

  /**
    A handler that has learned an acceptable owner id and then reads the current one, with any steps of others in
    between, reads the id it learned or the last acceptable one proposed in between.
   */
  lemma ReadAfterLearning(s: Session, front: seq<Action>, own: Action, between: seq<Action>)
    requires AllDecodable(front) && Decodable(own) && AllDecodable(between)
    requires !Reserved(Proposed(own))
    ensures AllDecodable(front + [own] + between)
    ensures NoProposal(between) ==> Run(s, front + [own] + between).owner == Proposed(own)
    ensures forall i: nat :: LastProposal(between, i) ==>
              Run(s, front + [own] + between).owner == Proposed(between[i])
  {
    hide Run, Reserved, Proposed, Decodable, LastProposal, NoProposal;
    OwnerIsLastProposal(s, front + [own] + between);
    if NoProposal(between) {
      OwnIsLast(front, own, between);
    }
    forall i: nat | LastProposal(between, i)
      ensures Run(s, front + [own] + between).owner == Proposed(between[i])
    {
      LaterIsLast(front, own, between, i);
    }
  }

  lemma OwnIsLast(front: seq<Action>, own: Action, between: seq<Action>)
    requires AllDecodable(front) && Decodable(own) && AllDecodable(between)
    requires !Reserved(Proposed(own)) && NoProposal(between)
    ensures LastProposal(front + [own] + between, |front|) && (front + [own] + between)[|front|] == own
  {
    hide Reserved, Proposed, Decodable;
    var acts, n := front + [own] + between, |front|;
    assert forall j :: n < j < |acts| ==> acts[j] == between[j - (n + 1)];
  }

  lemma LaterIsLast(front: seq<Action>, own: Action, between: seq<Action>, i: nat)
    requires AllDecodable(front) && Decodable(own) && AllDecodable(between)
    requires LastProposal(between, i)
    ensures LastProposal(front + [own] + between, |front| + 1 + i)
    ensures (front + [own] + between)[|front| + 1 + i] == between[i]
  {
    hide Reserved, Proposed, Decodable;
    var acts, n := front + [own] + between, |front|;
    assert forall j :: n < j < |acts| ==> acts[j] == between[j - (n + 1)];
  }

  /** Two overlapping ListVms requests: the first is answered with the owner id of the second. */
  lemma AnsweredWithAnother(a: Bytes, b: Bytes)
    requires OwnerOk(a) && |a| <= MESSAGE_LIMIT && OwnerOk(b) && |b| <= MESSAGE_LIMIT
    ensures var acts := [Learn(OwnerRequest(a)), Learn(OwnerRequest(b))];
            AllDecodable(acts) && Run(INITIAL, acts).owner == b
  {
    OwnerRequestDecodes(a);
    OwnerRequestDecodes(b);
    hide OwnerRequest, Decodable, Proposed, Run, Reserved;
    var own, other := Learn(OwnerRequest(a)), Learn(OwnerRequest(b));
    assert LastProposal([other], 0);
    hide LastProposal, NoProposal, OwnerOk;
    ReadAfterLearning(INITIAL, [], own, [other]);
    assert [] + [own] + [other] == [own, other];
  }

  // ----- Long owner ids -----

  function Letters(n: nat): (owner: Bytes)
    ensures |owner| == n
  {
    seq(n, i requires 0 <= i < n => 'a' as int)
  }

  lemma LettersOk(n: nat)
    requires n > 10
    ensures OwnerOk(Letters(n))
  {
    Utf8.AsciiValid(Letters(n));
    hide Utf8.ValidString, Letters, Lit;
  }

  /** Each made current by one request, an owner id of 127 letters is found, one of 128 not, one of 16450 again. */
  lemma LongOwnersComeAndGo(n: nat)
    requires n == 127 || n == 128 || n == 16450
    ensures OwnerOk(Letters(n)) && Decodable(Learn(OwnerRequest(Letters(n))))
    ensures Run(INITIAL, [Learn(OwnerRequest(Letters(n)))]).owner == Letters(n)
    ensures var own := Strings(EncodeListVmsResponse(Letters(n)), 0, Utf8.ValidString);
            own.Some? && (3 in own.value <==> n != 128)
  {
    assert PrefixValid(127) && !PrefixValid(128) && PrefixValid(16450);
    hide *;
    LettersOk(n);
    AnyOwnerBecomesCurrent(INITIAL, Letters(n));
    OneStep(Letters(n));
    OwnDecoderFindsExactly(Letters(n));
  }

  // ----- The response over every history -----

  /** A decoded payload is no longer than the data. */
  lemma {:induction false} PayloadsShort(s: Bytes, base: nat, keep: Bytes -> bool)
    ensures Strings(s, base, keep).Some? ==>
              forall k :: k in Strings(s, base, keep).value ==> |Strings(s, base, keep).value[k]| <= |s|
    decreases |s|
  {
    hide StringStep, Drop;
    if s != [] {
      EntryShort(s, base, keep);
      var step := StringStep(s, base, keep);
      if step.Go? {
        var rest := Strings(Drop(s, step.size), base + step.size, keep);
        PayloadsShort(Drop(s, step.size), base + step.size, keep);
        if rest.Some? {
          assert Strings(s, base, keep) == Some(EntryMap(step.entry) + rest.value);
        }
      }
    }
  }

  lemma EntryShort(s: Bytes, base: nat, keep: Bytes -> bool)
    requires s != []
    ensures var step := StringStep(s, base, keep);
            step.Go? && step.entry.Some? ==> |step.entry.value.1| <= |s|
  {
    hide Decode, Wrap, ToInt;
  }

  lemma {:induction false} CandidateShort(fields: map<nat, Bytes>, order: seq<nat>, limit: nat)
    requires forall k :: k in fields ==> |fields[k]| <= limit
    ensures |Candidate(fields, order)| <= limit
  {
    if order != [] {
      CandidateShort(fields, order[1..], limit);
    }
  }

  lemma ProposedShort(a: Action, limit: nat)
    requires Decodable(a) && Small(a, limit)
    ensures |Proposed(a)| <= limit
  {
    hide Strings, Candidate;
    if a.Learn? || a.Launch? {
      PayloadsShort(a.req, 0, Utf8.ValidString);
      CandidateShort(Fields(a.req), OWNER_FIELDS, limit);
    }
  }

  predicate Small(a: Action, limit: nat)
  {
    a.Learn? || a.Launch? ==> |a.req| <= limit
  }

  predicate AllSmall(acts: seq<Action>, limit: nat)
  {
    forall i :: 0 <= i < |acts| ==> Small(acts[i], limit)
  }

  /** The owner id is never longer than the longest request. */
  lemma {:induction false} OwnerBounded(s: Session, acts: seq<Action>, limit: nat)
    requires AllDecodable(acts) && AllSmall(acts, limit) && |s.owner| <= limit
    ensures |Run(s, acts).owner| <= limit
    decreases |acts|
  {
    hide Reserved, Proposed, Small;
    if acts != [] {
      OwnerBounded(s, acts[..|acts| - 1], limit);
      OwnerStep(Run(s, acts[..|acts| - 1]), acts[|acts| - 1]);
      ProposedShort(acts[|acts| - 1], limit);
    }
  }

  /**
    After every history of D-Bus messages the ListVms response decodes, with its nested record, to the current
    owner id; the bridge's own decoder finds the record exactly for the lengths above.
   */
  lemma ListVmsAfterHistory(acts: seq<Action>)
    requires AllDecodable(acts) && AllSmall(acts, MESSAGE_LIMIT)
    ensures var owner := Run(INITIAL, acts).owner;
            var raw := Strings(EncodeListVmsResponse(owner), 0, (_: Bytes) => true);
            && raw.Some? && 3 in raw.value
            && var vm := Strings(raw.value[3], 0, Utf8.ValidString);
            vm.Some? && 2 in vm.value && vm.value[2] == owner
    ensures var owner := Run(INITIAL, acts).owner;
            var own := Strings(EncodeListVmsResponse(owner), 0, Utf8.ValidString);
            own.Some? && (3 in own.value <==> PrefixValid(|owner|))
  {
    assert |INITIAL.owner| <= MESSAGE_LIMIT;
    hide *;
    InitialOwnerOk();
    OwnerAlwaysOk(INITIAL, acts);
    OwnerBounded(INITIAL, acts, MESSAGE_LIMIT);
    ListVmsNestedOwner(Run(INITIAL, acts).owner);
    OwnDecoderFindsExactly(Run(INITIAL, acts).owner);
  }

  // ----- Signals -----

  lemma AppendBytesLength(b: Bytes, num: nat, v: Bytes)
    requires 1 <= num <= 15 && |v| < TWO_64
    ensures |AppendBytes(b, num, v)| <= |b| + 11 + |v|
  {
    ShortTag(num, 2);
    RoundTrip(|v|, []);
    hide Encode;
  }

  function ContainerFields(owner: Bytes): seq<Field>
  {
    [BytesField(1, VM_NAME), BytesField(2, CONTAINER_NAME), BytesField(3, owner), BytesField(4, CONTAINER_USER),
     BytesField(5, Lit("/home/user")), BytesField(6, Lit("127.0.0.1")), BytesField(8, CONTAINER_TOKEN)]
  }

  lemma {:induction false} Appended(b: Bytes, fs: seq<Field>, num: nat, payload: Bytes)
    requires b == Serialize(fs) && 1 <= num <= 15 && |payload| <= MESSAGE_LIMIT
    ensures AppendBytes(b, num, payload) == Serialize(fs + [BytesField(num, payload)])
    ensures |AppendBytes(b, num, payload)| <= |b| + 11 + |payload|
  {
    AppendsBytes(fs, num, payload);
    AppendBytesLength(b, num, payload);
  }

  lemma ContainerStartedFields(owner: Bytes)
    requires |owner| <= MESSAGE_LIMIT
    ensures EncodeContainerStarted(owner) == Serialize(ContainerFields(owner))
    ensures |EncodeContainerStarted(owner)| <= |owner| + 140
  {
    hide Serialize, AppendBytes, Lit;
    SerializeNone();
    var fs := ContainerFields(owner);
    var b1 := AppendBytes([], 1, VM_NAME);
    Appended([], [], 1, VM_NAME);
    assert [] + [fs[0]] == fs[..1];
    var b2 := AppendBytes(b1, 2, CONTAINER_NAME);
    Appended(b1, fs[..1], 2, CONTAINER_NAME);
    assert fs[..1] + [fs[1]] == fs[..2];
    var b3 := AppendBytes(b2, 3, owner);
    Appended(b2, fs[..2], 3, owner);
    assert fs[..2] + [fs[2]] == fs[..3];
    var b4 := AppendBytes(b3, 4, CONTAINER_USER);
    Appended(b3, fs[..3], 4, CONTAINER_USER);
    assert fs[..3] + [fs[3]] == fs[..4];
    var b5 := AppendBytes(b4, 5, Lit("/home/user"));
    Appended(b4, fs[..4], 5, Lit("/home/user"));
    assert fs[..4] + [fs[4]] == fs[..5];
    var b6 := AppendBytes(b5, 6, Lit("127.0.0.1"));
    Appended(b5, fs[..5], 6, Lit("127.0.0.1"));
    assert fs[..5] + [fs[5]] == fs[..6];
    Appended(b6, fs[..6], 8, CONTAINER_TOKEN);
    assert fs[..6] + [fs[6]] == fs;
  }

  /** The ContainerStarted signal decodes, by the bridge's own decoder too, to the owner id it was given. */
  lemma ContainerStartedDecodes(owner: Bytes)
    requires OwnerOk(owner) && |owner| <= MESSAGE_LIMIT
    ensures var m := Strings(EncodeContainerStarted(owner), 0, Utf8.ValidString);
            m.Some? && 3 in m.value && m.value[3] == owner
  {
    hide Strings, Serialize, EncodeContainerStarted, Utf8.ValidString, Lit, Reserved;
    ContainerStartedFields(owner);
    var fs := ContainerFields(owner);
    MessageRoundTrip(fs, Utf8.ValidString);
    LastStringWins(fs, Utf8.ValidString, 3);
    assert fs[2] == BytesField(3, owner);
  }

  lemma VmIdFields(owner: Bytes)
    requires |owner| <= MESSAGE_LIMIT
    ensures EncodeVmId(owner) == Serialize([BytesField(1, owner), BytesField(2, VM_NAME)])
    ensures |EncodeVmId(owner)| <= |owner| + 29
  {
    hide Serialize, AppendBytes, Lit;
    SerializeNone();
    Appended([], [], 1, owner);
    assert [] + [BytesField(1, owner)] == [BytesField(1, owner)];
    Appended(AppendBytes([], 1, owner), [BytesField(1, owner)], 2, VM_NAME);
    assert [BytesField(1, owner)] + [BytesField(2, VM_NAME)] == [BytesField(1, owner), BytesField(2, VM_NAME)];
  }

  lemma VmStartedFields(owner: Bytes)
    requires |owner| <= MESSAGE_LIMIT
    ensures EncodeVmStartedSignal(owner) == Serialize([BytesField(1, EncodeVmId(owner)), VarintField(3, 1)])
  {
    hide Serialize, AppendBytes, AppendUint64, EncodeVmId;
    SerializeNone();
    var id := BytesField(1, EncodeVmId(owner));
    AppendsBytes([], 1, EncodeVmId(owner));
    AppendsVarint([id], 3, 1);
    assert [] + [id] == [id];
    assert [id] + [VarintField(3, 1)] == [id, VarintField(3, 1)];
  }

  /** The record nested in the VmStartedSignal decodes to the owner id it was given. */
  lemma VmStartedDecodes(owner: Bytes)
    requires OwnerOk(owner) && |owner| <= MESSAGE_LIMIT
    ensures var raw := Strings(EncodeVmStartedSignal(owner), 0, (_: Bytes) => true);
            && raw.Some? && 1 in raw.value
            && var id := Strings(raw.value[1], 0, Utf8.ValidString);
            id.Some? && 1 in id.value && id.value[1] == owner
  {
    hide Strings, Serialize, SerializeField, EncodeVmStartedSignal, EncodeVmId, Utf8.ValidString, Lit, Reserved;
    VmIdFields(owner);
    VmStartedFields(owner);
    var fs := [BytesField(1, EncodeVmId(owner)), VarintField(3, 1)];
    var inner := [BytesField(1, owner), BytesField(2, VM_NAME)];
    BytesFieldLength(1, EncodeVmId(owner));
    OneByteVarint(3, 1);
    SerializeAtMostTwo(fs);
    MessageRoundTrip(fs, (_: Bytes) => true);
    LastStringWins(fs, (_: Bytes) => true, 1);
    assert fs[0] == BytesField(1, EncodeVmId(owner));
    MessageRoundTrip(inner, Utf8.ValidString);
    LastStringWins(inner, Utf8.ValidString, 1);
    assert inner[0] == BytesField(1, owner);
  }

  /** Whatever happens between a start and its two signals, each names the owner id current when it is sent. */
  lemma SignalsNameOwner(acts: seq<Action>)
    requires AllDecodable(acts) && AllSmall(acts, MESSAGE_LIMIT)
    ensures var owner := Run(INITIAL, acts).owner;
            var raw := Strings(EncodeVmStartedSignal(owner), 0, (_: Bytes) => true);
            && raw.Some? && 1 in raw.value
            && var id := Strings(raw.value[1], 0, Utf8.ValidString);
            id.Some? && 1 in id.value && id.value[1] == owner
    ensures var owner := Run(INITIAL, acts).owner;
            var m := Strings(EncodeContainerStarted(owner), 0, Utf8.ValidString);
            m.Some? && 3 in m.value && m.value[3] == owner
  {
    assert |INITIAL.owner| <= MESSAGE_LIMIT;
    hide *;
    InitialOwnerOk();
    OwnerAlwaysOk(INITIAL, acts);
    OwnerBounded(INITIAL, acts, MESSAGE_LIMIT);
    VmStartedDecodes(Run(INITIAL, acts).owner);
    ContainerStartedDecodes(Run(INITIAL, acts).owner);
  }
}
