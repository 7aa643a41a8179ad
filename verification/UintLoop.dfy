/**
  All that `decodeUint64Fields` can do by itself. A declared length that does not fit sends its offset back, and
  the loop goes on from there: it may still return, index out of range, or go round for ever. The program calls it
  only on bytes that the string decoder has got through, and there it always returns (`AtTheOnlyCall`).
 */
module UintLoop {
  import opened Sequences
  import opened Varint
  import opened Wire
  import opened WireLaws
  import OffsetLoop

  // ----- The loop as a machine -----

  /** At the loop's guard with an offset and a map, or at one of the two ends. */
  datatype Config = At(i: int, fields: map<nat, nat>) | Returned(found: map<nat, nat>) | OutOfRange

  /** The guard and the body, once. A negative offset passes the guard and then fails as an index. */
  function Turn(data: Bytes, c: Config): Config
  {
    match c
    case Returned(_) => c
    case OutOfRange => c
    case At(i, fields) =>
      if i >= |data| then Returned(fields)
      else if i < 0 then OutOfRange
      else
        match UintStep(data[i..], i)
        case Leave => Returned(fields)
        case Wrapped(to) => At(to, fields)
        case Go(size, entry) => At(i + size, fields + EntryMap(entry))
  }

  /** The machine after `n` turns. */
  function After(data: Bytes, n: nat): Config
  {
    if n == 0 then At(0, map[]) else Turn(data, After(data, n - 1))
  }

  /** What a call does. */
  datatype Outcome = Finds(fields: map<nat, nat>) | Panics | NeverEnds

  /** The outcome, decided by as many turns as there are bytes and one more. */
  function Behaviour(data: Bytes): Outcome
  {
    match After(data, |data| + 1)
    case Returned(fields) => Finds(fields)
    case OutOfRange => Panics
    case At(_, _) => NeverEnds
  }

  // ----- Deciding the outcome -----

  /** The next offset, as long as the loop goes on. */
  function NextOffset(data: Bytes, i: int): Option<int>
  {
    if 0 <= i < |data| then
      match UintStep(data[i..], i)
      case Leave => None
      case Wrapped(to) => Some(to)
      case Go(size, _) => Some(i + size)
    else None
  }

  lemma {:induction false} Tracks(data: Bytes, n: nat)
    ensures var offset := OffsetLoop.Iterate(i => NextOffset(data, i), n);
            match After(data, n)
            case At(i, _) => offset == Some(i)
            case _ => offset == None
    decreases n
  {
    hide UintStep;
    if n > 0 {
      Tracks(data, n - 1);
    }
  }

  lemma {:induction false} EndsStay(data: Bytes, m: nat, n: nat)
    requires m <= n && !After(data, m).At?
    ensures After(data, n) == After(data, m)
    decreases n
  {
    if m < n {
      EndsStay(data, m, n - 1);
    }
  }

  /** Still going after `|data| + 1` turns means going for ever, inside the data. */
  lemma StillGoing(data: Bytes)
    requires After(data, |data| + 1).At?
    ensures forall n: nat :: After(data, n).At? && 0 <= After(data, n).i < |data|
  {
    hide NextOffset, After, UintStep;
    var next := (i: int) => NextOffset(data, i);
    Tracks(data, |data| + 1);
    assert OffsetLoop.Inside(next, |data|) by { OnlyInside(data); }
    OffsetLoop.NeverEnds(next, |data|);
    forall n: nat
      ensures After(data, n).At? && 0 <= After(data, n).i < |data|
    {
      Tracks(data, n);
    }
  }

  lemma OnlyInside(data: Bytes)
    ensures forall i :: NextOffset(data, i).Some? ==> 0 <= i < |data|
  {
  }

  /** The outcome is what the loop comes to after however many turns. */
  lemma BehaviourExactly(data: Bytes)
    ensures forall fields :: Behaviour(data) == Finds(fields) <==> exists n: nat :: After(data, n) == Returned(fields)
    ensures Behaviour(data) == Panics <==> exists n: nat :: After(data, n) == OutOfRange
    ensures Behaviour(data) == NeverEnds <==> forall n: nat :: After(data, n).At?
  {
    hide After;
    var last := After(data, |data| + 1);
    if last.At? {
      StillGoing(data);
    }
    forall n: nat
      ensures !After(data, n).At? ==> After(data, n) == last
    {
      EndsAlike(data, n);
    }
    assert After(data, |data| + 1) == last;
  }

  lemma EndsAlike(data: Bytes, n: nat)
    ensures !After(data, n).At? ==> After(data, n) == After(data, |data| + 1)
  {
    hide After;
    if After(data, |data| + 1).At? {
      StillGoing(data);
    } else if !After(data, n).At? {
      if n <= |data| + 1 {
        EndsStay(data, n, |data| + 1);
      } else {
        EndsStay(data, |data| + 1, n);
      }
    }
  }

  /** `decodeUint64Fields`. The count of turns is the model's: the code would go on for ever where it stops. */
  method DecodeUint64Fields(data: Bytes) returns (r: Outcome)
    ensures r == Behaviour(data)
  {
    hide Decode, After, EntryMap;
    var fields: map<nat, nat> := map[];
    var i: int := 0;
    var turns := 0;
    Starts(data);
    while i < |data|
      invariant turns <= |data| + 1 && After(data, turns) == At(i, fields)
      decreases |data| + 1 - turns
    {
      if turns == |data| + 1 {
        return NeverEnds;
      }
      Turns(data, turns);
      if i < 0 {
        EndsStay(data, turns + 1, |data| + 1);
        return Panics;
      }
      ghost var before := fields;
      AddNothing(before);
      var tag, n := DecodeVarint(data[i..]);
      if n == 0 {
        EndsStay(data, turns + 1, |data| + 1);
        return Finds(fields);
      }
      assert data[i..][n..] == data[i + n..];
      var wireType, fieldNum := tag % 8, tag / 8;
      if wireType == 0 {
        var v, m := DecodeVarint(data[i + n..]);
        AddEntry(before, fieldNum, v);
        i := i + n + m;
        fields := fields[fieldNum := v];
      } else if wireType == 2 {
        var length, m := DecodeVarint(data[i + n..]);
        i := Wrap(i + n + m + ToInt(length));
      } else if wireType == 1 {
        i := i + n + 8;
      } else if wireType == 5 {
        i := i + n + 4;
      } else {
        EndsStay(data, turns + 1, |data| + 1);
        return Finds(fields);
      }
      turns := turns + 1;
    }
    if turns == |data| + 1 {
      StillGoing(data);
      assert false;
    }
    Turns(data, turns);
    EndsStay(data, turns + 1, |data| + 1);
    return Finds(fields);
  }

  lemma Starts(data: Bytes)
    ensures After(data, 0) == At(0, map[])
  {
  }

  lemma Turns(data: Bytes, n: nat)
    ensures After(data, n + 1) == Turn(data, After(data, n))
  {
  }

  /** No turn takes an entry out; going back leaves the map as it is, and so does the end. */
  lemma EntriesStay(data: Bytes, n: nat)
    ensures match (After(data, n), After(data, n + 1))
            case (At(i, before), At(j, after)) => before.Keys <= after.Keys && (j < i ==> after == before)
            case (At(_, before), Returned(found)) => found == before
            case (At(i, _), OutOfRange) => i < 0
            case (ended, next) => next == ended
  {
    Turns(data, n);
    hide UintStep, After;
  }

  // ----- While lengths fit -----

  /** At turn `k` the offset goes back, to before the end of the length just read. */
  ghost predicate GoesBack(data: Bytes, k: nat)
  {
    match After(data, k)
    case At(i, _) => 0 <= i < |data| && UintStep(data[i..], i).Wrapped?
    case _ => false
  }

  /** From turn `n` on the machine visits the offsets, and then returns with `end` or goes back. */
  ghost predicate Visits(data: Bytes, n: nat, offsets: seq<nat>, end: Option<map<nat, nat>>)
  {
    && (forall t: nat :: n <= t < n + |offsets| ==> After(data, t).At? && After(data, t).i == offsets[t - n])
    && match end
       case Some(found) => After(data, n + |offsets| + 1) == Returned(found)
       case None => offsets != [] && GoesBack(data, n + |offsets| - 1)
  }

  lemma VisitsCons(data: Bytes, n: nat, i: nat, later: seq<nat>, end: Option<map<nat, nat>>)
    requires After(data, n).At? && After(data, n).i == i
    requires Visits(data, n + 1, later, end)
    ensures Visits(data, n, [i] + later, end)
  {
    hide After, GoesBack;
    var offsets := [i] + later;
    forall t: nat | n <= t < n + |offsets|
      ensures After(data, t).At? && After(data, t).i == offsets[t - n]
    {
      assert t > n ==> offsets[t - n] == later[t - (n + 1)];
    }
    assert n + |offsets| + 1 == n + 1 + |later| + 1 && n + |offsets| - 1 == n + 1 + |later| - 1;
  }

  /** From a turn on, the machine follows the offsets that only move forward. */
  lemma {:induction false} Follows(data: Bytes, n: nat, i: nat, fields: map<nat, nat>)
    requires After(data, n) == At(i, fields)
    ensures Visits(data, n, UintOffsets(Drop(data, i), i), Override(fields, Uints(Drop(data, i), i)))
    decreases |data| - i
  {
    hide UintStep, EntryMap, After, Visits, GoesBack;
    Turns(data, n);
    if i >= |data| {
      assert fields + map[] == fields;
      VisitsNothing(data, n, fields);
    } else {
      assert Drop(data, i) == data[i..];
      UintsTurn(data, i, fields);
      hide Uints;
      match UintStep(data[i..], i)
      case Leave =>
        Turns(data, n + 1);
        VisitsOne(data, n, i, Some(fields));
      case Wrapped(to) =>
        BackAt(data, n, i);
        VisitsOne(data, n, i, None);
      case Go(size, entry) =>
        assert Drop(data[i..], size) == Drop(data, i + size);
        Follows(data, n + 1, i + size, fields + EntryMap(entry));
        VisitsCons(data, n, i, UintOffsets(Drop(data, i + size), i + size),
                   Override(fields + EntryMap(entry), Uints(Drop(data, i + size), i + size)));
    }
  }

  lemma VisitsNothing(data: Bytes, n: nat, found: map<nat, nat>)
    requires After(data, n + 1) == Returned(found)
    ensures Visits(data, n, [], Some(found))
  {
  }

  lemma VisitsOne(data: Bytes, n: nat, i: nat, end: Option<map<nat, nat>>)
    requires After(data, n).At? && After(data, n).i == i
    requires if end.Some? then After(data, n + 2) == Returned(end.value) else GoesBack(data, n)
    ensures Visits(data, n, [i], end)
  {
    hide After, GoesBack;
  }

  lemma BackAt(data: Bytes, n: nat, i: nat)
    requires After(data, n).At? && After(data, n).i == i < |data| && UintStep(data[i..], i).Wrapped?
    ensures GoesBack(data, n)
  {
  }

  /**
    Lockstep on every byte string. The two decoders read their first tags at the same offsets, all of those the
    string decoder reads, and these strictly advance. If every length fits, the uint decoder then returns;
    otherwise the string decoder slices out of range at the last of them, where the uint decoder goes back.
   */
  lemma Lockstep(data: Bytes, keep: Bytes -> bool)
    requires |data| < TWO_63
    ensures var offsets := StringOffsets(data, 0, keep);
            && Advancing(offsets, 0, |data|)
            && (forall t: nat :: t < |offsets| ==> After(data, t).At? && After(data, t).i == offsets[t])
            && (LengthsFit(data, 0) ==>
                  Strings(data, 0, keep).Some? && After(data, |offsets| + 1).Returned?)
            && (!LengthsFit(data, 0) ==>
                  Strings(data, 0, keep).None? && offsets != [] && GoesBack(data, |offsets| - 1))
  {
    hide After, GoesBack, UintOffsets, StringOffsets, Strings, Uints, LengthsFit, Advancing;
    assert Drop(data, 0) == data;
    Starts(data);
    SameForwardOffsets(data, 0, keep);
    OffsetsAdvance(data, 0);
    DecodesExactly(data, 0, keep);
    Follows(data, 0, 0, map[]);
  }

  /** If every length fits, the call finds the forward decoding. */
  lemma FitsFinds(data: Bytes)
    requires |data| < TWO_63 && LengthsFit(data, 0)
    ensures Uints(data, 0).Some? && Behaviour(data) == Finds(Uints(data, 0).value)
  {
    hide After, GoesBack, UintOffsets, Uints, LengthsFit;
    assert Drop(data, 0) == data;
    Starts(data);
    DecodesExactly(data, 0, _ => true);
    Follows(data, 0, 0, map[]);
    assert map[] + Uints(data, 0).value == Uints(data, 0).value;
    BehaviourExactly(data);
  }

  /** What the forward decoding finds, the call finds. */
  lemma ForwardFound(data: Bytes)
    requires |data| < TWO_63 && Uints(data, 0).Some?
    ensures Behaviour(data) == Finds(Uints(data, 0).value)
  {
    hide *;
    DecodesExactly(data, 0, _ => true);
    FitsFinds(data);
  }

  /** On every serialised message the call finds the last varint of every field. */
  lemma MessageFound(fs: seq<Field>)
    requires ValidFields(fs) && |Serialize(fs)| < TWO_63
    ensures Behaviour(Serialize(fs)) == Finds(UintsOf(fs))
  {
    hide *;
    MessageRoundTrip(fs, _ => true);
    ForwardFound(Serialize(fs));
  }

  lemma FitsUnfold(data: Bytes, i: nat)
    requires i < |data| < TWO_63 && LengthsFit(Drop(data, i), i)
    ensures match UintStep(data[i..], i)
            case Leave => true
            case Wrapped(_) => false
            case Go(size, _) => LengthsFit(Drop(data, i + size), i + size)
  {
    hide UintStep, Fits;
    WrapsExactly(data[i..], i, _ => true);
    match UintStep(data[i..], i)
    case Go(size, _) => assert Drop(data[i..], size) == Drop(data, i + size);
    case _ =>
  }

  lemma NotBack(data: Bytes, k: nat)
    requires match After(data, k)
             case At(i, _) => i >= |data| || (i >= 0 && !UintStep(data[i..], i).Wrapped?)
             case _ => true
    ensures !GoesBack(data, k)
  {
    hide UintStep, After;
  }

  /** After the forward offsets have ended in a return, no turn goes back. */
  lemma {:induction false} ForwardTurns(data: Bytes, n: nat, i: nat, fields: map<nat, nat>, k: nat)
    requires |data| < TWO_63 && After(data, n) == At(i, fields)
    requires LengthsFit(Drop(data, i), i) && n <= k
    ensures !GoesBack(data, k)
    decreases k - n
  {
    hide UintStep, EntryMap, LengthsFit, After, GoesBack;
    Turns(data, n);
    if i < |data| {
      FitsUnfold(data, i);
    }
    if k == n {
      NotBack(data, k);
    } else if After(data, n + 1).At? {
      var next := After(data, n + 1);
      ForwardTurns(data, n + 1, next.i, next.fields, k);
    } else {
      EndsStay(data, n + 1, k);
      NotBack(data, k);
    }
  }

  /** The offset goes back at some turn if and only if some length declared at a visited offset does not fit. */
  lemma GoesBackExactly(data: Bytes)
    requires |data| < TWO_63
    ensures (exists k: nat :: GoesBack(data, k)) <==> !LengthsFit(data, 0)
  {
    hide After, GoesBack, LengthsFit;
    if LengthsFit(data, 0) {
      assert Drop(data, 0) == data;
      Starts(data);
      forall k: nat
        ensures !GoesBack(data, k)
      {
        ForwardTurns(data, 0, 0, map[], k);
      }
    } else {
      Lockstep(data, _ => true);
    }
  }

  // ----- The only call -----

  /** On bytes that the string decoder gets through, the call returns the forward decoding. */
  lemma AtTheOnlyCall(data: Bytes, keep: Bytes -> bool)
    requires |data| < TWO_63 && Strings(data, 0, keep).Some?
    ensures Uints(data, 0).Some? && Behaviour(data) == Finds(Uints(data, 0).value)
  {
    hide *;
    DecodesExactly(data, 0, keep);
    FitsFinds(data);
  }

  datatype IconRequest = IconRequest(id: Bytes, size: nat)

  /** The size asked for in field 4, or 48 when it is absent or outside 16 to 512. */
  function IconSize(fields: map<nat, nat>): (size: nat)
    ensures 16 <= size <= 512
  {
    var asked := ToInt(if 4 in fields then fields[4] else 0);
    if asked < 16 || asked > 512 then 48 else asked
  }

  /** For 64-bit values, in plain numbers: a size from 16 to 512 is taken, anything else is 48. */
  lemma IconSizeMeans(fields: map<nat, nat>)
    requires 4 in fields ==> fields[4] < 0x1_0000_0000_0000_0000
    ensures 4 in fields && 16 <= fields[4] <= 512 ==> IconSize(fields) == fields[4]
    ensures 4 !in fields || fields[4] < 16 || fields[4] > 512 ==> IconSize(fields) == 48
  {
  }

  /** How `GetContainerAppIcon` reads its request: exactly when a length does not fit it panics, `None` here. */
  method DecodeIconRequest(req: Bytes, keep: Bytes -> bool) returns (r: Option<IconRequest>)
    requires |req| < TWO_63
    ensures r.Some? <==> LengthsFit(req, 0)
    ensures r.Some? ==>
              var strings, uints := Strings(req, 0, keep), Uints(req, 0);
              && strings.Some? && uints.Some?
              && r.value == IconRequest(if 3 in strings.value then strings.value[3] else [], IconSize(uints.value))
  {
    hide Strings, Uints, LengthsFit, Behaviour;
    var strings := DecodeStringFields(req, keep);
    DecodesExactly(req, 0, keep);
    if strings.None? {
      return None;
    }
    var found := DecodeUint64Fields(req);
    AtTheOnlyCall(req, keep);
    var id := if 3 in strings.value then strings.value[3] else [];
    return Some(IconRequest(id, IconSize(found.fields)));
  }

  // ----- Lengths that do not fit: three calls of the function by itself -----

  lemma ExampleBytes()
    ensures var data := [0x0a, 0x02, 0x0a, 0x64, 0x0a] + Back(13);
            && data[0..] == [0x0a] + (Encode(0x02) + ([0x0a, 0x64, 0x0a] + Back(13)))
            && data[2..] == [0x0a] + (Encode(0x64) + ([0x0a] + Back(13)))
            && data[4..] == [0x0a] + (Encode(TWO_64 - 13) + [])
            && |Encode(0x02)| == 1 && |Encode(0x64)| == 1 && |Encode(TWO_64 - 13)| == 10
  {
    BackEncodes(13);
    assert Encode(0x02) == [0x02] && Encode(0x64) == [0x64];
    hide Encode;
  }

  /** A turn at a length-delimited field 1. */
  lemma LengthTurn(data: Bytes, i: nat, length: nat, rest: Bytes)
    requires i < |data| && data[i..] == [0x0a] + (Encode(length) + rest) && length < TWO_64
    ensures var start := i + 1 + |Encode(length)|;
            var next := Wrap(start + ToInt(length));
            && (next < start ==> UintStep(data[i..], i) == Wrapped(next))
            && (next >= start ==> UintStep(data[i..], i) == Go(next - i, None))
  {
    TagDecodes(1, 2, Encode(length) + rest);
    assert Encode(Tag(1, 2)) == [0x0a];
    RoundTrip(length, rest);
    hide Encode, Decode;
    assert data[i..][1..] == Encode(length) + rest;
  }

  /** Such a turn from a configuration of the machine. */
  lemma LengthMoves(data: Bytes, n: nat, i: nat, length: nat, rest: Bytes)
    requires After(data, n) == At(i, map[])
    requires i < |data| && data[i..] == [0x0a] + (Encode(length) + rest) && length < TWO_64
    ensures After(data, n + 1) == At(Wrap(i + 1 + |Encode(length)| + ToInt(length)), map[])
  {
    Turns(data, n);
    LengthTurn(data, i, length, rest);
    AddNothing<nat>(map[]);
    hide UintStep, Encode, Wrap, EntryMap, After;
  }

  lemma {:induction false} StuckAtStart(data: Bytes, n: nat)
    requires After(data, 1) == After(data, 0)
    ensures After(data, n) == After(data, 0)
  {
    hide Turn;
    if n > 0 {
      StuckAtStart(data, n - 1);
    }
  }

  lemma Backwards(start: nat, length: nat)
    requires start < TWO_63 + 128 && TWO_64 - 128 <= length < TWO_64
    ensures Wrap(start + ToInt(length)) < start
  {
  }

  lemma GoneBack(data: Bytes, k: nat, i: nat, length: nat, rest: Bytes, keep: Bytes -> bool)
    requires |data| < TWO_63 && After(data, k) == At(i, map[])
    requires i < |data| && data[i..] == [0x0a] + (Encode(length) + rest) && TWO_64 - 128 <= length < TWO_64
    ensures Strings(data, 0, keep) == None && !LengthsFit(data, 0)
  {
    hide *;
    RoundTrip(length, rest);
    Backwards(i + 1 + |Encode(length)|, length);
    LengthTurn(data, i, length, rest);
    BackAt(data, k, i);
    GoesBackExactly(data);
    DecodesExactly(data, 0, keep);
  }

  /** The string decoder slices out of range on a length of 2^64 - 11, and the uint decoder goes round for ever. */
  lemma NeverEndsExample(keep: Bytes -> bool)
    ensures var data := [0x0a] + Back(11);
            && Behaviour(data) == NeverEnds
            && Strings(data, 0, keep) == None && !LengthsFit(data, 0)
  {
    var data := [0x0a] + Back(11);
    BackEncodes(11);
    assert data[0..] == [0x0a] + (Encode(TWO_64 - 11) + []);
    Starts(data);
    hide UintStep, Encode, After, LengthsFit, Strings;
    LengthMoves(data, 0, 0, TWO_64 - 11, []);
    StuckAtStart(data, |data| + 1);
    GoneBack(data, 0, 0, TWO_64 - 11, [], keep);
  }

  /** One more, and the offset is negative: the call panics. */
  lemma PanicsExample(keep: Bytes -> bool)
    ensures var data := [0x0a] + Back(12);
            && Behaviour(data) == Panics
            && Strings(data, 0, keep) == None && !LengthsFit(data, 0)
  {
    var data := [0x0a] + Back(12);
    BackEncodes(12);
    assert data[0..] == [0x0a] + (Encode(TWO_64 - 12) + []);
    Starts(data);
    hide UintStep, Encode, After, LengthsFit, Strings;
    LengthMoves(data, 0, 0, TWO_64 - 12, []);
    Turns(data, 1);
    EndsStay(data, 2, |data| + 1);
    GoneBack(data, 0, 0, TWO_64 - 12, [], keep);
  }

  /** Going back need not be the end: here the offsets are 0, 4, 2 and 104, and the call returns. */
  lemma ReturnsAfterGoingBack(keep: Bytes -> bool)
    ensures var data := [0x0a, 0x02, 0x0a, 0x64, 0x0a] + Back(13);
            && Behaviour(data) == Finds(map[])
            && Strings(data, 0, keep) == None && !LengthsFit(data, 0)
  {
    var data := [0x0a, 0x02, 0x0a, 0x64, 0x0a] + Back(13);
    ExampleBytes();
    assert ToInt(TWO_64 - 13) == 0 - 13;
    Starts(data);
    hide UintStep, Encode, After, LengthsFit, Strings, Back;
    LengthMoves(data, 0, 0, 0x02, [0x0a, 0x64, 0x0a] + Back(13));
    LengthMoves(data, 1, 4, TWO_64 - 13, []);
    LengthMoves(data, 2, 2, 0x64, [0x0a] + Back(13));
    Turns(data, 3);
    EndsStay(data, 4, |data| + 1);
    GoneBack(data, 1, 4, TWO_64 - 13, [], keep);
  }
}
