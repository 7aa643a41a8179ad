/**
  All that `parseSetBacklightBrightnessRequest` can do. A declared length that does not fit sends its offset back,
  and the loop goes on from there: it may still return, index out of range, or go round for ever.
 */
module BacklightLoop {
  import opened Sequences
  import opened Varint
  import opened Wire
  import opened Power
  import OffsetLoop

  /** What a call does. */
  datatype Call = Finds(bits: nat) | Rejects | Panics | NeverEnds

  // ----- The loop by its offsets -----

  /** The next offset, as long as the loop goes on. */
  function NextTag(req: Bytes, i: int): Option<int>
  {
    if 0 <= i < |req| && !AtBrightness(req[i..]) then
      match SkipField(req[i..], i)
      case Fails => None
      case Wraps(to) => Some(to)
      case To(size) => if i + size > |req| then None else Some(i + size)
    else None
  }

  /** What the call does at the offset where the loop ends. A negative offset passes the guard. */
  function Ending(req: Bytes, i: int): Call
  {
    if i >= |req| then Rejects
    else if i < 0 then Panics
    else if AtBrightness(req[i..]) && i + 9 <= |req| then Finds(FromBytes(req[i + 1..i + 9]))
    else Rejects
  }

  function Tags(req: Bytes): OffsetLoop.Next
  {
    i => NextTag(req, i)
  }

  /** The offset after `n` turns; none once the loop has ended. */
  function Offset(req: Bytes, n: nat): Option<int>
  {
    OffsetLoop.Iterate(Tags(req), n)
  }

  /** What a call does, decided by as many turns as there are bytes and one more. */
  function Behaviour(req: Bytes): Call
  {
    var next, n := Tags(req), |req| + 1;
    if OffsetLoop.Iterate(next, n).Some? then NeverEnds else Ending(req, OffsetLoop.Stop(next, n))
  }

  /** The loop ends at turn `n`, where the call does `c`. */
  ghost predicate EndsAt(req: Bytes, n: nat, c: Call)
  {
    match Offset(req, n)
    case None => false
    case Some(i) => NextTag(req, i).None? && Ending(req, i) == c
  }

  ghost predicate Ends(req: Bytes, c: Call)
  {
    exists n: nat :: EndsAt(req, n, c)
  }

  lemma OnlyInside(req: Bytes)
    ensures OffsetLoop.Inside(Tags(req), |req|)
  {
    hide SkipField;
  }

  lemma EndDecides(req: Bytes, n: nat, c: Call)
    requires EndsAt(req, n, c)
    ensures Behaviour(req) == c
  {
    hide NextTag, Ending;
    var next := Tags(req);
    OnlyInside(req);
    OffsetTurns(req, n);
    if Offset(req, |req| + 1).Some? {
      OffsetLoop.NeverEnds(next, |req|);
      assert false;
    }
    OffsetLoop.StopUnique(next, n, |req| + 1);
  }

  lemma EndExists(req: Bytes)
    requires Behaviour(req) != NeverEnds
    ensures exists n: nat :: EndsAt(req, n, Behaviour(req))
  {
    hide NextTag, Ending;
    var next := Tags(req);
    OffsetLoop.StopsThere(next, |req| + 1);
    var k: nat :| OffsetLoop.Iterate(next, k) == Some(OffsetLoop.Stop(next, |req| + 1))
                  && next(OffsetLoop.Stop(next, |req| + 1)).None?;
    assert EndsAt(req, k, Behaviour(req));
  }

  /** The outcome is what the loop comes to after however many turns; it never ends if it always goes on. */
  lemma BehaviourExactly(req: Bytes)
    ensures forall c :: c != NeverEnds ==> (Behaviour(req) == c <==> Ends(req, c))
    ensures Behaviour(req) == NeverEnds <==> forall n: nat :: Offset(req, n).Some?
  {
    hide EndsAt, NextTag, Ending;
    if Behaviour(req) == NeverEnds {
      NeverMeans(req);
    } else {
      EndExists(req);
      if Offset(req, |req| + 1).Some? {
        StillGoing(req);
      }
    }
    forall c, n: nat | EndsAt(req, n, c)
      ensures Behaviour(req) == c
    {
      EndDecides(req, n, c);
    }
  }

  lemma NeverMeans(req: Bytes)
    requires Behaviour(req) == NeverEnds
    ensures forall n: nat :: Offset(req, n).Some?
  {
    EndingEnds(req);
    hide Ending;
    OnlyInside(req);
    OffsetLoop.NeverEnds(Tags(req), |req|);
  }

  lemma EndingEnds(req: Bytes)
    ensures forall i :: Ending(req, i) != NeverEnds
  {
  }

  /**
    `parseSetBacklightBrightnessRequest`. The count of turns is the model's: the code would go on for ever where
    it stops.
   */
  method ParseSetBacklightBrightnessRequest(req: Bytes) returns (r: Call)
    ensures r == Behaviour(req)
  {
    hide SkipField, FromBytes, Behaviour, OffsetLoop.Iterate;
    var i: int := 0;
    var turns := 0;
    OffsetStarts(req);
    while i < |req|
      invariant turns <= |req| + 1 && i <= |req| && Offset(req, turns) == Some(i)
      decreases |req| + 1 - turns
    {
      if turns == |req| + 1 {
        StillGoing(req);
        return NeverEnds;
      }
      OffsetTurns(req, turns);
      if i < 0 {
        EndDecides(req, turns, Panics);
        return Panics;
      }
      var tag := req[i];
      var field, wire := tag / 8, tag % 8;
      assert req[i..][0] == tag;
      if field == 1 && wire == 1 {
        if i + 1 + 8 > |req| {
          EndDecides(req, turns, Rejects);
          return Rejects;
        }
        EndDecides(req, turns, Finds(FromBytes(req[i + 1..i + 9])));
        return Finds(FromBytes(req[i + 1..i + 9]));
      }
      var hop := Skip(req, i);
      match hop {
        case Fails =>
          EndDecides(req, turns, Rejects);
          return Rejects;
        case Wraps(to) =>
          WrapsBefore(req[i..], i);
          i := to;
        case To(size) =>
          if i + size > |req| {
            EndDecides(req, turns, Rejects);
            return Rejects;
          }
          i := i + size;
      }
      turns := turns + 1;
    }
    EndDecides(req, turns, Rejects);
    return Rejects;
  }

  lemma OffsetStarts(req: Bytes)
    ensures Offset(req, 0) == Some(0)
  {
  }

  lemma OffsetTurns(req: Bytes, n: nat)
    ensures Offset(req, n + 1) == if Offset(req, n).None? then None else NextTag(req, Offset(req, n).value)
  {
  }

  lemma StillGoing(req: Bytes)
    requires Offset(req, |req| + 1).Some?
    ensures Behaviour(req) == NeverEnds
  {
  }

  /** An offset sent back lies inside the data or before it. */
  lemma WrapsBefore(s: Bytes, base: nat)
    requires s != [] && SkipField(s, base).Wraps?
    ensures SkipField(s, base).to < base + |s|
  {
  }

  // ----- While lengths fit -----

  /** At turn `k` the offset goes back, to before the end of the length just read. */
  ghost predicate GoesBack(req: Bytes, k: nat)
  {
    match Offset(req, k)
    case None => false
    case Some(i) => 0 <= i < |req| && !AtBrightness(req[i..]) && SkipField(req[i..], i).Wraps?
  }

  function CallOf(o: Outcome): Call
    requires !o.LengthWraps?
  {
    match o
    case Found(bits) => Finds(bits)
    case Rejected => Rejects
  }

  /** From offset `i` on, at turn `n`, the loop ends with what the forward parse says or goes back. */
  lemma {:induction false} Follows(req: Bytes, n: nat, i: nat) returns (k: nat)
    requires i <= |req| < TWO_63 && Offset(req, n) == Some(i)
    ensures match Parse(req[i..], i)
            case LengthWraps => GoesBack(req, k)
            case o => EndsAt(req, k, CallOf(o))
    decreases |req| - i
  {
    hide SkipField, FromBytes, Offset;
    k := n;
    OffsetTurns(req, n);
    if i < |req| {
      assert req[i..] != [];
      if AtBrightness(req[i..]) {
        assert i + 9 <= |req| ==> req[i + 1..i + 9] == req[i..][1..9];
      } else {
        match SkipField(req[i..], i)
        case To(size) =>
          if i + size <= |req| {
            assert req[i..][size..] == req[i + size..];
            k := Follows(req, n + 1, i + size);
          }
        case _ =>
      }
    }
  }

  /** While every length fits no later turn goes back. */
  lemma {:induction false} NoneGoesBack(req: Bytes, n: nat, i: nat, k: nat)
    requires i <= |req| < TWO_63 && Offset(req, n) == Some(i) && AllFit(req[i..], i) && n <= k
    ensures !GoesBack(req, k)
    decreases |req| - i
  {
    hide SkipField, HopFits, Offset;
    OffsetTurns(req, n);
    if i < |req| && !AtBrightness(req[i..]) {
      HopWrapsExactly(req[i..], i);
      if k > n {
        match SkipField(req[i..], i)
        case To(size) =>
          if i + size <= |req| {
            assert req[i..][size..] == req[i + size..];
            NoneGoesBack(req, n + 1, i + size, k);
          } else {
            Over(req, n + 1, k);
          }
        case Fails => Over(req, n + 1, k);
        case Wraps(_) => assert false;
      }
    } else if k > n {
      Over(req, n + 1, k);
    }
  }

  lemma {:induction false} Over(req: Bytes, n: nat, k: nat)
    requires Offset(req, n).None? && n <= k
    ensures Offset(req, k).None?
    decreases k
  {
    if n < k {
      Over(req, n, k - 1);
    }
  }

  /**
    The offset goes back at some turn if and only if some length declared before the field sought does not fit;
    if all fit, the call returns what the forward parse says.
   */
  lemma GoesBackExactly(req: Bytes)
    requires |req| < TWO_63
    ensures (exists k: nat :: GoesBack(req, k)) <==> !AllFit(req, 0)
    ensures AllFit(req, 0) ==> Parse(req, 0) != LengthWraps && Behaviour(req) == CallOf(Parse(req, 0))
  {
    hide GoesBack, AllFit, Offset, Behaviour, Parse, EndsAt;
    assert req[0..] == req;
    OffsetStarts(req);
    WrapsExactly(req, 0);
    var k := Follows(req, 0, 0);
    if AllFit(req, 0) {
      EndDecides(req, k, CallOf(Parse(req, 0)));
      forall j: nat
        ensures !GoesBack(req, j)
      {
        NoneGoesBack(req, 0, 0, j);
      }
    }
  }

  /** On every message of short fields the call finds the first brightness, and rejects one without. */
  lemma MessageFinds(fs: seq<Field>)
    requires ShortFields(fs) && |Serialize(fs)| < TWO_63
    ensures Behaviour(Serialize(fs))
            == match FirstBrightness(fs)
               case None => Rejects
               case Some(bits) => Finds(FromBytes(bits))
  {
    hide Behaviour, Serialize, Parse, AllFit, FirstBrightness, ShortFields, FromBytes;
    ParseMessage(fs);
    WrapsExactly(Serialize(fs), 0);
    GoesBackExactly(Serialize(fs));
  }

  /** The call finds the field sought behind any such fields, whatever bytes follow it. */
  lemma FindsFirst(fs: seq<Field>, bits: Bytes, rest: Bytes)
    requires ShortFields(fs) && FirstBrightness(fs) == None && |bits| == 8
    requires |Serialize(fs)| + 9 + |rest| < TWO_63
    ensures Behaviour(Serialize(fs) + [0x09] + bits + rest) == Finds(FromBytes(bits))
  {
    hide Behaviour, Serialize, Parse, AllFit, FirstBrightness, ShortFields, FromBytes;
    var req := Serialize(fs) + [0x09] + bits + rest;
    ParseFinds(fs, bits, rest);
    WrapsExactly(req, 0);
    GoesBackExactly(req);
  }

  /** A brightness change reads back as the clamped brightness. */
  lemma BrightnessRoundTrip(percent: Float64, cause: Uint64)
    ensures Behaviour(EncodeBacklightBrightnessChange(percent, cause)) == Finds(ClampPercent(percent))
  {
    hide Behaviour, ClampPercent, Encode, ToBytes, FromBytes;
    var bits, rest := ToBytes(ClampPercent(percent), 8), [0x10] + Encode(cause);
    SerializeNone();
    RoundTrip(cause, []);
    FindsFirst([], bits, rest);
    assert Serialize([]) + [0x09] + bits + rest == EncodeBacklightBrightnessChange(percent, cause);
    WordRoundTrip(ClampPercent(percent));
  }

  // ----- Lengths that do not fit: three calls -----

  lemma LengthHop(s: Bytes, base: nat, length: nat, rest: Bytes)
    requires s == [0x12] + (Encode(length) + rest) && length < TWO_64
    ensures var next := base + 1 + |Encode(length)|;
            var to := Wrap(next + ToInt(length));
            && !AtBrightness(s)
            && (to < next ==> SkipField(s, base) == Wraps(to))
            && (next <= to ==> SkipField(s, base) == To(to - base))
  {
    RoundTrip(length, rest);
    hide Encode, Decode;
    assert s[1..] == Encode(length) + rest;
  }

  /** A turn at a length-delimited field 2. */
  lemma LengthTurn(req: Bytes, n: nat, i: nat, length: nat, rest: Bytes)
    requires Offset(req, n) == Some(i) && length < TWO_64
    requires i < |req| && req[i..] == [0x12] + (Encode(length) + rest)
    ensures var next := i + 1 + |Encode(length)|;
            var to := Wrap(next + ToInt(length));
            && (to < next ==> Offset(req, n + 1) == Some(to) && GoesBack(req, n))
            && (next <= to <= |req| ==> Offset(req, n + 1) == Some(to))
  {
    LengthHop(req[i..], i, length, rest);
    OffsetTurns(req, n);
    hide Encode, SkipField, Offset, Wrap;
  }

  lemma {:induction false} StuckAtStart(req: Bytes, n: nat)
    requires Offset(req, 1) == Offset(req, 0)
    ensures Offset(req, n) == Offset(req, 0)
  {
    hide NextTag;
    if n > 0 {
      StuckAtStart(req, n - 1);
    }
  }

  /** A length of 2^64 - 11 sends the loop round for ever. */
  lemma NeverEndsExample()
    ensures var req := [0x12] + Back(11);
            Behaviour(req) == NeverEnds && !AllFit(req, 0)
  {
    var req := [0x12] + Back(11);
    BackEncodes(11);
    assert req[0..] == [0x12] + (Encode(TWO_64 - 11) + []);
    OffsetStarts(req);
    hide Encode, Offset, AllFit, Behaviour, GoesBack;
    LengthTurn(req, 0, 0, TWO_64 - 11, []);
    StuckAtStart(req, |req| + 1);
    StillGoing(req);
    GoesBackExactly(req);
  }

  /** One more, and the offset is negative: the call panics. */
  lemma PanicsExample()
    ensures var req := [0x12] + Back(12);
            Behaviour(req) == Panics && !AllFit(req, 0)
  {
    var req := [0x12] + Back(12);
    BackEncodes(12);
    assert req[0..] == [0x12] + (Encode(TWO_64 - 12) + []);
    OffsetStarts(req);
    hide Encode, Offset, AllFit, Behaviour, GoesBack;
    LengthTurn(req, 0, 0, TWO_64 - 12, []);
    EndDecides(req, 1, Panics);
    GoesBackExactly(req);
  }

  lemma FindsTurns(req: Bytes, back: Bytes)
    requires req == [0x12, 0x02, 0x09, 0x00, 0x12] + back && back == Encode(TWO_64 - 13) && |back| == 10
    ensures Offset(req, 2) == Some(2) && GoesBack(req, 1)
  {
    hide Offset, GoesBack;
    assert Encode(0x02) == [0x02];
    hide Encode;
    OffsetStarts(req);
    assert req[0..] == [0x12] + ([0x02] + ([0x09, 0x00, 0x12] + back));
    LengthTurn(req, 0, 0, 0x02, [0x09, 0x00, 0x12] + back);
    assert req[4..] == [0x12] + (back + []);
    LengthTurn(req, 1, 4, TWO_64 - 13, []);
  }

  lemma FindsAt(req: Bytes, n: nat, i: nat)
    requires Offset(req, n) == Some(i) && i + 9 <= |req| && req[i] == 0x09
    ensures Behaviour(req) == Finds(FromBytes(req[i + 1..i + 9]))
  {
    hide Offset, Behaviour, FromBytes, SkipField;
    assert req[i..][0] == 0x09;
    EndDecides(req, n, Finds(FromBytes(req[i + 1..i + 9])));
  }

  /** Going back, the parser can find the field inside the payload of another: here at offset 2, after 0 and 4. */
  lemma FindsInsidePayload()
    ensures var req := [0x12, 0x02, 0x09, 0x00, 0x12] + Back(13);
            Behaviour(req) == Finds(FromBytes(req[3..11])) && !AllFit(req, 0)
  {
    BackEncodes(13);
    hide Encode, Offset, AllFit, Behaviour, GoesBack, FromBytes;
    assert |Back(13)| == 10;
    hide Back;
    var req := [0x12, 0x02, 0x09, 0x00, 0x12] + Back(13);
    FindsTurns(req, Back(13));
    FindsAt(req, 2, 2);
    GoesBackExactly(req);
  }
}
