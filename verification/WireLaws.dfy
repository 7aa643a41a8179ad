/**
  What the two field decoders promise while declared lengths fit: round trip, merge, and equal offsets.
  `UintLoop` says what becomes of the uint decoder when one does not fit.
 */
module WireLaws {
  import opened Sequences
  import opened Varint
  import opened Wire

  // ----- When a declared length fits -----

  /** The length declared at the start of `s`, if there is one, ends before offset 2^63. */
  predicate Fits(s: Bytes, base: nat)
  {
    var (tag, n) := Decode(s);
    n > 0 && tag % 8 == 2 ==>
      var (length, m) := Decode(s[n..]);
      base + n + m + length < TWO_63
  }

  /** One turn wraps exactly when the declared length does not fit. */
  lemma WrapsExactly(s: Bytes, base: nat, keep: Bytes -> bool)
    requires s != [] && base + |s| < TWO_63
    ensures StringStep(s, base, keep).Wrapped? <==> !Fits(s, base)
    ensures UintStep(s, base).Wrapped? <==> !Fits(s, base)
  {
    hide Decode;
    var (tag, n) := Decode(s);
    DecodeMeans(s[n..]);
  }

  /** Both decoders move on by the same number of bytes, on any bytes whatever. */
  lemma SameMove(s: Bytes, base: nat, keep: Bytes -> bool)
    requires s != []
    ensures match StringStep(s, base, keep)
            case Leave => UintStep(s, base).Leave?
            case Wrapped(_) => UintStep(s, base).Wrapped?
            case Go(size, _) => UintStep(s, base).Go? && UintStep(s, base).size == size
  {
  }

  // ----- The offsets visited -----

  /** The offsets at which `decodeStringFields` reads a tag. */
  function StringOffsets(s: Bytes, base: nat, keep: Bytes -> bool): seq<nat>
    decreases |s|
  {
    if s == [] then []
    else
      match StringStep(s, base, keep)
      case Go(size, _) => [base] + StringOffsets(Drop(s, size), base + size, keep)
      case _ => [base]
  }

  /** The offsets at which `decodeUint64Fields` reads a tag, up to the first length that does not fit. */
  function UintOffsets(s: Bytes, base: nat): seq<nat>
    decreases |s|
  {
    if s == [] then []
    else
      match UintStep(s, base)
      case Go(size, _) => [base] + UintOffsets(Drop(s, size), base + size)
      case _ => [base]
  }

  /** Up to the first length that does not fit, the decoders read tags at the same offsets. */
  lemma {:induction false} SameForwardOffsets(s: Bytes, base: nat, keep: Bytes -> bool)
    ensures StringOffsets(s, base, keep) == UintOffsets(s, base)
    ensures Strings(s, base, keep).None? <==> Uints(s, base).None?
    decreases |s|
  {
    hide StringStep, UintStep, EntryMap, Drop;
    if s != [] {
      SameMove(s, base, keep);
      var step := StringStep(s, base, keep);
      if step.Go? {
        SameForwardOffsets(Drop(s, step.size), base + step.size, keep);
      }
    }
  }

  ghost predicate Advancing(offsets: seq<nat>, from: nat, to: nat)
  {
    && (forall i :: 0 <= i < |offsets| ==> from <= offsets[i] < to)
    && forall i, j :: 0 <= i < j < |offsets| ==> offsets[i] < offsets[j]
  }

  lemma AdvancingCons(first: nat, next: nat, offsets: seq<nat>, to: nat)
    requires Advancing(offsets, next, to) && first < next && first < to
    ensures Advancing([first] + offsets, first, to)
  {
  }

  /** Up to the first length that does not fit, the offsets strictly advance and stay inside the data. */
  lemma {:induction false} OffsetsAdvance(s: Bytes, base: nat)
    ensures Advancing(UintOffsets(s, base), base, base + |s|)
    decreases |s|
  {
    hide UintStep, Drop;
    if s != [] {
      match UintStep(s, base)
      case Go(size, _) =>
        var rest := Drop(s, size);
        if size < |s| {
          OffsetsAdvance(rest, base + size);
          AdvancingCons(base, base + size, UintOffsets(rest, base + size), base + |s|);
        } else {
          assert UintOffsets(rest, base + size) == [];
        }
      case _ =>
    }
  }

  /** Every length declared at a visited offset fits. */
  predicate LengthsFit(s: Bytes, base: nat)
    decreases |s|
  {
    s == [] || (Fits(s, base) &&
      match UintStep(s, base)
      case Go(size, _) => LengthsFit(Drop(s, size), base + size)
      case _ => true)
  }

  /**
    `decodeStringFields` returns, rather than slicing out of range, exactly when every length declared at a
    visited offset fits; exactly then the offset of `decodeUint64Fields` has only moved forward.
   */
  lemma {:induction false} DecodesExactly(s: Bytes, base: nat, keep: Bytes -> bool)
    requires base + |s| < TWO_63
    ensures Strings(s, base, keep).Some? <==> LengthsFit(s, base)
    ensures Uints(s, base).Some? <==> LengthsFit(s, base)
    decreases |s|
  {
    hide StringStep, UintStep, Fits, Drop, EntryMap;
    if s != [] {
      SameMove(s, base, keep);
      WrapsExactly(s, base, keep);
      match UintStep(s, base)
      case Go(size, _) =>
        if size < |s| {
          DecodesExactly(Drop(s, size), base + size, keep);
        }
      case _ =>
    }
  }

  // ----- Truncated data -----

  /** A tag whose inner varint is cut off ends both loops: the value reads as 0 and the payload as empty. */
  lemma CutOffVarint(s: Bytes, base: nat, keep: Bytes -> bool)
    requires s != [] && base + |s| < TWO_63
    requires Decode(s).1 > 0 && Decode(s[Decode(s).1..]).1 == 0
    ensures Decode(s).0 % 8 == 0 ==>
              Uints(s, base) == Some(map[Decode(s).0 / 8 := 0]) && Strings(s, base, keep) == Some(map[])
    ensures Decode(s).0 % 8 == 2 ==>
              && Uints(s, base) == Some(map[])
              && Strings(s, base, keep) == Some(if keep([]) then map[Decode(s).0 / 8 := []] else map[])
  {
    var (tag, n) := Decode(s);
    var rest := s[n..];
    CutOffValue(rest);
    assert Drop(s, n) == rest;
    CutOffEnds(rest, base + n, keep);
    hide Decode, Strings, Uints;
    if tag % 8 == 0 || tag % 8 == 2 {
      CutOffTurn(s, base, keep, tag, n);
    }
  }

  lemma CutOffValue(rest: Bytes)
    requires Decode(rest).1 == 0
    ensures Decode(rest).0 == 0
  {
  }

  lemma CutOffEnds(rest: Bytes, base: nat, keep: Bytes -> bool)
    requires Decode(rest).1 == 0
    ensures Strings(rest, base, keep) == Some(map[]) && Uints(rest, base) == Some(map[])
  {
  }

  lemma CutOffTurn(s: Bytes, base: nat, keep: Bytes -> bool, tag: nat, n: nat)
    requires s != [] && base + |s| < TWO_63 && Decode(s) == (tag, n) && n > 0 && Decode(s[n..]) == (0, 0)
    requires tag % 8 == 0 || tag % 8 == 2
    requires Strings(s[n..], base + n, keep) == Some(map[]) && Uints(s[n..], base + n) == Some(map[])
    ensures tag % 8 == 0 ==> Uints(s, base) == Some(map[tag / 8 := 0]) && Strings(s, base, keep) == Some(map[])
    ensures tag % 8 == 2 ==>
              && Uints(s, base) == Some(map[])
              && Strings(s, base, keep) == Some(if keep([]) then map[tag / 8 := []] else map[])
  {
    hide Decode;
    assert Drop(s, n) == s[n..] && s[n..n] == [];
    assert map[tag / 8 := 0] + map[] == map[tag / 8 := 0];
    var none: map<nat, Bytes> := map[];
    var empty: map<nat, Bytes> := map[tag / 8 := []];
    assert empty + none == empty && none + none == none;
  }

  // ----- Serialised messages -----

  function StringEntry(f: Field, keep: Bytes -> bool): Option<(nat, Bytes)>
  {
    if f.BytesField? && keep(f.payload) then Some((f.num, f.payload)) else None
  }

  function UintEntry(f: Field): Option<(nat, nat)>
  {
    if f.VarintField? then Some((f.num, f.value)) else None
  }

  /** The length-delimited fields of a message that pass the test, a later one overriding an earlier one. */
  function StringsOf(fs: seq<Field>, keep: Bytes -> bool): map<nat, Bytes>
  {
    if fs == [] then map[] else EntryMap(StringEntry(fs[0], keep)) + StringsOf(fs[1..], keep)
  }

  /** The varint fields of a message, a later one overriding an earlier one. */
  function UintsOf(fs: seq<Field>): map<nat, nat>
  {
    if fs == [] then map[] else EntryMap(UintEntry(fs[0])) + UintsOf(fs[1..])
  }

  /** `StringsOf` holds, per field number, the last payload that passes the test. */
  lemma {:induction false} LastStringWins(fs: seq<Field>, keep: Bytes -> bool, k: nat)
    ensures k in StringsOf(fs, keep) <==> exists i :: 0 <= i < |fs| && StringEntry(fs[i], keep).Some? && fs[i].num == k
    ensures forall i :: 0 <= i < |fs| && StringEntry(fs[i], keep).Some? && fs[i].num == k
              && (forall j :: i < j < |fs| && StringEntry(fs[j], keep).Some? ==> fs[j].num != k)
              ==> k in StringsOf(fs, keep) && StringsOf(fs, keep)[k] == fs[i].payload
    decreases |fs|
  {
    if fs != [] {
      var tail := fs[1..];
      LastStringWins(tail, keep, k);
      assert forall i :: 0 < i < |fs| ==> fs[i] == tail[i - 1];
      if k in StringsOf(tail, keep) {
        var i :| 0 <= i < |tail| && StringEntry(tail[i], keep).Some? && tail[i].num == k;
        assert fs[i + 1] == tail[i];
      }
    }
  }

  /** `UintsOf` holds, per field number, the last varint. */
  lemma {:induction false} LastUintWins(fs: seq<Field>, k: nat)
    ensures k in UintsOf(fs) <==> exists i :: 0 <= i < |fs| && fs[i].VarintField? && fs[i].num == k
    ensures forall i :: 0 <= i < |fs| && fs[i].VarintField? && fs[i].num == k
              && (forall j :: i < j < |fs| && fs[j].VarintField? ==> fs[j].num != k)
              ==> k in UintsOf(fs) && UintsOf(fs)[k] == fs[i].value
    decreases |fs|
  {
    if fs != [] {
      var tail := fs[1..];
      LastUintWins(tail, k);
      assert forall i :: 0 < i < |fs| ==> fs[i] == tail[i - 1];
      if k in UintsOf(tail) {
        var i :| 0 <= i < |tail| && tail[i].VarintField? && tail[i].num == k;
        assert fs[i + 1] == tail[i];
      }
    }
  }

  /** A tag decodes to its field number and wire type. */
  lemma TagDecodes(num: nat, wireType: nat, rest: Bytes)
    requires num < FIELD_LIMIT && wireType < 8
    ensures var t := Encode(Tag(num, wireType));
            && Decode(t + rest) == (Tag(num, wireType), |t|)
            && (t + rest)[|t|..] == rest
            && Tag(num, wireType) % 8 == wireType && Tag(num, wireType) / 8 == num
  {
    RoundTrip(Tag(num, wireType), rest);
  }

  /** One turn of either decoder consumes exactly one serialised field. */
  lemma FieldTurn(f: Field, rest: Bytes, base: nat, keep: Bytes -> bool)
    requires ValidField(f) && base + |SerializeField(f)| < TWO_63
    ensures var b := SerializeField(f);
            && StringStep(b + rest, base, keep) == Go(|b|, StringEntry(f, keep))
            && UintStep(b + rest, base) == Go(|b|, UintEntry(f))
            && Drop(b + rest, |b|) == rest
  {
    hide Encode, Decode;
    var b := SerializeField(f);
    match f
    case VarintField(num, value) =>
      var e := Encode(value);
      assert b + rest == Encode(Tag(num, 0)) + (e + rest);
      TagDecodes(num, 0, e + rest);
      RoundTrip(value, rest);
    case BytesField(num, payload) => BytesTurn(num, payload, rest, base, keep);
    case Fixed64Field(num, bits) =>
      assert b + rest == Encode(Tag(num, 1)) + (bits + rest);
      TagDecodes(num, 1, bits + rest);
    case Fixed32Field(num, bits) =>
      assert b + rest == Encode(Tag(num, 5)) + (bits + rest);
      TagDecodes(num, 5, bits + rest);
  }

  lemma BytesTurn(num: nat, payload: Bytes, rest: Bytes, base: nat, keep: Bytes -> bool)
    requires num < FIELD_LIMIT && |payload| < TWO_63
    requires base + |SerializeField(BytesField(num, payload))| < TWO_63
    ensures var b := SerializeField(BytesField(num, payload));
            && StringStep(b + rest, base, keep) == Go(|b|, StringEntry(BytesField(num, payload), keep))
            && UintStep(b + rest, base) == Go(|b|, None)
            && Drop(b + rest, |b|) == rest
  {
    hide Encode, Decode;
    var t, e := Encode(Tag(num, 2)), Encode(|payload|);
    var b := SerializeField(BytesField(num, payload));
    assert b + rest == t + (e + (payload + rest));
    TagDecodes(num, 2, e + (payload + rest));
    RoundTrip(|payload|, payload + rest);
    assert (b + rest)[|t| + |e|..|b|] == payload;
  }

  lemma OverrideEmpty<T>(r: Option<map<nat, T>>)
    ensures Override(map[], r) == r
  {
    if r.Some? {
      assert map[] + r.value == r.value;
    }
  }

  /** One serialised field in front: its entry, overridden by the rest. */
  lemma DecodeField(f: Field, tail: Bytes, base: nat, keep: Bytes -> bool)
    requires ValidField(f) && base + |SerializeField(f)| < TWO_63
    ensures var b := SerializeField(f);
            && Strings(b + tail, base, keep)
               == Override(EntryMap(StringEntry(f, keep)), Strings(tail, base + |b|, keep))
            && Uints(b + tail, base) == Override(EntryMap(UintEntry(f)), Uints(tail, base + |b|))
  {
    hide StringStep, UintStep, SerializeField, StringEntry, UintEntry, EntryMap, Override;
    FieldTurn(f, tail, base, keep);
  }

  /** A serialised message in front is decoded field by field; what follows overrides it. */
  lemma {:induction false} DecodeSerialized(fs: seq<Field>, rest: Bytes, base: nat, keep: Bytes -> bool)
    requires ValidFields(fs) && base + |Serialize(fs)| < TWO_63
    ensures var end := base + |Serialize(fs)|;
            && Strings(Serialize(fs) + rest, base, keep) == Override(StringsOf(fs, keep), Strings(rest, end, keep))
            && Uints(Serialize(fs) + rest, base) == Override(UintsOf(fs), Uints(rest, end))
    decreases |fs|
  {
    hide Strings, Uints, SerializeField, StringEntry, UintEntry, EntryMap, Override;
    if fs == [] {
      assert Serialize(fs) + rest == rest;
      OverrideEmpty(Strings(rest, base, keep));
      OverrideEmpty(Uints(rest, base));
    } else {
      var b, tail := SerializeField(fs[0]), Serialize(fs[1..]) + rest;
      var end := base + |Serialize(fs)|;
      assert Serialize(fs) + rest == b + tail;
      DecodeField(fs[0], tail, base, keep);
      DecodeSerialized(fs[1..], rest, base + |b|, keep);
      OverrideTwice(EntryMap(StringEntry(fs[0], keep)), StringsOf(fs[1..], keep), Strings(rest, end, keep));
      OverrideTwice(EntryMap(UintEntry(fs[0])), UintsOf(fs[1..]), Uints(rest, end));
    }
  }

  lemma NothingFollows(base: nat, keep: Bytes -> bool, m: map<nat, Bytes>, u: map<nat, nat>)
    ensures Override(m, Strings([], base, keep)) == Some(m)
    ensures Override(u, Uints([], base)) == Some(u)
  {
    assert m + map[] == m && u + map[] == u;
  }

  /** Serialising and decoding gives back the last value of every field. */
  lemma MessageRoundTrip(fs: seq<Field>, keep: Bytes -> bool)
    requires ValidFields(fs) && |Serialize(fs)| < TWO_63
    ensures Strings(Serialize(fs), 0, keep) == Some(StringsOf(fs, keep))
    ensures Uints(Serialize(fs), 0) == Some(UintsOf(fs))
  {
    hide *;
    DecodeSerialized(fs, [], 0, keep);
    NothingFollows(|Serialize(fs)|, keep, StringsOf(fs, keep), UintsOf(fs));
    assert Serialize(fs) + [] == Serialize(fs);
  }

  /** Data that decodes at some offset decodes alike at the start. */
  lemma {:induction false} DecodesAtStart(s: Bytes, base: nat, low: nat, keep: Bytes -> bool)
    requires low <= base && base + |s| < TWO_63
    ensures Strings(s, base, keep).Some? ==> Strings(s, low, keep) == Strings(s, base, keep)
    ensures Uints(s, base).Some? ==> Uints(s, low) == Uints(s, base)
    decreases |s|
  {
    hide StringStep, UintStep, EntryMap, Drop;
    if s != [] {
      StepAtStart(s, base, low, keep);
      SameMove(s, base, keep);
      var step := UintStep(s, base);
      if step.Go? {
        var rest := Drop(s, step.size);
        if step.size < |s| {
          DecodesAtStart(rest, base + step.size, low + step.size, keep);
        } else {
          assert rest == [];
        }
      }
    }
  }

  lemma StepAtStart(s: Bytes, base: nat, low: nat, keep: Bytes -> bool)
    requires s != [] && low <= base && base + |s| < TWO_63
    ensures !StringStep(s, base, keep).Wrapped? ==> StringStep(s, low, keep) == StringStep(s, base, keep)
    ensures !UintStep(s, base).Wrapped? ==> UintStep(s, low) == UintStep(s, base)
  {
  }

  /** Two decodings, the second one winning; a failed one fails the whole. */
  function Merged<T>(a: Option<map<nat, T>>, b: Option<map<nat, T>>): Option<map<nat, T>>
  {
    if a.None? then None else Override(a.value, b)
  }

  /** Decoding a serialised message followed by anything is decoding the two and letting the second win. */
  lemma Merge(fs: seq<Field>, b: Bytes, keep: Bytes -> bool)
    requires ValidFields(fs) && |Serialize(fs)| + |b| < TWO_63
    ensures Strings(Serialize(fs) + b, 0, keep).Some? ==>
              Strings(Serialize(fs) + b, 0, keep) == Merged(Strings(Serialize(fs), 0, keep), Strings(b, 0, keep))
    ensures Uints(Serialize(fs) + b, 0).Some? ==>
              Uints(Serialize(fs) + b, 0) == Merged(Uints(Serialize(fs), 0), Uints(b, 0))
  {
    hide Strings, Uints, StringsOf, UintsOf, Serialize;
    var n := |Serialize(fs)|;
    DecodeSerialized(fs, b, 0, keep);
    MessageRoundTrip(fs, keep);
    DecodesAtStart(b, n, 0, keep);
  }
}
