/**
  The protobuf wire format of the Crostini bridge: the `append*` functions and the two field decoders.
  Offsets are Go `int`s of 64 bits, so the sum of an offset and a declared length may wrap.
 */
module Wire {
  import opened Sequences
  import opened Varint

  // ----- Messages -----

  datatype Field =
    | VarintField(num: nat, value: nat)
    | BytesField(num: nat, payload: Bytes)
    | Fixed64Field(num: nat, bits: Bytes)
    | Fixed32Field(num: nat, bits: Bytes)

  /** Field numbers above 2^61 - 1 would lose bits in `field << 3`. */
  const FIELD_LIMIT: nat := 0x2000_0000_0000_0000

  predicate ValidField(f: Field)
  {
    && f.num < FIELD_LIMIT
    && match f
       case VarintField(_, value) => value < TWO_64
       case BytesField(_, payload) => |payload| < TWO_63
       case Fixed64Field(_, bits) => |bits| == 8
       case Fixed32Field(_, bits) => |bits| == 4
  }

  predicate ValidFields(fs: seq<Field>)
  {
    forall i :: 0 <= i < |fs| ==> ValidField(fs[i])
  }

  /** `field << 3 | wireType` */
  function Tag(field: nat, wireType: nat): nat
  {
    field * 8 + wireType
  }

  function AppendField(b: Bytes, field: nat, wireType: nat): Bytes
  {
    b + Encode(Tag(field, wireType))
  }

  /** `appendString` and `appendBytes`: Go strings are byte strings. */
  function AppendBytes(b: Bytes, field: nat, v: Bytes): Bytes
  {
    AppendField(b, field, 2) + Encode(|v|) + v
  }

  function AppendBool(b: Bytes, field: nat, v: bool): Bytes
  {
    AppendField(b, field, 0) + [if v then 1 else 0]
  }

  function AppendUint64(b: Bytes, field: nat, v: nat): Bytes
  {
    AppendField(b, field, 0) + Encode(v)
  }

  function SerializeField(f: Field): (b: Bytes)
    ensures |b| >= 1
  {
    match f
    case VarintField(num, value) => Encode(Tag(num, 0)) + Encode(value)
    case BytesField(num, payload) => Encode(Tag(num, 2)) + Encode(|payload|) + payload
    case Fixed64Field(num, bits) => Encode(Tag(num, 1)) + bits
    case Fixed32Field(num, bits) => Encode(Tag(num, 5)) + bits
  }

  function Serialize(fs: seq<Field>): Bytes
  {
    if fs == [] then [] else SerializeField(fs[0]) + Serialize(fs[1..])
  }

  lemma SerializeNone()
    ensures Serialize([]) == []
  {
  }

  /** The tags of fields 1 to 15 take one byte. */
  lemma ShortTag(num: nat, wireType: nat)
    requires 1 <= num <= 15 && wireType < 8
    ensures Encode(Tag(num, wireType)) == [Tag(num, wireType)]
  {
  }

  lemma {:induction false} SerializeSnoc(fs: seq<Field>, f: Field)
    ensures Serialize(fs + [f]) == Serialize(fs) + SerializeField(f)
    decreases |fs|
  {
    if fs == [] {
      assert [f][1..] == [];
      assert Serialize([f]) == SerializeField(f) + [];
      assert fs + [f] == [f];
    } else {
      assert (fs + [f])[1..] == fs[1..] + [f];
      SerializeSnoc(fs[1..], f);
    }
  }

  /** `appendString` and `appendBytes` add one length-delimited field to a serialised message. */
  lemma AppendsBytes(fs: seq<Field>, num: nat, payload: Bytes)
    ensures AppendBytes(Serialize(fs), num, payload) == Serialize(fs + [BytesField(num, payload)])
  {
    hide Serialize, Encode;
    SerializeSnoc(fs, BytesField(num, payload));
    var b, t, l := Serialize(fs), Encode(Tag(num, 2)), Encode(|payload|);
    assert b + t + l + payload == b + (t + l + payload);
  }

  /** `appendUint64` adds one varint field. */
  lemma AppendsVarint(fs: seq<Field>, num: nat, v: nat)
    ensures AppendUint64(Serialize(fs), num, v) == Serialize(fs + [VarintField(num, v)])
  {
    hide Serialize, Encode;
    SerializeSnoc(fs, VarintField(num, v));
    var b, t := Serialize(fs), Encode(Tag(num, 0));
    assert b + t + Encode(v) == b + (t + Encode(v));
  }

  /** `appendBool` adds one varint field of value 0 or 1. */
  lemma AppendsBool(fs: seq<Field>, num: nat, v: bool)
    ensures AppendBool(Serialize(fs), num, v) == Serialize(fs + [VarintField(num, if v then 1 else 0)])
  {
    AppendsVarint(fs, num, if v then 1 else 0);
    hide Serialize;
  }

  // ----- Offsets -----

  /** `int(u)` for a `uint64` */
  function ToInt(u: nat): int
  {
    if u < TWO_63 then u else u - TWO_64
  }

  /** A sum of two `int`s, wrapped to 64 bits. */
  function Wrap(x: int): int
  {
    if x >= TWO_63 then x - TWO_64 else x
  }

  function Drop(s: Bytes, n: nat): (r: Bytes)
    ensures n <= |s| ==> r == s[n..]
    ensures n >= |s| ==> r == []
  {
    if n >= |s| then [] else s[n..]
  }

  // ----- Lengths that read as negative numbers -----

  /** The ten bytes of a length that reads as `-back`. */
  function Back(back: nat): Bytes
    requires 1 <= back <= 128
  {
    [256 - back, 0xff, 0xff, 0xff, 0xff, 0xff, 0xff, 0xff, 0xff, 0x01]
  }

  lemma LowGroup(v: nat, d: nat)
    requires v > 0 && d < 128
    ensures Encode(128 * v + d) == [d + 128] + Encode(v)
  {
    assert (128 * v + d) / 128 == v && (128 * v + d) % 128 == d;
  }

  lemma FourGroups(v: nat)
    requires v > 0
    ensures Encode(0x1000_0000 * v + 0xfff_ffff) == [0xff, 0xff, 0xff, 0xff] + Encode(v)
  {
    hide Encode;
    LowGroup(v, 127);
    LowGroup(0x80 * v + 0x7f, 127);
    LowGroup(0x4000 * v + 0x3fff, 127);
    LowGroup(0x20_0000 * v + 0x1f_ffff, 127);
  }

  lemma Ones()
    ensures Encode(0x1ff_ffff_ffff_ffff) == [0xff, 0xff, 0xff, 0xff, 0xff, 0xff, 0xff, 0xff, 0x01]
  {
    assert Encode(0x1) == [0x01];
    hide Encode;
    FourGroups(0x1);
    FourGroups(0x1fff_ffff);
    var four: Bytes := [0xff, 0xff, 0xff, 0xff];
    assert four + (four + [0x01]) == [0xff, 0xff, 0xff, 0xff, 0xff, 0xff, 0xff, 0xff, 0x01];
  }

  lemma BackEncodes(back: nat)
    requires 1 <= back <= 128
    ensures Encode(TWO_64 - back) == Back(back) && ToInt(TWO_64 - back) + back == 0
  {
    Ones();
    hide Encode;
    LowGroup(0x1ff_ffff_ffff_ffff, 128 - back);
  }

  // ----- The two decoders, one turn at a time -----

  /**
    One turn of a decoding loop on the rest of the data: leave the loop, find that the declared length makes
    the next offset wrap to `to`, before the end of the length itself, or move on by `size` bytes with at most
    one map entry.
   */
  datatype Step<+T> = Leave | Wrapped(to: int) | Go(size: nat, entry: Option<(nat, T)>)

  /**
    A turn of `decodeStringFields`; `s` is `data[i:]` and `base` is `i`. An end that wraps lies before the
    start, and the slice `data[i:end]` is then out of range.
   */
  function StringStep(s: Bytes, base: nat, keep: Bytes -> bool): (r: Step<Bytes>)
    requires s != []
    ensures r.Go? ==> r.size >= 1
  {
    var (tag, n) := Decode(s);
    if n == 0 then Leave
    else if tag % 8 == 0 then Go(n + Decode(s[n..]).1, None)
    else if tag % 8 == 2 then
      var (length, m) := Decode(s[n..]);
      var start := base + n + m;
      var end := Wrap(start + ToInt(length));
      if end < start then Wrapped(end)
      else if end <= base + |s| then
        var payload := s[n + m..end - base];
        Go(end - base, if keep(payload) then Some((tag / 8, payload)) else None)
      else Go(end - base, None)
    else if tag % 8 == 1 then Go(n + 8, None)
    else if tag % 8 == 5 then Go(n + 4, None)
    else Leave
  }

  /** A turn of `decodeUint64Fields`; a wrapped offset is where it goes on. A varint that is cut off reads as 0. */
  function UintStep(s: Bytes, base: nat): (r: Step<nat>)
    requires s != []
    ensures r.Go? ==> r.size >= 1
  {
    var (tag, n) := Decode(s);
    if n == 0 then Leave
    else if tag % 8 == 0 then
      var (v, m) := Decode(s[n..]);
      Go(n + m, Some((tag / 8, v)))
    else if tag % 8 == 2 then
      var (length, m) := Decode(s[n..]);
      var next := Wrap(base + n + m + ToInt(length));
      if next < base + n + m then Wrapped(next) else Go(next - base, None)
    else if tag % 8 == 1 then Go(n + 8, None)
    else if tag % 8 == 5 then Go(n + 4, None)
    else Leave
  }

  function EntryMap<T>(e: Option<(nat, T)>): map<nat, T>
  {
    match e
    case None => map[]
    case Some((k, v)) => map[k := v]
  }

  /** Entries found earlier are overridden by those found later. */
  function Override<T>(m: map<nat, T>, later: Option<map<nat, T>>): Option<map<nat, T>>
  {
    match later
    case None => None
    case Some(r) => Some(m + r)
  }

  /** What `decodeStringFields` finds; `None` when a declared length does not fit. */
  function Strings(s: Bytes, base: nat, keep: Bytes -> bool): Option<map<nat, Bytes>>
    decreases |s|
  {
    if s == [] then Some(map[])
    else
      match StringStep(s, base, keep)
      case Leave => Some(map[])
      case Wrapped(_) => None
      case Go(size, entry) => Override(EntryMap(entry), Strings(Drop(s, size), base + size, keep))
  }

  /**
    What `decodeUint64Fields` finds while its offset only moves forward; `None` from a declared length on that
    does not fit, where `UintLoop` says what the loop does.
   */
  function Uints(s: Bytes, base: nat): Option<map<nat, nat>>
    decreases |s|
  {
    if s == [] then Some(map[])
    else
      match UintStep(s, base)
      case Leave => Some(map[])
      case Wrapped(_) => None
      case Go(size, entry) => Override(EntryMap(entry), Uints(Drop(s, size), base + size))
  }

  // ----- The loops -----

  lemma OverrideTwice<T>(a: map<nat, T>, b: map<nat, T>, c: Option<map<nat, T>>)
    ensures Override(a, Override(b, c)) == Override(a + b, c)
  {
    if c.Some? {
      assert a + (b + c.value) == (a + b) + c.value;
    }
  }

  lemma {:induction false} StringsTurn(data: Bytes, i: nat, keep: Bytes -> bool, fields: map<nat, Bytes>)
    requires i < |data|
    ensures Override(fields, Strings(data[i..], i, keep))
            == match StringStep(data[i..], i, keep)
               case Leave => Some(fields)
               case Wrapped(_) => None
               case Go(size, entry) =>
                 Override(fields + EntryMap(entry), Strings(Drop(data, i + size), i + size, keep))
  {
    hide StringStep;
    match StringStep(data[i..], i, keep)
    case Leave => assert fields + map[] == fields;
    case Wrapped(_) =>
    case Go(size, entry) =>
      assert Drop(data[i..], size) == Drop(data, i + size);
      OverrideTwice(fields, EntryMap(entry), Strings(Drop(data, i + size), i + size, keep));
  }

  lemma {:induction false} UintsTurn(data: Bytes, i: nat, fields: map<nat, nat>)
    requires i < |data|
    ensures Override(fields, Uints(data[i..], i))
            == match UintStep(data[i..], i)
               case Leave => Some(fields)
               case Wrapped(_) => None
               case Go(size, entry) =>
                 Override(fields + EntryMap(entry), Uints(Drop(data, i + size), i + size))
  {
    hide UintStep;
    match UintStep(data[i..], i)
    case Leave => assert fields + map[] == fields;
    case Wrapped(_) =>
    case Go(size, entry) =>
      assert Drop(data[i..], size) == Drop(data, i + size);
      OverrideTwice(fields, EntryMap(entry), Uints(Drop(data, i + size), i + size));
  }

  lemma AddNothing<T>(fields: map<nat, T>)
    ensures fields + EntryMap(None) == fields
  {
  }

  lemma AddEntry<T>(fields: map<nat, T>, k: nat, v: T)
    ensures fields + EntryMap(Some((k, v))) == fields[k := v]
  {
  }

  lemma DecodingStarts(data: Bytes, keep: Bytes -> bool)
    ensures Override(map[], Strings(Drop(data, 0), 0, keep)) == Strings(data, 0, keep)
  {
    assert Drop(data, 0) == data;
    var r := Strings(data, 0, keep);
    assert r.Some? ==> map[] + r.value == r.value;
  }

  lemma DecodingEnds(data: Bytes, i: nat, keep: Bytes -> bool, fields: map<nat, Bytes>)
    requires i >= |data|
    ensures Override(fields, Strings(Drop(data, i), i, keep)) == Some(fields)
  {
    assert fields + map[] == fields;
  }

  /** `decodeStringFields`; `keep` is the test a payload must pass, `utf8.ValidString` in the code. */
  method DecodeStringFields(data: Bytes, keep: Bytes -> bool) returns (r: Option<map<nat, Bytes>>)
    ensures r == Strings(data, 0, keep)
  {
    hide Decode, Strings, Override, EntryMap, Drop;
    var fields: map<nat, Bytes> := map[];
    var i: nat := 0;
    DecodingStarts(data, keep);
    while i < |data|
      invariant Override(fields, Strings(Drop(data, i), i, keep)) == Strings(data, 0, keep)
      decreases |data| - i
    {
      StringsTurn(data, i, keep, fields);
      AddNothing(fields);
      var tag, n := DecodeVarint(data[i..]);
      if n == 0 {
        return Some(fields);
      }
      assert data[i..][n..] == data[i + n..];
      var wireType, fieldNum := tag % 8, tag / 8;
      if wireType == 0 {
        var _, m := DecodeVarint(data[i + n..]);
        i := i + n + m;
      } else if wireType == 2 {
        var length, m := DecodeVarint(data[i + n..]);
        var start := i + n + m;
        var end := Wrap(start + ToInt(length));
        if end < start {
          return None;
        }
        if end <= |data| {
          var s := data[start..end];
          assert s == data[i..][n + m..end - i];
          AddEntry(fields, fieldNum, s);
          if keep(s) {
            fields := fields[fieldNum := s];
          }
        }
        i := end;
      } else if wireType == 1 {
        i := i + n + 8;
      } else if wireType == 5 {
        i := i + n + 4;
      } else {
        return Some(fields);
      }
    }
    DecodingEnds(data, i, keep, fields);
    return Some(fields);
  }
}
