/**
  A plain reader of whole messages, written from the format alone, and the field decoders against it: on every
  well-formed message, and on a message with a tail that is cut off or unknown.
 */
module WireReader {
  import opened Sequences
  import opened Varint
  import opened Wire
  import opened WireLaws

  // ----- The reader -----

  function Cons(f: Field, later: Option<seq<Field>>): Option<seq<Field>>
  {
    match later
    case None => None
    case Some(fs) => Some([f] + fs)
  }

  /** The fields of a message, in order; none when it is malformed anywhere. Varints need not be the shortest. */
  function ReadFields(s: Bytes): Option<seq<Field>>
    decreases |s|
  {
    if s == [] then Some([])
    else
      var (tag, n) := Decode(s);
      if n == 0 then None
      else
        var num, rest := tag / 8, s[n..];
        match tag % 8
        case 0 =>
          var (v, m) := Decode(rest);
          if m == 0 then None else Cons(VarintField(num, v), ReadFields(rest[m..]))
        case 1 => if |rest| < 8 then None else Cons(Fixed64Field(num, rest[..8]), ReadFields(rest[8..]))
        case 2 =>
          var (length, m) := Decode(rest);
          if m == 0 || m + length > |rest| then None
          else Cons(BytesField(num, rest[m..m + length]), ReadFields(rest[m + length..]))
        case 5 => if |rest| < 4 then None else Cons(Fixed32Field(num, rest[..4]), ReadFields(rest[4..]))
        case _ => None
  }

  lemma ReadField(f: Field, tail: Bytes)
    requires ValidField(f)
    ensures ReadFields(SerializeField(f) + tail) == Cons(f, ReadFields(tail))
  {
    hide Encode, Decode;
    match f
    case VarintField(num, value) =>
      var t, e := Encode(Tag(num, 0)), Encode(value);
      assert SerializeField(f) + tail == t + (e + tail);
      TagDecodes(num, 0, e + tail);
      RoundTrip(value, tail);
      assert (e + tail)[|e|..] == tail;
    case BytesField(num, payload) => ReadBytesField(num, payload, tail);
    case Fixed64Field(num, bits) =>
      assert SerializeField(f) + tail == Encode(Tag(num, 1)) + (bits + tail);
      TagDecodes(num, 1, bits + tail);
      assert (bits + tail)[..8] == bits && (bits + tail)[8..] == tail;
    case Fixed32Field(num, bits) =>
      assert SerializeField(f) + tail == Encode(Tag(num, 5)) + (bits + tail);
      TagDecodes(num, 5, bits + tail);
      assert (bits + tail)[..4] == bits && (bits + tail)[4..] == tail;
  }

  lemma ReadBytesField(num: nat, payload: Bytes, tail: Bytes)
    requires ValidField(BytesField(num, payload))
    ensures ReadFields(SerializeField(BytesField(num, payload)) + tail)
            == Cons(BytesField(num, payload), ReadFields(tail))
  {
    hide Encode, Decode;
    var t, e := Encode(Tag(num, 2)), Encode(|payload|);
    var rest := e + (payload + tail);
    assert SerializeField(BytesField(num, payload)) + tail == t + rest;
    TagDecodes(num, 2, rest);
    RoundTrip(|payload|, payload + tail);
    assert rest[|e|..|e| + |payload|] == payload && rest[|e| + |payload|..] == tail;
  }

  /** Reading what was written gives it back. */
  lemma {:induction false} ReadSerialized(fs: seq<Field>)
    requires ValidFields(fs)
    ensures ReadFields(Serialize(fs)) == Some(fs)
    decreases |fs|
  {
    assert Serialize([]) == [] && ReadFields([]) == Some([]);
    hide SerializeField, ReadFields;
    if fs != [] {
      ReadField(fs[0], Serialize(fs[1..]));
      ReadSerialized(fs[1..]);
      assert [fs[0]] + fs[1..] == fs;
    }
  }

  // ----- The decoders on well-formed messages -----

  lemma BytesTurnAt(s: Bytes, base: nat, keep: Bytes -> bool, tag: nat, n: nat, length: nat, m: nat)
    requires s != [] && Decode(s) == (tag, n) && n > 0 && tag % 8 == 2 && Decode(s[n..]) == (length, m)
    requires n + m + length <= |s| && base + |s| < TWO_63
    ensures var f := BytesField(tag / 8, s[n..][m..m + length]);
            && StringStep(s, base, keep) == Go(n + m + length, StringEntry(f, keep))
            && UintStep(s, base) == Go(n + m + length, UintEntry(f))
  {
    hide Decode;
    assert s[n + m..n + m + length] == s[n..][m..m + length];
  }

  lemma OtherTurnAt(s: Bytes, base: nat, keep: Bytes -> bool, tag: nat, n: nat)
    requires s != [] && Decode(s) == (tag, n) && n > 0
    ensures tag % 8 == 0 ==>
              var (v, m) := Decode(s[n..]);
              && StringStep(s, base, keep) == Go(n + m, None)
              && UintStep(s, base) == Go(n + m, Some((tag / 8, v)))
    ensures tag % 8 == 1 ==> StringStep(s, base, keep) == Go(n + 8, None) && UintStep(s, base) == Go(n + 8, None)
    ensures tag % 8 == 5 ==> StringStep(s, base, keep) == Go(n + 4, None) && UintStep(s, base) == Go(n + 4, None)
  {
    hide Decode;
  }

  lemma DropTwice(s: Bytes, n: nat, k: nat)
    requires n + k <= |s|
    ensures s[n..][k..] == s[n + k..]
  {
  }

  /** One field at the start of a well-formed message, and the rest of it. */
  lemma ReadUnfold(s: Bytes, fs: seq<Field>, base: nat, keep: Bytes -> bool) returns (size: nat)
    requires s != [] && ReadFields(s) == Some(fs) && base + |s| < TWO_63
    ensures 1 <= size <= |s| && fs != [] && ReadFields(s[size..]) == Some(fs[1..])
    ensures StringStep(s, base, keep) == Go(size, StringEntry(fs[0], keep))
    ensures UintStep(s, base) == Go(size, UintEntry(fs[0]))
  {
    hide Decode, StringStep, UintStep;
    var (tag, n) := Decode(s);
    var (v, m) := Decode(s[n..]);
    OtherTurnAt(s, base, keep, tag, n);
    if tag % 8 == 0 {
      size := n + m;
      DropTwice(s, n, m);
    } else if tag % 8 == 1 {
      size := n + 8;
      DropTwice(s, n, 8);
    } else if tag % 8 == 2 {
      size := n + m + v;
      BytesTurnAt(s, base, keep, tag, n, v, m);
      DropTwice(s, n, m + v);
    } else {
      size := n + 4;
      DropTwice(s, n, 4);
    }
  }

  lemma StringsUnfold(s: Bytes, base: nat, keep: Bytes -> bool, size: nat)
    requires s != [] && size <= |s| && StringStep(s, base, keep).Go? && StringStep(s, base, keep).size == size
    ensures Strings(s, base, keep)
            == Override(EntryMap(StringStep(s, base, keep).entry), Strings(s[size..], base + size, keep))
  {
    hide StringStep, EntryMap, Override, Drop;
    assert Drop(s, size) == s[size..];
  }

  lemma UintsUnfold(s: Bytes, base: nat, size: nat)
    requires s != [] && size <= |s| && UintStep(s, base).Go? && UintStep(s, base).size == size
    ensures Uints(s, base) == Override(EntryMap(UintStep(s, base).entry), Uints(s[size..], base + size))
  {
    hide UintStep, EntryMap, Override, Drop;
    assert Drop(s, size) == s[size..];
  }

  lemma ReadEmpty(base: nat, keep: Bytes -> bool)
    ensures ReadFields([]) == Some([])
    ensures Strings([], base, keep) == Some(StringsOf([], keep)) && Uints([], base) == Some(UintsOf([]))
  {
  }

  lemma LastValues(f: Field, fs: seq<Field>, keep: Bytes -> bool)
    ensures StringsOf([f] + fs, keep) == EntryMap(StringEntry(f, keep)) + StringsOf(fs, keep)
    ensures UintsOf([f] + fs) == EntryMap(UintEntry(f)) + UintsOf(fs)
  {
    assert ([f] + fs)[1..] == fs;
  }

  /** On every well-formed message both decoders give, per field number, the last value of their kind. */
  lemma {:induction false} DecodersRead(s: Bytes, fs: seq<Field>, base: nat, keep: Bytes -> bool)
    requires ReadFields(s) == Some(fs) && base + |s| < TWO_63
    ensures Strings(s, base, keep) == Some(StringsOf(fs, keep))
    ensures Uints(s, base) == Some(UintsOf(fs))
    decreases |s|
  {
    hide StringStep, UintStep, ReadFields, StringEntry, UintEntry, EntryMap, Strings, Uints, StringsOf, UintsOf;
    ReadEmpty(base, keep);
    if s != [] {
      var size := ReadUnfold(s, fs, base, keep);
      DecodersRead(s[size..], fs[1..], base + size, keep);
      StringsUnfold(s, base, keep, size);
      UintsUnfold(s, base, size);
      LastValues(fs[0], fs[1..], keep);
      assert [fs[0]] + fs[1..] == fs;
    }
  }

  // ----- Tails that are cut off or unknown -----

  lemma EndsThere(fs: seq<Field>, tail: Bytes, keep: Bytes -> bool)
    requires ValidFields(fs) && |Serialize(fs)| < TWO_63
    requires Strings(tail, |Serialize(fs)|, keep) == Some(map[]) && Uints(tail, |Serialize(fs)|) == Some(map[])
    ensures Strings(Serialize(fs) + tail, 0, keep) == Some(StringsOf(fs, keep))
    ensures Uints(Serialize(fs) + tail, 0) == Some(UintsOf(fs))
  {
    hide Strings, Uints, Serialize, StringsOf, UintsOf;
    DecodeSerialized(fs, tail, 0, keep);
    assert StringsOf(fs, keep) + map[] == StringsOf(fs, keep);
    assert UintsOf(fs) + map[] == UintsOf(fs);
  }

  /** A turn that moves beyond the data without an entry is the last. */
  lemma LastTurn(tail: Bytes, base: nat, keep: Bytes -> bool)
    requires tail != []
    requires match StringStep(tail, base, keep)
             case Leave => true
             case Go(size, entry) => size >= |tail| && entry == None
             case _ => false
    requires match UintStep(tail, base)
             case Leave => true
             case Go(size, entry) => size >= |tail| && entry == None
             case _ => false
    ensures Strings(tail, base, keep) == Some(map[]) && Uints(tail, base) == Some(map[])
  {
    hide StringStep, UintStep;
  }

  /** A payload that is cut off by the end of the data is not recorded, not even in part. */
  lemma CutPayload(fs: seq<Field>, num: nat, length: nat, rest: Bytes, keep: Bytes -> bool)
    requires ValidFields(fs) && num < FIELD_LIMIT && |rest| < length
    requires var t, e := Encode(num * 8 + 2), Encode(length); |Serialize(fs)| + |t| + |e| + length < TWO_63
    ensures var tail := Encode(num * 8 + 2) + Encode(length) + rest;
            && Strings(Serialize(fs) + tail, 0, keep) == Some(StringsOf(fs, keep))
            && Uints(Serialize(fs) + tail, 0) == Some(UintsOf(fs))
  {
    hide Encode, Decode, Strings, Uints, Serialize;
    var t, e, base := Encode(num * 8 + 2), Encode(length), |Serialize(fs)|;
    var tail := t + e + rest;
    assert tail == t + (e + rest);
    TagDecodes(num, 2, e + rest);
    RoundTrip(length, rest);
    LastTurn(tail, base, keep);
    EndsThere(fs, tail, keep);
  }

  /** So are a 64-bit value of less than eight bytes and a 32-bit value of less than four. */
  lemma CutFixed(fs: seq<Field>, num: nat, wireType: nat, rest: Bytes, keep: Bytes -> bool)
    requires ValidFields(fs) && num < FIELD_LIMIT && |Serialize(fs)| < TWO_63
    requires (wireType == 1 && |rest| < 8) || (wireType == 5 && |rest| < 4)
    ensures var tail := Encode(num * 8 + wireType) + rest;
            && Strings(Serialize(fs) + tail, 0, keep) == Some(StringsOf(fs, keep))
            && Uints(Serialize(fs) + tail, 0) == Some(UintsOf(fs))
  {
    hide Encode, Decode, Strings, Uints, Serialize;
    var tail := Encode(num * 8 + wireType) + rest;
    TagDecodes(num, wireType, rest);
    LastTurn(tail, |Serialize(fs)|, keep);
    EndsThere(fs, tail, keep);
  }

  /** Any of the other four wire types ends the decoding, whatever follows. */
  lemma UnknownWireType(fs: seq<Field>, num: nat, wireType: nat, rest: Bytes, keep: Bytes -> bool)
    requires ValidFields(fs) && num < FIELD_LIMIT && |Serialize(fs)| < TWO_63
    requires wireType in {3, 4, 6, 7}
    ensures var tail := Encode(num * 8 + wireType) + rest;
            && Strings(Serialize(fs) + tail, 0, keep) == Some(StringsOf(fs, keep))
            && Uints(Serialize(fs) + tail, 0) == Some(UintsOf(fs))
  {
    hide Encode, Decode, Strings, Uints, Serialize;
    var tail := Encode(num * 8 + wireType) + rest;
    TagDecodes(num, wireType, rest);
    LastTurn(tail, |Serialize(fs)|, keep);
    EndsThere(fs, tail, keep);
  }

  /** So do bytes that do not start with a varint. */
  lemma NoTag(fs: seq<Field>, tail: Bytes, keep: Bytes -> bool)
    requires ValidFields(fs) && |Serialize(fs)| < TWO_63
    requires forall m :: !IsVarint(tail, m)
    ensures Strings(Serialize(fs) + tail, 0, keep) == Some(StringsOf(fs, keep))
    ensures Uints(Serialize(fs) + tail, 0) == Some(UintsOf(fs))
  {
    assert Strings([], |Serialize(fs)|, keep) == Some(map[]) && Uints([], |Serialize(fs)|) == Some(map[]);
    hide Decode, Strings, Uints, Serialize;
    DecodeMeans(tail);
    if tail != [] {
      LastTurn(tail, |Serialize(fs)|, keep);
    }
    EndsThere(fs, tail, keep);
  }

  // ----- The bytes themselves -----

  /** What the appending functions write for fields 1 to 15 and lengths and values below 128. */
  lemma ShortForm(b: Bytes, num: nat, v: nat, payload: Bytes)
    requires 1 <= num <= 15 && v < 128 && |payload| < 128
    ensures AppendUint64(b, num, v) == b + [num * 8, v]
    ensures AppendBool(b, num, true) == b + [num * 8, 1] && AppendBool(b, num, false) == b + [num * 8, 0]
    ensures AppendBytes(b, num, payload) == b + [num * 8 + 2, |payload|] + payload
  {
    ShortTag(num, 0);
    ShortTag(num, 2);
    assert Encode(v) == [v] && Encode(|payload|) == [|payload|];
    hide Encode;
  }
}
