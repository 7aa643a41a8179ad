/**
  The power bridge: its own encoder for power properties, the brightness request parser that skips
  unknown fields, and the clamping of brightness values.
 */
module Power {
  import opened Sequences
  import opened Varint
  import opened Wire
  import opened WireLaws
  import opened WireReader
  import UintLoop

  // ----- Little-endian 64-bit words -----

  function Pow256(k: nat): (p: nat)
    ensures p >= 1
  {
    if k == 0 then 1 else 256 * Pow256(k - 1)
  }

  /** `binary.LittleEndian.PutUint64`, for `k` bytes. */
  function ToBytes(v: nat, k: nat): (b: Bytes)
    ensures |b| == k
  {
    if k == 0 then [] else [v % 256] + ToBytes(v / 256, k - 1)
  }

  /** `binary.LittleEndian.Uint64` */
  function FromBytes(b: Bytes): nat
  {
    if b == [] then 0 else b[0] + 256 * FromBytes(b[1..])
  }

  lemma {:induction false} BytesRoundTrip(v: nat, k: nat)
    requires v < Pow256(k)
    ensures FromBytes(ToBytes(v, k)) == v
    decreases k
  {
    if k > 0 {
      assert v / 256 < Pow256(k - 1);
      BytesRoundTrip(v / 256, k - 1);
      assert ToBytes(v, k)[1..] == ToBytes(v / 256, k - 1);
    }
  }

  /** The bytes are the digits to base 256, lowest first. */
  lemma {:induction false} BytesAt(v: nat, k: nat, i: nat)
    requires i < k
    ensures ToBytes(v, k)[i] == v / Pow256(i) % 256
    decreases k
  {
    if i > 0 {
      BytesAt(v / 256, k - 1, i - 1);
      DivideTwice(v, Pow256(i - 1));
    }
  }

  lemma DivideTwice(v: nat, p: nat)
    requires p > 0
    ensures v / 256 / p == v / (256 * p)
  {
    var q, r := v / 256 / p, v / 256 % p;
    assert v == 256 * (q * p + r) + v % 256;
    assert v == q * (256 * p) + (256 * r + v % 256);
    assert 0 <= 256 * r + v % 256 < 256 * p;
    Quotient(v, 256 * p, q, 256 * r + v % 256);
  }

  lemma Quotient(v: nat, d: nat, q: nat, r: nat)
    requires d > 0 && v == q * d + r && r < d
    ensures v / d == q
  {
    var k := q - v / d;
    assert k * d == v % d - r;
    Multiple(k, d);
  }

  lemma Multiple(k: int, d: nat)
    ensures k > 0 ==> k * d >= d
    ensures k < 0 ==> k * d <= 0 - d
  {
  }

  lemma WordRoundTrip(v: nat)
    requires v < TWO_64
    ensures FromBytes(ToBytes(v, 8)) == v
  {
    assert Pow256(2) == 256 * Pow256(1);
    assert Pow256(4) == 256 * (256 * Pow256(2));
    assert Pow256(6) == 256 * (256 * Pow256(4));
    assert Pow256(8) == 256 * (256 * Pow256(6));
    BytesRoundTrip(v, 8);
  }

  // ----- Brightness values -----

  /** `math.Float64bits` of a float64; the bits of non-negative numbers are ordered like the numbers. */
  type Float64 = v: nat | v < TWO_64

  const MINUS_ZERO: Float64 := TWO_63
  const HUNDRED: Float64 := 0x4059_0000_0000_0000

  predicate IsNaN(v: Float64)
  {
    v / 0x10_0000_0000_0000 % 0x800 == 0x7ff && v % 0x10_0000_0000_0000 != 0
  }

  /** `v < 0`, for a value that is not NaN. */
  predicate Negative(v: Float64)
  {
    v > MINUS_ZERO
  }

  /** `v > 100`, for a value that is not NaN. */
  predicate AboveHundred(v: Float64)
  {
    HUNDRED < v < MINUS_ZERO
  }

  /** A brightness the bridge will report: 0 to 100, with either zero. */
  predicate InRange(v: Float64)
  {
    v <= HUNDRED || v == MINUS_ZERO
  }

  function Median(low: int, x: int, high: int): (r: int)
    requires low <= high
    ensures low <= r <= high
  {
    if x < low then low else if x > high then high else x
  }

  /** Numbers in their order, with both zeros at 0. */
  function Order(v: Float64): int
  {
    if v <= MINUS_ZERO then v % MINUS_ZERO else MINUS_ZERO - v
  }

  function ClampPercent(v: Float64): (r: Float64)
    ensures InRange(r)
    ensures InRange(v) <==> r == v
    ensures IsNaN(v) ==> r == HUNDRED
    ensures !IsNaN(v) ==> Order(r) == Median(0, Order(v), Order(HUNDRED))
  {
    if IsNaN(v) then HUNDRED
    else if Negative(v) then 0
    else if AboveHundred(v) then HUNDRED
    else v
  }

  // ----- The brightness request parser -----

  datatype Outcome = Found(bits: nat) | Rejected | LengthWraps

  /** The loop of wire type 0: past the first byte below 0x80, without a limit of ten bytes. */
  function SkipVarint(s: Bytes, k: nat): (r: nat)
    requires k <= |s|
    ensures k <= r <= |s|
    decreases |s| - k
  {
    if k == |s| then k
    else if s[k] < 0x80 then k + 1
    else SkipVarint(s, k + 1)
  }

  /** The offset behind the field at the start of `s`, or why there is none; a length may send it back. */
  datatype Hop = To(size: nat) | Fails | Wraps(to: int)

  function SkipField(s: Bytes, base: nat): (r: Hop)
    requires s != []
    ensures r.To? ==> r.size >= 1
  {
    var wire := s[0] % 8;
    if wire == 0 then To(SkipVarint(s, 1))
    else if wire == 1 then To(9)
    else if wire == 2 then
      var (length, m) := Decode(s[1..]);
      if m == 0 then Fails
      else
        var next := Wrap(base + 1 + m + ToInt(length));
        if next < base + 1 + m then Wraps(next) else To(next - base)
    else if wire == 5 then To(5)
    else Fails
  }

  /** The tag of the field sought. */
  predicate AtBrightness(s: Bytes)
    requires s != []
  {
    s[0] / 8 == 1 && s[0] % 8 == 1
  }

  /**
    What the parser finds while its offset only moves forward; `s` is the rest of the request from offset `base`
    on. `LengthWraps` is where a declared length sends the offset back; `BacklightLoop` says what comes of that.
   */
  function Parse(s: Bytes, base: nat): Outcome
    decreases |s|
  {
    if s == [] then Rejected
    else if AtBrightness(s) then
      if 9 > |s| then Rejected else Found(FromBytes(s[1..9]))
    else
      match SkipField(s, base)
      case Fails => Rejected
      case Wraps(_) => LengthWraps
      case To(size) => if size > |s| then Rejected else Parse(s[size..], base + size)
  }

  /** The switch on the wire type: the distance from the tag at `from` to the next one. */
  method Skip(req: Bytes, from: nat) returns (hop: Hop)
    requires from < |req|
    ensures hop == SkipField(req[from..], from)
  {
    hide Decode, SkipVarint;
    var wire := req[from] % 8;
    var i := from + 1;
    assert req[i..] == req[from..][1..];
    if wire == 0 {
      i := SkipBytes(req, from, i);
      return To(i - from);
    } else if wire == 1 {
      return To(9);
    } else if wire == 2 {
      var v := ReadProtoVarint(req, i);
      ReadersAgree(req, i);
      if v.None? {
        return Fails;
      }
      var (n, next) := v.value;
      var end := Wrap(next + ToInt(n));
      return if end < next then Wraps(end) else To(end - from);
    } else if wire == 5 {
      return To(5);
    } else {
      return Fails;
    }
  }

  /** The inner loop of wire type 0. */
  method SkipBytes(req: Bytes, ghost from: nat, start: nat) returns (i: nat)
    requires start == from + 1 <= |req|
    ensures i == from + SkipVarint(req[from..], 1)
  {
    i := start;
    while i < |req|
      invariant start <= i <= |req|
      invariant SkipVarint(req[from..], i - from) == SkipVarint(req[from..], 1)
    {
      var b := req[i];
      i := i + 1;
      if b < 0x80 {
        return;
      }
    }
  }

  // ----- When the offset only moves forward -----

  /** The length declared at the start of `s`, if there is one, ends before offset 2^63. */
  predicate HopFits(s: Bytes, base: nat)
    requires s != []
  {
    s[0] % 8 == 2 ==>
      var (length, m) := Decode(s[1..]);
      m > 0 ==> base + 1 + m + length < TWO_63
  }

  /** Every length declared at a tag visited before the field sought fits. */
  predicate AllFit(s: Bytes, base: nat)
    decreases |s|
  {
    s == [] || AtBrightness(s) || (HopFits(s, base) &&
      match SkipField(s, base)
      case To(size) => size > |s| || AllFit(s[size..], base + size)
      case _ => true)
  }

  lemma HopWrapsExactly(s: Bytes, base: nat)
    requires s != [] && base + |s| < TWO_63
    ensures SkipField(s, base).Wraps? <==> !HopFits(s, base)
  {
    hide Decode, SkipVarint;
    DecodeMeans(s[1..]);
  }

  /** The parser's offset only moves forward if and only if every length before the field sought fits. */
  lemma {:induction false} WrapsExactly(s: Bytes, base: nat)
    requires base + |s| < TWO_63
    ensures Parse(s, base) == LengthWraps <==> !AllFit(s, base)
    decreases |s|
  {
    hide SkipField, HopFits, FromBytes;
    if s != [] && !AtBrightness(s) {
      HopWrapsExactly(s, base);
      match SkipField(s, base)
      case To(size) =>
        if size <= |s| {
          WrapsExactly(s[size..], base + size);
        }
      case _ =>
    }
  }

  // ----- One field at a time, by its tag byte -----

  ghost predicate Continues(run: Bytes)
  {
    forall i :: 0 <= i < |run| ==> run[i] >= 0x80
  }

  lemma {:induction false} SkipRun(s: Bytes, k: nat, end: nat)
    requires k <= end <= |s| && forall i :: k <= i < end ==> s[i] >= 0x80
    ensures end == |s| ==> SkipVarint(s, k) == end
    ensures end < |s| && s[end] < 0x80 ==> SkipVarint(s, k) == end + 1
    decreases end - k
  {
    if k < end {
      SkipRun(s, k + 1, end);
    }
  }

  /** A varint of any length is skipped up to its last byte; one that is cut off ends the request. */
  lemma VarintSkipped(tag: byte, run: Bytes, last: byte, rest: Bytes, base: nat)
    requires tag % 8 == 0 && Continues(run) && last < 0x80
    ensures Parse([tag] + run + [last] + rest, base) == Parse(rest, base + 2 + |run|)
    ensures Parse([tag] + run, base) == Rejected
  {
    hide FromBytes;
    var s, cut := [tag] + run + [last] + rest, [tag] + run;
    SkipRun(s, 1, 1 + |run|);
    assert s[2 + |run|..] == rest;
    SkipRun(cut, 1, |cut|);
    assert Parse([], base + |cut|) == Rejected;
    assert cut[|cut|..] == [];
  }

  /** A 64-bit value other than the one sought is skipped; a short one is rejected. */
  lemma WordSkipped(tag: byte, bits: Bytes, rest: Bytes, base: nat)
    requires tag % 8 == 1
    ensures tag != 0x09 && |bits| == 8 ==> Parse([tag] + bits + rest, base) == Parse(rest, base + 9)
    ensures |bits| < 8 ==> Parse([tag] + bits, base) == Rejected
  {
    hide FromBytes;
    var s := [tag] + bits + rest;
    if |bits| == 8 {
      assert s[9..] == rest;
    }
  }

  /** A 32-bit value is skipped; a short one is rejected. */
  lemma HalfSkipped(tag: byte, bits: Bytes, rest: Bytes, base: nat)
    requires tag % 8 == 5
    ensures |bits| == 4 ==> Parse([tag] + bits + rest, base) == Parse(rest, base + 5)
    ensures |bits| < 4 ==> Parse([tag] + bits, base) == Rejected
  {
    hide FromBytes;
    var s := [tag] + bits + rest;
    if |bits| == 4 {
      assert s[5..] == rest;
    }
  }

  /** A payload is skipped; one that is cut off, or has no length, is rejected. */
  lemma PayloadSkipped(tag: byte, length: nat, payload: Bytes, rest: Bytes, base: nat)
    requires tag % 8 == 2 && base + 1 + |Encode(length)| + length < TWO_63
    ensures |payload| == length ==>
              Parse([tag] + Encode(length) + payload + rest, base) == Parse(rest, base + 1 + |Encode(length)| + length)
    ensures |payload| < length ==> Parse([tag] + Encode(length) + payload, base) == Rejected
  {
    hide FromBytes, Encode, Decode, SkipField;
    var e := Encode(length);
    var s, cut := [tag] + e + payload + rest, [tag] + e + payload;
    assert s[1..] == e + (payload + rest) && cut[1..] == e + payload;
    RoundTrip(length, payload + rest);
    RoundTrip(length, payload);
    SkipLength(s, base, length, |e|);
    SkipLength(cut, base, length, |e|);
    if |payload| == length {
      assert s[1 + |e| + length..] == rest;
    }
  }

  lemma LengthMissing(tag: byte, rest: Bytes, base: nat)
    requires tag % 8 == 2 && forall m :: !IsVarint(rest, m)
    ensures Parse([tag] + rest, base) == Rejected
  {
    hide FromBytes, Decode;
    assert ([tag] + rest)[1..] == rest;
    DecodeMeans(rest);
  }

  /** Any of the other four wire types is rejected, whatever follows. */
  lemma WireTypeUnknown(tag: byte, rest: Bytes, base: nat)
    requires tag % 8 in {3, 4, 6, 7}
    ensures Parse([tag] + rest, base) == Rejected
  {
    hide FromBytes, Decode;
  }

  // ----- What the parser promises -----

  /** The parser reads tags of one byte, so its fields are those numbered 1 to 15. */
  ghost predicate ShortFields(fs: seq<Field>)
  {
    ValidFields(fs) && forall i :: 0 <= i < |fs| ==> 1 <= fs[i].num <= 15
  }

  predicate Brightness(f: Field)
  {
    f.Fixed64Field? && f.num == 1
  }

  /** The first 64-bit field number 1 of a message. */
  function FirstBrightness(fs: seq<Field>): Option<Bytes>
  {
    if fs == [] then None
    else if Brightness(fs[0]) then Some(fs[0].bits)
    else FirstBrightness(fs[1..])
  }

  lemma {:induction false} SkipEncoded(s: Bytes, v: nat, rest: Bytes, k: nat)
    requires 1 <= k < 1 + |Encode(v)| && |s| >= 1 && s[1..] == Encode(v) + rest
    ensures SkipVarint(s, k) == 1 + |Encode(v)|
    decreases |Encode(v)| - k
  {
    hide Encode;
    var e := Encode(v);
    assert s[k] == s[1..][k - 1] == e[k - 1];
    if k < |e| {
      SkipEncoded(s, v, rest, k + 1);
    }
  }

  /** Any field but the one sought is skipped as a whole. */
  lemma SkipSerialized(f: Field, rest: Bytes, base: nat)
    requires ValidField(f) && 1 <= f.num <= 15 && base + |SerializeField(f)| < TWO_63
    ensures var s := SerializeField(f) + rest;
            && s[0] / 8 == f.num && (s[0] % 8 == 1 <==> f.Fixed64Field?)
            && SkipField(s, base) == To(|SerializeField(f)|)
            && s[|SerializeField(f)|..] == rest
  {
    hide Encode, Decode, SkipVarint;
    var b := SerializeField(f);
    var s := b + rest;
    match f
    case VarintField(num, value) =>
      ShortTag(num, 0);
      assert s[1..] == Encode(value) + rest;
      SkipEncoded(s, value, rest, 1);
    case BytesField(num, payload) => SkipSerializedBytes(num, payload, rest, base);
    case Fixed64Field(num, bits) => ShortTag(num, 1);
    case Fixed32Field(num, bits) => ShortTag(num, 5);
  }

  lemma SkipSerializedBytes(num: nat, payload: Bytes, rest: Bytes, base: nat)
    requires 1 <= num <= 15 && base + |SerializeField(BytesField(num, payload))| < TWO_63
    ensures var s := SerializeField(BytesField(num, payload)) + rest;
            && s[0] == Tag(num, 2)
            && SkipField(s, base) == To(|SerializeField(BytesField(num, payload))|)
  {
    hide Encode, Decode, SkipField;
    var e := Encode(|payload|);
    var s := SerializeField(BytesField(num, payload)) + rest;
    ShortTag(num, 2);
    assert s == [Tag(num, 2)] + (e + (payload + rest));
    RoundTrip(|payload|, payload + rest);
    SkipLength(s, base, |payload|, |e|);
  }

  lemma SkipLength(s: Bytes, base: nat, length: nat, m: nat)
    requires s != [] && s[0] % 8 == 2 && Decode(s[1..]) == (length, m)
    requires m > 0 && base + 1 + m + length < TWO_63
    ensures SkipField(s, base) == To(1 + m + length)
  {
  }

  lemma ParsePast(f: Field, tail: Bytes, base: nat)
    requires ValidField(f) && 1 <= f.num <= 15 && !Brightness(f) && base + |SerializeField(f)| < TWO_63
    ensures Parse(SerializeField(f) + tail, base) == Parse(tail, base + |SerializeField(f)|)
  {
    hide SerializeField, SkipField, FromBytes;
    SkipSerialized(f, tail, base);
  }

  /** Fields in front that are not the one sought make no difference. */
  lemma {:induction false} ParseSkips(fs: seq<Field>, rest: Bytes, base: nat)
    requires ShortFields(fs) && FirstBrightness(fs) == None
    requires base + |Serialize(fs)| < TWO_63
    ensures Parse(Serialize(fs) + rest, base) == Parse(rest, base + |Serialize(fs)|)
    decreases |fs|
  {
    hide SerializeField, Parse;
    if fs == [] {
      assert Serialize(fs) + rest == rest;
    } else {
      var b, tail := SerializeField(fs[0]), Serialize(fs[1..]) + rest;
      assert Serialize(fs) + rest == b + tail;
      ParsePast(fs[0], tail, base);
      ParseSkips(fs[1..], rest, base + |b|);
    }
  }

  /** The forward parse gives the sought field behind any such fields, whatever follows it. */
  lemma ParseFinds(fs: seq<Field>, bits: Bytes, rest: Bytes)
    requires ShortFields(fs) && FirstBrightness(fs) == None && |bits| == 8
    requires |Serialize(fs)| < TWO_63
    ensures Parse(Serialize(fs) + [0x09] + bits + rest, 0) == Found(FromBytes(bits))
  {
    hide Parse, Serialize, FromBytes;
    var tail := [0x09] + bits + rest;
    assert Serialize(fs) + [0x09] + bits + rest == Serialize(fs) + tail;
    ParseSkips(fs, tail, 0);
    ParseHere(bits, rest, |Serialize(fs)|);
  }

  lemma ParseHere(bits: Bytes, rest: Bytes, base: nat)
    requires |bits| == 8
    ensures Parse([0x09] + bits + rest, base) == Found(FromBytes(bits))
  {
    hide FromBytes, SkipField;
    assert ([0x09] + bits + rest)[1..9] == bits;
  }

  lemma {:induction false} SplitAtBrightness(fs: seq<Field>) returns (k: nat)
    requires ShortFields(fs) && FirstBrightness(fs).Some?
    ensures k < |fs| && Brightness(fs[k]) && FirstBrightness(fs) == Some(fs[k].bits)
    ensures FirstBrightness(fs[..k]) == None
    ensures Serialize(fs) == Serialize(fs[..k]) + SerializeField(fs[k]) + Serialize(fs[k + 1..])
    decreases |fs|
  {
    hide SerializeField;
    if Brightness(fs[0]) {
      k := 0;
      assert fs[..0] == [];
    } else {
      var j := SplitAtBrightness(fs[1..]);
      k := j + 1;
      assert fs[..k][1..] == fs[1..][..j];
      assert fs[1..][j + 1..] == fs[k + 1..];
      var b, x, y, z := SerializeField(fs[0]), Serialize(fs[1..][..j]), SerializeField(fs[k]), Serialize(fs[k + 1..]);
      assert Serialize(fs[..k]) == b + x;
      assert b + (x + y + z) == (b + x) + y + z;
    }
  }

  /** On every message of short fields the parser returns the first brightness, and fails without one. */
  lemma {:induction false} ParseMessage(fs: seq<Field>)
    requires ShortFields(fs) && |Serialize(fs)| < TWO_63
    ensures Parse(Serialize(fs), 0)
            == match FirstBrightness(fs)
               case None => Rejected
               case Some(bits) => Found(FromBytes(bits))
  {
    hide Parse, FromBytes, Serialize;
    if FirstBrightness(fs).None? {
      ParseSkips(fs, [], 0);
      assert Serialize(fs) + [] == Serialize(fs);
      ParseNothing(|Serialize(fs)|);
    } else {
      var k := SplitAtBrightness(fs);
      BrightnessBytes(fs[k]);
      var front, rest := Serialize(fs[..k]), Serialize(fs[k + 1..]);
      assert front + ([0x09] + fs[k].bits) + rest == front + [0x09] + fs[k].bits + rest;
      ParseFinds(fs[..k], fs[k].bits, rest);
    }
  }

  lemma BrightnessBytes(f: Field)
    requires Brightness(f)
    ensures SerializeField(f) == [0x09] + f.bits
  {
  }

  lemma ParseNothing(base: nat)
    ensures Parse([], base) == Rejected
  {
  }

  type Uint64 = u: nat | u < TWO_64

  /** `encodeBacklightBrightnessChange` */
  function EncodeBacklightBrightnessChange(percent: Float64, cause: Uint64): Bytes
  {
    [0x09] + ToBytes(ClampPercent(percent), 8) + ([0x10] + Encode(cause))
  }

  // ----- Power supply properties -----

  const BATT_CHARGING := 1
  const BATT_DISCHARGING := 2
  const BATT_NOT_PRESENT := 3

  const EXT_POWER_AC := 0
  const EXT_POWER_DISCONNECTED := 2

  type Int64 = t: int | -0x8000_0000_0000_0000 <= t < 0x8000_0000_0000_0000

  type Uint32 = u: nat | u < 0x1_0000_0000

  datatype BatteryState = BatteryState(percent: Float64, state: Uint32, timeToEmpty: Int64, timeToFull: Int64)

  datatype PowerSupplyProps = PowerSupplyProps(
    percent: Float64, state: Uint32, externalPower: Uint32, timeToEmptySec: Int64, timeToFullSec: Int64,
    isCalcBatteryTime: bool, batteryPresent: bool)

  /** `powerSupplyPropsFromBattery` */
  function PropsFromBattery(b: BatteryState): PowerSupplyProps
  {
    var present := b.state != BATT_NOT_PRESENT;
    var calculating :=
      if b.state == BATT_CHARGING then b.timeToFull <= 0
      else if b.state == BATT_DISCHARGING then b.timeToEmpty <= 0
      else false;
    PowerSupplyProps(
      b.percent, b.state, if b.state == BATT_DISCHARGING then EXT_POWER_DISCONNECTED else EXT_POWER_AC,
      b.timeToEmpty, b.timeToFull, present && calculating, present)
  }

  /** `uint64(t)` */
  function ToUint64(t: Int64): nat
  {
    if t < 0 then t + TWO_64 else t
  }

  /** `appendVarint` of the power bridge, which writes the tag byte too. */
  method AppendTagged(buf: Bytes, tag: byte, v: nat) returns (r: Bytes)
    ensures r == buf + [tag] + Encode(v)
  {
    r := AppendVarint(buf + [tag], v);
  }

  /** The fields `encodePowerSupplyProps` means to write. */
  function PropsFields(p: PowerSupplyProps): seq<Field>
  {
    (if p.timeToEmptySec != 0 then [VarintField(5, ToUint64(p.timeToEmptySec))] else [])
    + (if p.timeToFullSec != 0 then [VarintField(6, ToUint64(p.timeToFullSec))] else [])
    + (if p.batteryPresent then
         [Fixed64Field(7, ToBytes(p.percent, 8)), VarintField(12, if p.isCalcBatteryTime then 1 else 0)]
       else [])
    + [VarintField(14, p.externalPower), VarintField(15, p.state)]
  }

  lemma TaggedField(fs: seq<Field>, num: nat, v: nat)
    requires 1 <= num <= 15
    ensures Serialize(fs) + [Tag(num, 0)] + Encode(v) == Serialize(fs + [VarintField(num, v)])
  {
    ShortTag(num, 0);
    AppendsVarint(fs, num, v);
  }

  lemma WordField(fs: seq<Field>, bits: Bytes)
    requires |bits| == 8
    ensures Serialize(fs) + [0x39] + bits == Serialize(fs + [Fixed64Field(7, bits)])
  {
    ShortTag(7, 1);
    SerializeSnoc(fs, Fixed64Field(7, bits));
    hide Serialize;
    assert Serialize(fs) + [0x39] + bits == Serialize(fs) + ([0x39] + bits);
  }

  /** `encodePowerSupplyProps` */
  method EncodePowerSupplyProps(p: PowerSupplyProps) returns (buf: Bytes)
    ensures buf == Serialize(PropsFields(p))
  {
    hide Serialize, Encode, ToBytes;
    buf := [];
    ghost var fs: seq<Field> := [];
    SerializeNone();
    if p.timeToEmptySec != 0 {
      TaggedField(fs, 5, ToUint64(p.timeToEmptySec));
      fs := fs + [VarintField(5, ToUint64(p.timeToEmptySec))];
      buf := AppendTagged(buf, 0x28, ToUint64(p.timeToEmptySec));
    }
    if p.timeToFullSec != 0 {
      TaggedField(fs, 6, ToUint64(p.timeToFullSec));
      fs := fs + [VarintField(6, ToUint64(p.timeToFullSec))];
      buf := AppendTagged(buf, 0x30, ToUint64(p.timeToFullSec));
    }
    if p.batteryPresent {
      WordField(fs, ToBytes(p.percent, 8));
      fs := fs + [Fixed64Field(7, ToBytes(p.percent, 8))];
      buf := buf + [0x39];
      buf := buf + ToBytes(p.percent, 8);
    }
    if p.batteryPresent {
      var flag := if p.isCalcBatteryTime then 1 else 0;
      TaggedField(fs, 12, flag);
      fs := fs + [VarintField(12, flag)];
      buf := AppendTagged(buf, 0x60, flag);
    }
    TaggedField(fs, 14, p.externalPower);
    fs := fs + [VarintField(14, p.externalPower)];
    buf := AppendTagged(buf, 0x70, p.externalPower);
    TaggedField(fs, 15, p.state);
    fs := fs + [VarintField(15, p.state)];
    buf := AppendTagged(buf, 0x78, p.state);
    assert fs == PropsFields(p);
  }

  /** The varint entries of the property message, one optional group after the other. */
  function PropsValues(p: PowerSupplyProps): map<nat, nat>
  {
    (if p.timeToEmptySec != 0 then map[5 := ToUint64(p.timeToEmptySec)] else map[])
    + (if p.timeToFullSec != 0 then map[6 := ToUint64(p.timeToFullSec)] else map[])
    + (if p.batteryPresent then map[12 := if p.isCalcBatteryTime then 1 else 0] else map[])
    + map[14 := p.externalPower, 15 := p.state]
  }

  lemma MapsAssociate<T>(a: map<nat, T>, b: map<nat, T>, c: map<nat, T>)
    ensures a + (b + c) == (a + b) + c
  {
  }

  lemma {:induction false} UintsAppend(a: seq<Field>, b: seq<Field>)
    ensures UintsOf(a + b) == UintsOf(a) + UintsOf(b)
    decreases |a|
  {
    hide EntryMap, UintEntry;
    if a == [] {
      assert a + b == b;
      assert map[] + UintsOf(b) == UintsOf(b);
    } else {
      assert (a + b)[1..] == a[1..] + b;
      UintsAppend(a[1..], b);
      MapsAssociate(EntryMap(UintEntry(a[0])), UintsOf(a[1..]), UintsOf(b));
    }
  }

  lemma UintsOne(present: bool, num: nat, v: nat)
    ensures UintsOf(if present then [VarintField(num, v)] else []) == if present then map[num := v] else map[]
  {
  }

  lemma UintsBattery(present: bool, word: Field, v: nat)
    requires word.Fixed64Field?
    ensures UintsOf(if present then [word, VarintField(12, v)] else []) == if present then map[12 := v] else map[]
  {
    if present {
      UintsOne(true, 12, v);
      assert [word, VarintField(12, v)][1..] == [VarintField(12, v)];
      assert map[] + map[12 := v] == map[12 := v];
    }
  }

  lemma UintsLast(v: nat, w: nat)
    ensures UintsOf([VarintField(14, v), VarintField(15, w)]) == map[14 := v, 15 := w]
  {
    UintsOne(true, 15, w);
    assert [VarintField(14, v), VarintField(15, w)][1..] == [VarintField(15, w)];
    assert map[14 := v] + map[15 := w] == map[14 := v, 15 := w];
  }

  lemma PropsDecoded(p: PowerSupplyProps)
    ensures UintsOf(PropsFields(p)) == PropsValues(p)
  {
    hide UintsOf, ToBytes;
    var tte, ttf := ToUint64(p.timeToEmptySec), ToUint64(p.timeToFullSec);
    var word, flag := Fixed64Field(7, ToBytes(p.percent, 8)), if p.isCalcBatteryTime then 1 else 0;
    var a := if p.timeToEmptySec != 0 then [VarintField(5, tte)] else [];
    var b := if p.timeToFullSec != 0 then [VarintField(6, ttf)] else [];
    var c := if p.batteryPresent then [word, VarintField(12, flag)] else [];
    var d := [VarintField(14, p.externalPower), VarintField(15, p.state)];
    UintsOne(p.timeToEmptySec != 0, 5, tte);
    UintsOne(p.timeToFullSec != 0, 6, ttf);
    UintsBattery(p.batteryPresent, word, flag);
    UintsLast(p.externalPower, p.state);
    UintsAppend(a, b);
    UintsAppend(a + b, c);
    UintsAppend(a + b + c, d);
    assert PropsFields(p) == a + b + c + d;
  }

  lemma {:induction false} SerializeLength(fs: seq<Field>, most: nat)
    requires forall i :: 0 <= i < |fs| ==> |SerializeField(fs[i])| <= most
    ensures |Serialize(fs)| <= |fs| * most
    decreases |fs|
  {
    hide SerializeField;
    if fs != [] {
      SerializeLength(fs[1..], most);
      assert |fs| * most == most + (|fs| - 1) * most;
    }
  }

  lemma ShortFieldLength(f: Field)
    requires 1 <= f.num <= 15 && ValidField(f) && (f.VarintField? || f.Fixed64Field?)
    ensures |SerializeField(f)| <= 11
  {
    ShortTag(f.num, 0);
    ShortTag(f.num, 1);
    if f.VarintField? {
      RoundTrip(f.value, []);
    }
  }

  lemma PropsValid(p: PowerSupplyProps)
    ensures ValidFields(PropsFields(p)) && |Serialize(PropsFields(p))| < TWO_63
  {
    var fs := PropsFields(p);
    forall i | 0 <= i < |fs|
      ensures 1 <= fs[i].num <= 15 && ValidField(fs[i]) && (fs[i].VarintField? || fs[i].Fixed64Field?)
    {
    }
    forall i | 0 <= i < |fs|
      ensures |SerializeField(fs[i])| <= 11
    {
      ShortFieldLength(fs[i]);
    }
    SerializeLength(fs, 11);
    assert |fs| <= 6;
  }

  /** What a reader of the power properties of a battery should find among the varints. */
  ghost predicate Reports(m: map<nat, nat>, b: BatteryState)
  {
    && m.Keys <= {5, 6, 12, 14, 15}
    && (if 5 in m then ToInt(m[5]) else 0) == b.timeToEmpty
    && (if 6 in m then ToInt(m[6]) else 0) == b.timeToFull
    && 14 in m && m[14] == (if b.state == 2 then 2 else 0)
    && 15 in m && m[15] == b.state
    && (12 in m <==> b.state != 3)
    && (12 in m ==> m[12] == if TimeUnknown(b) then 1 else 0)
  }

  /** Charging or discharging, and the time until that is done is not positive. */
  predicate TimeUnknown(b: BatteryState)
  {
    (b.state == 1 && b.timeToFull <= 0) || (b.state == 2 && b.timeToEmpty <= 0)
  }

  /** The 64-bit fields of a message, a later one overriding an earlier one. */
  function WordsOf(fs: seq<Field>): map<nat, Bytes>
  {
    if fs == [] then map[]
    else (if fs[0].Fixed64Field? then map[fs[0].num := fs[0].bits] else map[]) + WordsOf(fs[1..])
  }

  /** And among the 64-bit fields: the percentage, lowest byte first, exactly when there is a battery. */
  ghost predicate ReportsPercent(m: map<nat, Bytes>, b: BatteryState)
  {
    && m.Keys == (if b.state == 3 then {} else {7})
    && (7 in m ==> |m[7]| == 8 && forall i :: 0 <= i < 8 ==> m[7][i] == b.percent / Pow256(i) % 256)
  }

  lemma NoWord(present: bool, num: nat, v: nat, fs: seq<Field>)
    ensures WordsOf((if present then [VarintField(num, v)] else []) + fs) == WordsOf(fs)
  {
    if present {
      assert ([VarintField(num, v)] + fs)[1..] == fs;
      assert map[] + WordsOf(fs) == WordsOf(fs);
    } else {
      assert [] + fs == fs;
    }
  }

  lemma WordsBattery(present: bool, bits: Bytes, flag: nat, fs: seq<Field>)
    requires WordsOf(fs) == map[]
    ensures WordsOf((if present then [Fixed64Field(7, bits), VarintField(12, flag)] else []) + fs)
            == if present then map[7 := bits] else map[]
  {
    if present {
      NoWord(true, 12, flag, fs);
      var all := [Fixed64Field(7, bits), VarintField(12, flag)] + fs;
      assert all[1..] == [VarintField(12, flag)] + fs;
      assert map[7 := bits] + map[] == map[7 := bits];
    } else {
      assert [] + fs == fs;
    }
  }

  lemma WordsDecoded(p: PowerSupplyProps)
    ensures WordsOf(PropsFields(p)) == if p.batteryPresent then map[7 := ToBytes(p.percent, 8)] else map[]
  {
    hide ToBytes;
    assert WordsOf([]) == map[];
    hide WordsOf;
    var tte, ttf := ToUint64(p.timeToEmptySec), ToUint64(p.timeToFullSec);
    var bits, flag := ToBytes(p.percent, 8), if p.isCalcBatteryTime then 1 else 0;
    var last := [VarintField(14, p.externalPower)] + ([VarintField(15, p.state)] + []);
    NoWord(true, 15, p.state, []);
    NoWord(true, 14, p.externalPower, [VarintField(15, p.state)] + []);
    WordsBattery(p.batteryPresent, bits, flag, last);
    var battery := (if p.batteryPresent then [Fixed64Field(7, bits), VarintField(12, flag)] else []) + last;
    NoWord(p.timeToFullSec != 0, 6, ttf, battery);
    var full := (if p.timeToFullSec != 0 then [VarintField(6, ttf)] else []) + battery;
    NoWord(p.timeToEmptySec != 0, 5, tte, full);
    assert PropsFields(p) == (if p.timeToEmptySec != 0 then [VarintField(5, tte)] else []) + full;
  }

  lemma PercentReported(b: BatteryState)
    ensures ReportsPercent(WordsOf(PropsFields(PropsFromBattery(b))), b)
  {
    WordsDecoded(PropsFromBattery(b));
    hide WordsOf, PropsFields, ToBytes;
    forall i | 0 <= i < 8
      ensures ToBytes(b.percent, 8)[i] == b.percent / Pow256(i) % 256
    {
      BytesAt(b.percent, 8, i);
    }
  }

  lemma ValuesReport(b: BatteryState)
    ensures Reports(PropsValues(PropsFromBattery(b)), b)
  {
  }

  /**
    Decoding the encoded properties recovers both times in two's complement, with absence standing for 0, the
    state, whether external power is there, and a flag and the percentage that are present exactly with a battery.
   */
  lemma PowerPropertiesRoundTrip(b: BatteryState)
    ensures var message := Serialize(PropsFields(PropsFromBattery(b)));
            var r, read := UintLoop.Behaviour(message), ReadFields(message);
            && r.Finds? && Reports(r.fields, b)
            && read.Some? && ReportsPercent(WordsOf(read.value), b)
  {
    hide *;
    var p := PropsFromBattery(b);
    PropsValid(p);
    UintLoop.MessageFound(PropsFields(p));
    PropsDecoded(p);
    ValuesReport(b);
    ReadSerialized(PropsFields(p));
    PercentReported(b);
  }

  /** A brightness change is two fields: the clamped value, lowest byte first, and the cause. */
  lemma BrightnessChangeReads(percent: Float64, cause: Uint64)
    ensures ReadFields(EncodeBacklightBrightnessChange(percent, cause))
            == Some([Fixed64Field(1, ToBytes(ClampPercent(percent), 8)), VarintField(2, cause)])
  {
    hide ReadFields, ClampPercent, ToBytes, SerializeField, Encode;
    var fs := [Fixed64Field(1, ToBytes(ClampPercent(percent), 8)), VarintField(2, cause)];
    ReadSerialized(fs);
    ChangeFields(ToBytes(ClampPercent(percent), 8), cause);
  }

  lemma ChangeFields(bits: Bytes, cause: nat)
    ensures Serialize([Fixed64Field(1, bits), VarintField(2, cause)]) == [0x09] + bits + ([0x10] + Encode(cause))
  {
    ShortTag(1, 1);
    ShortTag(2, 0);
    hide Encode;
    assert [Fixed64Field(1, bits), VarintField(2, cause)][1..] == [VarintField(2, cause)];
    assert [VarintField(2, cause)][1..] == [];
    assert Serialize([VarintField(2, cause)]) == [0x10] + Encode(cause) + [];
  }
}
