/**
  Base-128 varints of 64-bit values: the encoders and the two readers of the bridges.
  Values are naturals below 2^64; `v & 0x7f`, `v >> 7`, `b | 0x80` and the `|=` of disjoint bits are
  written as `%`, `/` and `+`.
 */
module Varint {
  import opened Sequences

  type byte = b: int | 0 <= b < 0x100

  type Bytes = seq<byte>

  const TWO_63: nat := 0x8000_0000_0000_0000
  const TWO_64: nat := 0x1_0000_0000_0000_0000

  /** 128^k */
  function Pow128(k: nat): (p: nat)
    ensures p >= 1
  {
    if k == 0 then 1 else 128 * Pow128(k - 1)
  }

  // ----- Encoding -----

  function Encode(v: nat): (b: Bytes)
    ensures |b| >= 1
    ensures b[|b| - 1] < 128
    ensures forall i :: 0 <= i < |b| - 1 ==> b[i] >= 128
  {
    if v < 128 then [v] else [v % 128 + 128] + Encode(v / 128)
  }

  /** `appendVarint` of the Crostini bridge. */
  method AppendVarint(b: Bytes, v: nat) returns (r: Bytes)
    ensures r == b + Encode(v)
  {
    r := b;
    var w := v;
    while w >= 0x80
      invariant r + Encode(w) == b + Encode(v)
    {
      assert r + ([w % 128 + 128] + Encode(w / 128)) == r + [w % 128 + 128] + Encode(w / 128);
      r := r + [w % 128 + 128];
      w := w / 128;
    }
    r := r + [w];
  }

  // ----- Decoding -----

  /** `uint64(b & 0x7f) << (7 * k)` */
  function Shifted(b: byte, k: nat): nat
  {
    b % 128 * Pow128(k) % TWO_64
  }

  /**
    The loop of `decodeVarint` from the byte with index `k` on, `x` being the value so far.
    The tenth byte is shifted by 63, so all its payload bits but the lowest fall off.
   */
  function DecodeFrom(b: Bytes, k: nat, x: nat): (r: (nat, nat))
    decreases 10 - k
  {
    if k < 10 && k < |b| then
      var y := x + Shifted(b[k], k);
      if b[k] < 128 then (y, k + 1) else DecodeFrom(b, k + 1, y)
    else (0, 0)
  }

  /** Value and length; length 0 stands for no varint. */
  function Decode(b: Bytes): (r: (nat, nat))
    ensures r.1 <= |b| && r.1 <= 10
  {
    DecodeLength(b, 0, 0);
    DecodeFrom(b, 0, 0)
  }

  lemma {:induction false} DecodeLength(b: Bytes, k: nat, x: nat)
    requires k <= 10
    ensures var n := DecodeFrom(b, k, x).1; n == 0 || (k < n <= |b| && n <= 10)
    decreases 10 - k
  {
    if k < 10 && k < |b| && b[k] >= 128 {
      DecodeLength(b, k + 1, x + Shifted(b[k], k));
    }
  }

  /** `decodeVarint` */
  method DecodeVarint(b: Bytes) returns (x: nat, n: nat)
    ensures (x, n) == Decode(b)
  {
    x := 0;
    var s := 0;
    while s < 64 && |b| > s / 7
      invariant s % 7 == 0 && s / 7 <= 10
      invariant DecodeFrom(b, s / 7, x) == Decode(b)
      decreases 70 - s
    {
      var byt := b[s / 7];
      x := x + Shifted(byt, s / 7);
      if byt < 0x80 {
        return x, s / 7 + 1;
      }
      assert (s + 7) / 7 == s / 7 + 1;
      s := s + 7;
    }
    return 0, 0;
  }

  // ----- What the decoder means -----

  /** The number a group of bytes stands for: seven bits each, lowest first. */
  function GroupValue(b: Bytes): nat
  {
    if b == [] then 0 else b[0] % 128 + 128 * GroupValue(b[1..])
  }

  /** A varint at the start of `b`: at most ten bytes, all but the last with the top bit set. */
  predicate IsVarint(b: Bytes, n: nat)
  {
    && 1 <= n <= |b| && n <= 10
    && b[n - 1] < 128
    && forall i :: 0 <= i < n - 1 ==> b[i] >= 128
  }

  lemma {:induction false} DecodeFromLength(b: Bytes, k: nat, x: nat)
    requires k <= 10 && forall i :: 0 <= i < k && i < |b| ==> b[i] >= 128
    ensures var n := DecodeFrom(b, k, x).1;
            && (n > 0 ==> IsVarint(b, n))
            && (n == 0 ==> forall m :: !IsVarint(b, m))
    decreases 10 - k
  {
    if k < 10 && k < |b| && b[k] >= 128 {
      DecodeFromLength(b, k + 1, x + Shifted(b[k], k));
    }
  }

  lemma PowBound(k: nat)
    requires k <= 9
    ensures Pow128(k) * 128 <= TWO_64 || k == 9
    ensures k == 9 ==> Pow128(k) == TWO_63
  {
  }

  lemma PowStep(k: nat)
    ensures Pow128(k + 1) == 128 * Pow128(k)
  {
  }

  lemma LowDigit(x: nat, d: nat, p: nat)
    requires x < p && d < 128 && 128 * p <= TWO_64
    ensures d * p % TWO_64 == d * p && (x + d * p) % TWO_64 == x + d * p < 128 * p
  {
    Times(d, p);
    var y := d * p;
    assert y + p <= 128 * p;
    Small(y);
    Small(x + y);
  }

  lemma Times(d: nat, p: nat)
    requires d < 128
    ensures 0 <= d * p <= 127 * p
  {
  }

  lemma Small(y: nat)
    requires y < TWO_64
    ensures y % TWO_64 == y
  {
  }

  /** The tenth byte: shifted by 63 bits, it keeps its lowest bit. */
  lemma TopDigit(x: nat, d: nat)
    requires x < TWO_63 && d < 128
    ensures x + d * TWO_63 % TWO_64 == (x + d * TWO_63) % TWO_64
  {
  }

  lemma {:induction false} LastDigit(x: nat, d: nat, k: nat)
    requires k <= 9 && d < 128 && x < Pow128(k)
    ensures x + d * Pow128(k) % TWO_64 == (x + d * Pow128(k)) % TWO_64
  {
    PowBound(k);
    hide Pow128;
    if k < 9 {
      LowDigit(x, d, Pow128(k));
    } else {
      TopDigit(x, d);
    }
  }

  lemma GroupStep(b: Bytes, k: nat, n: nat)
    requires k < n <= |b|
    ensures GroupValue(b[k..n]) == b[k] % 128 + 128 * GroupValue(b[k + 1..n])
  {
  }

  /** The 64-bit value once `x` has been read and the group `g` follows at byte `k`. */
  function Weighted(x: nat, g: nat, k: nat): nat
  {
    (x + g * Pow128(k)) % TWO_64
  }

  /** The value is the group value modulo 2^64: bits above the 64th are dropped. */
  lemma DecodeFromStep(b: Bytes, k: nat, x: nat)
    requires k <= 9 && DecodeFrom(b, k, x).1 > 0
    ensures k < |b|
    ensures var y := x + b[k] % 128 * Pow128(k) % TWO_64;
            DecodeFrom(b, k, x) == if b[k] < 128 then (y, k + 1) else DecodeFrom(b, k + 1, y)
    ensures k == 9 ==> b[k] < 128
  {
  }

  lemma {:induction false} DecodeFromValue(b: Bytes, k: nat, x: nat)
    requires k <= 9 && x < Pow128(k)
    requires DecodeFrom(b, k, x).1 > 0
    ensures var (v, n) := DecodeFrom(b, k, x);
            k < n <= |b| && v == Weighted(x, GroupValue(b[k..n]), k)
    decreases 9 - k
  {
    hide Pow128, GroupValue, Weighted, DecodeFrom;
    var (v, n) := DecodeFrom(b, k, x);
    DecodeFromStep(b, k, x);
    DecodeLength(b, k, x);
    var d, p := b[k] % 128, Pow128(k);
    var g := GroupValue(b[k + 1..n]);
    GroupStep(b, k, n);
    if b[k] < 128 {
      assert b[k + 1..n] == [];
      LastWeight(x, d, k);
    } else if k < 9 {
      PowBound(k);
      PowStep(k);
      LowDigit(x, d, p);
      DecodeFromValue(b, k + 1, x + d * p);
      NextWeight(x, d, g, k);
    }
  }

  lemma {:induction false} LastWeight(x: nat, d: nat, k: nat)
    requires k <= 9 && d < 128 && x < Pow128(k)
    ensures x + d * Pow128(k) % TWO_64 == Weighted(x, d + 128 * GroupValue([]), k)
  {
    LastDigit(x, d, k);
  }

  lemma NextWeight(x: nat, d: nat, g: nat, k: nat)
    ensures Weighted(x + d * Pow128(k), g, k + 1) == Weighted(x, d + 128 * g, k)
  {
    var p := Pow128(k);
    assert (x + d * p) + g * (128 * p) == x + (d + 128 * g) * p;
  }

  /** The decoder finds a varint exactly when there is one, with its length and its value. */
  lemma DecodeMeans(b: Bytes)
    ensures var (v, n) := Decode(b);
            && (n > 0 <==> exists m :: IsVarint(b, m))
            && (n > 0 ==> IsVarint(b, n))
            && (n > 0 ==> v == GroupValue(b[..n]) % 0x1_0000_0000_0000_0000)
            && (n == 0 ==> v == 0)
            && v < TWO_64
  {
    DecodeFromLength(b, 0, 0);
    if Decode(b).1 > 0 {
      DecodeFromValue(b, 0, 0);
      assert b[0..Decode(b).1] == b[..Decode(b).1];
    } else {
      DecodeNothing(b, 0, 0);
    }
  }

  lemma {:induction false} DecodeNothing(b: Bytes, k: nat, x: nat)
    requires k <= 10 && DecodeFrom(b, k, x).1 == 0
    ensures DecodeFrom(b, k, x).0 == 0
    decreases 10 - k
  {
    if k < 10 && k < |b| && b[k] >= 128 {
      DecodeNothing(b, k + 1, x + Shifted(b[k], k));
    }
  }

  // ----- Round trip -----

  lemma {:induction false} EncodedGroup(v: nat)
    ensures GroupValue(Encode(v)) == v
  {
    if v >= 128 {
      EncodedGroup(v / 128);
      assert Encode(v)[1..] == Encode(v / 128);
    }
  }

  lemma {:induction false} EncodedLength(v: nat, k: nat)
    requires v < Pow128(k) && k >= 1
    ensures |Encode(v)| <= k
    decreases k
  {
    if v >= 128 {
      assert v / 128 < Pow128(k - 1);
      EncodedLength(v / 128, k - 1);
    }
  }

  lemma EncodedShort(v: nat)
    requires v < TWO_64
    ensures |Encode(v)| <= 10
  {
    PowBound(9);
    assert Pow128(10) == 128 * Pow128(9);
    EncodedLength(v, 10);
  }

  lemma VarintUnique(b: Bytes, m: nat, n: nat)
    requires IsVarint(b, m) && IsVarint(b, n)
    ensures m == n
  {
  }

  /** Every 64-bit value takes 1 to 10 bytes and decodes to itself whatever bytes follow. */
  lemma {:induction false} RoundTrip(v: nat, rest: Bytes)
    requires v < TWO_64
    ensures 1 <= |Encode(v)| <= 10
    ensures Decode(Encode(v) + rest) == (v, |Encode(v)|)
  {
    hide Encode, Decode;
    var e := Encode(v);
    var b := e + rest;
    EncodedShort(v);
    assert IsVarint(b, |e|);
    DecodeMeans(b);
    VarintUnique(b, |e|, Decode(b).1);
    assert b[..|e|] == e;
    EncodedGroup(v);
  }

  lemma {:induction false} GroupBound(b: Bytes)
    ensures GroupValue(b) < Pow128(|b|)
  {
    if b != [] {
      GroupBound(b[1..]);
    }
  }

  lemma {:induction false} EncodedLarge(v: nat)
    ensures |Encode(v)| > 1 ==> v >= Pow128(|Encode(v)| - 1)
  {
    if v >= 128 {
      EncodedLarge(v / 128);
      assert |Encode(v)| == 1 + |Encode(v / 128)|;
      assert Pow128(1) == 128;
    }
  }

  lemma {:induction false} PowMonotone(j: nat, k: nat)
    requires j <= k
    ensures Pow128(j) <= Pow128(k)
    decreases k
  {
    if j < k {
      PowMonotone(j, k - 1);
    }
  }

  /** The encoder writes the shortest varint of a value. */
  lemma EncodeShortest(b: Bytes, n: nat)
    requires IsVarint(b, n)
    ensures |Encode(GroupValue(b[..n]))| <= n
  {
    var v := GroupValue(b[..n]);
    GroupBound(b[..n]);
    EncodedLarge(v);
    hide Encode, GroupValue;
    if |Encode(v)| > n {
      PowMonotone(n, |Encode(v)| - 1);
    }
  }

  // ----- The reader of the power bridge -----

  /** The loop of `readProtoVarint` at index `i`, after `i - off` bytes. */
  function ReadFrom(buf: Bytes, off: nat, i: nat, v: nat): (r: Option<(nat, nat)>)
    requires off <= i
    decreases off + 10 - i, 1
  {
    if i >= |buf| then None
    else
      var w := v + Shifted(buf[i], i - off);
      if buf[i] < 128 then Some((w, i + 1))
      else if 7 * (i + 1 - off) >= 64 then None
      else ReadFrom(buf, off, i + 1, w)
  }

  /** `readProtoVarint`: value and next offset, or failure. */
  method ReadProtoVarint(buf: Bytes, off: nat) returns (r: Option<(nat, nat)>)
    ensures r == ReadFrom(buf, off, off, 0)
  {
    var v: nat, shift := 0, 0;
    var i := off;
    while i < |buf|
      invariant off <= i && shift == 7 * (i - off) < 64
      invariant ReadFrom(buf, off, i, v) == ReadFrom(buf, off, off, 0)
      decreases |buf| - i
    {
      var b := buf[i];
      v := v + Shifted(b, shift / 7);
      if b < 0x80 {
        return Some((v, i + 1));
      }
      shift := shift + 7;
      if shift >= 64 {
        return None;
      }
      i := i + 1;
    }
    return None;
  }

  lemma {:induction false} ReadersAgreeFrom(buf: Bytes, off: nat, i: nat, v: nat)
    requires off <= i <= off + 9 && off <= |buf|
    ensures var (x, n) := DecodeFrom(buf[off..], i - off, v);
            ReadFrom(buf, off, i, v) == if n == 0 then None else Some((x, off + n))
    decreases off + 9 - i
  {
    hide Shifted;
    if i < |buf| {
      assert buf[off..][i - off] == buf[i];
      if buf[i] >= 128 && i < off + 9 {
        ReadersAgreeFrom(buf, off, i + 1, v + Shifted(buf[i], i - off));
      }
    }
  }

  /** On every buffer and offset the two readers succeed together, with one value and one next offset. */
  lemma ReadersAgree(buf: Bytes, off: nat)
    requires off <= |buf|
    ensures var (x, n) := Decode(buf[off..]);
            ReadFrom(buf, off, off, 0) == if n == 0 then None else Some((x, off + n))
  {
    ReadersAgreeFrom(buf, off, off, 0);
  }
}
