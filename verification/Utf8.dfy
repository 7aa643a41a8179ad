/** UTF-8 validity, as `utf8.ValidString` of Go decides it (section 4 of RFC 3629). */
module Utf8 {
  import opened Varint

  predicate Continuation(b: byte)
  {
    0x80 <= b <= 0xbf
  }

  /** The second byte of a character may be narrower, to keep out overlong forms and surrogates. */
  predicate SecondByte(first: byte, second: byte)
  {
    && Continuation(second)
    && (first == 0xe0 ==> second >= 0xa0)
    && (first == 0xed ==> second <= 0x9f)
    && (first == 0xf0 ==> second >= 0x90)
    && (first == 0xf4 ==> second <= 0x8f)
  }

  /** The length that the first byte of a character announces; 0 when no character starts so. */
  function Announced(first: byte): nat
  {
    if first < 0x80 then 1
    else if 0xc2 <= first <= 0xdf then 2
    else if 0xe0 <= first <= 0xef then 3
    else if 0xf0 <= first <= 0xf4 then 4
    else 0
  }

  /** The length of the character at the start of `s`, or 0 when there is none. */
  function RuneLength(s: Bytes): (n: nat)
    requires s != []
    ensures n <= |s| && n <= 4
    ensures n == 0 || n == Announced(s[0])
    ensures forall i :: 1 <= i < n ==> Continuation(s[i])
  {
    var n := Announced(s[0]);
    if n <= |s| && (n >= 2 ==> SecondByte(s[0], s[1])) && (n >= 3 ==> Continuation(s[2]))
       && (n >= 4 ==> Continuation(s[3])) then n
    else 0
  }

  predicate ValidString(s: Bytes)
  {
    s == [] || (RuneLength(s) > 0 && ValidString(s[RuneLength(s)..]))
  }

  /** Behind a valid string, only the rest matters. */
  lemma {:induction false} ValidAppend(a: Bytes, b: Bytes)
    requires ValidString(a)
    ensures ValidString(a + b) <==> ValidString(b)
    decreases |a|
  {
    if a == [] {
      assert a + b == b;
    } else {
      var n := RuneLength(a);
      assert forall i :: 0 <= i < |a| ==> (a + b)[i] == a[i];
      assert RuneLength(a + b) == n;
      assert (a + b)[n..] == a[n..] + b;
      ValidAppend(a[n..], b);
    }
  }

  /** A valid string may be cut behind any ASCII byte. */
  lemma {:induction false} ValidPrefix(a: Bytes, b: Bytes)
    requires ValidString(a + b)
    requires a != [] ==> a[|a| - 1] < 0x80
    ensures ValidString(a)
    decreases |a|
  {
    if a != [] {
      var s := a + b;
      var n := RuneLength(s);
      assert forall i :: 0 <= i < |a| ==> s[i] == a[i];
      assert s[|a| - 1] == a[|a| - 1];
      assert n <= |a|;
      assert RuneLength(a) == n;
      assert s[n..] == a[n..] + b;
      ValidPrefix(a[n..], b);
    }
  }

  lemma OneCharacter(b: byte)
    ensures ValidString([b]) <==> b < 0x80
  {
  }

  lemma {:induction false} AsciiValid(s: Bytes)
    requires forall i :: 0 <= i < |s| ==> s[i] < 0x80
    ensures ValidString(s)
    decreases |s|
  {
    if s != [] {
      AsciiValid(s[1..]);
    }
  }

  // ----- Validity is being an encoding -----

  /** Unicode scalar values: code points that are no surrogates. */
  predicate Scalar(c: nat)
  {
    c < 0x11_0000 && !(0xd800 <= c < 0xe000)
  }

  /** The encoding of a scalar value (section 3 of RFC 3629). */
  function EncodeRune(c: nat): (b: Bytes)
    requires Scalar(c)
    ensures |b| >= 1
  {
    if c < 0x80 then [c]
    else if c < 0x800 then [0xc0 + c / 0x40, 0x80 + c % 0x40]
    else if c < 0x1_0000 then [0xe0 + c / 0x1000, 0x80 + c / 0x40 % 0x40, 0x80 + c % 0x40]
    else [0xf0 + c / 0x4_0000, 0x80 + c / 0x1000 % 0x40, 0x80 + c / 0x40 % 0x40, 0x80 + c % 0x40]
  }

  function EncodeRunes(cs: seq<nat>): Bytes
    requires forall i :: 0 <= i < |cs| ==> Scalar(cs[i])
  {
    if cs == [] then [] else EncodeRune(cs[0]) + EncodeRunes(cs[1..])
  }

  /** The six bits a continuation byte carries. */
  function Bits(b: byte): nat
  {
    b % 0x40
  }

  /** The character at the start of a string. */
  function RuneValue(s: Bytes): nat
    requires s != [] && RuneLength(s) > 0
  {
    var first: int := s[0];
    match RuneLength(s)
    case 1 => first
    case 2 => (first - 0xc0) * 0x40 + Bits(s[1])
    case 3 => (first - 0xe0) * 0x1000 + Bits(s[1]) * 0x40 + Bits(s[2])
    case _ => (first - 0xf0) * 0x4_0000 + Bits(s[1]) * 0x1000 + Bits(s[2]) * 0x40 + Bits(s[3])
  }

  lemma ThreeDigits(a: nat, b: nat, c: nat)
    requires b < 0x40 && c < 0x40
    ensures var v := a * 0x1000 + b * 0x40 + c;
            v / 0x1000 == a && v / 0x40 % 0x40 == b && v % 0x40 == c
  {
    var v := a * 0x1000 + b * 0x40 + c;
    assert v == (a * 0x40 + b) * 0x40 + c;
    assert v / 0x40 == a * 0x40 + b;
  }

  lemma FourDigits(a: nat, b: nat, c: nat, d: nat)
    requires b < 0x40 && c < 0x40 && d < 0x40
    ensures var v := a * 0x4_0000 + b * 0x1000 + c * 0x40 + d;
            v / 0x4_0000 == a && v / 0x1000 % 0x40 == b && v / 0x40 % 0x40 == c && v % 0x40 == d
  {
    ThreeDigits(a * 0x40 + b, c, d);
    var v := a * 0x4_0000 + b * 0x1000 + c * 0x40 + d;
    assert v / 0x1000 == a * 0x40 + b;
    assert v / 0x4_0000 == v / 0x1000 / 0x40;
  }

  lemma TwoDecode(a: nat, b: byte)
    requires 2 <= a < 0x20 && Continuation(b)
    ensures var v := a * 0x40 + Bits(b); Scalar(v) && EncodeRune(v) == [0xc0 + a, b]
  {
  }

  lemma ThreeDecode(a: nat, b: byte, c: byte)
    requires a < 0x10 && SecondByte(0xe0 + a, b) && Continuation(c)
    ensures var v := a * 0x1000 + Bits(b) * 0x40 + Bits(c);
            Scalar(v) && EncodeRune(v) == [0xe0 + a, b, c]
  {
    ThreeDigits(a, Bits(b), Bits(c));
  }

  lemma FourDecode(a: nat, b: byte, c: byte, d: byte)
    requires a <= 4 && SecondByte(0xf0 + a, b) && Continuation(c) && Continuation(d)
    ensures var v := a * 0x4_0000 + Bits(b) * 0x1000 + Bits(c) * 0x40 + Bits(d);
            Scalar(v) && EncodeRune(v) == [0xf0 + a, b, c, d]
  {
    FourDigits(a, Bits(b), Bits(c), Bits(d));
  }

  lemma RuneDecodes(s: Bytes)
    requires s != [] && RuneLength(s) > 0
    ensures Scalar(RuneValue(s)) && EncodeRune(RuneValue(s)) == s[..RuneLength(s)]
  {
    hide EncodeRune, Scalar, Continuation, SecondByte, Bits;
    var n, first: int := RuneLength(s), s[0];
    if n == 1 {
      OneDecode(s[0]);
    } else if n == 2 {
      TwoDecode(first - 0xc0, s[1]);
    } else if n == 3 {
      ThreeDecode(first - 0xe0, s[1], s[2]);
    } else {
      FourDecode(first - 0xf0, s[1], s[2], s[3]);
    }
  }

  lemma OneDecode(a: byte)
    requires a < 0x80
    ensures Scalar(a) && EncodeRune(a) == [a]
  {
  }

  lemma RuneEncodes(c: nat, rest: Bytes)
    requires Scalar(c)
    ensures RuneLength(EncodeRune(c) + rest) == |EncodeRune(c)|
  {
    var s := EncodeRune(c) + rest;
    assert forall i :: 0 <= i < |EncodeRune(c)| ==> s[i] == EncodeRune(c)[i];
  }

  lemma {:induction false} EncodedValid(cs: seq<nat>)
    requires forall i :: 0 <= i < |cs| ==> Scalar(cs[i])
    ensures ValidString(EncodeRunes(cs))
    decreases |cs|
  {
    hide EncodeRune, RuneLength, Scalar;
    if cs != [] {
      var rest := EncodeRunes(cs[1..]);
      RuneEncodes(cs[0], rest);
      EncodedValid(cs[1..]);
      assert (EncodeRune(cs[0]) + rest)[|EncodeRune(cs[0])|..] == rest;
    }
  }

  lemma {:induction false} DecodeValid(s: Bytes) returns (cs: seq<nat>)
    requires ValidString(s)
    ensures (forall i :: 0 <= i < |cs| ==> Scalar(cs[i])) && EncodeRunes(cs) == s
    decreases |s|
  {
    hide EncodeRune, RuneLength, Scalar, RuneValue;
    if s == [] {
      cs := [];
    } else {
      var n := RuneLength(s);
      RuneDecodes(s);
      var rest := DecodeValid(s[n..]);
      cs := [RuneValue(s)] + rest;
      assert cs[1..] == rest && s[..n] + s[n..] == s;
    }
  }

  ghost predicate IsEncoding(s: Bytes)
  {
    exists cs: seq<nat> :: (forall i :: 0 <= i < |cs| ==> Scalar(cs[i])) && EncodeRunes(cs) == s
  }

  /** A string is valid exactly when it is the encoding of some scalar values. */
  lemma ValidExactly(s: Bytes)
    ensures ValidString(s) <==> IsEncoding(s)
  {
    if ValidString(s) {
      var cs := DecodeValid(s);
    }
    if IsEncoding(s) {
      var cs: seq<nat> :| (forall i :: 0 <= i < |cs| ==> Scalar(cs[i])) && EncodeRunes(cs) == s;
      EncodedValid(cs);
    }
  }
}
