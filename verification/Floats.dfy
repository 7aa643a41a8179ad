/**
  What the clamping of brightness values means for the numbers that float64 bit patterns stand for (section 3.4 of
  IEEE 754). Values are counted in units of 2^-1074, so that every finite one is an integer.
 */
module Floats {
  import opened Varint
  import opened Power

  function Pow2(k: nat): (p: nat)
    ensures p >= 1
  {
    if k == 0 then 1 else 2 * Pow2(k - 1)
  }

  predicate Finite(v: Float64)
  {
    v / 0x10_0000_0000_0000 % 0x800 != 0x7ff
  }

  /** Exponent 0 is for the small numbers without the hidden bit. */
  function Magnitude(exponent: nat, fraction: nat): nat
  {
    if exponent == 0 then fraction else (0x10_0000_0000_0000 + fraction) * Pow2(exponent - 1)
  }

  function Value(v: Float64): int
  {
    var magnitude := Magnitude(v / 0x10_0000_0000_0000 % 0x800, v % 0x10_0000_0000_0000);
    if v >= 0x8000_0000_0000_0000 then 0 - magnitude else magnitude
  }

  lemma {:induction false} Pow2Monotone(j: nat, k: nat)
    requires j <= k
    ensures Pow2(j) <= Pow2(k)
    decreases k
  {
    if j < k {
      Pow2Monotone(j, k - 1);
    }
  }

  lemma Scale(a: nat, b: nat, p: nat)
    requires a < b && p > 0
    ensures a * p < b * p && (a + 1) * p <= b * p
  {
  }

  /** Magnitudes are ordered like exponent and fraction together. */
  lemma MagnitudeMonotone(e: nat, m: nat, f: nat, n: nat)
    requires m < 0x10_0000_0000_0000 && n < 0x10_0000_0000_0000
    requires e < f || (e == f && m < n)
    ensures Magnitude(e, m) < Magnitude(f, n)
  {
    var one := 0x10_0000_0000_0000;
    if e == f {
      if e > 0 {
        Scale(one + m, one + n, Pow2(e - 1));
      }
    } else {
      Pow2Monotone(e, f - 1);
      assert Magnitude(e, m) < one * Pow2(e) by {
        if e > 0 {
          Scale(one + m, 2 * one, Pow2(e - 1));
          assert 2 * one * Pow2(e - 1) == one * Pow2(e);
        }
      }
      assert one * Pow2(e) <= one * Pow2(f - 1) <= (one + n) * Pow2(f - 1);
    }
  }

  lemma {:induction false} Pow2Add(j: nat, k: nat)
    ensures Pow2(j + k) == Pow2(j) * Pow2(k)
    decreases j
  {
    if j > 0 {
      Pow2Add(j - 1, k);
      assert 2 * (Pow2(j - 1) * Pow2(k)) == 2 * Pow2(j - 1) * Pow2(k);
    }
  }

  /** The bits of the constant are those of 100. */
  lemma HundredIs()
    ensures Finite(HUNDRED) && Value(HUNDRED) == 100 * Pow2(1074)
  {
    Pow2Add(46, 1028);
    Pow2Small();
    hide Pow2;
    assert HUNDRED / 0x10_0000_0000_0000 % 0x800 == 1029;
    assert 0x10_0000_0000_0000 + HUNDRED % 0x10_0000_0000_0000 == 100 * Pow2(46);
    assert 100 * Pow2(46) * Pow2(1028) == 100 * (Pow2(46) * Pow2(1028));
  }

  lemma Pow2Small()
    ensures Pow2(46) == 0x4000_0000_0000
  {
    Pow2Add(23, 23);
    assert Pow2(23) == 0x80_0000 by {
      Pow2Add(12, 11);
      assert Pow2(11) == 0x800;
      assert Pow2(12) == 0x1000;
    }
  }

  /** Bits in order are numbers in order, for numbers that are not negative. */
  lemma ValueMonotone(v: Float64, w: Float64)
    requires v < w < 0x8000_0000_0000_0000
    ensures Value(v) < Value(w)
  {
    hide Magnitude;
    var one := 0x10_0000_0000_0000;
    MagnitudeMonotone(v / one % 0x800, v % one, w / one % 0x800, w % one);
  }

  lemma Signs(v: Float64)
    ensures v < 0x8000_0000_0000_0000 ==> Value(v) >= 0
    ensures v >= 0x8000_0000_0000_0000 ==> Value(v) == -Value(v - 0x8000_0000_0000_0000)
  {
    hide Magnitude;
  }

  lemma ZeroIs()
    ensures Value(0) == 0 && Finite(0)
  {
    assert Magnitude(0, 0) == 0;
    hide Magnitude, Pow2;
  }

  /** A number from 0 to 100 keeps its bits, a lower one becomes 0 and a higher one 100. */
  lemma ClampMeans(v: Float64)
    requires Finite(v)
    ensures 0 <= Value(v) <= 100 * Pow2(1074) <==> ClampPercent(v) == v
    ensures Value(v) < 0 ==> Value(ClampPercent(v)) == 0
    ensures Value(v) > 100 * Pow2(1074) ==> Value(ClampPercent(v)) == 100 * Pow2(1074)
  {
    HundredIs();
    ZeroIs();
    Signs(v);
    hide Value, Pow2;
    if v < HUNDRED {
      ValueMonotone(v, HUNDRED);
    } else if HUNDRED < v < 0x8000_0000_0000_0000 {
      ValueMonotone(HUNDRED, v);
    } else if v > 0x8000_0000_0000_0000 {
      ValueMonotone(0, v - 0x8000_0000_0000_0000);
    }
  }

  /** The patterns that are no numbers: minus infinity becomes 0, plus infinity and every NaN 100. */
  lemma ClampElse(v: Float64)
    requires !Finite(v)
    ensures v == 0xfff0_0000_0000_0000 ==> Value(ClampPercent(v)) == 0
    ensures v != 0xfff0_0000_0000_0000 ==> Value(ClampPercent(v)) == 100 * Pow2(1074)
  {
    HundredIs();
    ZeroIs();
    hide Value, Pow2;
  }
}
