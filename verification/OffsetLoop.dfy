/**
  Loops whose next offset depends on the present one alone. Such a loop over a buffer of `len` bytes has ended
  after `len + 1` turns or never ends.
 */
module OffsetLoop {
  import opened Sequences

  type Next = int -> Option<int>

  /** The offset after `n` turns; none once the loop has ended. */
  function Iterate(next: Next, n: nat): Option<int>
  {
    if n == 0 then Some(0)
    else
      match Iterate(next, n - 1)
      case None => None
      case Some(i) => next(i)
  }

  /** The loop goes on only from offsets inside the buffer. */
  ghost predicate Inside(next: Next, len: nat)
  {
    forall i :: next(i).Some? ==> 0 <= i < len
  }

  lemma {:induction false} Ended(next: Next, m: nat, n: nat)
    requires m <= n && Iterate(next, n).Some?
    ensures Iterate(next, m).Some?
    decreases n - m
  {
    if m < n {
      Ended(next, m, n - 1);
    }
  }

  /** The offset at which a loop of fewer than `n` turns ended. */
  function Stop(next: Next, n: nat): int
    requires Iterate(next, n).None?
  {
    if Iterate(next, n - 1).Some? then Iterate(next, n - 1).value else Stop(next, n - 1)
  }

  lemma {:induction false} StopsThere(next: Next, n: nat)
    requires Iterate(next, n).None?
    ensures exists k: nat :: k < n && Iterate(next, k) == Some(Stop(next, n)) && next(Stop(next, n)).None?
    decreases n
  {
    if Iterate(next, n - 1).Some? {
      assert Iterate(next, n - 1) == Some(Stop(next, n));
    } else {
      StopsThere(next, n - 1);
    }
  }

  lemma {:induction false} StopUnique(next: Next, k: nat, n: nat)
    requires Iterate(next, k).Some? && next(Iterate(next, k).value).None? && Iterate(next, n).None?
    ensures Stop(next, n) == Iterate(next, k).value
    decreases n
  {
    if n <= k {
      Ended(next, n, k);
      assert false;
    } else if n > k + 1 {
      if Iterate(next, n - 1).Some? {
        Ended(next, k + 1, n - 1);
        assert false;
      }
      StopUnique(next, k, n - 1);
    }
  }

  // ----- Pigeonhole -----

  function Below(m: nat): (r: set<int>)
    ensures forall i :: i in r <==> 0 <= i < m
    ensures |r| == m
  {
    if m == 0 then {} else Below(m - 1) + {m - 1}
  }

  ghost predicate Distinct(xs: seq<int>)
  {
    forall i, j :: 0 <= i < j < |xs| ==> xs[i] != xs[j]
  }

  lemma {:induction false} DistinctSize(xs: seq<int>)
    requires Distinct(xs)
    ensures |set x | x in xs| == |xs|
    decreases |xs|
  {
    if xs == [] {
      assert (set x | x in xs) == {};
    } else {
      var n := |xs| - 1;
      DistinctSize(xs[..n]);
      assert (set x | x in xs) == (set x | x in xs[..n]) + {xs[n]};
    }
  }

  lemma {:induction false} SubsetSize<T>(a: set<T>, b: set<T>)
    requires a <= b
    ensures |a| <= |b|
    decreases |a|
  {
    if a != {} {
      var x :| x in a;
      SubsetSize(a - {x}, b - {x});
    }
  }

  lemma Pigeonhole(xs: seq<int>, m: nat) returns (a: nat, b: nat)
    requires |xs| > m && forall i :: 0 <= i < |xs| ==> 0 <= xs[i] < m
    ensures a < b < |xs| && xs[a] == xs[b]
  {
    assert !Distinct(xs) by {
      if Distinct(xs) {
        DistinctSize(xs);
        SubsetSize((set x | x in xs), Below(m));
      }
    }
    var i, j :| 0 <= i < j < |xs| && xs[i] == xs[j];
    a, b := i, j;
  }

  // ----- A loop that comes back to an offset never ends -----

  lemma {:induction false} SameFrom(next: Next, a: nat, b: nat, k: nat)
    requires Iterate(next, a) == Iterate(next, b)
    ensures Iterate(next, a + k) == Iterate(next, b + k)
    decreases k
  {
    if k > 0 {
      SameFrom(next, a, b, k - 1);
    }
  }

  lemma {:induction false} CycleNeverEnds(next: Next, a: nat, b: nat, n: nat)
    requires a < b && Iterate(next, a) == Iterate(next, b) && Iterate(next, b).Some?
    ensures Iterate(next, n).Some?
    decreases n
  {
    if n <= b {
      Ended(next, n, b);
    } else {
      CycleNeverEnds(next, a, b, n - (b - a));
      SameFrom(next, a, b, n - b);
    }
  }

  /** A loop that is still going after `len + 1` turns goes on for ever, and stays inside the buffer. */
  lemma NeverEnds(next: Next, len: nat)
    requires Inside(next, len) && Iterate(next, len + 1).Some?
    ensures forall n: nat :: Iterate(next, n).Some? && 0 <= Iterate(next, n).value < len
  {
    forall k | 0 <= k <= len + 1
      ensures Iterate(next, k).Some? && (k <= len ==> 0 <= Iterate(next, k).value < len)
    {
      Ended(next, k, len + 1);
      if k <= len {
        Ended(next, k + 1, len + 1);
      }
    }
    var xs := seq(len + 1, k requires 0 <= k < len + 1 => if Iterate(next, k).Some? then Iterate(next, k).value else 0);
    var a, b := Pigeonhole(xs, len);
    forall n: nat
      ensures Iterate(next, n).Some? && 0 <= Iterate(next, n).value < len
    {
      CycleNeverEnds(next, a, b, n);
      CycleNeverEnds(next, a, b, n + 1);
    }
  }
}
