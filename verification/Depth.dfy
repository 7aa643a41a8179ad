/**
  The depth of a Google Balls particle: driven by its distance from its place, it comes to rest with it, and the
  drawn radius with the depth.
 */
module Depth {
  import opened Spring

  /** The frames of an animation of a particle. */
  function Moves(b: Body, mice: seq<Mouse>, root: real -> real): Body
  {
    if mice == [] then b else Move(Moves(b, mice[..|mice| - 1], root), mice[|mice| - 1], root)
  }

  /** In the plane a particle moves as if it had no depth. */
  lemma {:induction false} PlaneOf(b: Body, mice: seq<Mouse>, root: real -> real)
    ensures Moves(b, mice, root).plane == Frames(b.plane, mice)
    ensures Moves(b, mice, root).size == b.size
    ensures Moves(b, mice, root).z.original == b.z.original
    decreases |mice|
  {
    hide Step;
    if mice != [] {
      PlaneOf(b, mice[..|mice| - 1], root);
    }
  }

  // ----- One frame -----

  /** A step towards a target that is off by `u`: exactly what is left of 0.9 of the energy and 1.44 u^2. */
  lemma DrivenIdentity(a: Axis, u: real)
    ensures var d, v := a.original - a.pos, a.vel;
            Energy(StepAxis(a, a.original + u))
            == 0.9 * Energy(a) + 1.44 * Sq(u) - 0.18875 * Sq(d) - 0.00125 * Sq(40.0 * v - 3.0 * d - 32.0 * u)
  {
  }

  lemma DrivenStep(a: Axis, u: real)
    ensures Energy(StepAxis(a, a.original + u)) <= 0.9 * Energy(a) + 1.44 * Sq(u)
  {
    DrivenIdentity(a, u);
    hide *;
    Square(a.original - a.pos);
    Square(40.0 * a.vel - 3.0 * (a.original - a.pos) - 32.0 * u);
  }

  /** The energy of the depth and a thousandth of that of the plane. */
  function Total(b: Body): real
  {
    Energy(b.z) + 0.001 * (Energy(b.plane.x) + Energy(b.plane.y))
  }

  lemma Hundredth(s: real)
    ensures Sq(s / 100.0) == Sq(s) / 10000.0
  {
  }

  /** The square of the distance from the place, against the energy. */
  lemma DistanceBound(b: Ball)
    ensures 0.0 <= 151.0 * DistanceSquared(b) <= 80.0 * (Energy(b.x) + Energy(b.y))
  {
    hide Sq, Energy;
    EnergyBounds(b.x);
    EnergyBounds(b.y);
  }

  /** A frame without the mouse takes at least a tenth of the total energy, although the plane drives the depth. */
  lemma TotalDecays(b: Body, m: Mouse, root: real -> real)
    requires IsRoot(root) && b.z.original == 1.0
    requires !Acts(m, b.plane.x.pos, b.plane.y.pos)
    ensures 0.0 <= Total(Move(b, m, root)) <= 0.9 * Total(b)
  {
    var plane := Step(b.plane, m);
    StepDecays(b.plane.x);
    StepDecays(b.plane.y);
    hide Energy, Sq, StepAxis, Acts;
    DistanceBound(plane);
    var u := root(DistanceSquared(plane)) / 100.0;
    Hundredth(root(DistanceSquared(plane)));
    DrivenStep(b.z, u);
    EnergyBounds(b.plane.x);
    EnergyBounds(b.plane.y);
    EnergyBounds(Move(b, m, root).z);
  }

  // ----- Every number of frames -----

  function Shrink(n: nat): (p: real)
    ensures p > 0.0
  {
    if n == 0 then 1.0 else 0.9 * Shrink(n - 1)
  }

  /** After n undisturbed frames the total energy is at most 0.9^n of what it was. */
  lemma {:induction false} TotalAfter(b: Body, mice: seq<Mouse>, root: real -> real)
    requires IsRoot(root) && b.z.original == 1.0 && Undisturbed(b.plane, mice)
    ensures 0.0 <= Total(Moves(b, mice, root)) <= Product(Shrink(|mice|), Total(b))
    decreases |mice|
  {
    hide Total, Move, Acts, Undisturbed, IsRoot, Product;
    if mice == [] {
      TotalPositive(b);
      ProductOne(Total(b));
    } else {
      var n := |mice| - 1;
      var before := Moves(b, mice[..n], root);
      UndisturbedFront(b.plane, mice);
      PlaneOf(b, mice[..n], root);
      TotalAfter(b, mice[..n], root);
      TotalDecays(before, mice[n], root);
      ProductScale(0.9, Shrink(n), Total(b));
    }
  }

  lemma TotalPositive(b: Body)
    ensures Total(b) >= 0.0
    ensures Total(b) >= Energy(b.z)
  {
    hide Energy, Sq;
    EnergyBounds(b.plane.x);
    EnergyBounds(b.plane.y);
    EnergyBounds(b.z);
  }

  lemma ProductOne(x: real)
    ensures Product(1.0, x) == x
  {
  }

  lemma ProductScale(c: real, p: real, x: real)
    ensures Product(c * p, x) == c * Product(p, x)
  {
  }

  lemma {:induction false} ShrinkVanishes(n: nat)
    ensures Product(Shrink(n), n as real + 9.0) <= 9.0
  {
    if n > 0 {
      var p, k := Shrink(n - 1), (n - 1) as real;
      ShrinkVanishes(n - 1);
      assert p * k >= 0.0;
      assert Shrink(n) * (n as real + 9.0) == p * (0.9 * k + 9.0);
      assert p * (0.9 * k + 9.0) == p * (k + 9.0) - 0.1 * (p * k);
    }
  }

  lemma TotalVanishes(n: nat, e: real, eps: real)
    requires e >= 0.0 && eps > 0.0 && n as real * eps >= 9.0 * e
    ensures Product(Shrink(n), e) < eps
  {
    var p, t := Shrink(n), n as real + 9.0;
    ShrinkVanishes(n);
    hide Shrink;
    Scale(p * t, 9.0, e);
    assert p * t * e == p * e * t;
    assert eps * t == n as real * eps + 9.0 * eps;
    if p * e >= eps {
      Scale(eps, p * e, t);
      assert false;
    }
  }

  // ----- Rest -----

  /** The radius follows the depth. */
  lemma RadiusFollows(size: real, depth: real)
    ensures Sq(Radius(size, depth) - Radius(size, 1.0)) <= Product(Sq(size), Sq(1.0 - depth))
  {
    var d := Radius(size, depth) - Radius(size, 1.0);
    var e := size * depth - size;
    SquareMonotone(d, e);
    assert Sq(e) == Product(Sq(size), Sq(1.0 - depth));
  }

  lemma SquareMonotone(d: real, e: real)
    requires -e <= d <= e || e <= d <= -e
    ensures Sq(d) <= Sq(e)
  {
  }

  /** Near depth 1 and the radius that belongs there. */
  ghost predicate AtRest(b: Body, eps: real)
  {
    Sq(1.0 - b.z.pos) < eps && Sq(b.radius - Radius(b.size, 1.0)) < eps
  }

  /** Left alone, depth and radius come as near their places as one likes, and stay there. */
  lemma DepthComesToRest(b: Body, root: real -> real, eps: real) returns (n: nat)
    requires IsRoot(root) && b.z.original == 1.0 && eps > 0.0
    ensures n >= 1
    ensures forall mice :: Undisturbed(b.plane, mice) && |mice| >= n ==> AtRest(Moves(b, mice, root), eps)
  {
    hide Energy, Moves, Undisturbed, Shrink, Sq, Product, Radius, IsRoot, Total, AtRest;
    TotalPositive(b);
    Square(b.size);
    var near := Nearness(Sq(b.size), eps);
    var k := Enough(3.0 * Total(b), near);
    n := k + 1;
    forall mice | Undisturbed(b.plane, mice) && |mice| >= n
      ensures AtRest(Moves(b, mice, root), eps)
    {
      TotalAfter(b, mice, root);
      Scale(k as real, |mice| as real, near);
      TotalVanishes(|mice|, Total(b), near);
      RestNear(b, mice, root, near, eps);
    }
  }

  lemma Nearness(s: real, eps: real) returns (near: real)
    requires s >= 0.0 && eps > 0.0
    ensures 0.0 < near <= eps && Product(s, near) < eps
  {
    near := eps / (1.0 + s);
    assert near * (1.0 + s) == eps;
    assert near > 0.0;
    assert near * s >= 0.0;
  }

  lemma RestNear(b: Body, mice: seq<Mouse>, root: real -> real, near: real, eps: real)
    requires mice != [] && b.z.original == 1.0
    requires Total(Moves(b, mice, root)) < near <= eps && Product(Sq(b.size), near) < eps
    ensures AtRest(Moves(b, mice, root), eps)
  {
    var after := Moves(b, mice, root);
    PlaneOf(b, mice, root);
    RadiusOf(b, mice, root);
    hide Moves, Energy, Total, Sq, Product, Radius;
    TotalPositive(after);
    EnergyBounds(after.z);
    RadiusFollows(b.size, after.z.pos);
    Square(b.size);
    ProductMonotone(Sq(b.size), Sq(1.0 - after.z.pos), near);
  }

  lemma RadiusOf(b: Body, mice: seq<Mouse>, root: real -> real)
    requires mice != []
    ensures Moves(b, mice, root).radius == Radius(b.size, Moves(b, mice, root).z.pos)
  {
    PlaneOf(b, mice[..|mice| - 1], root);
  }

  lemma ProductMonotone(s: real, a: real, b: real)
    requires s >= 0.0 && a <= b
    ensures Product(s, a) <= Product(s, b)
  {
  }
}
