/**
  The motion of a Google Balls particle over the reals: a spring towards a target, with friction. In the plane
  the target is the particle's place or away from the mouse; the depth follows the distance from that place.
 */
module Spring {

  const FRICTION: real := 0.8
  const SPRING_STRENGTH: real := 0.1

  datatype Point = Point(x: real, y: real)

  /** Position and velocity along one axis, and where the particle belongs. */
  datatype Axis = Axis(pos: real, vel: real, original: real)

  datatype Ball = Ball(x: Axis, y: Axis)

  /** The mouse settings: its position, the interaction radius, and whether it counts at all. */
  datatype Mouse = Mouse(at: Point, radius: real, interaction: bool)

  /** `distance < cfg_interactionRadius && cfg_mouseInteraction`, the distance being a square root. */
  predicate Acts(m: Mouse, x: real, y: real)
  {
    var dx, dy := m.at.x - x, m.at.y - y;
    m.interaction && m.radius > 0.0 && dx * dx + dy * dy < m.radius * m.radius
  }

  function StepAxis(a: Axis, target: real): Axis
  {
    var vel := (a.vel + (target - a.pos) * SPRING_STRENGTH) * FRICTION;
    Axis(a.pos + vel, vel, a.original)
  }

  /** One frame: the mouse pushes its mirror image as target, otherwise the target is the original place. */
  function Step(b: Ball, m: Mouse): Ball
  {
    if Acts(m, b.x.pos, b.y.pos) then
      Ball(StepAxis(b.x, b.x.pos - (m.at.x - b.x.pos)), StepAxis(b.y, b.y.pos - (m.at.y - b.y.pos)))
    else
      Ball(StepAxis(b.x, b.x.original), StepAxis(b.y, b.y.original))
  }

  // ----- Depth and radius -----

  function Product(a: real, b: real): real
  {
    a * b
  }

  function Sq(x: real): real
  {
    Product(x, x)
  }

  /** A particle: its motion in the plane, its depth, and the circle drawn for it. */
  datatype Body = Body(plane: Ball, z: Axis, size: real, radius: real)

  function DistanceSquared(b: Ball): real
  {
    Sq(b.x.original - b.x.pos) + Sq(b.y.original - b.y.pos)
  }

  /** `Math.sqrt` is a parameter. */
  ghost predicate IsRoot(root: real -> real)
  {
    forall s :: s >= 0.0 ==> root(s) >= 0.0 && Sq(root(s)) == s
  }

  function Radius(size: real, depth: real): real
  {
    if Product(size, depth) < 1.0 then 1.0 else Product(size, depth)
  }

  /** The depth is drawn to a hundredth of the distance, plus 1. */
  function Deepen(b: Body, root: real -> real): Body
  {
    var z := StepAxis(b.z, root(DistanceSquared(b.plane)) / 100.0 + 1.0);
    Body(b.plane, z, b.size, Radius(b.size, z.pos))
  }

  /** One frame of a particle. */
  function Move(b: Body, m: Mouse, root: real -> real): Body
  {
    Deepen(b.(plane := Step(b.plane, m)), root)
  }

  // ----- The program -----

  class Particle {
    var x: real
    var y: real
    var z: real
    var velX: real
    var velY: real
    var velZ: real
    var targetX: real
    var targetY: real
    var targetZ: real
    var radius: real
    const originalX: real
    const originalY: real
    const baseSize: real

    ghost function Now(): Body
      reads this
    {
      Body(Ball(Axis(x, velX, originalX), Axis(y, velY, originalY)), Axis(z, velZ, 1.0), baseSize, radius)
    }

    constructor (x: real, y: real, size: real)
      ensures Now() == Body(Ball(Axis(x, 0.0, x), Axis(y, 0.0, y)), Axis(1.0, 0.0, 1.0), size, size)
    {
      this.x, this.y, z := x, y, 1.0;
      velX, velY, velZ := 0.0, 0.0, 0.0;
      targetX, targetY, targetZ := x, y, 1.0;
      originalX, originalY := x, y;
      baseSize, radius := size, size;
    }

    /** The body of the loop of `updateParticles`. */
    method Update(m: Mouse, root: real -> real)
      modifies this
      ensures Now() == Move(old(Now()), m, root)
    {
      MoveInPlane(m);
      MoveInDepth(root);
    }

    /** The part for `x` and `y`. */
    method MoveInPlane(m: Mouse)
      modifies this`x, this`y, this`velX, this`velY, this`targetX, this`targetY
      ensures Now() == old(Now()).(plane := Step(old(Now()).plane, m))
    {
      var dx, dy := m.at.x - x, m.at.y - y;
      if Acts(m, x, y) {
        targetX, targetY := x - dx, y - dy;
      } else {
        targetX, targetY := originalX, originalY;
      }
      var accelX := (targetX - x) * SPRING_STRENGTH;
      velX := velX + accelX;
      velX := velX * FRICTION;
      x := x + velX;
      var accelY := (targetY - y) * SPRING_STRENGTH;
      velY := velY + accelY;
      velY := velY * FRICTION;
      y := y + velY;
    }

    /** The part for `z` and `radius`. */
    method MoveInDepth(root: real -> real)
      modifies this`z, this`velZ, this`targetZ, this`radius
      ensures Now() == Deepen(old(Now()), root)
    {
      hide Sq;
      var distanceFromOriginal := root(Sq(originalX - x) + Sq(originalY - y));
      targetZ := distanceFromOriginal / 100.0 + 1.0;
      var accelZ := (targetZ - z) * SPRING_STRENGTH;
      velZ := velZ + accelZ;
      velZ := velZ * FRICTION;
      z := z + velZ;
      radius := Product(baseSize, z);
      if radius < 1.0 {
        radius := 1.0;
      }
    }
  }

  /** `updateParticles`: every particle moves by one step, each on its own. */
  method UpdateParticles(particles: array<Particle>, m: Mouse, root: real -> real)
    requires forall i, j :: 0 <= i < j < particles.Length ==> particles[i] != particles[j]
    modifies particles[..]
    ensures forall i :: 0 <= i < particles.Length ==> particles[i].Now() == Move(old(particles[i].Now()), m, root)
  {
    hide Move;
    for k := 0 to particles.Length
      invariant forall i :: 0 <= i < k ==> particles[i].Now() == Move(old(particles[i].Now()), m, root)
      invariant forall i :: k <= i < particles.Length ==> particles[i].Now() == old(particles[i].Now())
    {
      particles[k].Update(m, root);
    }
  }

  // ----- One step in numbers -----

  /** The mouse acts exactly when it counts and is nearer than the radius. */
  lemma ActsExactly(m: Mouse, x: real, y: real, root: real -> real)
    requires IsRoot(root)
    ensures Acts(m, x, y) <==> m.interaction && root(Sq(m.at.x - x) + Sq(m.at.y - y)) < m.radius
  {
    var dx, dy := m.at.x - x, m.at.y - y;
    var s := Sq(dx) + Sq(dy);
    assert s == dx * dx + dy * dy && Sq(m.radius) == m.radius * m.radius;
    Square(dx);
    Square(dy);
    hide Sq;
    var r := root(s);
    assert r >= 0.0 && Sq(r) == s;
    RootBelow(r, m.radius);
  }

  lemma Difference(a: real, b: real)
    ensures Sq(b) - Sq(a) == Product(b - a, b + a)
  {
  }

  lemma RootBelow(r: real, radius: real)
    requires r >= 0.0
    ensures r < radius <==> radius > 0.0 && Sq(r) < Sq(radius)
  {
    Difference(r, radius);
    Difference(radius, r);
    ProductZero(r + radius);
    hide Sq, Product;
    if 0.0 < radius {
      if r < radius {
        ProductPositive(radius - r, radius + r);
      } else if radius < r {
        ProductPositive(r - radius, r + radius);
      }
    }
  }

  lemma ProductZero(x: real)
    ensures Product(0.0, x) == 0.0
  {
  }

  /** An undisturbed particle is drawn to its place, one under the mouse is pushed away from it. */
  lemma StepInNumbers(b: Ball, m: Mouse)
    ensures var after := Step(b, m);
            && after.x.pos == b.x.pos + after.x.vel && after.y.pos == b.y.pos + after.y.vel
            && after.x.original == b.x.original && after.y.original == b.y.original
            && (!Acts(m, b.x.pos, b.y.pos) ==>
                  && after.x.vel == 0.8 * (b.x.vel + 0.1 * (b.x.original - b.x.pos))
                  && after.y.vel == 0.8 * (b.y.vel + 0.1 * (b.y.original - b.y.pos)))
            && (Acts(m, b.x.pos, b.y.pos) ==>
                  && after.x.vel == 0.8 * (b.x.vel - 0.1 * (m.at.x - b.x.pos))
                  && after.y.vel == 0.8 * (b.y.vel - 0.1 * (m.at.y - b.y.pos)))
  {
    hide Acts;
  }

  function ToMouse(b: Ball, m: Mouse): real
  {
    Sq(m.at.x - b.x.pos) + Sq(m.at.y - b.y.pos)
  }

  /** A particle at rest under the mouse ends strictly farther from it, unless it is exactly there. */
  lemma PushedAway(b: Ball, m: Mouse)
    requires Acts(m, b.x.pos, b.y.pos) && b.x.vel == b.y.vel == 0.0
    ensures ToMouse(Step(b, m), m) == 1.1664 * ToMouse(b, m)
    ensures m.at != Point(b.x.pos, b.y.pos) ==> ToMouse(Step(b, m), m) > ToMouse(b, m)
  {
    StepInNumbers(b, m);
    hide Acts, Step;
    var dx, dy := m.at.x - b.x.pos, m.at.y - b.y.pos;
    Stretch(dx);
    Stretch(dy);
    Square(dx);
    Square(dy);
    var after := Step(b, m);
    assert m.at.x - after.x.pos == 1.08 * dx && m.at.y - after.y.pos == 1.08 * dy;
    hide Sq;
  }

  lemma Stretch(d: real)
    ensures Sq(1.08 * d) == 1.1664 * Sq(d)
  {
  }

  /** The depth is drawn to 1 and a hundredth of the new distance from the place; the radius is at least 1. */
  lemma DepthInNumbers(b: Body, m: Mouse, root: real -> real)
    ensures var after := Move(b, m, root);
            var distance := root(Sq(after.plane.x.original - after.plane.x.pos)
                                 + Sq(after.plane.y.original - after.plane.y.pos));
            && after.plane == Step(b.plane, m) && after.size == b.size && after.z.original == b.z.original
            && after.z.vel == 0.8 * (b.z.vel + 0.1 * (distance / 100.0 + 1.0 - b.z.pos))
            && after.z.pos == b.z.pos + after.z.vel
            && after.radius >= 1.0 && after.radius >= Product(b.size, after.z.pos)
            && (after.radius == 1.0 || after.radius == Product(b.size, after.z.pos))
  {
    hide Step, Sq, Product;
  }

  // ----- Decay -----

  /** The quadratic form that every undisturbed step scales by 0.8. */
  function Energy(a: Axis): real
  {
    var d := a.original - a.pos;
    2.0 * (d * d) - 3.0 * (d * a.vel) + 20.0 * (a.vel * a.vel)
  }

  lemma ProductPositive(a: real, b: real)
    requires a > 0.0 && b > 0.0
    ensures Product(a, b) > 0.0
  {
  }

  lemma SquarePositive(x: real)
    requires x > 0.0
    ensures Sq(x) > 0.0
  {
    hide Product;
    ProductPositive(x, x);
  }

  lemma SquareEven(x: real)
    ensures Sq(-x) == Sq(x)
  {
  }

  lemma SquareZero()
    ensures Sq(0.0) == 0.0
  {
  }

  lemma Square(x: real)
    ensures Sq(x) >= 0.0
    ensures Sq(x) == 0.0 <==> x == 0.0
  {
    hide Sq;
    SquareEven(x);
    SquareZero();
    if x > 0.0 {
      SquarePositive(x);
    } else if x < 0.0 {
      SquarePositive(-x);
    }
  }

  /** An undisturbed step multiplies the energy by exactly 0.8. */
  lemma StepDecays(a: Axis)
    ensures Energy(StepAxis(a, a.original)) == 0.8 * Energy(a)
  {
  }

  /** Two ways to complete the square. */
  lemma CompleteSquares(a: Axis)
    ensures var d, v := a.original - a.pos, a.vel;
            && 80.0 * Energy(a) == Sq(40.0 * v - 3.0 * d) + 151.0 * Sq(d)
            && 8.0 * Energy(a) == Sq(4.0 * d - 3.0 * v) + 151.0 * Sq(v)
  {
  }

  /** The energy is positive definite, and bounds both displacement and velocity. */
  lemma EnergyBounds(a: Axis)
    ensures var d := a.original - a.pos;
            && 0.0 <= 151.0 * Sq(d) <= 80.0 * Energy(a)
            && 0.0 <= 151.0 * Sq(a.vel) <= 8.0 * Energy(a)
            && (Energy(a) == 0.0 <==> d == 0.0 && a.vel == 0.0)
  {
    hide *;
    var d, v := a.original - a.pos, a.vel;
    CompleteSquares(a);
    Square(40.0 * v - 3.0 * d);
    Square(4.0 * d - 3.0 * v);
    Square(d);
    Square(v);
  }

  function Power(n: nat): (p: real)
    ensures p > 0.0
  {
    if n == 0 then 1.0 else FRICTION * Power(n - 1)
  }

  /** The frames of an animation, one mouse state per frame. */
  function Frames(b: Ball, mice: seq<Mouse>): Ball
  {
    if mice == [] then b else Step(Frames(b, mice[..|mice| - 1]), mice[|mice| - 1])
  }

  /** The mouse acts on the ball in none of the frames. */
  ghost predicate Undisturbed(b: Ball, mice: seq<Mouse>)
  {
    forall k :: 0 <= k < |mice| ==>
      var before := Frames(b, mice[..k]);
      !Acts(mice[k], before.x.pos, before.y.pos)
  }

  /** After any number of undisturbed frames the energy of either axis is exactly 0.8^n of what it was. */
  lemma {:induction false} EnergyAfter(b: Ball, mice: seq<Mouse>)
    requires Undisturbed(b, mice)
    ensures var after := Frames(b, mice);
            && Energy(after.x) == Product(Power(|mice|), Energy(b.x)) && after.x.original == b.x.original
            && Energy(after.y) == Product(Power(|mice|), Energy(b.y)) && after.y.original == b.y.original
    decreases |mice|
  {
    hide Energy, Acts, Power, Undisturbed, StepAxis, Frames, Product;
    FirstFrame(b);
    PowerStep(0, Energy(b.x));
    PowerStep(0, Energy(b.y));
    if mice != [] {
      var n := |mice| - 1;
      UndisturbedFront(b, mice);
      NextFrame(b, mice);
      EnergyAfter(b, mice[..n]);
      var before := Frames(b, mice[..n]);
      StepDecays(before.x);
      StepDecays(before.y);
      PowerStep(n, Energy(b.x));
      PowerStep(n, Energy(b.y));
      StepKeepsPlace(before.x);
      StepKeepsPlace(before.y);
    }
  }

  lemma FirstFrame(b: Ball)
    ensures Frames(b, []) == b
  {
  }

  lemma NextFrame(b: Ball, mice: seq<Mouse>)
    requires mice != []
    ensures Frames(b, mice) == Step(Frames(b, mice[..|mice| - 1]), mice[|mice| - 1])
  {
    hide Step;
  }

  lemma StepKeepsPlace(a: Axis)
    ensures StepAxis(a, a.original).original == a.original
  {
  }

  lemma PowerStep(n: nat, e: real)
    ensures Product(Power(0), e) == e
    ensures Product(Power(n + 1), e) == 0.8 * Product(Power(n), e)
  {
    assert (0.8 * Power(n)) * e == 0.8 * (Power(n) * e);
  }

  /** The mouse keeps away from a beginning of the frames, and from what it leads to. */
  lemma UndisturbedFront(b: Ball, mice: seq<Mouse>)
    requires mice != [] && Undisturbed(b, mice)
    ensures var n := |mice| - 1;
            var before := Frames(b, mice[..n]);
            Undisturbed(b, mice[..n]) && !Acts(mice[n], before.x.pos, before.y.pos)
  {
    hide Acts, Frames;
    var n := |mice| - 1;
    assert forall k :: 0 <= k <= n ==> mice[..n][..k] == mice[..k];
  }

  /** The displacement along either axis decays geometrically. */
  lemma {:induction false} Decay(b: Ball, mice: seq<Mouse>)
    requires Undisturbed(b, mice)
    ensures var after := Frames(b, mice);
            var dx, dy := b.x.original - after.x.pos, b.y.original - after.y.pos;
            && 151.0 * Sq(dx) <= 80.0 * Product(Power(|mice|), Energy(b.x))
            && 151.0 * Sq(dy) <= 80.0 * Product(Power(|mice|), Energy(b.y))
  {
    hide Energy, Undisturbed, Frames, Power, Sq, Product;
    EnergyAfter(b, mice);
    EnergyBounds(Frames(b, mice).x);
    EnergyBounds(Frames(b, mice).y);
  }

  lemma {:induction false} PowerVanishes(n: nat)
    ensures Power(n) * (n as real + 4.0) <= 4.0
  {
    if n > 0 {
      var p, k := Power(n - 1), (n - 1) as real;
      PowerVanishes(n - 1);
      assert p * k >= 0.0;
      assert Power(n) * (n as real + 4.0) == p * (0.8 * k + 4.0);
      assert p * (0.8 * k + 4.0) == p * (k + 4.0) - 0.2 * (p * k);
    }
  }

  ghost predicate WithinReach(b: Ball, eps: real)
  {
    var dx, dy := b.x.original - b.x.pos, b.y.original - b.y.pos;
    Sq(dx) < eps && Sq(dy) < eps
  }

  /** A particle left alone comes back: from some frame on it is as near its place as one likes. */
  lemma ComesToRest(b: Ball, eps: real) returns (n: nat)
    requires eps > 0.0
    ensures forall mice :: Undisturbed(b, mice) && |mice| >= n ==> WithinReach(Frames(b, mice), eps)
  {
    hide Energy, Frames, Undisturbed, Power, Sq, Product;
    EnergyBounds(b.x);
    EnergyBounds(b.y);
    n := Enough(Energy(b.x) + Energy(b.y), eps);
    forall mice | Undisturbed(b, mice) && |mice| >= n
      ensures WithinReach(Frames(b, mice), eps)
    {
      Decay(b, mice);
      EnergyAfter(b, mice);
      var after := Frames(b, mice);
      Scale(n as real, |mice| as real, eps);
      Nearer(b.x.original - after.x.pos, Energy(b.x), eps, |mice|);
      Nearer(b.y.original - after.y.pos, Energy(b.y), eps, |mice|);
    }
  }

  lemma Scale(a: real, b: real, c: real)
    requires a <= b && c >= 0.0
    ensures a * c <= b * c
  {
  }

  lemma Enough(v: real, eps: real) returns (n: nat)
    requires v >= 0.0 && eps > 0.0
    ensures n as real * eps >= 3.0 * v
  {
    var q := 3.0 * v / eps;
    assert q * eps == 3.0 * v;
    assert q >= 0.0;
    n := q.Floor + 1;
    Scale(q, n as real, eps);
  }

  lemma Nearer(d: real, e: real, eps: real, n: nat)
    requires e >= 0.0 && eps > 0.0 && n as real * eps >= 3.0 * e
    requires 151.0 * Sq(d) <= 80.0 * Product(Power(n), e)
    ensures Sq(d) < eps
  {
    hide Sq;
    Vanishes(n, e, eps);
  }

  /** What is scaled down often enough is small. */
  lemma Vanishes(n: nat, e: real, eps: real)
    requires e >= 0.0 && eps > 0.0 && n as real * eps >= 3.0 * e
    ensures 80.0 * Product(Power(n), e) < 151.0 * eps
  {
    var t, p := n as real + 4.0, Power(n);
    PowerVanishes(n);
    hide Power;
    var pe := Product(p, e);
    Scale(p * t, 4.0, e);
    assert p * t * e == pe * t;
    assert eps * t == n as real * eps + 4.0 * eps;
    assert 80.0 * pe * t == 80.0 * (pe * t);
    assert 151.0 * eps * t == 151.0 * (eps * t);
    if 80.0 * pe >= 151.0 * eps {
      Scale(151.0 * eps, 80.0 * pe, t);
      assert false;
    }
  }
}
