/**
 * Value-level physics of the simulation: the arithmetic that the Atom methods and the
 * force pass perform, written as pure functions over snapshots of an atom's physical
 * state, together with the properties the simulation relies on.
 *
 * Distances are taken with `hypot`, a parameter standing for `math.hypot`. Every
 * definition works for any such function; lemmas that need it to be the Euclidean
 * norm say so with `IsHypot`.
 */
module Physics {
  import opened Config

  /** `h` behaves as math.hypot: non-negative, and its square is dx^2 + dy^2. */
  ghost predicate IsHypot(h: (real, real) -> real) {
    forall dx: real, dy: real :: 0.0 <= h(dx, dy) && h(dx, dy) * h(dx, dy) == dx * dx + dy * dy
  }

  lemma HypotOfZero(h: (real, real) -> real)
    requires IsHypot(h)
    ensures h(0.0, 0.0) == 0.0
  {
    var d := h(0.0, 0.0);
    assert 0.0 <= d && d * d == 0.0 * 0.0 + 0.0 * 0.0;
    EqualSquares(d, 0.0);
  }

  /** The distance from a to b is the distance from b to a. */
  lemma HypotEven(h: (real, real) -> real, dx: real, dy: real)
    requires IsHypot(h)
    ensures h(-dx, -dy) == h(dx, dy)
  {
    assert (-dx) * (-dx) + (-dy) * (-dy) == dx * dx + dy * dy;
    EqualSquares(h(-dx, -dy), h(dx, dy));
  }

  // ---------------------------------------------------------------------------------
  // Real-arithmetic helpers. Lemma arguments are kept to plain variables: facts about a
  // square passed as an argument are not reliably recognised by the solver.
  // ---------------------------------------------------------------------------------

  lemma MulPos(a: real, b: real)
    requires a > 0.0 && b > 0.0
    ensures a * b > 0.0
  {
  }

  lemma NonZeroProduct(a: real, b: real)
    requires a != 0.0 && b != 0.0
    ensures a * b != 0.0
  {
  }

  lemma SquareLess(p: real, q: real)
    requires 0.0 <= p < q
    ensures p * p < q * q
  {
    MulPos(q - p, q + p);
  }

  /** Two non-negative reals with equal squares are equal. */
  lemma EqualSquares(p: real, q: real)
    requires 0.0 <= p && 0.0 <= q && p * p == q * q
    ensures p == q
  {
    if p < q {
      SquareLess(p, q);
    } else if q < p {
      SquareLess(q, p);
    }
  }

  /** If a * d * d is zero and d is not, a is zero. */
  lemma ZeroFactor(a: real, d: real)
    requires d != 0.0 && a * (d * d) == 0.0
    ensures a == 0.0
  {
    if a != 0.0 {
      assert (a * d) * d == a * (d * d);
      NonZeroProduct(a, d);
      NonZeroProduct(a * d, d);
    }
  }

  lemma QuotientSquared(x: real, d: real)
    requires d != 0.0
    ensures (x / d) * (x / d) == (x * x) / (d * d)
  {
    NonZeroProduct(d, d);
    var u, w := x / d, (x * x) / (d * d);
    assert u * d == x;
    assert w * (d * d) == x * x;
    assert (u * u) * (d * d) == (u * d) * (u * d);
    ZeroFactor(u * u - w, d);
  }

  lemma SumOverSquare(p: real, q: real, d: real)
    requires d != 0.0 && p + q == d * d
    ensures p / (d * d) + q / (d * d) == 1.0
  {
    NonZeroProduct(d, d);
    var u, v := p / (d * d), q / (d * d);
    assert u * (d * d) == p;
    assert v * (d * d) == q;
    ZeroFactor(u + v - 1.0, d);
  }

  /** Dividing a vector by its length gives a unit vector. */
  lemma UnitNormal(dx: real, dy: real, d: real)
    requires d != 0.0 && d * d == dx * dx + dy * dy
    ensures (dx / d) * (dx / d) + (dy / d) * (dy / d) == 1.0
  {
    QuotientSquared(dx, d);
    QuotientSquared(dy, d);
    SumOverSquare(dx * dx, dy * dy, d);
  }

  /** The unit normal's component along the vector itself is the vector's length. */
  lemma NormalDot(dx: real, dy: real, d: real)
    requires d != 0.0 && d * d == dx * dx + dy * dy
    ensures (dx / d) * dx + (dy / d) * dy == d
  {
    var u, v := dx / d, dy / d;
    assert u * d == dx;
    assert v * d == dy;
    assert (u * dx + v * dy) * d == dx * dx + dy * dy;
    NonZeroProduct(d, d);
    CancelFactor(u * dx + v * dy, d, d);
  }

  /** Cancel a non-zero factor: a * c == b * c with c != 0 gives a == b. */
  lemma CancelFactor(a: real, b: real, c: real)
    requires c != 0.0 && a * c == b * c
    ensures a == b
  {
    if a != b {
      NonZeroProduct(a - b, c);
    }
  }

  // ---------------------------------------------------------------------------------
  // Sums over sequences of reals (forces, momenta)
  // ---------------------------------------------------------------------------------

  function Sum(s: seq<real>): real {
    if s == [] then 0.0 else Sum(s[..|s| - 1]) + s[|s| - 1]
  }

  /** Replacing one entry changes the sum by the difference. */
  lemma {:induction false} SumUpdate(s: seq<real>, i: nat, v: real)
    requires i < |s|
    ensures Sum(s[i := v]) == Sum(s) - s[i] + v
  {
    var t := s[i := v];
    if i == |s| - 1 {
      assert t[..|t| - 1] == s[..|s| - 1];
    } else {
      assert t[..|t| - 1] == s[..|s| - 1][i := v];
      SumUpdate(s[..|s| - 1], i, v);
    }
  }

  /** Changing two entries so that their sum stays the same keeps the total. */
  lemma PairUpdateKeepsSum(before: seq<real>, after: seq<real>, p: nat, q: nat)
    requires |before| == |after| && p < |before| && q < |before| && p != q
    requires forall k :: 0 <= k < |before| && k != p && k != q ==> after[k] == before[k]
    requires after[p] + after[q] == before[p] + before[q]
    ensures Sum(after) == Sum(before)
  {
    assert after == before[p := after[p]][q := after[q]];
    SumUpdate(before, p, after[p]);
    SumUpdate(before[p := after[p]], q, after[q]);
  }

  /** Shifting one entry by `delta` shifts the total by `delta`. */
  lemma ShiftOneEntry(before: seq<real>, after: seq<real>, p: nat, delta: real)
    requires |before| == |after| && p < |before|
    requires forall k :: 0 <= k < |before| && k != p ==> after[k] == before[k]
    requires after[p] == before[p] + delta
    ensures Sum(after) == Sum(before) + delta
  {
    assert after == before[p := after[p]];
    SumUpdate(before, p, after[p]);
  }

  lemma Distribute(m: real, v: real, d: real)
    ensures m * (v + d) == m * v + m * d
  {
  }

  // ---------------------------------------------------------------------------------
  // Momentum of a list of bodies
  // ---------------------------------------------------------------------------------

  /** One body's momentum m * v along one axis. */
  function MomentumOf(b: Body, axis: Axis): real {
    b.mass * (if axis == X then b.vx else b.vy)
  }

  /** The total momentum of a list of bodies along one axis. */
  function TotalMomentum(bs: seq<Body>, axis: Axis): real {
    if bs == [] then 0.0 else TotalMomentum(bs[..|bs| - 1], axis) + MomentumOf(bs[|bs| - 1], axis)
  }

  /** Replacing one body changes the total by the difference of the two momenta. */
  lemma {:induction false} MomentumUpdate(bs: seq<Body>, i: nat, b: Body, axis: Axis)
    requires i < |bs|
    ensures TotalMomentum(bs[i := b], axis) == TotalMomentum(bs, axis) - MomentumOf(bs[i], axis) + MomentumOf(b, axis)
    decreases |bs|
  {
    var n := |bs| - 1;
    if i < n {
      assert bs[i := b][..n] == bs[..n][i := b];
      MomentumUpdate(bs[..n], i, b, axis);
    } else {
      assert bs[i := b][..n] == bs[..n];
    }
  }

  /** Changing two distinct bodies so that their momenta sum to the same keeps the total. */
  lemma PairKeepsMomentum(bs: seq<Body>, p: nat, q: nat, bp: Body, bq: Body, axis: Axis)
    requires p < |bs| && q < |bs| && p != q
    requires MomentumOf(bp, axis) + MomentumOf(bq, axis) == MomentumOf(bs[p], axis) + MomentumOf(bs[q], axis)
    ensures TotalMomentum(bs[p := bp][q := bq], axis) == TotalMomentum(bs, axis)
  {
    MomentumUpdate(bs, p, bp, axis);
    MomentumUpdate(bs[p := bp], q, bq, axis);
  }

  /** Equal factors give equal products. */
  lemma SameProduct(a: real, b: real, c: real)
    requires a == b
    ensures a * c == b * c
  {
  }

  /** Collide conserves the pair's momentum, stated through MomentumOf. */
  lemma CollidePairMomentum(a: Body, b: Body, hypot: (real, real) -> real)
    requires a.mass + b.mass != 0.0
    ensures var r := Collide(a, b, hypot);
            MomentumOf(r.0, X) + MomentumOf(r.1, X) == MomentumOf(a, X) + MomentumOf(b, X) &&
            MomentumOf(r.0, Y) + MomentumOf(r.1, Y) == MomentumOf(a, Y) + MomentumOf(b, Y)
  {
    var r := Collide(a, b, hypot);
    SameProduct(r.0.mass, a.mass, r.0.vx);
    SameProduct(r.1.mass, b.mass, r.1.vx);
    SameProduct(r.0.mass, a.mass, r.0.vy);
    SameProduct(r.1.mass, b.mass, r.1.vy);
  }

  /**
   * Colliding two distinct bodies of the list (through Collide, as resolve_collision
   * does) leaves the total momentum of the list unchanged on both axes.
   */
  lemma CollisionKeepsMomentum(bs: seq<Body>, p: nat, q: nat, hypot: (real, real) -> real)
    requires p < |bs| && q < |bs| && p != q && bs[p].mass + bs[q].mass != 0.0
    ensures var r := Collide(bs[p], bs[q], hypot);
            TotalMomentum(bs[p := r.0][q := r.1], X) == TotalMomentum(bs, X) &&
            TotalMomentum(bs[p := r.0][q := r.1], Y) == TotalMomentum(bs, Y)
  {
    var r := Collide(bs[p], bs[q], hypot);
    CollidePairMomentum(bs[p], bs[q], hypot);
    PairKeepsMomentum(bs, p, q, r.0, r.1, X);
    PairKeepsMomentum(bs, p, q, r.0, r.1, Y);
  }

  /** Adding (dvx, dvy) to one body's velocity shifts the total by its mass times the kick. */
  lemma KickMomentum(bs: seq<Body>, p: nat, dvx: real, dvy: real)
    requires p < |bs|
    ensures var kicked := bs[p := bs[p].(vx := bs[p].vx + dvx, vy := bs[p].vy + dvy)];
            TotalMomentum(kicked, X) == TotalMomentum(bs, X) + bs[p].mass * dvx &&
            TotalMomentum(kicked, Y) == TotalMomentum(bs, Y) + bs[p].mass * dvy
  {
    var b := bs[p].(vx := bs[p].vx + dvx, vy := bs[p].vy + dvy);
    MomentumUpdate(bs, p, b, X);
    MomentumUpdate(bs, p, b, Y);
    Distribute(bs[p].mass, bs[p].vx, dvx);
    Distribute(bs[p].mass, bs[p].vy, dvy);
  }

  // ---------------------------------------------------------------------------------
  // Snapshots
  // ---------------------------------------------------------------------------------

  /** The physical state of one atom at one instant. */
  datatype Body = Body(x: real, y: real, vx: real, vy: real, mass: real, charge: real)

  datatype Axis = X | Y

  // ---------------------------------------------------------------------------------
  // Atom.check_bounds and the clamps of Atom.update_position
  // ---------------------------------------------------------------------------------

  /** Python's max(lo, min(v, hi)). */
  function Clamp(v: real, lo: real, hi: real): (r: real)
    requires lo <= hi
    ensures lo <= r <= hi
    ensures lo <= v <= hi ==> r == v
    ensures v < lo ==> r == lo
    ensures v > hi ==> r == hi
  {
    var m := if v < hi then v else hi;
    if lo > m then lo else m
  }

  /**
   * One axis of check_bounds: the velocity component is negated exactly when the
   * position lies strictly outside [0, WindowSize]; the position is then clamped.
   */
  function Bounce(p: real, v: real): (r: (real, real))
    ensures 0.0 <= r.0 <= WindowSize
    ensures 0.0 <= p <= WindowSize ==> r == (p, v)
    ensures p < 0.0 ==> r == (0.0, -v)
    ensures p > WindowSize ==> r == (WindowSize, -v)
  {
    var v' := if p < 0.0 || p > WindowSize then -v else v;
    (Clamp(p, 0.0, WindowSize), v')
  }

  /** A position exactly on the border is inside, so it is never reflected. */
  lemma BorderIsNotReflected(v: real)
    ensures Bounce(0.0, v) == (0.0, v) && Bounce(WindowSize, v) == (WindowSize, v)
  {
  }

  /**
   * The trail update of update_position: append the new position, then drop the oldest
   * entry when the trail has grown beyond TrailLength.
   */
  function TrailPush(t: seq<(real, real)>, p: (real, real)): (r: seq<(real, real)>)
    ensures 0 < |r| <= |t| + 1 && r[|r| - 1] == p
    ensures |t| <= TrailLength ==> |r| == if |t| < TrailLength then |t| + 1 else TrailLength
    ensures r == (t + [p])[|t| + 1 - |r|..]
  {
    var t' := t + [p];
    if |t'| > TrailLength then t'[1..] else t'
  }

  function Abs(v: real): real {
    if v < 0.0 then -v else v
  }

  /**
   * One axis of update_position: advance by v * speed, damp the velocity, reflect and
   * clamp at the window border, then cap the speed at MaxVelocity. The position ends in
   * the window; the new speed is the damped speed capped at MaxVelocity, whatever the
   * reflection did to its sign.
   */
  function MoveAxis(p: real, v: real, speed: real): (r: (real, real))
    ensures 0.0 <= r.0 <= WindowSize && -MaxVelocity <= r.1 <= MaxVelocity
    ensures 0.0 <= p + v * speed <= WindowSize ==> r.0 == p + v * speed
    ensures Abs(r.1) == if Abs(v * DampingFactor) <= MaxVelocity then Abs(v * DampingFactor) else MaxVelocity
  {
    var b := Bounce(p + v * speed, v * DampingFactor);
    (b.0, Clamp(b.1, -MaxVelocity, MaxVelocity))
  }

  /** MoveAxis as the three steps update_position takes: advance and damp, bounce, cap. */
  lemma MoveAxisSteps(p: real, v: real, speed: real, p1: real, v1: real)
    requires p1 == p + v * speed && v1 == v * DampingFactor
    ensures MoveAxis(p, v, speed) == (Bounce(p1, v1).0, Clamp(Bounce(p1, v1).1, -MaxVelocity, MaxVelocity))
  {
  }

  /** The kinetic energy 0.5 * m * (vx^2 + vy^2) that update_position stores. */
  function KineticEnergy(mass: real, vx: real, vy: real): real {
    0.5 * mass * (vx * vx + vy * vy)
  }

  /** Once the speed is capped, the kinetic energy update_position stores is bounded. */
  lemma CappedSpeedBoundsEnergy(mass: real, vx: real, vy: real)
    requires mass > 0.0
    requires -MaxVelocity <= vx <= MaxVelocity && -MaxVelocity <= vy <= MaxVelocity
    ensures 0.0 <= KineticEnergy(mass, vx, vy) <= MaxVelocity * MaxVelocity * mass
  {
    SquareAtMost(vx, MaxVelocity);
    SquareAtMost(vy, MaxVelocity);
    ScaleBound(mass, vx * vx + vy * vy, 2.0 * MaxVelocity * MaxVelocity);
  }

  lemma ScaleBound(m: real, s: real, c: real)
    requires m > 0.0 && 0.0 <= s <= c
    ensures 0.0 <= 0.5 * m * s <= 0.5 * m * c
  {
  }

  lemma SquareAtMost(v: real, c: real)
    requires -c <= v <= c
    ensures 0.0 <= v * v <= c * c
  {
    if v >= 0.0 {
      assert v * v <= v * c <= c * c;
    } else {
      assert v * v == (-v) * (-v) <= (-v) * c <= c * c;
    }
  }

  // ---------------------------------------------------------------------------------
  // Atom.chase
  // ---------------------------------------------------------------------------------

  /** The velocity increment chase adds: a 0.1 step along the unit vector to the target. */
  function ChaseDelta(from: (real, real), to: (real, real), hypot: (real, real) -> real): (real, real) {
    var dx := to.0 - from.0;
    var dy := to.1 - from.1;
    var distance := hypot(dx, dy);
    if distance > 0.0 then (dx / distance * ChaseStep, dy / distance * ChaseStep) else (0.0, 0.0)
  }

  /**
   * With a true distance, a chase step toward a target at a positive distance has length
   * exactly ChaseStep and points toward the target; toward a target at the same position
   * it is zero.
   */
  lemma ChaseStepTowardTarget(from: (real, real), to: (real, real), hypot: (real, real) -> real)
    requires IsHypot(hypot)
    ensures var (ddx, ddy) := ChaseDelta(from, to, hypot);
            var (dx, dy) := (to.0 - from.0, to.1 - from.1);
            (dx == 0.0 && dy == 0.0 ==> ddx == 0.0 && ddy == 0.0) &&
            (hypot(dx, dy) > 0.0 ==>
               ddx * ddx + ddy * ddy == ChaseStep * ChaseStep && ddx * dx + ddy * dy > 0.0)
  {
    var dx, dy := to.0 - from.0, to.1 - from.1;
    if dx == 0.0 && dy == 0.0 {
      HypotOfZero(hypot);
    }
    if hypot(dx, dy) > 0.0 {
      StepAlongNormal(dx, dy, hypot(dx, dy));
    }
  }

  lemma StepAlongNormal(dx: real, dy: real, d: real)
    requires d > 0.0 && d * d == dx * dx + dy * dy
    ensures var (ddx, ddy) := (dx / d * ChaseStep, dy / d * ChaseStep);
            ddx * ddx + ddy * ddy == ChaseStep * ChaseStep && ddx * dx + ddy * dy > 0.0
  {
    var ux, uy := dx / d, dy / d;
    UnitNormal(dx, dy, d);
    NormalDot(dx, dy, d);
    assert (ux * ChaseStep) * (ux * ChaseStep) + (uy * ChaseStep) * (uy * ChaseStep)
        == (ux * ux + uy * uy) * (ChaseStep * ChaseStep);
    assert (ux * ChaseStep) * dx + (uy * ChaseStep) * dy == (ux * dx + uy * dy) * ChaseStep;
  }

  // ---------------------------------------------------------------------------------
  // Atom.resolve_collision
  // ---------------------------------------------------------------------------------

  /**
   * The two velocities after resolve_collision(a, b), as the source computes them:
   * unchanged when the centres coincide or when vn > 0; otherwise the damped impulse
   * 2*vn/(ma+mb) applied along the normal, in opposite directions. Here vn is the
   * relative velocity a - b along the unit vector from a to b, so vn > 0 means that the
   * two bodies approach each other.
   */
  function Collide(a: Body, b: Body, hypot: (real, real) -> real): (r: (Body, Body))
    requires a.mass + b.mass != 0.0
    ensures r.0 == a.(vx := r.0.vx, vy := r.0.vy) && r.1 == b.(vx := r.1.vx, vy := r.1.vy)
    ensures a.mass * r.0.vx + b.mass * r.1.vx == a.mass * a.vx + b.mass * b.vx
    ensures a.mass * r.0.vy + b.mass * r.1.vy == a.mass * a.vy + b.mass * b.vy
    ensures var d := hypot(b.x - a.x, b.y - a.y);
            d == 0.0 || NormalSpeed(a, b, d) > 0.0 ==> r == (a, b)
  {
    var distance := hypot(b.x - a.x, b.y - a.y);
    if distance == 0.0 then (a, b)
    else
      var nx := (b.x - a.x) / distance;
      var ny := (b.y - a.y) / distance;
      var vn := Closing(a, b, nx, ny);
      if vn > 0.0 then (a, b) else
        ImpulseKeepsMomentum(a, b, nx, ny, vn);
        ExchangeImpulse(a, b, nx, ny, vn)
  }

  /**
   * The collision response with the early return the source's comment describes: nothing
   * happens when the bodies do not approach (vn <= 0), and the impulse is applied when they
   * do. This is Collide with the guard's sign corrected.
   */
  function CollideIntended(a: Body, b: Body, hypot: (real, real) -> real): (r: (Body, Body))
    requires a.mass + b.mass != 0.0
    ensures r.0 == a.(vx := r.0.vx, vy := r.0.vy) && r.1 == b.(vx := r.1.vx, vy := r.1.vy)
    ensures a.mass * r.0.vx + b.mass * r.1.vx == a.mass * a.vx + b.mass * b.vx
    ensures a.mass * r.0.vy + b.mass * r.1.vy == a.mass * a.vy + b.mass * b.vy
    ensures var d := hypot(b.x - a.x, b.y - a.y);
            d == 0.0 || NormalSpeed(a, b, d) <= 0.0 ==> r == (a, b)
  {
    var distance := hypot(b.x - a.x, b.y - a.y);
    if distance == 0.0 then (a, b)
    else
      var nx := (b.x - a.x) / distance;
      var ny := (b.y - a.y) / distance;
      var vn := Closing(a, b, nx, ny);
      if vn <= 0.0 then (a, b) else
        ImpulseKeepsMomentum(a, b, nx, ny, vn);
        ExchangeImpulse(a, b, nx, ny, vn)
  }

  /** The damped impulse 2*vn/(ma+mb) along (nx, ny): a loses it in proportion to mb, b gains it in proportion to ma. */
  function ExchangeImpulse(a: Body, b: Body, nx: real, ny: real, vn: real): (r: (Body, Body))
    requires a.mass + b.mass != 0.0
    ensures r.0 == a.(vx := r.0.vx, vy := r.0.vy) && r.1 == b.(vx := r.1.vx, vy := r.1.vy)
  {
    var impulse := 2.0 * vn / (a.mass + b.mass);
    (a.(vx := a.vx - impulse * b.mass * nx * CollisionDamping,
        vy := a.vy - impulse * b.mass * ny * CollisionDamping),
     b.(vx := b.vx + impulse * a.mass * nx * CollisionDamping,
        vy := b.vy + impulse * a.mass * ny * CollisionDamping))
  }

  /** The two shares of the impulse carry equal and opposite momentum: ma*va + mb*vb is kept on each axis. */
  lemma ImpulseKeepsMomentum(a: Body, b: Body, nx: real, ny: real, vn: real)
    requires a.mass + b.mass != 0.0
    ensures var r := ExchangeImpulse(a, b, nx, ny, vn);
            a.mass * r.0.vx + b.mass * r.1.vx == a.mass * a.vx + b.mass * b.vx &&
            a.mass * r.0.vy + b.mass * r.1.vy == a.mass * a.vy + b.mass * b.vy
  {
    var impulse := 2.0 * vn / (a.mass + b.mass);
    assert a.mass * (impulse * b.mass * nx * CollisionDamping)
        == b.mass * (impulse * a.mass * nx * CollisionDamping);
    assert a.mass * (impulse * b.mass * ny * CollisionDamping)
        == b.mass * (impulse * a.mass * ny * CollisionDamping);
  }

  /** vn: the relative velocity a - b along the unit normal from a to b (positive when they approach). */
  function NormalSpeed(a: Body, b: Body, distance: real): real
    requires distance != 0.0
  {
    Closing(a, b, (b.x - a.x) / distance, (b.y - a.y) / distance)
  }

  /** The relative velocity a - b projected on (nx, ny). */
  function Closing(a: Body, b: Body, nx: real, ny: real): real {
    (a.vx - b.vx) * nx + (a.vy - b.vy) * ny
  }

  /**
   * As written, resolve_collision leaves approaching bodies (vn > 0) alone and turns a
   * separating pair (vn < 0) into an approaching one: vn' = (1 - 2*COLLISION_DAMPING) * vn,
   * so after the call vn' >= 0 in every case.
   */
  lemma CollisionNeverSeparates(a: Body, b: Body, hypot: (real, real) -> real)
    requires IsHypot(hypot) && a.mass + b.mass != 0.0
    requires hypot(b.x - a.x, b.y - a.y) != 0.0
    ensures var d := hypot(b.x - a.x, b.y - a.y);
            var (a', b') := Collide(a, b, hypot);
            var vn := NormalSpeed(a, b, d);
            NormalSpeed(a', b', d) == (if vn > 0.0 then vn else (1.0 - 2.0 * CollisionDamping) * vn) &&
            NormalSpeed(a', b', d) >= 0.0
  {
    var dx, dy := b.x - a.x, b.y - a.y;
    var d := hypot(dx, dy);
    var nx, ny := dx / d, dy / d;
    var vn := NormalSpeed(a, b, d);
    if vn <= 0.0 {
      UnitNormal(dx, dy, d);
      ImpulseScalesClosing(a, b, nx, ny);
      var r := ExchangeImpulse(a, b, nx, ny, vn);
      assert Collide(a, b, hypot) == r;
    }
  }

  /**
   * A concrete pair that shows it: a at (0, 0) moving away from b at (1, 0) with speed 1,
   * equal masses. The call gives a velocity -0.02 and b velocity -0.98, so b now runs into a.
   */
  lemma SeparatingPairIsPushedTogether(hypot: (real, real) -> real)
    requires hypot(1.0, 0.0) == 1.0
    ensures var a := Body(0.0, 0.0, -1.0, 0.0, 1.0, 0.0);
            var b := Body(1.0, 0.0, 0.0, 0.0, 1.0, 0.0);
            var (a', b') := Collide(a, b, hypot);
            NormalSpeed(a, b, 1.0) < 0.0 && a'.vx == -0.02 && b'.vx == -0.98 && NormalSpeed(a', b', 1.0) > 0.0
  {
    var a := Body(0.0, 0.0, -1.0, 0.0, 1.0, 0.0);
    var b := Body(1.0, 0.0, 0.0, 0.0, 1.0, 0.0);
    assert NormalSpeed(a, b, 1.0) == Closing(a, b, 1.0, 0.0) == -1.0;
    var r := ExchangeImpulse(a, b, 1.0, 0.0, -1.0);
    assert r == (a.(vx := -0.02, vy := 0.0), b.(vx := -0.98, vy := 0.0));
    assert Collide(a, b, hypot) == r;
    assert NormalSpeed(r.0, r.1, 1.0) == Closing(r.0, r.1, 1.0, 0.0) == 0.96;
  }

  /**
   * With the guard corrected, a collision never leaves two bodies approaching: vn' = vn
   * when they were not approaching, and (1 - 2*COLLISION_DAMPING) * vn < 0 when they were.
   */
  lemma IntendedCollisionSeparates(a: Body, b: Body, hypot: (real, real) -> real)
    requires IsHypot(hypot) && a.mass + b.mass != 0.0
    requires hypot(b.x - a.x, b.y - a.y) != 0.0
    ensures var d := hypot(b.x - a.x, b.y - a.y);
            var (a', b') := CollideIntended(a, b, hypot);
            var vn := NormalSpeed(a, b, d);
            NormalSpeed(a', b', d) == (if vn <= 0.0 then vn else (1.0 - 2.0 * CollisionDamping) * vn) &&
            NormalSpeed(a', b', d) <= 0.0
  {
    var dx, dy := b.x - a.x, b.y - a.y;
    var d := hypot(dx, dy);
    var nx, ny := dx / d, dy / d;
    var vn := NormalSpeed(a, b, d);
    if vn > 0.0 {
      UnitNormal(dx, dy, d);
      ImpulseScalesClosing(a, b, nx, ny);
      var r := ExchangeImpulse(a, b, nx, ny, vn);
      assert CollideIntended(a, b, hypot) == r;
    }
  }

  /** Applying the impulse of resolve_collision along a unit normal scales the closing speed by 1 - 2*COLLISION_DAMPING. */
  lemma ImpulseScalesClosing(a: Body, b: Body, nx: real, ny: real)
    requires a.mass + b.mass != 0.0 && nx * nx + ny * ny == 1.0
    ensures var vn := Closing(a, b, nx, ny);
            var (a', b') := ExchangeImpulse(a, b, nx, ny, vn);
            Closing(a', b', nx, ny) == (1.0 - 2.0 * CollisionDamping) * vn
  {
    var vn := Closing(a, b, nx, ny);
    var (a', b') := ExchangeImpulse(a, b, nx, ny, vn);
    ImpulseClosing(a, b, nx, ny);
    UnitScale(vn, nx * nx + ny * ny, Closing(a', b', nx, ny));
  }

  /** Along any normal (nx, ny), the impulse takes 2*COLLISION_DAMPING*vn*|n|^2 off the closing speed vn. */
  lemma ImpulseClosing(a: Body, b: Body, nx: real, ny: real)
    requires a.mass + b.mass != 0.0
    ensures var vn := Closing(a, b, nx, ny);
            var (a', b') := ExchangeImpulse(a, b, nx, ny, vn);
            Closing(a', b', nx, ny) == vn - 2.0 * vn * CollisionDamping * (nx * nx + ny * ny)
  {
    var vn := Closing(a, b, nx, ny);
    var (a', b') := ExchangeImpulse(a, b, nx, ny, vn);
    var impulse := 2.0 * vn / (a.mass + b.mass);
    ImpulseTimesMass(vn, a.mass + b.mass);
    DampedImpulse(a.mass, b.mass, a.vx, a.vy, b.vx, b.vy, a'.vx, a'.vy, b'.vx, b'.vy, nx, ny, vn, impulse);
  }

  lemma UnitScale(vn: real, n: real, c: real)
    requires n == 1.0 && c == vn - 2.0 * vn * CollisionDamping * n
    ensures c == (1.0 - 2.0 * CollisionDamping) * vn
  {
  }

  /**
   * How resolve_collision shares the impulse: both velocity changes lie along the normal
   * (nx, ny), they carry equal and opposite momentum (so their sizes are in the ratio
   * mb : ma), and for positive masses the change of a along the normal never has the
   * sign of vn: an approaching a (vn > 0) is slowed along the normal, a receding one
   * (vn < 0) is pushed forward.
   */
  lemma ImpulseShares(a: Body, b: Body, nx: real, ny: real, vn: real)
    requires a.mass + b.mass != 0.0
    ensures var (a', b') := ExchangeImpulse(a, b, nx, ny, vn);
            (a'.vx - a.vx) * ny == (a'.vy - a.vy) * nx &&
            (b'.vx - b.vx) * ny == (b'.vy - b.vy) * nx
    ensures var (a', b') := ExchangeImpulse(a, b, nx, ny, vn);
            a.mass * (a'.vx - a.vx) == -(b.mass * (b'.vx - b.vx)) &&
            a.mass * (a'.vy - a.vy) == -(b.mass * (b'.vy - b.vy))
    ensures a.mass > 0.0 && b.mass > 0.0 ==>
            var (a', b') := ExchangeImpulse(a, b, nx, ny, vn);
            ((a'.vx - a.vx) * nx + (a'.vy - a.vy) * ny) * vn <= 0.0
  {
    var (a', b') := ExchangeImpulse(a, b, nx, ny, vn);
    var k := 2.0 * vn / (a.mass + b.mass) * CollisionDamping;
    assert a'.vx - a.vx == -(k * b.mass) * nx && a'.vy - a.vy == -(k * b.mass) * ny;
    assert b'.vx - b.vx == (k * a.mass) * nx && b'.vy - b.vy == (k * a.mass) * ny;
    ImpulseKeepsMomentum(a, b, nx, ny, vn);
    if a.mass > 0.0 && b.mass > 0.0 {
      AlongNormalOpposes(vn, a.mass + b.mass, b.mass, nx * nx + ny * ny, k);
      assert (a'.vx - a.vx) * nx + (a'.vy - a.vy) * ny == -(k * b.mass) * (nx * nx + ny * ny);
    }
  }

  /** With k = 2*vn/m * COLLISION_DAMPING for m > 0, the term -(k*mb)*n2 never has vn's sign. */
  lemma AlongNormalOpposes(vn: real, m: real, mb: real, n2: real, k: real)
    requires m > 0.0 && mb > 0.0 && n2 >= 0.0 && k == 2.0 * vn / m * CollisionDamping
    ensures (-(k * mb) * n2) * vn <= 0.0
  {
    assert k * vn == 2.0 * (vn * vn) / m * CollisionDamping;
    assert k * vn >= 0.0;
    assert (-(k * mb) * n2) * vn == -((k * vn) * mb * n2);
  }

  /** Equal and opposite damped impulses along (nx, ny) take 2*COLLISION_DAMPING*vn*|n|^2 off the closing speed vn. */
  lemma DampedImpulse(ma: real, mb: real, avx: real, avy: real, bvx: real, bvy: real,
                      avx': real, avy': real, bvx': real, bvy': real, nx: real, ny: real, vn: real, impulse: real)
    requires vn == (avx - bvx) * nx + (avy - bvy) * ny && impulse * (ma + mb) == 2.0 * vn
    requires avx' == avx - impulse * mb * nx * CollisionDamping && avy' == avy - impulse * mb * ny * CollisionDamping
    requires bvx' == bvx + impulse * ma * nx * CollisionDamping && bvy' == bvy + impulse * ma * ny * CollisionDamping
    ensures (avx' - bvx') * nx + (avy' - bvy') * ny == vn - 2.0 * vn * CollisionDamping * (nx * nx + ny * ny)
  {
    ClosingAfterImpulse(ma, mb, avx, avy, bvx, bvy, avx', avy', bvx', bvy', nx, ny, impulse);
    SameProduct(impulse * (ma + mb), 2.0 * vn, CollisionDamping * (nx * nx + ny * ny));
  }

  lemma ImpulseTimesMass(vn: real, m: real)
    requires m != 0.0
    ensures (2.0 * vn / m) * m == 2.0 * vn
  {
  }

  /** Closing speed after equal and opposite damped impulses p*mb and p*ma along (nx, ny). */
  lemma ClosingAfterImpulse(ma: real, mb: real, avx: real, avy: real, bvx: real, bvy: real,
                            avx': real, avy': real, bvx': real, bvy': real, nx: real, ny: real, p: real)
    requires avx' == avx - p * mb * nx * CollisionDamping && avy' == avy - p * mb * ny * CollisionDamping
    requires bvx' == bvx + p * ma * nx * CollisionDamping && bvy' == bvy + p * ma * ny * CollisionDamping
    ensures (avx' - bvx') * nx + (avy' - bvy') * ny
              == (avx - bvx) * nx + (avy - bvy) * ny - p * (ma + mb) * CollisionDamping * (nx * nx + ny * ny)
  {
  }

  // ---------------------------------------------------------------------------------
  // The pair loop of apply_gravity_and_forces
  // ---------------------------------------------------------------------------------

  /** A pair is skipped when the centres coincide or lie beyond FORCE_THRESHOLD. */
  predicate OutOfRange(a: Body, b: Body, hypot: (real, real) -> real) {
    var distance := hypot(b.x - a.x, b.y - a.y);
    distance == 0.0 || distance > ForceThreshold
  }

  /** Fg - Fe: gravity minus the Coulomb term (zero when either charge is zero). */
  function PairScalar(a: Body, b: Body, hypot: (real, real) -> real): real
    requires !OutOfRange(a, b, hypot)
  {
    var distance := hypot(b.x - a.x, b.y - a.y);
    assert distance * distance != 0.0;
    var fg := Gravity * a.mass * b.mass / (distance * distance);
    var fe := if a.charge == 0.0 || b.charge == 0.0 then 0.0
              else Coulomb * a.charge * b.charge / (distance * distance);
    fg - fe
  }

  /** The force the pair loop applies to a (and, negated, to b). */
  function PairForce(a: Body, b: Body, hypot: (real, real) -> real, axis: Axis): real
    requires !OutOfRange(a, b, hypot)
  {
    var distance := hypot(b.x - a.x, b.y - a.y);
    var delta := if axis == X then b.x - a.x else b.y - a.y;
    PairScalar(a, b, hypot) * delta / distance * ForceScale
  }

  /**
   * Force the pair loop puts on atom k on account of atom j: the pair (min, max) is
   * visited once, the lower index receives +F and the higher -F; skipped pairs and
   * k == j contribute nothing.
   */
  function ForceOn(bs: seq<Body>, k: nat, j: nat, hypot: (real, real) -> real, axis: Axis): real
    requires k < |bs| && j < |bs|
  {
    if k < j then PairPush(bs[k], bs[j], hypot, axis)
    else if j < k then -PairPush(bs[j], bs[k], hypot, axis)
    else 0.0
  }

  /** What the pair loop adds to a's accumulator for the pair (a, b): nothing for a skipped pair. */
  function PairPush(a: Body, b: Body, hypot: (real, real) -> real, axis: Axis): real {
    if OutOfRange(a, b, hypot) then 0.0 else PairForce(a, b, hypot, axis)
  }

  /** Sum of ForceOn(k, j) over j < m. */
  function RowSum(bs: seq<Body>, k: nat, m: nat, hypot: (real, real) -> real, axis: Axis): real
    requires k < |bs| && m <= |bs|
  {
    if m == 0 then 0.0 else RowSum(bs, k, m - 1, hypot, axis) + ForceOn(bs, k, m - 1, hypot, axis)
  }

  /** Net pair force on atom k after the whole pair loop. */
  function NetForce(bs: seq<Body>, k: nat, hypot: (real, real) -> real, axis: Axis): real
    requires k < |bs|
  {
    RowSum(bs, k, |bs|, hypot, axis)
  }

  /** The vector of net pair forces, one entry per atom. */
  function NetForces(bs: seq<Body>, hypot: (real, real) -> real, axis: Axis): (r: seq<real>)
    ensures |r| == |bs| && forall k :: 0 <= k < |bs| ==> r[k] == NetForce(bs, k, hypot, axis)
  {
    seq(|bs|, k requires 0 <= k < |bs| => NetForce(bs, k, hypot, axis))
  }

  /** Sum of RowSum(k, m) over k < n. */
  function Total(bs: seq<Body>, n: nat, m: nat, hypot: (real, real) -> real, axis: Axis): real
    requires n <= |bs| && m <= |bs|
  {
    if n == 0 then 0.0 else Total(bs, n - 1, m, hypot, axis) + RowSum(bs, n - 1, m, hypot, axis)
  }

  /** Sum of ForceOn(k, m) over k < n. */
  function Column(bs: seq<Body>, n: nat, m: nat, hypot: (real, real) -> real, axis: Axis): real
    requires n <= |bs| && m < |bs|
  {
    if n == 0 then 0.0 else Column(bs, n - 1, m, hypot, axis) + ForceOn(bs, n - 1, m, hypot, axis)
  }

  lemma ForceOnAntisymmetric(bs: seq<Body>, k: nat, j: nat, hypot: (real, real) -> real, axis: Axis)
    requires k < |bs| && j < |bs|
    ensures ForceOn(bs, k, j, hypot, axis) == -ForceOn(bs, j, k, hypot, axis)
  {
  }

  lemma {:induction false} TotalAddColumn(bs: seq<Body>, n: nat, m: nat, hypot: (real, real) -> real, axis: Axis)
    requires n <= |bs| && m < |bs|
    ensures Total(bs, n, m + 1, hypot, axis) == Total(bs, n, m, hypot, axis) + Column(bs, n, m, hypot, axis)
  {
    if n > 0 {
      TotalAddColumn(bs, n - 1, m, hypot, axis);
    }
  }

  /** What atom n exerts on the atoms before it cancels what they exert on it. */
  lemma {:induction false} ColumnCancelsRow(bs: seq<Body>, n: nat, m: nat, hypot: (real, real) -> real, axis: Axis)
    requires m <= n < |bs|
    ensures Column(bs, m, n, hypot, axis) + RowSum(bs, n, m, hypot, axis) == 0.0
  {
    if m > 0 {
      ColumnCancelsRow(bs, n, m - 1, hypot, axis);
      ForceOnAntisymmetric(bs, m - 1, n, hypot, axis);
    }
  }

  lemma {:induction false} TotalSquareIsZero(bs: seq<Body>, n: nat, hypot: (real, real) -> real, axis: Axis)
    requires n <= |bs|
    ensures Total(bs, n, n, hypot, axis) == 0.0
  {
    if n > 0 {
      var p := n - 1;
      TotalSquareIsZero(bs, p, hypot, axis);
      TotalAddColumn(bs, p, p, hypot, axis);
      ColumnCancelsRow(bs, p, p, hypot, axis);
      assert RowSum(bs, p, n, hypot, axis) == RowSum(bs, p, p, hypot, axis);
    }
  }

  lemma {:induction false} SumOfRows(bs: seq<Body>, n: nat, hypot: (real, real) -> real, axis: Axis)
    requires n <= |bs|
    ensures Sum(NetForces(bs, hypot, axis)[..n]) == Total(bs, n, |bs|, hypot, axis)
  {
    if n > 0 {
      var f := NetForces(bs, hypot, axis);
      assert f[..n][..n - 1] == f[..n - 1];
      SumOfRows(bs, n - 1, hypot, axis);
    }
  }

  /**
   * Newton's third law for the pair loop: the net pair forces over the whole population
   * add up to zero on each axis.
   */
  lemma NetForcesBalance(bs: seq<Body>, hypot: (real, real) -> real, axis: Axis)
    ensures Sum(NetForces(bs, hypot, axis)) == 0.0
  {
    var f := NetForces(bs, hypot, axis);
    assert f[..|bs|] == f;
    SumOfRows(bs, |bs|, hypot, axis);
    TotalSquareIsZero(bs, |bs|, hypot, axis);
  }

  /** An atom every other atom is skipped against (coincident or out of range) feels no pair force. */
  lemma {:induction false} IsolatedAtomFeelsNoForce(bs: seq<Body>, k: nat, m: nat, hypot: (real, real) -> real, axis: Axis)
    requires k < |bs| && m <= |bs|
    requires forall j :: 0 <= j < k ==> OutOfRange(bs[j], bs[k], hypot)
    requires forall j :: k < j < |bs| ==> OutOfRange(bs[k], bs[j], hypot)
    ensures RowSum(bs, k, m, hypot, axis) == 0.0
  {
    if m > 0 {
      IsolatedAtomFeelsNoForce(bs, k, m - 1, hypot, axis);
    }
  }

  /**
   * Opposite charges attract: for two positive masses with charges of opposite sign at a
   * true distance within range, the force on a points from a toward b on each axis.
   */
  lemma OppositeChargesAttract(a: Body, b: Body, hypot: (real, real) -> real)
    requires IsHypot(hypot) && a.mass > 0.0 && b.mass > 0.0 && a.charge * b.charge < 0.0
    requires !OutOfRange(a, b, hypot)
    ensures PairScalar(a, b, hypot) > 0.0
    ensures PairForce(a, b, hypot, X) * (b.x - a.x) >= 0.0 && PairForce(a, b, hypot, Y) * (b.y - a.y) >= 0.0
    ensures b.x != a.x ==> PairForce(a, b, hypot, X) != 0.0
    ensures b.y != a.y ==> PairForce(a, b, hypot, Y) != 0.0
  {
    ScalarPositive(a, b, hypot);
    ForceAlongDelta(a, b, hypot, X);
    ForceAlongDelta(a, b, hypot, Y);
  }

  lemma ScalarPositive(a: Body, b: Body, hypot: (real, real) -> real)
    requires IsHypot(hypot) && a.mass > 0.0 && b.mass > 0.0 && a.charge * b.charge < 0.0
    requires !OutOfRange(a, b, hypot)
    ensures PairScalar(a, b, hypot) > 0.0
  {
    var d := hypot(b.x - a.x, b.y - a.y);
    assert d > 0.0;
    assert a.charge != 0.0 && b.charge != 0.0;
    AttractionPositive(a.mass, b.mass, a.charge, b.charge, d);
  }

  /** A positive pair scalar makes the force on a point from a towards b along the axis. */
  lemma ForceAlongDelta(a: Body, b: Body, hypot: (real, real) -> real, axis: Axis)
    requires IsHypot(hypot) && !OutOfRange(a, b, hypot) && PairScalar(a, b, hypot) > 0.0
    ensures var delta := if axis == X then b.x - a.x else b.y - a.y;
      PairForce(a, b, hypot, axis) * delta >= 0.0 && (delta != 0.0 ==> PairForce(a, b, hypot, axis) != 0.0)
  {
    var d := hypot(b.x - a.x, b.y - a.y);
    assert d > 0.0;
    ComponentAlongDelta(PairScalar(a, b, hypot), if axis == X then b.x - a.x else b.y - a.y, d);
  }

  /** Gravity minus a Coulomb term of opposite charges is positive at a positive distance. */
  lemma AttractionPositive(m1: real, m2: real, q1: real, q2: real, d: real)
    requires m1 > 0.0 && m2 > 0.0 && q1 * q2 < 0.0 && d > 0.0
    ensures Gravity * m1 * m2 / (d * d) - Coulomb * q1 * q2 / (d * d) > 0.0
  {
    MulPos(d, d);
    MulPos(m1, m2);
    assert Gravity * m1 * m2 > 0.0;
    assert Coulomb * q1 * q2 < 0.0;
  }

  /** A positive scalar times delta / d points along delta, and is non-zero when delta is. */
  lemma ComponentAlongDelta(s: real, delta: real, d: real)
    requires s > 0.0 && d > 0.0
    ensures (s * delta / d * ForceScale) * delta >= 0.0
    ensures delta != 0.0 ==> s * delta / d * ForceScale != 0.0
  {
    var t := s / d;
    assert s * delta / d * ForceScale == t * delta;
    assert t * delta * delta == t * (delta * delta);
    if delta != 0.0 {
      assert delta * delta > 0.0;
      MulPos(t, delta * delta);
    }
  }

}
