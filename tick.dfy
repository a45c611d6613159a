/**
 * The module-level functions one simulation tick runs over the whole population: the
 * pair loop of apply_gravity_and_forces and handle_collisions.
 */
module Tick {
  import opened Config
  import opened Physics
  import opened Atoms

  // ---------------------------------------------------------------------------------
  // apply_gravity_and_forces: reset, then the pair loop over i < j
  // ---------------------------------------------------------------------------------

  /** The accumulated forces of the list on one axis, in list order. */
  function Forces(atoms: seq<Atom>, axis: Axis): (r: seq<real>)
    reads atoms`fx, atoms`fy
    ensures |r| == |atoms|
    ensures forall k :: 0 <= k < |atoms| ==> r[k] == if axis == X then atoms[k].fx else atoms[k].fy
  {
    if atoms == [] then []
    else Forces(atoms[..|atoms| - 1], axis) + [if axis == X then atoms[|atoms| - 1].fx else atoms[|atoms| - 1].fy]
  }

  /** The first loop of apply_gravity_and_forces: every atom's force accumulator is zeroed. */
  method ResetForces(atoms: seq<Atom>)
    modifies atoms`fx, atoms`fy
    ensures forall k :: 0 <= k < |atoms| ==> atoms[k].fx == 0.0 && atoms[k].fy == 0.0
  {
    var i := 0;
    while i < |atoms|
      invariant i <= |atoms|
      invariant forall k :: 0 <= k < i ==> atoms[k].fx == 0.0 && atoms[k].fy == 0.0
    {
      atoms[i].ResetForce();
      i := i + 1;
    }
  }

  /** An atom's position, mass and charge as a body at rest: all the pair loop reads of it. */
  function Placement(a: Atom): (b: Body)
    reads a`x, a`y, a`mass, a`charge
  {
    Body(a.x, a.y, 0.0, 0.0, a.mass, a.charge)
  }

  function Placements(atoms: seq<Atom>): (r: seq<Body>)
    reads atoms`x, atoms`y, atoms`mass, atoms`charge
    ensures |r| == |atoms| && forall k :: 0 <= k < |atoms| ==> r[k] == Placement(atoms[k])
  {
    if atoms == [] then [] else Placements(atoms[..|atoms| - 1]) + [Placement(atoms[|atoms| - 1])]
  }

  /** The velocities of the list on one axis, in list order. */
  function Velocities(atoms: seq<Atom>, axis: Axis): (r: seq<real>)
    reads atoms`vx, atoms`vy
    ensures |r| == |atoms|
    ensures forall k :: 0 <= k < |atoms| ==> r[k] == if axis == X then atoms[k].vx else atoms[k].vy
  {
    if atoms == [] then []
    else Velocities(atoms[..|atoms| - 1], axis) + [if axis == X then atoms[|atoms| - 1].vx else atoms[|atoms| - 1].vy]
  }

  /**
   * The body of the pair loop for a and b: skip a pair at distance 0 or beyond the
   * threshold; otherwise apply the pair force to a and its opposite to b.
   */
  method PairStep(a: Atom, b: Atom, hypot: (real, real) -> real)
    requires a != b && a.mass != 0.0 && b.mass != 0.0
    modifies a`fx, a`fy, a`vx, a`vy, b`fx, b`fy, b`vx, b`vy
    ensures var fx, fy := PairPush(Placement(a), Placement(b), hypot, X), PairPush(Placement(a), Placement(b), hypot, Y);
            a.fx == old(a.fx) + fx && a.fy == old(a.fy) + fy && b.fx == old(b.fx) - fx && b.fy == old(b.fy) - fy &&
            a.vx == old(a.vx) + fx / a.mass && a.vy == old(a.vy) + fy / a.mass &&
            b.vx == old(b.vx) + -fx / b.mass && b.vy == old(b.vy) + -fy / b.mass
  {
    var distance := hypot(b.x - a.x, b.y - a.y);
    if distance == 0.0 || distance > ForceThreshold {
      return;
    }
    // (Fg - Fe) * dx / distance * FORCE_SCALE, and likewise for dy
    var fx := PairForce(Placement(a), Placement(b), hypot, X);
    var fy := PairForce(Placement(a), Placement(b), hypot, Y);
    a.ApplyForce(fx, fy);
    b.ApplyForce(-fx, -fy);
  }

  /**
   * How far the row of pair forces on atom k has been accumulated when the pair loop
   * is at pair (i, j): rows of earlier atoms are complete, atom i has received the
   * pairs (i, q) for q < j, and a later atom k has received the pairs (p, k) for p < i
   * and, when k < j, also (i, k).
   */
  function Reach(n: nat, i: nat, j: nat, k: nat): nat {
    if k < i then n else if k == i then j else if k < j then i + 1 else i
  }

  lemma NoForceNoKick(f: real, m: real)
    requires f == 0.0 && m != 0.0
    ensures f / m == 0.0
  {
  }

  lemma AddQuotient(a: real, b: real, m: real)
    requires m != 0.0
    ensures (a + b) / m == a / m + b / m
  {
  }

  /**
   * The state of atom k when the pair loop is at pair (i, j), against its placement
   * `p` and its velocity (vx0, vy0) before the loop: position, mass and charge are
   * unchanged, the accumulator holds its partial row of pair forces, and the velocity
   * has moved by the accumulated force over the mass.
   */
  ghost predicate AtomAt(a: Atom, ps: seq<Body>, vx0: real, vy0: real, r: nat, k: nat, hypot: (real, real) -> real)
    reads a`x, a`y, a`mass, a`charge, a`fx, a`fy, a`vx, a`vy
  {
    k < |ps| && r <= |ps| && Placement(a) == ps[k] && ps[k].mass != 0.0 &&
    a.fx == RowSum(ps, k, r, hypot, X) && a.fy == RowSum(ps, k, r, hypot, Y) &&
    a.vx == vx0 + a.fx / ps[k].mass && a.vy == vy0 + a.fy / ps[k].mass
  }

  /** The state of the whole list when the pair loop is at pair (i, j). */
  ghost predicate PairLoopAt(atoms: seq<Atom>, ps: seq<Body>, v: seq<real>, w: seq<real>, i: nat, j: nat,
                             hypot: (real, real) -> real)
    reads atoms`x, atoms`y, atoms`mass, atoms`charge, atoms`fx, atoms`fy, atoms`vx, atoms`vy
  {
    |atoms| == |ps| == |v| == |w| && i <= |ps| && j <= |ps| &&
    forall k :: 0 <= k < |atoms| ==> AtomAt(atoms[k], ps, v[k], w[k], Reach(|ps|, i, j, k), k, hypot)
  }

  /** The inner loop of the pair loop: atom i against every later atom. */
  method PairRow(atoms: seq<Atom>, i: nat, hypot: (real, real) -> real,
                 ghost ps: seq<Body>, ghost v: seq<real>, ghost w: seq<real>)
    requires Distinct(atoms) && i < |atoms|
    requires PairLoopAt(atoms, ps, v, w, i, i, hypot)
    modifies atoms`fx, atoms`fy, atoms`vx, atoms`vy
    ensures PairLoopAt(atoms, ps, v, w, i + 1, i + 1, hypot)
  {
    RowStarts(atoms, ps, v, w, i, hypot);
    PairColumns(atoms, i, hypot, ps, v, w);
    RowEnds(atoms, ps, v, w, i, hypot);
  }

  /** The inner loop over j > i of the pair loop. */
  method PairColumns(atoms: seq<Atom>, i: nat, hypot: (real, real) -> real,
                     ghost ps: seq<Body>, ghost v: seq<real>, ghost w: seq<real>)
    requires Distinct(atoms) && i < |atoms|
    requires PairLoopAt(atoms, ps, v, w, i, i + 1, hypot)
    modifies atoms`fx, atoms`fy, atoms`vx, atoms`vy
    ensures PairLoopAt(atoms, ps, v, w, i, |atoms|, hypot)
  {
    var j := i + 1;
    while j < |atoms|
      invariant i + 1 <= j <= |atoms|
      invariant PairLoopAt(atoms, ps, v, w, i, j, hypot)
    {
      j := PairVisit(atoms, i, j, hypot, ps, v, w);
    }
  }

  /** Starting row i changes nothing: atom i exerts no force on itself. */
  lemma RowStarts(atoms: seq<Atom>, ps: seq<Body>, v: seq<real>, w: seq<real>, i: nat, hypot: (real, real) -> real)
    requires i < |atoms| && PairLoopAt(atoms, ps, v, w, i, i, hypot)
    ensures PairLoopAt(atoms, ps, v, w, i, i + 1, hypot)
  {
    var n := |atoms|;
    forall k | 0 <= k < n
      ensures AtomAt(atoms[k], ps, v[k], w[k], Reach(n, i, i + 1, k), k, hypot)
    {
      assert AtomAt(atoms[k], ps, v[k], w[k], Reach(n, i, i, k), k, hypot);
      if k == i {
        assert RowSum(ps, i, i + 1, hypot, X) == RowSum(ps, i, i, hypot, X);
        assert RowSum(ps, i, i + 1, hypot, Y) == RowSum(ps, i, i, hypot, Y);
      }
    }
  }

  /** The end of row i is the start of row i + 1. */
  lemma RowEnds(atoms: seq<Atom>, ps: seq<Body>, v: seq<real>, w: seq<real>, i: nat, hypot: (real, real) -> real)
    requires i < |atoms| && PairLoopAt(atoms, ps, v, w, i, |atoms|, hypot)
    ensures PairLoopAt(atoms, ps, v, w, i + 1, i + 1, hypot)
  {
    var n := |atoms|;
    forall k | 0 <= k < n
      ensures AtomAt(atoms[k], ps, v[k], w[k], Reach(n, i + 1, i + 1, k), k, hypot)
    {
      assert AtomAt(atoms[k], ps, v[k], w[k], Reach(n, i, n, k), k, hypot);
    }
  }

  /** One visit of the pair (i, j) advances the loop state from (i, j) to the next column. */
  method PairVisit(atoms: seq<Atom>, i: nat, j: nat, hypot: (real, real) -> real,
                   ghost ps: seq<Body>, ghost v: seq<real>, ghost w: seq<real>) returns (next: nat)
    requires Distinct(atoms) && i < j < |atoms|
    requires PairLoopAt(atoms, ps, v, w, i, j, hypot)
    modifies atoms`fx, atoms`fy, atoms`vx, atoms`vy
    ensures next == j + 1 && PairLoopAt(atoms, ps, v, w, i, next, hypot)
  {
    var n := |atoms|;
    var a, b := atoms[i], atoms[j];
    assert AtomAt(a, ps, v[i], w[i], j, i, hypot);
    assert AtomAt(b, ps, v[j], w[j], i, j, hypot);
    ghost var f, g := ForceOn(ps, i, j, hypot, X), ForceOn(ps, i, j, hypot, Y);
    assert f == PairPush(Placement(a), Placement(b), hypot, X) && g == PairPush(Placement(a), Placement(b), hypot, Y);
    assert ForceOn(ps, j, i, hypot, X) == -f && ForceOn(ps, j, i, hypot, Y) == -g;
    ghost var fa, ga, fb, gb := a.fx, a.fy, b.fx, b.fy;
    PairStep(a, b, hypot);
    AddQuotient(fa, f, ps[i].mass);
    AddQuotient(ga, g, ps[i].mass);
    AddQuotient(fb, -f, ps[j].mass);
    AddQuotient(gb, -g, ps[j].mass);
    assert AtomAt(a, ps, v[i], w[i], j + 1, i, hypot);
    assert AtomAt(b, ps, v[j], w[j], i + 1, j, hypot);
    forall k | 0 <= k < n
      ensures AtomAt(atoms[k], ps, v[k], w[k], Reach(n, i, j + 1, k), k, hypot)
    {
      if k != i && k != j {
        assert atoms[k] != a && atoms[k] != b;
        assert old(AtomAt(atoms[k], ps, v[k], w[k], Reach(n, i, j, k), k, hypot));
      }
    }
    next := j + 1;
  }

  /**
   * The reset loop and the pair loop of apply_gravity_and_forces. Afterwards each atom's
   * accumulator holds exactly its net pair force, computed from the positions, masses
   * and charges before the loop; each velocity has moved by that force over the mass;
   * and the forces add up to zero on each axis.
   */
  method ApplyPairForces(atoms: seq<Atom>, hypot: (real, real) -> real)
    requires Distinct(atoms)
    requires forall k :: 0 <= k < |atoms| ==> atoms[k].mass != 0.0
    modifies atoms`fx, atoms`fy, atoms`vx, atoms`vy
    ensures Forces(atoms, X) == NetForces(old(Placements(atoms)), hypot, X)
    ensures Forces(atoms, Y) == NetForces(old(Placements(atoms)), hypot, Y)
    ensures forall k :: 0 <= k < |atoms| ==>
              atoms[k].vx == old(atoms[k].vx) + atoms[k].fx / atoms[k].mass &&
              atoms[k].vy == old(atoms[k].vy) + atoms[k].fy / atoms[k].mass
    ensures Sum(Forces(atoms, X)) == 0.0 && Sum(Forces(atoms, Y)) == 0.0
  {
    ghost var ps := Placements(atoms);
    ghost var v, w := Velocities(atoms, X), Velocities(atoms, Y);
    ResetForces(atoms);
    LoopStarts(atoms, ps, v, w, hypot);
    PairRows(atoms, hypot, ps, v, w);
    LoopEnds(atoms, ps, v, w, hypot);
    NetForcesBalance(ps, hypot, X);
    NetForcesBalance(ps, hypot, Y);
  }

  /** The outer loop over i of the pair loop. */
  method PairRows(atoms: seq<Atom>, hypot: (real, real) -> real, ghost ps: seq<Body>, ghost v: seq<real>, ghost w: seq<real>)
    requires Distinct(atoms)
    requires PairLoopAt(atoms, ps, v, w, 0, 0, hypot)
    modifies atoms`fx, atoms`fy, atoms`vx, atoms`vy
    ensures PairLoopAt(atoms, ps, v, w, |atoms|, |atoms|, hypot)
  {
    var i := 0;
    while i < |atoms|
      invariant i <= |atoms|
      invariant PairLoopAt(atoms, ps, v, w, i, i, hypot)
    {
      PairRow(atoms, i, hypot, ps, v, w);
      i := i + 1;
    }
  }

  /** Right after the reset the pair loop is at its start. */
  lemma LoopStarts(atoms: seq<Atom>, ps: seq<Body>, v: seq<real>, w: seq<real>, hypot: (real, real) -> real)
    requires ps == Placements(atoms) && v == Velocities(atoms, X) && w == Velocities(atoms, Y)
    requires forall k :: 0 <= k < |atoms| ==> atoms[k].mass != 0.0 && atoms[k].fx == 0.0 && atoms[k].fy == 0.0
    ensures PairLoopAt(atoms, ps, v, w, 0, 0, hypot)
  {
    forall k | 0 <= k < |atoms|
      ensures AtomAt(atoms[k], ps, v[k], w[k], Reach(|ps|, 0, 0, k), k, hypot)
    {
      assert Placement(atoms[k]) == ps[k];
      NoForceNoKick(atoms[k].fx, ps[k].mass);
      NoForceNoKick(atoms[k].fy, ps[k].mass);
    }
  }

  /** After the last row every accumulator holds the net pair force. */
  lemma LoopEnds(atoms: seq<Atom>, ps: seq<Body>, v: seq<real>, w: seq<real>, hypot: (real, real) -> real)
    requires PairLoopAt(atoms, ps, v, w, |atoms|, |atoms|, hypot)
    ensures Forces(atoms, X) == NetForces(ps, hypot, X) && Forces(atoms, Y) == NetForces(ps, hypot, Y)
    ensures forall k :: 0 <= k < |atoms| ==>
              atoms[k].vx == v[k] + atoms[k].fx / atoms[k].mass && atoms[k].vy == w[k] + atoms[k].fy / atoms[k].mass
  {
    forall k | 0 <= k < |atoms|
      ensures atoms[k].fx == NetForce(ps, k, hypot, X) && atoms[k].fy == NetForce(ps, k, hypot, Y)
      ensures atoms[k].vx == v[k] + atoms[k].fx / atoms[k].mass && atoms[k].vy == w[k] + atoms[k].fy / atoms[k].mass
    {
      assert AtomAt(atoms[k], ps, v[k], w[k], Reach(|ps|, |ps|, |ps|, k), k, hypot);
    }
  }

  // ---------------------------------------------------------------------------------
  // handle_collisions
  // ---------------------------------------------------------------------------------

  /**
   * handle_collisions: every pair i < j that touches is resolved, in loop order. The
   * list's momentum is unchanged on each axis.
   */
  method HandleCollisions(atoms: seq<Atom>, hypot: (real, real) -> real)
    requires Distinct(atoms)
    requires forall k :: 0 <= k < |atoms| ==> atoms[k].mass > 0.0
    modifies atoms`vx, atoms`vy
    ensures Momentum(atoms, X) == old(Momentum(atoms, X)) && Momentum(atoms, Y) == old(Momentum(atoms, Y))
  {
    var i := 0;
    while i < |atoms|
      invariant i <= |atoms|
      invariant Momentum(atoms, X) == old(Momentum(atoms, X)) && Momentum(atoms, Y) == old(Momentum(atoms, Y))
    {
      CollideRow(atoms, i, hypot);
      i := i + 1;
    }
  }

  /** The inner loop of handle_collisions: atom i against every later atom. */
  method CollideRow(atoms: seq<Atom>, i: nat, hypot: (real, real) -> real)
    requires Distinct(atoms) && i < |atoms|
    requires forall k :: 0 <= k < |atoms| ==> atoms[k].mass > 0.0
    modifies atoms`vx, atoms`vy
    ensures Momentum(atoms, X) == old(Momentum(atoms, X)) && Momentum(atoms, Y) == old(Momentum(atoms, Y))
  {
    var j := i + 1;
    while j < |atoms|
      invariant Momentum(atoms, X) == old(Momentum(atoms, X)) && Momentum(atoms, Y) == old(Momentum(atoms, Y))
    {
      atoms[i].CollideIfTouching(atoms[j], hypot, atoms);
      j := j + 1;
    }
  }
}
