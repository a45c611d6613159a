/**
 * The atoms of the simulation and the population list they live in.
 *
 * An `Atom` is an object whose fields the simulation updates in place; the population is
 * a Python list of atoms that some operations read and others change (eat removes a food
 * atom, mate_with appends an offspring), modelled by the class `Population`. Python
 * compares atoms by identity (the class has no __eq__), which is reference equality here.
 *
 * Distances go through `hypot`, a parameter standing for math.hypot; random draws are
 * parameters bounded like the random.uniform calls they replace.
 */
module Atoms {
  import opened Wrappers
  import opened Config
  import opened Physics

  /** An RGB colour; the simulation only ever builds components in 0..255. */
  datatype Color = Color(r: int, g: int, b: int)

  /**
   * One colour component of an offspring: Python's (c1 + c2) // 2. Dafny's `/` on int
   * with a positive divisor rounds toward negative infinity as `//` does, so the
   * component lies between the parents' components, at most half a unit below their mean.
   */
  function Midpoint(c1: int, c2: int): (m: int)
    ensures (if c1 <= c2 then c1 else c2) <= m <= (if c1 <= c2 then c2 else c1)
    ensures 2 * m <= c1 + c2 <= 2 * m + 1
  {
    (c1 + c2) / 2
  }

  function Min(a: real, b: real): (m: real)
    ensures m <= a && m <= b && (m == a || m == b)
  {
    if a <= b then a else b
  }

  /**
   * The inherited traits of an atom: what combine_atoms reads from the parents and
   * passes to the offspring's constructor, plus the health it overwrites afterwards.
   */
  datatype Traits = Traits(x: real, y: real, vx: real, vy: real, mass: real, charge: real,
                           size: real, color: Color, species: string, health: real)

  /**
   * combine_atoms on values: mass is the sum, charge, size and velocity are the means,
   * each colour component is the floored mean, health is the lower of the two, and the
   * position and species are those of the first parent.
   */
  function Blend(p: Traits, q: Traits): (r: Traits)
    ensures r.mass == p.mass + q.mass
    ensures r.charge - p.charge == q.charge - r.charge && r.size - p.size == q.size - r.size
    ensures r.vx - p.vx == q.vx - r.vx && r.vy - p.vy == q.vy - r.vy
    ensures r.health <= p.health && r.health <= q.health && (r.health == p.health || r.health == q.health)
    ensures r.x == p.x && r.y == p.y && r.species == p.species
    ensures r.color == Color(Midpoint(p.color.r, q.color.r), Midpoint(p.color.g, q.color.g),
                             Midpoint(p.color.b, q.color.b))
  {
    Traits(p.x, p.y, (p.vx + q.vx) / 2.0, (p.vy + q.vy) / 2.0, p.mass + q.mass,
           (p.charge + q.charge) / 2.0, (p.size + q.size) / 2.0,
           Color((p.color.r + q.color.r) / 2, (p.color.g + q.color.g) / 2, (p.color.b + q.color.b) / 2),
           p.species, Min(p.health, q.health))
  }

  /** Offspring of two parents whose colours are valid RGB are valid RGB too. */
  lemma BlendKeepsColorRange(p: Traits, q: Traits)
    requires ValidColor(p.color) && ValidColor(q.color)
    ensures ValidColor(Blend(p, q).color)
  {
  }

  predicate ValidColor(c: Color) {
    0 <= c.r <= 255 && 0 <= c.g <= 255 && 0 <= c.b <= 255
  }

  /**
   * The countdown decide_behavior applies to the reproduction cooldown: one unit per
   * call while positive. A cooldown that is a whole number, as 0 and 60 are, stays a
   * whole number and never drops below zero.
   */
  function CountDown(c: real): (r: real)
    ensures r <= c && (c > 0.0 ==> r == c - 1.0) && (c <= 0.0 ==> r == c)
  {
    if c > 0.0 then c - 1.0 else c
  }

  lemma {:induction false} CountDownFromWhole(n: nat, k: nat)
    ensures Iterate(n as real, k) == (if k <= n then n - k else 0) as real
  {
    if k > 0 {
      CountDownFromWhole(n, k - 1);
    }
  }

  /** k successive countdowns. */
  function Iterate(c: real, k: nat): real {
    if k == 0 then c else CountDown(Iterate(c, k - 1))
  }

  /** The random.uniform draws one decide_behavior call may consume. */
  datatype Draws = Draws(jitterX: real, jitterY: real, panicX: real, panicY: real,
                         wanderX: real, wanderY: real)

  /** Each draw within the interval its random.uniform call uses. */
  predicate ValidDraws(d: Draws) {
    -WanderSpread <= d.jitterX <= WanderSpread && -WanderSpread <= d.jitterY <= WanderSpread &&
    -PanicSpread <= d.panicX <= PanicSpread && -PanicSpread <= d.panicY <= PanicSpread &&
    -WanderSpread <= d.wanderX <= WanderSpread && -WanderSpread <= d.wanderY <= WanderSpread
  }

  /** The two nearest-atom searches: find_nearest_food looks at food atoms (self included), find_nearest_atom at every other atom. */
  datatype Search = FoodSearch | AtomSearch

  /** The steering target decide_behavior picks, by index into the population. */
  datatype Steering = SeekFood(food: nat) | NoFood | SeekMate(mate: nat) | NoMate | Hunt(prey: nat) | Roam

  /** The atom at an optional index, as the searches return it (None when absent). */
  function Pick(atoms: seq<Atom>, i: Option<nat>): Option<Atom> {
    if i.Some? && i.value < |atoms| then Some(atoms[i.value]) else None
  }

  /** No atom occurs twice in the list. */
  predicate Distinct(atoms: seq<Atom>) {
    forall i, j :: 0 <= i < j < |atoms| ==> atoms[i] != atoms[j]
  }

  /** The position of the first occurrence of `a` (atoms compare by identity). */
  function IndexOf(s: seq<Atom>, a: Atom): (i: nat)
    requires a in s
    ensures i < |s| && s[i] == a && a !in s[..i]
  {
    if s[0] == a then 0 else
      assert a in s[1..];
      var k := IndexOf(s[1..], a);
      assert s[..k + 1] == [s[0]] + s[1..][..k];
      k + 1
  }

  /**
   * Python's list.remove: drop the first element identical to `a`; the others keep
   * their order. (list.remove raises ValueError when `a` is absent.)
   */
  function RemoveFirst(s: seq<Atom>, a: Atom): (r: seq<Atom>)
    requires a in s
    ensures |r| == |s| - 1
    ensures forall k :: 0 <= k < |s| && s[k] == a && a !in s[..k] ==> r == s[..k] + s[k + 1..]
  {
    var i := IndexOf(s, a);
    assert s == s[..i] + [a] + s[i + 1..];
    assert forall k :: 0 <= k < |s| && s[k] == a && a !in s[..k] ==> k == i by {
      forall k | 0 <= k < |s| && s[k] == a && a !in s[..k]
        ensures k == i
      {
        assert forall j :: 0 <= j < i ==> s[..i][j] == s[j];
        assert forall j :: 0 <= j < k ==> s[..k][j] == s[j];
      }
    }
    s[..i] + s[i + 1..]
  }

  class Atom {
    var x: real
    var y: real
    var vx: real
    var vy: real
    var mass: real
    var charge: real
    var size: real
    var color: Color
    var species: string
    var energy: real
    var hunger: real
    var health: real
    var age: int
    var trail: seq<(real, real)>
    var fx: real
    var fy: real
    var inBattle: bool
    var cooldown: real

    /** A new atom: full energy, hunger and health, age 0, no trail, no force, no cooldown. */
    constructor (x: real, y: real, vx: real, vy: real, mass: real, charge: real, size: real,
                 color: Color, species: string)
      ensures this.x == x && this.y == y && this.vx == vx && this.vy == vy
      ensures this.mass == mass && this.charge == charge && this.size == size
      ensures this.color == color && this.species == species
      ensures energy == VitalCap && hunger == VitalCap && health == VitalCap && age == 0
      ensures trail == [] && fx == 0.0 && fy == 0.0 && !inBattle && cooldown == 0.0
    {
      this.x := x;
      this.y := y;
      this.vx := vx;
      this.vy := vy;
      this.mass := mass;
      this.charge := charge;
      this.size := size;
      this.color := color;
      this.species := species;
      energy := VitalCap;
      hunger := VitalCap;
      health := VitalCap;
      age := 0;
      trail := [];
      fx := 0.0;
      fy := 0.0;
      inBattle := false;
      cooldown := 0.0;
    }

    /** The physical state of this atom as a value. */
    function Snapshot(): Body
      reads this`x, this`y, this`vx, this`vy, this`mass, this`charge
    {
      Body(x, y, vx, vy, mass, charge)
    }

    /** The traits combine_atoms reads from a parent. */
    function Inherited(): Traits
      reads this`x, this`y, this`vx, this`vy, this`mass, this`charge, this`size, this`color,
            this`species, this`health
    {
      Traits(x, y, vx, vy, mass, charge, size, color, species, health)
    }

    /** The state the constructor leaves besides the traits it is given. */
    predicate Newborn()
      reads this`energy, this`hunger, this`age, this`trail, this`fx, this`fy, this`inBattle, this`cooldown
    {
      energy == VitalCap && hunger == VitalCap && age == 0 && trail == [] &&
      fx == 0.0 && fy == 0.0 && !inBattle && cooldown == 0.0
    }

    /** Accumulate a force and let it change the velocity by force / mass. */
    method ApplyForce(fx': real, fy': real)
      requires mass != 0.0
      modifies this`fx, this`fy, this`vx, this`vy
      ensures fx == old(fx) + fx' && fy == old(fy) + fy'
      ensures vx == old(vx) + fx' / mass && vy == old(vy) + fy' / mass
    {
      fx := fx + fx';
      fy := fy + fy';
      vx := vx + fx' / mass;
      vy := vy + fy' / mass;
    }

    method ResetForce()
      modifies this`fx, this`fy
      ensures fx == 0.0 && fy == 0.0
    {
      fx := 0.0;
      fy := 0.0;
    }

    /** Reflect the velocity on each axis where the atom lies outside the window, then clamp the position. */
    method CheckBounds()
      modifies this`x, this`y, this`vx, this`vy
      ensures (x, vx) == Bounce(old(x), old(vx)) && (y, vy) == Bounce(old(y), old(vy))
      ensures 0.0 <= x <= WindowSize && 0.0 <= y <= WindowSize
    {
      if x < 0.0 || x > WindowSize {
        vx := -vx;
      }
      if y < 0.0 || y > WindowSize {
        vy := -vy;
      }
      x := Clamp(x, 0.0, WindowSize);
      y := Clamp(y, 0.0, WindowSize);
    }

    /**
     * One step of motion at the given simulation speed: move, damp, keep inside the
     * window, cap the speed, store the kinetic energy and extend the trail.
     */
    method UpdatePosition(speed: real)
      modifies this`x, this`y, this`vx, this`vy, this`energy, this`trail
      ensures (x, vx) == MoveAxis(old(x), old(vx), speed) && (y, vy) == MoveAxis(old(y), old(vy), speed)
      ensures energy == KineticEnergy(mass, vx, vy)
      ensures trail == TrailPush(old(trail), (x, y))
    {
      ghost var x0, vx0, y0, vy0 := x, vx, y, vy;
      Advance(speed);
      MoveAxisSteps(x0, vx0, speed, x, vx);
      MoveAxisSteps(y0, vy0, speed, y, vy);
      CheckBounds();
      vx := Clamp(vx, -MaxVelocity, MaxVelocity);
      vy := Clamp(vy, -MaxVelocity, MaxVelocity);
      energy := KineticEnergy(mass, vx, vy);
      ExtendTrail();
    }

    /** Move by one step of the velocity, then damp the velocity. */
    method Advance(speed: real)
      modifies this`x, this`y, this`vx, this`vy
      ensures x == old(x) + old(vx) * speed && y == old(y) + old(vy) * speed
      ensures vx == old(vx) * DampingFactor && vy == old(vy) * DampingFactor
    {
      x := x + vx * speed;
      y := y + vy * speed;
      vx := vx * DampingFactor;
      vy := vy * DampingFactor;
    }

    /** Append the current position to the trail, dropping the oldest entry beyond TrailLength. */
    method ExtendTrail()
      modifies this`trail
      ensures trail == TrailPush(old(trail), (x, y))
    {
      trail := trail + [(x, y)];
      if |trail| > TrailLength {
        trail := trail[1..];
      }
    }

    /** The centre of the atom. */
    function Position(): (real, real)
      reads this`x, this`y
    {
      (x, y)
    }

    /** The distance math.hypot gives from this atom's centre to another's. */
    function DistanceTo(other: Atom, hypot: (real, real) -> real): real
      reads this`x, this`y, other`x, other`y
    {
      hypot(x - other.x, y - other.y)
    }

    /** Two atoms collide when their centres are closer than the sum of their sizes. */
    predicate CheckCollision(other: Atom, hypot: (real, real) -> real)
      reads this`x, this`y, this`size, other`x, other`y, other`size
    {
      DistanceTo(other, hypot) < size + other.size
    }

    /** With a true distance, an atom of positive size collides with itself. */
    lemma CollidesWithItself(hypot: (real, real) -> real)
      requires IsHypot(hypot) && size > 0.0
      ensures CheckCollision(this, hypot)
    {
      HypotOfZero(hypot);
      assert x - x == 0.0 && y - y == 0.0;
    }

    /**
     * The collision response of the source: with other != this the two velocities become
     * those Collide computes (so momentum is conserved); an atom colliding with itself is
     * left unchanged.
     */
    method ResolveCollision(other: Atom, hypot: (real, real) -> real)
      requires mass + other.mass != 0.0
      modifies this`vx, this`vy, other`vx, other`vy
      ensures other != this ==>
                var (a, b) := Collide(old(Snapshot()), old(other.Snapshot()), hypot);
                vx == a.vx && vy == a.vy && other.vx == b.vx && other.vy == b.vy
      ensures other == this ==> vx == old(vx) && vy == old(vy)
    {
      var a, b := Snapshot(), other.Snapshot();
      var nx := other.x - x;
      var ny := other.y - y;
      var distance := hypot(nx, ny);
      if distance == 0.0 {
        assert Collide(a, b, hypot) == (a, b);
        return;
      }
      nx := nx / distance;
      ny := ny / distance;
      var dvx := vx - other.vx;
      var dvy := vy - other.vy;
      var vn := dvx * nx + dvy * ny;
      assert vn == Closing(a, b, nx, ny);
      if vn > 0.0 {
        assert Collide(a, b, hypot) == (a, b);
        return;
      }
      // the damped impulse 2 * vn / (m1 + m2), exchanged along the normal
      var (a', b') := ExchangeImpulse(a, b, nx, ny, vn);
      assert Collide(a, b, hypot) == (a', b');
      if other == this {
        assert nx == 0.0 && ny == 0.0;
      }
      vx, vy := a'.vx, a'.vy;
      other.vx, other.vy := b'.vx, b'.vy;
    }

    // -------------------------------------------------------------------------------
    // The searches over the population
    // -------------------------------------------------------------------------------

    /** Whether `a` is looked at by a nearest-atom search (atoms compare by identity). */
    predicate Candidate(a: Atom, search: Search)
      reads a`species
    {
      match search
      case FoodSearch => a.species == FoodSpecies
      case AtomSearch => a != this
    }

    /** The index a nearest-atom search holds after scanning atoms[..k]. */
    function Nearest(atoms: seq<Atom>, k: nat, search: Search, hypot: (real, real) -> real): (r: Option<nat>)
      requires k <= |atoms|
      reads this`x, this`y, atoms`x, atoms`y, atoms`species
      ensures r.Some? ==> r.value < k && Candidate(atoms[r.value], search)
    {
      if k == 0 then None
      else
        var best := Nearest(atoms, k - 1, search, hypot);
        if Candidate(atoms[k - 1], search) &&
           (best.None? || DistanceTo(atoms[k - 1], hypot) < DistanceTo(atoms[best.value], hypot))
        then Some(k - 1)
        else best
    }

    /**
     * The search starts from an infinite best distance and replaces its choice only on
     * a strictly smaller distance, so it holds a candidate at minimal distance, the
     * earliest of those tied, and None exactly when atoms[..k] has no candidate.
     */
    lemma {:induction false} NearestIsEarliestMinimum(atoms: seq<Atom>, k: nat, search: Search, hypot: (real, real) -> real)
      requires k <= |atoms|
      ensures var r := Nearest(atoms, k, search, hypot);
              (r.None? <==> forall j :: 0 <= j < k ==> !Candidate(atoms[j], search)) &&
              (r.Some? ==> forall j :: 0 <= j < k && Candidate(atoms[j], search) ==>
                             DistanceTo(atoms[r.value], hypot) <= DistanceTo(atoms[j], hypot)) &&
              (r.Some? ==> forall j :: 0 <= j < r.value && Candidate(atoms[j], search) ==>
                             DistanceTo(atoms[r.value], hypot) < DistanceTo(atoms[j], hypot))
    {
      if k > 0 {
        NearestIsEarliestMinimum(atoms, k - 1, search, hypot);
      }
    }

    /**
     * atoms[k] is what a nearest-atom search over the whole list settles on: a candidate
     * at minimal distance, strictly nearer than every earlier candidate.
     */
    predicate IsNearest(atoms: seq<Atom>, k: nat, search: Search, hypot: (real, real) -> real)
      reads this`x, this`y, atoms`x, atoms`y, atoms`species
    {
      k < |atoms| && Candidate(atoms[k], search) &&
      (forall j :: 0 <= j < |atoms| && Candidate(atoms[j], search) ==>
         DistanceTo(atoms[k], hypot) <= DistanceTo(atoms[j], hypot)) &&
      (forall j :: 0 <= j < k && Candidate(atoms[j], search) ==>
         DistanceTo(atoms[k], hypot) < DistanceTo(atoms[j], hypot))
    }

    /** The search over the whole list finds the unique IsNearest index, or None when there is no candidate. */
    lemma NearestFound(atoms: seq<Atom>, search: Search, hypot: (real, real) -> real)
      ensures var r := Nearest(atoms, |atoms|, search, hypot);
              (r.None? <==> forall j :: 0 <= j < |atoms| ==> !Candidate(atoms[j], search)) &&
              (r.Some? ==> IsNearest(atoms, r.value, search, hypot)) &&
              (forall k: nat :: IsNearest(atoms, k, search, hypot) ==> r == Some(k))
    {
      NearestIsEarliestMinimum(atoms, |atoms|, search, hypot);
      var r := Nearest(atoms, |atoms|, search, hypot);
      forall k: nat | IsNearest(atoms, k, search, hypot)
        ensures r == Some(k)
      {
        assert r.Some?;
      }
    }

    method FindNearestFood(atoms: seq<Atom>, hypot: (real, real) -> real) returns (food: Option<Atom>)
      ensures food == Pick(atoms, Nearest(atoms, |atoms|, FoodSearch, hypot))
    {
      food := None;
      var closestDistance := 0.0;
      ghost var best: Option<nat> := None;
      var i := 0;
      while i < |atoms|
        invariant i <= |atoms|
        invariant best == Nearest(atoms, i, FoodSearch, hypot)
        invariant food == Pick(atoms, best)
        invariant best.Some? ==> closestDistance == DistanceTo(atoms[best.value], hypot)
      {
        var atom := atoms[i];
        assert Nearest(atoms, i + 1, FoodSearch, hypot) ==
               if Candidate(atom, FoodSearch) && (best.None? || DistanceTo(atom, hypot) < DistanceTo(atoms[best.value], hypot))
               then Some(i) else best;
        if atom.species == FoodSpecies {
          var distance := hypot(x - atom.x, y - atom.y);
          assert distance == DistanceTo(atom, hypot);
          if food.None? || distance < closestDistance {
            closestDistance := distance;
            food := Some(atom);
            best := Some(i);
          }
        }
        i := i + 1;
      }
    }

    /** The nearest atom other than self. */
    method FindNearestAtom(atoms: seq<Atom>, hypot: (real, real) -> real) returns (closest: Option<Atom>)
      ensures closest == Pick(atoms, Nearest(atoms, |atoms|, AtomSearch, hypot))
    {
      closest := None;
      var closestDistance := 0.0;
      ghost var best: Option<nat> := None;
      var i := 0;
      while i < |atoms|
        invariant i <= |atoms|
        invariant best == Nearest(atoms, i, AtomSearch, hypot)
        invariant closest == Pick(atoms, best)
        invariant best.Some? ==> closestDistance == DistanceTo(atoms[best.value], hypot)
      {
        var other := atoms[i];
        assert Nearest(atoms, i + 1, AtomSearch, hypot) ==
               if Candidate(other, AtomSearch) && (best.None? || DistanceTo(other, hypot) < DistanceTo(atoms[best.value], hypot))
               then Some(i) else best;
        if other != this {
          var distance := hypot(x - other.x, y - other.y);
          assert distance == DistanceTo(other, hypot);
          if closest.None? || distance < closestDistance {
            closestDistance := distance;
            closest := Some(other);
            best := Some(i);
          }
        }
        i := i + 1;
      }
    }

    /** A suitable mate: another atom of the same species, healthy (> 70) and off cooldown. */
    predicate IsMate(other: Atom)
      reads this`species, other`health, other`cooldown, other`species
    {
      other != this && other.health > MateHealth && other.cooldown == 0.0 && other.species == species
    }

    /** The first suitable mate in atoms[..k], in list order; distance plays no part. */
    function FirstMate(atoms: seq<Atom>, k: nat): (r: Option<nat>)
      requires k <= |atoms|
      reads this`species, atoms`health, atoms`cooldown, atoms`species
      ensures r.None? <==> forall j :: 0 <= j < k ==> !IsMate(atoms[j])
      ensures r.Some? ==> r.value < k && IsMate(atoms[r.value]) &&
                          forall j :: 0 <= j < r.value ==> !IsMate(atoms[j])
    {
      if k == 0 then None
      else
        var r := FirstMate(atoms, k - 1);
        if r.Some? then r else if IsMate(atoms[k - 1]) then Some(k - 1) else None
    }

    method FindMate(atoms: seq<Atom>) returns (mate: Option<Atom>)
      ensures mate == Pick(atoms, FirstMate(atoms, |atoms|))
    {
      var i := 0;
      while i < |atoms|
        invariant i <= |atoms|
        invariant forall j :: 0 <= j < i ==> !IsMate(atoms[j])
      {
        var other := atoms[i];
        if other != this && other.health > MateHealth && other.cooldown == 0.0 && other.species == species {
          return Some(other);
        }
        i := i + 1;
      }
      return None;
    }

    /** A food atom this atom collides with. */
    predicate Edible(a: Atom, hypot: (real, real) -> real)
      reads this`x, this`y, this`size, a`x, a`y, a`size, a`species
    {
      a.species == FoodSpecies && CheckCollision(a, hypot)
    }

    /** The first food atom in atoms[..k] this atom collides with. */
    function FirstEdible(atoms: seq<Atom>, k: nat, hypot: (real, real) -> real): (r: Option<nat>)
      requires k <= |atoms|
      reads this`x, this`y, this`size, atoms`x, atoms`y, atoms`size, atoms`species
      ensures r.None? <==> forall j :: 0 <= j < k ==> !Edible(atoms[j], hypot)
      ensures r.Some? ==> r.value < k && Edible(atoms[r.value], hypot) &&
                          forall j :: 0 <= j < r.value ==> !Edible(atoms[j], hypot)
    {
      if k == 0 then None
      else
        var r := FirstEdible(atoms, k - 1, hypot);
        if r.Some? then r else if Edible(atoms[k - 1], hypot) then Some(k - 1) else None
    }

    /**
     * A food atom of positive size that eats while it is in the list always finds food:
     * itself, unless an earlier food atom collides with it first.
     */
    lemma FoodEatsItself(atoms: seq<Atom>, k: nat, hypot: (real, real) -> real)
      requires IsHypot(hypot) && species == FoodSpecies && size > 0.0
      requires k < |atoms| && atoms[k] == this
      ensures FirstEdible(atoms, |atoms|, hypot).Some? && FirstEdible(atoms, |atoms|, hypot).value <= k
    {
      CollidesWithItself(hypot);
      assert Edible(atoms[k], hypot);
    }

    // -------------------------------------------------------------------------------
    // Operations that change the population list
    // -------------------------------------------------------------------------------

    /**
     * Eat the first food atom in list order that this atom collides with: hunger and
     * energy each gain MealGain up to VitalCap, and exactly that atom leaves the list,
     * the others keeping their order. Without such an atom nothing changes.
     */
    method Eat(pop: Population, hypot: (real, real) -> real)
      modifies this`hunger, this`energy, pop`atoms
      ensures old(FirstEdible(pop.atoms, |pop.atoms|, hypot)).None? ==>
                pop.atoms == old(pop.atoms) && hunger == old(hunger) && energy == old(energy)
      ensures old(FirstEdible(pop.atoms, |pop.atoms|, hypot)).Some? ==>
                var k := old(FirstEdible(pop.atoms, |pop.atoms|, hypot)).value;
                pop.atoms == old(pop.atoms[..k] + pop.atoms[k + 1..]) &&
                hunger == Min(VitalCap, old(hunger) + MealGain) &&
                energy == Min(VitalCap, old(energy) + MealGain)
    {
      var i := 0;
      while i < |pop.atoms|
        invariant i <= |pop.atoms|
        invariant pop.atoms == old(pop.atoms) && hunger == old(hunger) && energy == old(energy)
        invariant forall j :: 0 <= j < i ==> !Edible(pop.atoms[j], hypot)
      {
        var atom := pop.atoms[i];
        if atom.species == FoodSpecies && CheckCollision(atom, hypot) {
          hunger := Min(VitalCap, hunger + MealGain);
          energy := Min(VitalCap, energy + MealGain);
          assert forall j :: 0 <= j < i ==> pop.atoms[..i][j] == pop.atoms[j];
          pop.atoms := RemoveFirst(pop.atoms, atom);
          return;
        }
        i := i + 1;
      }
    }

    /**
     * Mate with `mate`: the offspring combine_atoms builds is appended to the list (an
     * Atom is always truthy, so the append always happens) and both cooldowns are set.
     */
    method MateWith(mate: Atom, pop: Population)
      modifies pop`atoms, this`cooldown, mate`cooldown
      ensures |pop.atoms| == |old(pop.atoms)| + 1 && pop.atoms[..|old(pop.atoms)|] == old(pop.atoms)
      ensures var child := pop.atoms[|pop.atoms| - 1];
              fresh(child) && child.Inherited() == Blend(old(Inherited()), old(mate.Inherited())) && child.Newborn()
      ensures cooldown == MatingCooldown && mate.cooldown == MatingCooldown
    {
      var newAtom := CombineAtoms(this, mate);
      pop.atoms := pop.atoms + [newAtom];
      cooldown := MatingCooldown;
      mate.cooldown := MatingCooldown;
    }

    /**
     * Reproduce when off cooldown and a mate exists: the list grows by exactly the
     * offspring, appended, and both cooldowns become ReproductionCooldown; every other
     * cooldown and the rest of the list are untouched. Otherwise nothing changes.
     */
    method Reproduce(pop: Population)
      modifies pop`atoms, this`cooldown, pop.atoms`cooldown
      ensures old(cooldown) == 0.0 && old(FirstMate(pop.atoms, |pop.atoms|)).Some? ==>
                var n := |old(pop.atoms)|;
                var mate := old(pop.atoms)[old(FirstMate(pop.atoms, |pop.atoms|)).value];
                |pop.atoms| == n + 1 && pop.atoms[..n] == old(pop.atoms) && fresh(pop.atoms[n]) &&
                pop.atoms[n].Inherited() == Blend(old(Inherited()), old(mate.Inherited())) && pop.atoms[n].Newborn() &&
                cooldown == ReproductionCooldown && mate.cooldown == ReproductionCooldown &&
                forall a :: a in old(pop.atoms) && a != this && a != mate ==> a.cooldown == old(a.cooldown)
      ensures !(old(cooldown) == 0.0 && old(FirstMate(pop.atoms, |pop.atoms|)).Some?) ==>
                pop.atoms == old(pop.atoms) && cooldown == old(cooldown) &&
                forall a :: a in old(pop.atoms) ==> a.cooldown == old(a.cooldown)
    {
      if cooldown == 0.0 {
        var mate := FindMate(pop.atoms);
        if mate.Some? {
          MateWith(mate.value, pop);
          cooldown := ReproductionCooldown;
          mate.value.cooldown := ReproductionCooldown;
        }
      }
    }

    // -------------------------------------------------------------------------------
    // Fleeing and the decision procedure
    // -------------------------------------------------------------------------------

    /**
     * One step of the collision loops of flee and handle_collisions: resolve the
     * collision with `other` when the two touch. Seen from any list of distinct atoms
     * holding both, the list's momentum is unchanged.
     */
    method CollideIfTouching(other: Atom, hypot: (real, real) -> real, ghost atoms: seq<Atom>)
      requires mass + other.mass != 0.0
      modifies this`vx, this`vy, other`vx, other`vy
      ensures old(CheckCollision(other, hypot)) && other != this ==>
                var (a, b) := Collide(old(Snapshot()), old(other.Snapshot()), hypot);
                vx == a.vx && vy == a.vy && other.vx == b.vx && other.vy == b.vy
      ensures !old(CheckCollision(other, hypot)) || other == this ==>
                vx == old(vx) && vy == old(vy) && other.vx == old(other.vx) && other.vy == old(other.vy)
      ensures this in atoms && other in atoms && Distinct(atoms) ==>
                Momentum(atoms, X) == old(Momentum(atoms, X)) && Momentum(atoms, Y) == old(Momentum(atoms, Y))
    {
      if CheckCollision(other, hypot) {
        ghost var bs := Bodies(atoms);
        ResolveCollision(other, hypot);
        if this in atoms && other in atoms && Distinct(atoms) {
          if other == this {
            assert Bodies(atoms) == bs;
          } else {
            var p, q := IndexOf(atoms, this), IndexOf(atoms, other);
            assert Bodies(atoms) == bs[p := Collide(bs[p], bs[q], hypot).0][q := Collide(bs[p], bs[q], hypot).1];
            CollidedMomentum(atoms, bs, p, q, hypot);
          }
        }
      }
    }

    /** No atom of the list other than this one collides with it. */
    predicate TouchesNone(atoms: seq<Atom>, hypot: (real, real) -> real)
      reads this`x, this`y, this`size, atoms`x, atoms`y, atoms`size
    {
      forall j :: 0 <= j < |atoms| && atoms[j] != this ==> !CheckCollision(atoms[j], hypot)
    }

    /**
     * The first half of flee: resolve the collision with every atom of the list that
     * touches this one, in list order. The list's momentum is unchanged, and when no
     * other atom touches this one no velocity changes at all.
     */
    method CollideWithAll(atoms: seq<Atom>, hypot: (real, real) -> real)
      requires forall a :: a in atoms ==> mass + a.mass != 0.0
      modifies this`vx, this`vy, atoms`vx, atoms`vy
      ensures this in atoms && Distinct(atoms) ==>
                Momentum(atoms, X) == old(Momentum(atoms, X)) && Momentum(atoms, Y) == old(Momentum(atoms, Y))
      ensures TouchesNone(atoms, hypot) ==>
                vx == old(vx) && vy == old(vy) &&
                forall k :: 0 <= k < |atoms| ==> atoms[k].vx == old(atoms[k].vx) && atoms[k].vy == old(atoms[k].vy)
    {
      var i := 0;
      while i < |atoms|
        invariant i <= |atoms|
        invariant this in atoms && Distinct(atoms) ==>
                    Momentum(atoms, X) == old(Momentum(atoms, X)) && Momentum(atoms, Y) == old(Momentum(atoms, Y))
        invariant TouchesNone(atoms, hypot) ==>
                    vx == old(vx) && vy == old(vy) &&
                    forall k :: 0 <= k < |atoms| ==> atoms[k].vx == old(atoms[k].vx) && atoms[k].vy == old(atoms[k].vy)
      {
        CollideIfTouching(atoms[i], hypot, atoms);
        i := i + 1;
      }
    }

    /**
     * flee: collide with every touching atom of the list, then, when health is below
     * 30, add a panic draw from [-1, 1] to each velocity component. Collisions conserve
     * the list's momentum, so it changes by exactly the mass times the panic draw. When
     * no other atom touches this one, its velocity changes by the panic draw alone.
     */
    method Flee(atoms: seq<Atom>, hypot: (real, real) -> real, rx: real, ry: real)
      requires -PanicSpread <= rx <= PanicSpread && -PanicSpread <= ry <= PanicSpread
      requires forall a :: a in atoms ==> mass + a.mass != 0.0
      modifies this`vx, this`vy, atoms`vx, atoms`vy
      ensures this in atoms && Distinct(atoms) ==>
                Momentum(atoms, X) == old(Momentum(atoms, X)) + (if health < FleeHealth then Impulse(rx) else 0.0) &&
                Momentum(atoms, Y) == old(Momentum(atoms, Y)) + (if health < FleeHealth then Impulse(ry) else 0.0)
      ensures old(TouchesNone(atoms, hypot)) ==>
                vx == old(vx) + (if health < FleeHealth then rx else 0.0) &&
                vy == old(vy) + (if health < FleeHealth then ry else 0.0)
    {
      CollideWithAll(atoms, hypot);
      if health < FleeHealth {
        Nudge(rx, ry, atoms);
      }
    }

    /**
     * Steer toward a target: add a ChaseStep-long step along the direction to it. Seen
     * from any list of distinct atoms holding this one, the list's momentum moves by the
     * mass times that step.
     */
    method Chase(target: Atom, hypot: (real, real) -> real, ghost atoms: seq<Atom>)
      modifies this`vx, this`vy
      ensures (vx, vy) == (old(vx) + ChaseDelta(Position(), target.Position(), hypot).0,
                           old(vy) + ChaseDelta(Position(), target.Position(), hypot).1)
      ensures this in atoms && Distinct(atoms) ==>
                Momentum(atoms, X) == old(Momentum(atoms, X)) + Impulse(ChaseDelta(Position(), target.Position(), hypot).0) &&
                Momentum(atoms, Y) == old(Momentum(atoms, Y)) + Impulse(ChaseDelta(Position(), target.Position(), hypot).1)
    {
      var dx := target.x - x;
      var dy := target.y - y;
      var distance := hypot(dx, dy);
      if distance > 0.0 {
        Nudge(dx / distance * ChaseStep, dy / distance * ChaseStep, atoms);
      } else {
        assert Impulse(0.0) == 0.0;
      }
    }

    /** The momentum carried by a change d of one velocity component: mass * d. */
    function Impulse(d: real): real
      reads this`mass
    {
      mass * d
    }

    /**
     * Add (dvx, dvy) to the velocity, as flee and wander do with their random draws.
     * Seen from any list of distinct atoms holding this one, the list's momentum moves
     * by the mass times the nudge.
     */
    method Nudge(dvx: real, dvy: real, ghost atoms: seq<Atom>)
      modifies this`vx, this`vy
      ensures vx == old(vx) + dvx && vy == old(vy) + dvy
      ensures this in atoms && Distinct(atoms) ==>
                Momentum(atoms, X) == old(Momentum(atoms, X)) + Impulse(dvx) &&
                Momentum(atoms, Y) == old(Momentum(atoms, Y)) + Impulse(dvy)
    {
      ghost var bs := Bodies(atoms);
      ghost var mx, my := Momentum(atoms, X), Momentum(atoms, Y);
      assert mx == TotalMomentum(bs, X) && my == TotalMomentum(bs, Y);
      vx := vx + dvx;
      vy := vy + dvy;
      if this in atoms && Distinct(atoms) {
        var p := IndexOf(atoms, this);
        forall k | 0 <= k < |atoms| && k != p
          ensures Bodies(atoms)[k] == bs[k]
        {
          assert atoms[k] != this;
        }
        ghost var kicked := bs[p := bs[p].(vx := bs[p].vx + dvx, vy := bs[p].vy + dvy)];
        assert Bodies(atoms) == kicked;
        assert Momentum(atoms, X) == TotalMomentum(kicked, X) && Momentum(atoms, Y) == TotalMomentum(kicked, Y);
        KickedMomentum(atoms, bs, p, dvx, dvy);
      }
    }

    /** A random nudge of the velocity, each component drawn from [-0.1, 0.1]. */
    method Wander(rx: real, ry: real, ghost atoms: seq<Atom>)
      requires -WanderSpread <= rx <= WanderSpread && -WanderSpread <= ry <= WanderSpread
      modifies this`vx, this`vy
      ensures vx == old(vx) + rx && vy == old(vy) + ry
      ensures this in atoms && Distinct(atoms) ==>
                Momentum(atoms, X) == old(Momentum(atoms, X)) + Impulse(rx) &&
                Momentum(atoms, Y) == old(Momentum(atoms, Y)) + Impulse(ry)
    {
      Nudge(rx, ry, atoms);
    }

    /** `if target: self.chase(target)` after a search that returned atoms[k] or None. */
    method ChaseIfFound(target: Option<Atom>, ghost k: Option<nat>, atoms: seq<Atom>, hypot: (real, real) -> real)
      requires target == Pick(atoms, k) && (k.Some? ==> k.value < |atoms|)
      modifies this`vx, this`vy
      ensures vx == old(vx) + old(Pull(atoms, k, hypot)).0 && vy == old(vy) + old(Pull(atoms, k, hypot)).1
    {
      if target.Some? {
        Chase(target.value, hypot, atoms);
      }
    }

    /**
     * The second step: unless in battle, one chase step toward the nearest other atom
     * (decide_behavior writes out the same loop find_nearest_atom runs).
     */
    method ApproachNearest(atoms: seq<Atom>, hypot: (real, real) -> real)
      modifies this`vx, this`vy
      ensures vx == old(vx) + ApproachPull(atoms, hypot).0 && vy == old(vy) + ApproachPull(atoms, hypot).1
    {
      if !inBattle {
        var closest := FindNearestAtom(atoms, hypot);
        ChaseIfFound(closest, Nearest(atoms, |atoms|, AtomSearch, hypot), atoms, hypot);
      }
    }

    /** The last step: chase the target Steer picks, or wander. */
    method SteerStep(atoms: seq<Atom>, hypot: (real, real) -> real, wanderX: real, wanderY: real)
      requires -WanderSpread <= wanderX <= WanderSpread && -WanderSpread <= wanderY <= WanderSpread
      modifies this`vx, this`vy
      ensures vx == old(vx) + old(SteerPull(atoms, hypot, wanderX, wanderY)).0
      ensures vy == old(vy) + old(SteerPull(atoms, hypot, wanderX, wanderY)).1
    {
      ghost var pull := SteerPull(atoms, hypot, wanderX, wanderY);
      if hunger < HungryBelow {
        assert pull == Pull(atoms, Nearest(atoms, |atoms|, FoodSearch, hypot), hypot);
        var food := FindNearestFood(atoms, hypot);
        ChaseIfFound(food, Nearest(atoms, |atoms|, FoodSearch, hypot), atoms, hypot);
      } else if MatingSeason && cooldown == 0.0 && hunger > HungryBelow && health > MatingHealth {
        assert pull == Pull(atoms, FirstMate(atoms, |atoms|), hypot);
        var mate := FindMate(atoms);
        ChaseIfFound(mate, FirstMate(atoms, |atoms|), atoms, hypot);
      } else {
        ghost var k := Nearest(atoms, |atoms|, AtomSearch, hypot);
        var nearest := FindNearestAtom(atoms, hypot);
        if nearest.Some? && nearest.value.health < health {
          assert pull == Pull(atoms, k, hypot);
          ChaseIfFound(nearest, k, atoms, hypot);
        } else {
          assert pull == (wanderX, wanderY);
          Wander(wanderX, wanderY, atoms);
        }
      }
    }

    /**
     * decide_behavior: count the cooldown down, flee or jitter, approach the nearest
     * other atom, then steer. Without fleeing only this atom's velocity changes, by the
     * sum of the three steps; in every case the list's momentum changes by the mass
     * times that sum, since the collisions of a flight conserve it.
     */
    method DecideBehavior(atoms: seq<Atom>, hypot: (real, real) -> real, d: Draws)
      requires ValidDraws(d)
      requires forall a :: a in atoms ==> mass + a.mass != 0.0
      modifies this`cooldown, this`vx, this`vy, atoms`vx, atoms`vy
      ensures cooldown == CountDown(old(cooldown))
      ensures health >= FleeHealth ==>
                vx == old(vx) + d.jitterX + ApproachPull(atoms, hypot).0 + SteerPull(atoms, hypot, d.wanderX, d.wanderY).0 &&
                vy == old(vy) + d.jitterY + ApproachPull(atoms, hypot).1 + SteerPull(atoms, hypot, d.wanderX, d.wanderY).1
      ensures health >= FleeHealth ==> forall a :: a in atoms && a != this ==> a.vx == old(a.vx) && a.vy == old(a.vy)
    {
      if cooldown > 0.0 {
        cooldown := cooldown - 1.0;
      }
      if health < FleeHealth {
        Flee(atoms, hypot, d.panicX, d.panicY);
      } else {
        Nudge(d.jitterX, d.jitterY, atoms);
      }
      ApproachNearest(atoms, hypot);
      SteerStep(atoms, hypot, d.wanderX, d.wanderY);
    }

    /** The velocity change of chasing atoms[k] when the search found k; none otherwise. */
    function Pull(atoms: seq<Atom>, k: Option<nat>, hypot: (real, real) -> real): (real, real)
      reads this`x, this`y, atoms`x, atoms`y
    {
      if k.Some? && k.value < |atoms| then ChaseDelta(Position(), atoms[k.value].Position(), hypot) else (0.0, 0.0)
    }

    /**
     * The steering branch of decide_behavior: the nearest food when hungry (below 50);
     * else, in the mating season, off cooldown, with hunger and health above 50, the
     * first suitable mate; else the nearest other atom if it is weaker, or a wander.
     */
    function Steer(atoms: seq<Atom>, hypot: (real, real) -> real): Steering
      reads this`x, this`y, this`hunger, this`health, this`cooldown, this`species
      reads atoms`x, atoms`y, atoms`species, atoms`health, atoms`cooldown
    {
      if hunger < HungryBelow then
        var food := Nearest(atoms, |atoms|, FoodSearch, hypot);
        if food.Some? then SeekFood(food.value) else NoFood
      else if MatingMood() then
        var mate := FirstMate(atoms, |atoms|);
        if mate.Some? then SeekMate(mate.value) else NoMate
      else
        var nearest := Nearest(atoms, |atoms|, AtomSearch, hypot);
        if nearest.Some? && atoms[nearest.value].health < health then Hunt(nearest.value) else Roam
    }

    /** The condition under which decide_behavior looks for a mate. */
    predicate MatingMood()
      reads this`hunger, this`health, this`cooldown
    {
      MatingSeason && cooldown == 0.0 && hunger > HungryBelow && health > MatingHealth
    }

    /**
     * What each steering choice means: the food is the nearest food atom (the earliest
     * at that distance), the mate the first suitable one in list order, the prey the
     * nearest other atom and weaker; NoFood and NoMate mean there is no food atom, no
     * suitable mate; Roam means the nearest other atom is missing or not weaker.
     */
    lemma SteerTargets(atoms: seq<Atom>, hypot: (real, real) -> real)
      ensures Steer(atoms, hypot).SeekFood? ==>
                hunger < HungryBelow && IsNearest(atoms, Steer(atoms, hypot).food, FoodSearch, hypot)
      ensures Steer(atoms, hypot).NoFood? <==>
                hunger < HungryBelow && forall j :: 0 <= j < |atoms| ==> atoms[j].species != FoodSpecies
      ensures Steer(atoms, hypot).SeekMate? ==>
                var k := Steer(atoms, hypot).mate;
                hunger >= HungryBelow && MatingMood() && k < |atoms| && IsMate(atoms[k]) &&
                forall j :: 0 <= j < k ==> !IsMate(atoms[j])
      ensures Steer(atoms, hypot).NoMate? <==>
                hunger >= HungryBelow && MatingMood() && forall j :: 0 <= j < |atoms| ==> !IsMate(atoms[j])
      ensures Steer(atoms, hypot).Hunt? ==>
                var k := Steer(atoms, hypot).prey;
                hunger >= HungryBelow && !MatingMood() && IsNearest(atoms, k, AtomSearch, hypot) &&
                atoms[k].health < health
      ensures Steer(atoms, hypot).Roam? ==>
                hunger >= HungryBelow && !MatingMood() &&
                forall k: nat :: IsNearest(atoms, k, AtomSearch, hypot) ==> atoms[k].health >= health
    {
      NearestFound(atoms, FoodSearch, hypot);
      NearestFound(atoms, AtomSearch, hypot);
    }

    /** An atom whose hunger is exactly 50 seeks neither food nor a mate. */
    lemma HungerAtThresholdNeitherFeedsNorMates(atoms: seq<Atom>, hypot: (real, real) -> real)
      requires hunger == HungryBelow
      ensures Steer(atoms, hypot).Hunt? || Steer(atoms, hypot).Roam?
    {
    }

    /** The velocity change of the steering branch; a wander adds the two wander draws. */
    function SteerPull(atoms: seq<Atom>, hypot: (real, real) -> real, wanderX: real, wanderY: real): (real, real)
      reads this`x, this`y, this`hunger, this`health, this`cooldown, this`species
      reads atoms`x, atoms`y, atoms`species, atoms`health, atoms`cooldown
    {
      match Steer(atoms, hypot)
      case SeekFood(k) => Pull(atoms, Some(k), hypot)
      case SeekMate(k) => Pull(atoms, Some(k), hypot)
      case Hunt(k) => Pull(atoms, Some(k), hypot)
      case NoFood => (0.0, 0.0)
      case NoMate => (0.0, 0.0)
      case Roam => (wanderX, wanderY)
    }

    /** The velocity change of the approach step: toward the nearest other atom unless in battle. */
    function ApproachPull(atoms: seq<Atom>, hypot: (real, real) -> real): (real, real)
      reads this`x, this`y, this`inBattle, atoms`x, atoms`y, atoms`species
    {
      if inBattle then (0.0, 0.0) else Pull(atoms, Nearest(atoms, |atoms|, AtomSearch, hypot), hypot)
    }
  }

  /**
   * combine_atoms: a new atom at the first parent's position, of its species, with the
   * blended traits and the constructor's defaults otherwise, then given the lower health.
   */
  method CombineAtoms(atom1: Atom, atom2: Atom) returns (newAtom: Atom)
    ensures fresh(newAtom) && newAtom.Inherited() == Blend(atom1.Inherited(), atom2.Inherited()) && newAtom.Newborn()
  {
    var newMass := atom1.mass + atom2.mass;
    var newCharge := (atom1.charge + atom2.charge) / 2.0;
    var newSize := (atom1.size + atom2.size) / 2.0;
    var newColor := Color((atom1.color.r + atom2.color.r) / 2,
                          (atom1.color.g + atom2.color.g) / 2,
                          (atom1.color.b + atom2.color.b) / 2);
    var newHealth := Min(atom1.health, atom2.health);
    newAtom := new Atom(atom1.x, atom1.y, (atom1.vx + atom2.vx) / 2.0, (atom1.vy + atom2.vy) / 2.0,
                        newMass, newCharge, newSize, newColor, atom1.species);
    newAtom.health := newHealth;
  }

  /** The snapshots of the atoms, in list order. */
  function Bodies(atoms: seq<Atom>): (r: seq<Body>)
    reads atoms`x, atoms`y, atoms`vx, atoms`vy, atoms`mass, atoms`charge
    ensures |r| == |atoms|
    ensures forall i :: 0 <= i < |atoms| ==> r[i] == atoms[i].Snapshot()
  {
    if atoms == [] then [] else Bodies(atoms[..|atoms| - 1]) + [atoms[|atoms| - 1].Snapshot()]
  }

  /** The total momentum of the list on one axis. */
  function Momentum(atoms: seq<Atom>, axis: Axis): real
    reads atoms`x, atoms`y, atoms`vx, atoms`vy, atoms`mass, atoms`charge
  {
    TotalMomentum(Bodies(atoms), axis)
  }

  /** The list's momentum after one of its atoms received a kick, in terms of the snapshots before. */
  lemma KickedMomentum(atoms: seq<Atom>, bs: seq<Body>, p: nat, dvx: real, dvy: real)
    requires p < |bs| && p < |atoms| && atoms[p].mass == bs[p].mass
    requires Momentum(atoms, X) == TotalMomentum(bs[p := bs[p].(vx := bs[p].vx + dvx, vy := bs[p].vy + dvy)], X)
    requires Momentum(atoms, Y) == TotalMomentum(bs[p := bs[p].(vx := bs[p].vx + dvx, vy := bs[p].vy + dvy)], Y)
    ensures Momentum(atoms, X) == TotalMomentum(bs, X) + atoms[p].Impulse(dvx)
    ensures Momentum(atoms, Y) == TotalMomentum(bs, Y) + atoms[p].Impulse(dvy)
  {
    KickMomentum(bs, p, dvx, dvy);
    SameProduct(atoms[p].mass, bs[p].mass, dvx);
    SameProduct(atoms[p].mass, bs[p].mass, dvy);
  }

  /** The list's momentum after two of its bodies collided, in terms of the snapshots before. */
  lemma CollidedMomentum(atoms: seq<Atom>, bs: seq<Body>, p: nat, q: nat, hypot: (real, real) -> real)
    requires p < |bs| && q < |bs| && p != q && bs[p].mass + bs[q].mass != 0.0
    requires Bodies(atoms) == bs[p := Collide(bs[p], bs[q], hypot).0][q := Collide(bs[p], bs[q], hypot).1]
    ensures Momentum(atoms, X) == TotalMomentum(bs, X) && Momentum(atoms, Y) == TotalMomentum(bs, Y)
  {
    CollisionKeepsMomentum(bs, p, q, hypot);
  }

  /** The population: the Python list of atoms that the operations search and mutate. */
  class Population {
    var atoms: seq<Atom>

    constructor (atoms: seq<Atom>)
      ensures this.atoms == atoms
    {
      this.atoms := atoms;
    }
  }
}
