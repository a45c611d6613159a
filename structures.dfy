/**
 * Evolving structures: each one grows by its growth rate every tick, the atoms it owns
 * grow with it, and the rate decays geometrically, so the size tends to a finite limit.
 */
module Structures {
  import opened Config
  import opened Atoms

  // ---------------------------------------------------------------------------------
  // Growth on values
  // ---------------------------------------------------------------------------------

  /** The part of a structure that grow changes. */
  datatype Growth = Growth(size: real, rate: real, age: int)

  /** One call of grow: the rate is added to the size, the age goes up, the rate decays. */
  function GrowStep(g: Growth): Growth {
    Growth(g.size + g.rate, g.rate * GrowthDecay, g.age + 1)
  }

  /** The growth after n calls of grow. */
  function Grown(g: Growth, n: nat): Growth {
    if n == 0 then g else GrowStep(Grown(g, n - 1))
  }

  function Power(b: real, n: nat): real {
    if n == 0 then 1.0 else Power(b, n - 1) * b
  }

  /** The size a structure approaches: its size plus the sum of the geometric series of rates. */
  function Limit(g: Growth): real {
    g.size + g.rate / (1.0 - GrowthDecay)
  }

  /**
   * Growing never changes the limit: what is added to the size is exactly what the
   * decay of the rate takes from the series still to come.
   */
  lemma {:induction false} GrowthKeepsLimit(g: Growth, n: nat)
    ensures Limit(Grown(g, n)) == Limit(g)
    ensures Grown(g, n).age == g.age + n
    ensures Grown(g, n).rate == g.rate * Power(GrowthDecay, n)
  {
    if n > 0 {
      GrowthKeepsLimit(g, n - 1);
      var h := Grown(g, n - 1);
      assert Limit(GrowStep(h)) == Limit(h);
    }
  }

  /**
   * With a non-negative rate the size only grows, never beyond the limit, and the rate
   * only shrinks without turning negative.
   */
  lemma {:induction false} GrowthBounded(g: Growth, n: nat)
    requires g.rate >= 0.0
    ensures 0.0 <= Grown(g, n).rate <= g.rate
    ensures g.size <= Grown(g, n).size <= Grown(g, n + 1).size <= Limit(g)
  {
    GrowthKeepsLimit(g, n + 1);
    if n > 0 {
      GrowthBounded(g, n - 1);
    }
    var h := Grown(g, n);
    assert Grown(g, n + 1) == GrowStep(h);
  }

  /** How often x occurs in s (list membership counts repeats). */
  function Count<T(==)>(s: seq<T>, x: T): nat {
    if s == [] then 0 else Count(s[..|s| - 1], x) + if s[|s| - 1] == x then 1 else 0
  }

  /** The count is at most the length, and zero exactly for what is not listed. */
  lemma {:induction false} CountBounds<T>(s: seq<T>, x: T)
    ensures Count(s, x) <= |s| && (Count(s, x) == 0 <==> x !in s)
  {
    if s != [] {
      CountBounds(s[..|s| - 1], x);
      assert s == s[..|s| - 1] + [s[|s| - 1]];
    }
  }

  lemma CountStep<T>(s: seq<T>, i: nat, x: T)
    requires i < |s|
    ensures Count(s[..i + 1], x) == Count(s[..i], x) + if s[i] == x then 1 else 0
  {
    assert s[..i + 1][..i] == s[..i];
  }

  /**
   * An element listed at k and nowhere else is counted once by every prefix past k and
   * by none before; in particular a structure listed once grows once per tick.
   */
  lemma {:induction false} CountOnce<T>(s: seq<T>, k: nat, n: nat)
    requires k < |s| && n <= |s| && forall j :: 0 <= j < |s| && j != k ==> s[j] != s[k]
    ensures Count(s[..n], s[k]) == if n <= k then 0 else 1
  {
    if n > 0 {
      CountOnce(s, k, n - 1);
      assert s[..n][..n - 1] == s[..n - 1];
    }
  }

  /** n copies of r added up. */
  function Times(n: nat, r: real): real {
    if n == 0 then 0.0 else Times(n - 1, r) + r
  }

  lemma {:induction false} TimesIsProduct(n: nat, r: real)
    ensures Times(n, r) == n as real * r
  {
    if n > 0 {
      TimesIsProduct(n - 1, r);
      assert n as real * r == (n - 1) as real * r + r;
    }
  }

  // ---------------------------------------------------------------------------------
  // EvolvingStructure
  // ---------------------------------------------------------------------------------

  class EvolvingStructure {
    var x: real
    var y: real
    var size: real
    var growthRate: real
    var atoms: seq<Atom>
    var age: int

    function GrowthOf(): Growth
      reads this`size, this`growthRate, this`age
    {
      Growth(size, growthRate, age)
    }

    /** A new structure owns no atoms and has age 0. */
    constructor (x: real, y: real, size: real, growthRate: real)
      ensures this.x == x && this.y == y && this.size == size && this.growthRate == growthRate
      ensures atoms == [] && age == 0
    {
      this.x := x;
      this.y := y;
      this.size := size;
      this.growthRate := growthRate;
      atoms := [];
      age := 0;
    }

    /** add_atom appends the atom to the owned list. */
    method AddAtom(atom: Atom)
      modifies this`atoms
      ensures atoms == old(atoms) + [atom]
    {
      atoms := atoms + [atom];
    }

    /**
     * grow: one growth step of the structure, and every owned atom grows by the rate as
     * many times as it is listed.
     */
    method Grow()
      modifies this`size, this`growthRate, this`age, atoms`size
      ensures GrowthOf() == GrowStep(old(GrowthOf()))
      ensures forall j :: 0 <= j < |atoms| ==>
                atoms[j].size == old(atoms[j].size) + Times(Count(atoms, atoms[j]), old(growthRate))
    {
      size := size + growthRate;
      for i := 0 to |atoms|
        modifies atoms`size
        invariant forall j :: 0 <= j < |atoms| ==>
                    atoms[j].size == old(atoms[j].size) + Times(Count(atoms[..i], atoms[j]), growthRate)
      {
        atoms[i].size := atoms[i].size + growthRate;
        forall j | 0 <= j < |atoms| ensures Count(atoms[..i + 1], atoms[j]) == Count(atoms[..i], atoms[j]) + if atoms[i] == atoms[j] then 1 else 0 {
          CountStep(atoms, i, atoms[j]);
        }
      }
      assert atoms[..|atoms|] == atoms;
      age := age + 1;
      growthRate := growthRate * GrowthDecay;
    }
  }

  // ---------------------------------------------------------------------------------
  // update_structures
  // ---------------------------------------------------------------------------------

  /** The atoms owned by the listed structures. */
  ghost function Owned(structs: seq<EvolvingStructure>): set<Atom>
    reads structs`atoms
  {
    set k, j | 0 <= k < |structs| && 0 <= j < |structs[k].atoms| :: structs[k].atoms[j]
  }

  /** The growth of each listed structure, in list order. */
  function GrowthsOf(structs: seq<EvolvingStructure>): (gs: seq<Growth>)
    reads structs`size, structs`growthRate, structs`age
    ensures |gs| == |structs| && forall k :: 0 <= k < |structs| ==> gs[k] == structs[k].GrowthOf()
  {
    if structs == [] then [] else GrowthsOf(structs[..|structs| - 1]) + [structs[|structs| - 1].GrowthOf()]
  }

  /** Every atom a listed structure owns is among the owned atoms. */
  lemma OwnedIncludes(structs: seq<EvolvingStructure>, k: nat)
    requires k < |structs|
    ensures forall j :: 0 <= j < |structs[k].atoms| ==> structs[k].atoms[j] in Owned(structs)
  {
    forall j | 0 <= j < |structs[k].atoms| ensures structs[k].atoms[j] in Owned(structs) {
      var a := structs[k].atoms[j];
      assert 0 <= k < |structs| && 0 <= j < |structs[k].atoms| && a == structs[k].atoms[j];
    }
  }

  /**
   * What an atom has gained once the structures in `structs` have grown in list order,
   * where gs holds each structure's growth before the pass: each visit adds the rate the
   * structure has at that point (a structure listed again grows at the rate its earlier
   * visits left it) once for every time the atom is listed in it.
   */
  ghost function Gain(structs: seq<EvolvingStructure>, gs: seq<Growth>, a: Atom): real
    requires |gs| == |structs|
    reads structs`atoms
  {
    if structs == [] then 0.0
    else
      var n := |structs| - 1;
      Gain(structs[..n], gs[..n], a) + Times(Count(structs[n].atoms, a), Grown(gs[n], Count(structs[..n], structs[n])).rate)
  }

  lemma GainStep(structs: seq<EvolvingStructure>, gs: seq<Growth>, i: nat, a: Atom)
    requires |gs| == |structs| && i < |structs|
    ensures Gain(structs[..i + 1], gs[..i + 1], a) ==
            Gain(structs[..i], gs[..i], a) + Times(Count(structs[i].atoms, a), Grown(gs[i], Count(structs[..i], structs[i])).rate)
  {
    assert structs[..i + 1][..i] == structs[..i] && gs[..i + 1][..i] == gs[..i];
  }

  /**
   * The plain case of Gain: when every structure is listed once and exactly one of them
   * lists the atom, once, the atom gains exactly that structure's rate before the pass,
   * as grow's `atom.size += self.growth_rate` adds it.
   */
  lemma SoleOwnerGainsItsRate(structs: seq<EvolvingStructure>, gs: seq<Growth>, a: Atom, k: nat)
    requires |gs| == |structs| && k < |structs|
    requires forall i, j :: 0 <= i < j < |structs| ==> structs[i] != structs[j]
    requires Count(structs[k].atoms, a) == 1
    requires forall l :: 0 <= l < |structs| && l != k ==> a !in structs[l].atoms
    ensures Gain(structs, gs, a) == gs[k].rate
  {
    GainUpTo(structs, gs, a, k, |structs|);
    assert structs[..|structs|] == structs && gs[..|gs|] == gs;
  }

  /** The gain over the first n structures in the plain case: nothing before the owner, its rate after. */
  lemma {:induction false} GainUpTo(structs: seq<EvolvingStructure>, gs: seq<Growth>, a: Atom, k: nat, n: nat)
    requires |gs| == |structs| && k < |structs| && n <= |structs|
    requires forall i, j :: 0 <= i < j < |structs| ==> structs[i] != structs[j]
    requires Count(structs[k].atoms, a) == 1
    requires forall l :: 0 <= l < |structs| && l != k ==> a !in structs[l].atoms
    ensures Gain(structs[..n], gs[..n], a) == if n <= k then 0.0 else gs[k].rate
  {
    if n > 0 {
      GainUpTo(structs, gs, a, k, n - 1);
      GainStep(structs, gs, n - 1, a);
      if n - 1 == k {
        CountOnce(structs, k, k);
      } else {
        CountBounds(structs[n - 1].atoms, a);
      }
    }
  }

  /**
   * The state of update_structures' loop before the structure at i: each structure has
   * grown once for each earlier listing, and each owned atom has gained accordingly over
   * its size `sizes` held before the loop.
   */
  ghost predicate GrownTo(structs: seq<EvolvingStructure>, gs: seq<Growth>, sizes: map<Atom, real>, i: nat)
    reads structs, Owned(structs)
  {
    |gs| == |structs| && i <= |structs| &&
    (forall k, l :: 0 <= k < |structs| && 0 <= l < |structs| && structs[k] == structs[l] ==> gs[k] == gs[l]) &&
    (forall k :: 0 <= k < |structs| ==> structs[k].GrowthOf() == Grown(gs[k], Count(structs[..i], structs[k]))) &&
    (forall k, j :: 0 <= k < |structs| && 0 <= j < |structs[k].atoms| ==>
       structs[k].atoms[j] in sizes &&
       structs[k].atoms[j].size == sizes[structs[k].atoms[j]] + Gain(structs[..i], gs[..i], structs[k].atoms[j]))
  }

  /** The visit of the structure at i in update_structures' loop: it grows once. */
  method GrowNext(structs: seq<EvolvingStructure>, s: EvolvingStructure, ghost gs: seq<Growth>, ghost sizes: map<Atom, real>, i: nat)
    requires GrownTo(structs, gs, sizes, i) && i < |structs| && s == structs[i]
    modifies s`size, s`growthRate, s`age, s.atoms`size
    ensures GrownTo(structs, gs, sizes, i + 1)
  {
    ghost var rate := s.growthRate;
    s.Grow();
    forall k | 0 <= k < |structs|
      ensures structs[k].GrowthOf() == Grown(gs[k], Count(structs[..i + 1], structs[k]))
    {
      CountStep(structs, i, structs[k]);
    }
    forall k, j | 0 <= k < |structs| && 0 <= j < |structs[k].atoms|
      ensures structs[k].atoms[j].size == sizes[structs[k].atoms[j]] + Gain(structs[..i + 1], gs[..i + 1], structs[k].atoms[j])
    {
      var a := structs[k].atoms[j];
      GainStep(structs, gs, i, a);
      CountBounds(s.atoms, a);
      if a in s.atoms {
        var j' :| 0 <= j' < |s.atoms| && s.atoms[j'] == a;
        assert a.size == old(a.size) + Times(Count(s.atoms, a), rate);
      }
    }
  }

  /**
   * update_structures: every listed structure grows once per listing, in list order.
   * A structure's growth is that of grow applied as often as it is listed; an owned atom
   * gains the rate of each visit of a structure that owns it, once per listing there.
   */
  method UpdateStructures(structures: seq<EvolvingStructure>)
    modifies structures`size, structures`growthRate, structures`age, Owned(structures)`size
    ensures forall k :: 0 <= k < |structures| ==>
              structures[k].GrowthOf() == Grown(old(structures[k].GrowthOf()), Count(structures, structures[k]))
    ensures forall k, j :: 0 <= k < |structures| && 0 <= j < |structures[k].atoms| ==>
              structures[k].atoms[j].size ==
                old(structures[k].atoms[j].size) + Gain(structures, old(GrowthsOf(structures)), structures[k].atoms[j])
  {
    ghost var gs := GrowthsOf(structures);
    ghost var sizes := map a | a in Owned(structures) :: a.size;
    forall k | 0 <= k < |structures| ensures forall j :: 0 <= j < |structures[k].atoms| ==> structures[k].atoms[j] in sizes {
      OwnedIncludes(structures, k);
    }
    for i := 0 to |structures|
      invariant GrownTo(structures, gs, sizes, i)
      modifies structures`size, structures`growthRate, structures`age, Owned(structures)`size
    {
      OwnedIncludes(structures, i);
      GrowNext(structures, structures[i], gs, sizes, i);
    }
    assert structures[..|structures|] == structures && gs[..|gs|] == gs;
  }
}
