/**
 * The update_atoms pass of one simulation tick: every listed atom ages, starving atoms
 * lose health, the dead are removed from the list, and each visited atom then makes its
 * decide_behavior move.
 */
module Ageing {
  import opened Config
  import opened Atoms

  // ---------------------------------------------------------------------------------
  // update_atoms: ageing, starvation, removal of the dead, then decide_behavior
  // ---------------------------------------------------------------------------------

  /** The four attributes update_atoms itself changes. */
  datatype Vitals = Vitals(age: int, hunger: real, energy: real, health: real)

  function VitalsOf(a: Atom): Vitals
    reads a`age, a`hunger, a`energy, a`health
  {
    Vitals(a.age, a.hunger, a.energy, a.health)
  }

  /** The vitals of the list, in list order. */
  function VitalsOfAll(atoms: seq<Atom>): (r: seq<Vitals>)
    reads atoms`age, atoms`hunger, atoms`energy, atoms`health
    ensures |r| == |atoms|
    ensures forall k :: 0 <= k < |atoms| ==> r[k] == VitalsOf(atoms[k])
  {
    if atoms == [] then [] else VitalsOfAll(atoms[..|atoms| - 1]) + [VitalsOf(atoms[|atoms| - 1])]
  }

  /** The cooldowns of the list, in list order. */
  function Cooldowns(atoms: seq<Atom>): (r: seq<real>)
    reads atoms`cooldown
    ensures |r| == |atoms|
    ensures forall k :: 0 <= k < |atoms| ==> r[k] == atoms[k].cooldown
  {
    if atoms == [] then [] else Cooldowns(atoms[..|atoms| - 1]) + [atoms[|atoms| - 1].cooldown]
  }

  /**
   * One tick of ageing: a year older, hungrier and more tired, and half a point of
   * health lost when hunger or energy has run out.
   */
  function Decay(v: Vitals): Vitals {
    var hunger, energy := v.hunger - HungerDecay, v.energy - EnergyDecay;
    Vitals(v.age + 1, hunger, energy, if hunger <= 0.0 || energy <= 0.0 then v.health - StarvationDamage else v.health)
  }

  /** k ticks of ageing with nothing eaten in between. */
  function Decays(v: Vitals, k: nat): Vitals {
    if k == 0 then v else Decay(Decays(v, k - 1))
  }

  /**
   * Over k ticks an atom ages by k, hunger and energy fall linearly, and health falls by
   * at most half a point a tick: not at all while both stay positive, every tick once
   * either has run out from the start.
   */
  lemma {:induction false} DecayOverTicks(v: Vitals, k: nat)
    ensures Decays(v, k).age == v.age + k
    ensures Decays(v, k).hunger == v.hunger - k as real * HungerDecay
    ensures Decays(v, k).energy == v.energy - k as real * EnergyDecay
    ensures v.health - k as real * StarvationDamage <= Decays(v, k).health <= v.health
    ensures v.hunger - k as real * HungerDecay > 0.0 && v.energy - k as real * EnergyDecay > 0.0 ==>
              Decays(v, k).health == v.health
    ensures v.hunger <= HungerDecay || v.energy <= EnergyDecay ==>
              Decays(v, k).health == v.health - k as real * StarvationDamage
  {
    if k > 0 {
      DecayOverTicks(v, k - 1);
    }
  }

  /** What one pass of update_atoms did to an atom, with its vitals afterwards. */
  datatype Fate = Aged(v: Vitals) | Died(v: Vitals) | Skipped(v: Vitals)

  /** The fate of an atom the loop visits: it ages, and is removed when its health is gone. */
  function Fated(v: Vitals): Fate {
    var d := Decay(v);
    if d.health <= 0.0 then Died(d) else Aged(d)
  }

  /**
   * The fates of the whole list under update_atoms' loop, which removes from the list it
   * iterates over: after a removal the next atom slides into the freed slot and the loop
   * moves past it, so that atom is skipped for the tick.
   */
  function SweepPlan(vs: seq<Vitals>): (plan: seq<Fate>)
    ensures |plan| == |vs|
    ensures forall k :: 0 <= k < |vs| ==> plan[k] == if plan[k].Skipped? then Skipped(vs[k]) else Fated(vs[k])
    ensures |vs| > 0 ==> !plan[0].Skipped?
    ensures forall j, k :: 0 <= j < k < |vs| && k == j + 1 ==> (plan[k].Skipped? <==> plan[j].Died?)
    decreases |vs|
  {
    if vs == [] then []
    else if Fated(vs[0]).Died? && |vs| > 1 then
      var rest := SweepPlan(vs[2..]);
      var plan := [Fated(vs[0]), Skipped(vs[1])] + rest;
      assert forall k :: 2 <= k < |vs| ==> plan[k] == rest[k - 2] && vs[k] == vs[2..][k - 2];
      plan
    else
      var rest := SweepPlan(vs[1..]);
      var plan := [Fated(vs[0])] + rest;
      assert forall k :: 1 <= k < |vs| ==> plan[k] == rest[k - 1] && vs[k] == vs[1..][k - 1];
      plan
  }

  /** The fates when every atom is visited once, as iterating over a copy of the list would. */
  function AllFated(vs: seq<Vitals>): (plan: seq<Fate>)
    ensures |plan| == |vs| && forall k :: 0 <= k < |vs| ==> plan[k] == Fated(vs[k])
  {
    if vs == [] then [] else AllFated(vs[..|vs| - 1]) + [Fated(vs[|vs| - 1])]
  }

  /**
   * update_atoms' loop treats every atom as a pass over a copy would exactly when no atom
   * but possibly the last dies.
   */
  lemma SweepMatchesCopyIff(vs: seq<Vitals>)
    ensures SweepPlan(vs) == AllFated(vs) <==> forall k :: 0 <= k < |vs| - 1 ==> !Fated(vs[k]).Died?
  {
    var plan, all := SweepPlan(vs), AllFated(vs);
    if forall k :: 0 <= k < |vs| - 1 ==> !Fated(vs[k]).Died? {
      forall k | 0 <= k < |vs|
        ensures plan[k] == all[k]
      {
        if k > 0 {
          assert plan[k].Skipped? <==> plan[k - 1].Died?;
          assert !Fated(vs[k - 1]).Died?;
        }
      }
    } else {
      var k :| 0 <= k < |vs| - 1 && Fated(vs[k]).Died?;
      if plan[k].Skipped? {
        assert plan[k] != all[k];
      } else {
        assert plan[k + 1].Skipped? <==> plan[k].Died?;
        assert plan[k + 1] != all[k + 1];
      }
    }
  }

  /**
   * A starving atom at half a point of health dies and the well-fed atom after it is
   * skipped: it neither ages nor decides this tick.
   */
  lemma DeathSkipsNextAtom()
    ensures var vs := [Vitals(0, 0.05, 50.0, 0.5), Vitals(0, 50.0, 50.0, 100.0)];
            SweepPlan(vs) == [Died(Vitals(1, -0.05, 49.8, 0.0)), Skipped(vs[1])] &&
            AllFated(vs) == [Died(Vitals(1, -0.05, 49.8, 0.0)), Aged(Vitals(1, 49.9, 49.8, 100.0))]
  {
    var vs := [Vitals(0, 0.05, 50.0, 0.5), Vitals(0, 50.0, 50.0, 100.0)];
    assert Fated(vs[0]) == Died(Vitals(1, -0.05, 49.8, 0.0));
    assert SweepPlan(vs[2..]) == [];
  }

  /** The atoms a pass keeps, in their original order: all but those that died. */
  function Kept(s: seq<Atom>, plan: seq<Fate>): (r: seq<Atom>)
    requires |s| == |plan|
    ensures |r| <= |s|
    decreases |s|
  {
    if s == [] then [] else Kept(s[..|s| - 1], plan[..|s| - 1]) + (if plan[|s| - 1].Died? then [] else [s[|s| - 1]])
  }

  /**
   * The kept atoms are exactly those of the list that did not die: every kept atom comes
   * from the list, every survivor is kept and, in a list without repeats, no dead atom is
   * kept. A list without repeats stays without repeats.
   */
  lemma {:induction false} KeptSurvivors(s: seq<Atom>, plan: seq<Fate>)
    requires |s| == |plan|
    ensures forall a :: a in Kept(s, plan) ==> a in s
    ensures forall k :: 0 <= k < |s| && !plan[k].Died? ==> s[k] in Kept(s, plan)
    ensures Distinct(s) ==> Distinct(Kept(s, plan))
    ensures Distinct(s) ==> forall k :: 0 <= k < |s| && plan[k].Died? ==> s[k] !in Kept(s, plan)
    decreases |s|
  {
    if s != [] {
      var n := |s| - 1;
      KeptSurvivors(s[..n], plan[..n]);
      assert forall k :: 0 <= k < n ==> s[..n][k] == s[k] && plan[..n][k] == plan[k];
      assert Distinct(s) ==> s[n] !in s[..n];
      if Distinct(s) {
        forall k | 0 <= k < |s| && plan[k].Died?
          ensures s[k] !in Kept(s, plan)
        {
          if k < n {
            assert s[k] != s[n];
          }
        }
      }
    }
  }

  /** Extending the visited prefix by one atom keeps that atom unless it died. */
  lemma KeptStep(s: seq<Atom>, plan: seq<Fate>, p: nat)
    requires |s| == |plan| && p < |s|
    ensures Kept(s[..p + 1], plan[..p + 1]) == Kept(s[..p], plan[..p]) + if plan[p].Died? then [] else [s[p]]
  {
    assert s[..p + 1][..p] == s[..p] && plan[..p + 1][..p] == plan[..p];
  }

  /**
   * The state of a pass over `orig` once the atoms before p have had their fates: the
   * list holds the kept ones among them followed by the untouched rest, the visited
   * atoms carry their new vitals and cooldowns and the rest their original ones.
   */
  ghost predicate SweptTo(pop: Population, orig: seq<Atom>, vs: seq<Vitals>, cs: seq<real>, plan: seq<Fate>, p: nat)
    reads pop`atoms, orig`age, orig`hunger, orig`energy, orig`health, orig`cooldown, orig`mass
  {
    |vs| == |cs| == |plan| == |orig| && p <= |orig| && Distinct(orig) &&
    (forall k :: 0 <= k < |orig| ==> orig[k].mass > 0.0) &&
    pop.atoms == Kept(orig[..p], plan[..p]) + orig[p..] &&
    (forall k :: 0 <= k < p ==>
       VitalsOf(orig[k]) == plan[k].v && orig[k].cooldown == if plan[k].Skipped? then cs[k] else CountDown(cs[k])) &&
    (forall k :: p <= k < |orig| ==> VitalsOf(orig[k]) == vs[k] && orig[k].cooldown == cs[k])
  }

  /**
   * The body of update_atoms' loop for one atom, listed at index `at`: it ages, is
   * removed from the list when its health is gone, and then makes its decide_behavior
   * move among the atoms still listed.
   */
  method StepAtom(pop: Population, atom: Atom, hypot: (real, real) -> real, d: Draws, ghost at: nat) returns (died: bool)
    requires ValidDraws(d) && at < |pop.atoms| && pop.atoms[at] == atom && atom !in pop.atoms[..at]
    requires forall i :: 0 <= i < |pop.atoms| ==> pop.atoms[i].mass > 0.0
    modifies pop`atoms, atom`age, atom`hunger, atom`energy, atom`health, atom`cooldown
    modifies pop.atoms`vx, pop.atoms`vy
    ensures VitalsOf(atom) == Decay(old(VitalsOf(atom)))
    ensures died == Fated(old(VitalsOf(atom))).Died?
    ensures pop.atoms == if died then old(pop.atoms[..at] + pop.atoms[at + 1..]) else old(pop.atoms)
    ensures atom.cooldown == CountDown(old(atom.cooldown))
    ensures atom.health >= FleeHealth ==>
              atom.vx == old(atom.vx) + d.jitterX + atom.ApproachPull(pop.atoms, hypot).0 + atom.SteerPull(pop.atoms, hypot, d.wanderX, d.wanderY).0 &&
              atom.vy == old(atom.vy) + d.jitterY + atom.ApproachPull(pop.atoms, hypot).1 + atom.SteerPull(pop.atoms, hypot, d.wanderX, d.wanderY).1
    ensures atom.health >= FleeHealth ==> forall a :: a in pop.atoms && a != atom ==> a.vx == old(a.vx) && a.vy == old(a.vy)
  {
    died := Age(atom);
    if died {
      pop.atoms := RemoveFirst(pop.atoms, atom);
    }
    Decide(atom, pop.atoms, hypot, d);
  }

  /** The ageing at the top of update_atoms' loop body; the atom is dead when its health is gone. */
  method Age(atom: Atom) returns (died: bool)
    modifies atom`age, atom`hunger, atom`energy, atom`health
    ensures VitalsOf(atom) == Decay(old(VitalsOf(atom))) && died == Fated(old(VitalsOf(atom))).Died?
  {
    atom.age := atom.age + 1;
    atom.hunger := atom.hunger - HungerDecay;
    atom.energy := atom.energy - EnergyDecay;
    if atom.hunger <= 0.0 || atom.energy <= 0.0 {
      atom.health := atom.health - StarvationDamage;
    }
    died := atom.health <= 0.0;
  }

  /**
   * decide_behavior as update_atoms sees it: the atom's cooldown counts down, and only
   * velocities (its own and those of listed atoms) change besides. Unless the atom
   * flees, its velocity moves by the jitter, the approach and the steering pull, and no
   * other atom's velocity changes.
   */
  method Decide(atom: Atom, atoms: seq<Atom>, hypot: (real, real) -> real, d: Draws)
    requires ValidDraws(d) && atom.mass > 0.0
    requires forall i :: 0 <= i < |atoms| ==> atoms[i].mass > 0.0
    modifies atom`cooldown, atom`vx, atom`vy, atoms`vx, atoms`vy
    ensures atom.cooldown == CountDown(old(atom.cooldown))
    ensures atom.health >= FleeHealth ==>
              atom.vx == old(atom.vx) + d.jitterX + atom.ApproachPull(atoms, hypot).0 + atom.SteerPull(atoms, hypot, d.wanderX, d.wanderY).0 &&
              atom.vy == old(atom.vy) + d.jitterY + atom.ApproachPull(atoms, hypot).1 + atom.SteerPull(atoms, hypot, d.wanderX, d.wanderY).1
    ensures atom.health >= FleeHealth ==> forall a :: a in atoms && a != atom ==> a.vx == old(a.vx) && a.vy == old(a.vy)
  {
    atom.DecideBehavior(atoms, hypot, d);
  }

  /** Visiting the atom at p, whose fate is its own ageing, moves the pass on by one. */
  method Visit(pop: Population, atom: Atom, hypot: (real, real) -> real, d: Draws,
               ghost orig: seq<Atom>, ghost vs: seq<Vitals>, ghost cs: seq<real>, ghost plan: seq<Fate>, ghost p: nat)
    returns (died: bool)
    requires ValidDraws(d)
    requires SweptTo(pop, orig, vs, cs, plan, p) && p < |orig| && atom == orig[p] && plan[p] == Fated(vs[p])
    modifies pop`atoms, orig`age, orig`hunger, orig`energy, orig`health, orig`cooldown, orig`vx, orig`vy
    ensures SweptTo(pop, orig, vs, cs, plan, p + 1)
    ensures died == plan[p].Died?
  {
    ghost var before := pop.atoms;
    ghost var at := |Kept(orig[..p], plan[..p])|;
    ListedWithin(orig, plan, p);
    assert before[at] == atom;
    forall i | 0 <= i < |before| ensures before[i].mass > 0.0 {
      assert before[i] in orig;
    }
    assert VitalsOf(atom) == vs[p] && atom.cooldown == cs[p];
    died := StepAtom(pop, atom, hypot, d, at);
    ListAdvance(before, pop.atoms, orig, plan, p, died);
    forall k | 0 <= k < |orig| && k != p
      ensures VitalsOf(orig[k]) == old(VitalsOf(orig[k])) && orig[k].cooldown == old(orig[k].cooldown)
    {
      assert orig[k] != atom;
    }
  }

  /** After the visit of the atom at p the list holds the kept atoms up to p and the rest. */
  lemma ListAdvance(before: seq<Atom>, after: seq<Atom>, orig: seq<Atom>, plan: seq<Fate>, p: nat, died: bool)
    requires |orig| == |plan| && p < |orig|
    requires before == Kept(orig[..p], plan[..p]) + orig[p..] && died == plan[p].Died?
    requires var at := |Kept(orig[..p], plan[..p])|;
             after == if died then before[..at] + before[at + 1..] else before
    ensures after == Kept(orig[..p + 1], plan[..p + 1]) + orig[p + 1..]
  {
    var front := Kept(orig[..p], plan[..p]);
    KeptStep(orig, plan, p);
    if died {
      assert before[..|front|] == front;
      assert before[|front| + 1..] == orig[p + 1..];
    } else {
      assert orig[p..] == [orig[p]] + orig[p + 1..];
    }
  }

  /**
   * Every atom listed during a pass is one of the original atoms, and the next atom to
   * visit is not among those already kept.
   */
  lemma ListedWithin(orig: seq<Atom>, plan: seq<Fate>, p: nat)
    requires |orig| == |plan| && p < |orig| && Distinct(orig)
    ensures var listed := Kept(orig[..p], plan[..p]) + orig[p..];
            forall i :: 0 <= i < |listed| ==> listed[i] in orig
    ensures orig[p] !in Kept(orig[..p], plan[..p])
  {
    KeptSurvivors(orig[..p], plan[..p]);
    assert orig[p] !in orig[..p];
    var front := Kept(orig[..p], plan[..p]);
    var listed := front + orig[p..];
    forall i | 0 <= i < |listed| ensures listed[i] in orig {
      if i < |front| {
        assert front[i] in front;
        assert front[i] in orig[..p];
      } else {
        assert listed[i] == orig[p + i - |front|];
      }
    }
  }

  /** A skipped atom keeps its vitals and cooldown and stays in the list. */
  lemma SkipOne(pop: Population, orig: seq<Atom>, vs: seq<Vitals>, cs: seq<real>, plan: seq<Fate>, p: nat)
    requires SweptTo(pop, orig, vs, cs, plan, p) && p < |orig| && plan[p] == Skipped(vs[p])
    ensures SweptTo(pop, orig, vs, cs, plan, p + 1)
  {
    KeptStep(orig, plan, p);
    assert orig[p..] == [orig[p]] + orig[p + 1..];
  }

  /** The fate of the next atom, and what the loop leaves for those after it. */
  lemma NextFate(plan: seq<Fate>, vs: seq<Vitals>, p: nat)
    requires p < |vs| == |plan| && plan[p..] == SweepPlan(vs[p..])
    ensures plan[p] == Fated(vs[p])
    ensures !plan[p].Died? || p + 1 == |vs| ==> plan[p + 1..] == SweepPlan(vs[p + 1..])
    ensures plan[p].Died? && p + 1 < |vs| ==> plan[p + 1] == Skipped(vs[p + 1]) && plan[p + 2..] == SweepPlan(vs[p + 2..])
  {
    assert plan[p] == plan[p..][0];
    assert vs[p..][1..] == vs[p + 1..] && plan[p..][1..] == plan[p + 1..];
    if p + 1 < |vs| {
      assert vs[p..][2..] == vs[p + 2..] && plan[p..][2..] == plan[p + 2..];
    }
  }

  /** Before the pass no atom has had its fate and the list is the original one. */
  lemma SweptStart(pop: Population, vs: seq<Vitals>, cs: seq<real>, plan: seq<Fate>)
    requires forall k :: 0 <= k < |pop.atoms| ==> pop.atoms[k].mass > 0.0
    requires Distinct(pop.atoms) && vs == VitalsOfAll(pop.atoms) && cs == Cooldowns(pop.atoms) && |plan| == |vs|
    ensures SweptTo(pop, pop.atoms, vs, cs, plan, 0)
  {
    assert pop.atoms[0..] == pop.atoms;
  }

  /** The whole pass is done once every atom has had its fate. */
  lemma SweptAll(pop: Population, orig: seq<Atom>, vs: seq<Vitals>, cs: seq<real>, plan: seq<Fate>)
    requires SweptTo(pop, orig, vs, cs, plan, |orig|)
    ensures pop.atoms == Kept(orig, plan) && Distinct(pop.atoms)
    ensures forall k :: 0 <= k < |orig| ==>
              VitalsOf(orig[k]) == plan[k].v && orig[k].cooldown == if plan[k].Skipped? then cs[k] else CountDown(cs[k])
  {
    assert orig[..|orig|] == orig && plan[..|plan|] == plan;
    KeptSurvivors(orig, plan);
  }

  /**
   * update_atoms as written: each visited atom ages and decides once, dead atoms leave
   * the list in place, and the atom after each removed one is skipped for the tick.
   * The random draws of the i-th decide_behavior call are draws[i].
   */
  method UpdateAtoms(pop: Population, hypot: (real, real) -> real, draws: seq<Draws>)
    requires Distinct(pop.atoms) && forall k :: 0 <= k < |pop.atoms| ==> pop.atoms[k].mass > 0.0
    requires |draws| == |pop.atoms| && forall k :: 0 <= k < |draws| ==> ValidDraws(draws[k])
    modifies pop`atoms, pop.atoms`age, pop.atoms`hunger, pop.atoms`energy, pop.atoms`health, pop.atoms`cooldown
    modifies pop.atoms`vx, pop.atoms`vy
    ensures var plan := SweepPlan(old(VitalsOfAll(pop.atoms)));
            pop.atoms == Kept(old(pop.atoms), plan) && Distinct(pop.atoms) &&
            forall k :: 0 <= k < |old(pop.atoms)| ==>
              VitalsOf(old(pop.atoms)[k]) == plan[k].v &&
              old(pop.atoms)[k].cooldown == if plan[k].Skipped? then old(Cooldowns(pop.atoms))[k] else CountDown(old(Cooldowns(pop.atoms))[k])
  {
    ghost var orig, vs, cs := pop.atoms, VitalsOfAll(pop.atoms), Cooldowns(pop.atoms);
    ghost var plan := SweepPlan(vs);
    ghost var p := 0;
    SweptStart(pop, vs, cs, plan);
    var i := 0;
    while i < |pop.atoms|
      invariant SweepAt(pop, orig, vs, cs, plan, p, i)
      decreases |orig| - p
    {
      i, p := SweepStep(pop, i, hypot, draws[i], orig, vs, cs, plan, p);
    }
    SweptAll(pop, orig, vs, cs, plan);
  }

  /**
   * The state of update_atoms' loop: the pass has reached the atom at p of the original
   * list, which sits at index i of the current one; the fates from p on are those the
   * loop gives the rest of the list.
   */
  ghost predicate SweepAt(pop: Population, orig: seq<Atom>, vs: seq<Vitals>, cs: seq<real>, plan: seq<Fate>, p: nat, i: nat)
    reads pop`atoms, orig`age, orig`hunger, orig`energy, orig`health, orig`cooldown, orig`mass
  {
    SweptTo(pop, orig, vs, cs, plan, p) && plan[p..] == SweepPlan(vs[p..]) &&
    (p < |orig| ==> i == |Kept(orig[..p], plan[..p])|) && (p == |orig| ==> i >= |pop.atoms|) &&
    i <= |orig|
  }

  /**
   * One pass of update_atoms' loop body: the atom at index i is visited, and when it
   * died the list closes up under the index, so the atom after it is skipped.
   */
  method SweepStep(pop: Population, i: nat, hypot: (real, real) -> real, d: Draws,
                   ghost orig: seq<Atom>, ghost vs: seq<Vitals>, ghost cs: seq<real>, ghost plan: seq<Fate>, ghost p: nat)
    returns (next: nat, ghost p': nat)
    requires ValidDraws(d)
    requires SweepAt(pop, orig, vs, cs, plan, p, i) && i < |pop.atoms|
    modifies pop`atoms, orig`age, orig`hunger, orig`energy, orig`health, orig`cooldown, orig`vx, orig`vy
    ensures next == i + 1 && p < p' && SweepAt(pop, orig, vs, cs, plan, p', next)
  {
    NextFate(plan, vs, p);
    KeptStep(orig, plan, p);
    assert pop.atoms[i] == orig[p];
    var died := Visit(pop, pop.atoms[i], hypot, d, orig, vs, cs, plan, p);
    if died && p + 1 < |orig| {
      KeptStep(orig, plan, p + 1);
      SkipOne(pop, orig, vs, cs, plan, p + 1);
      p' := p + 2;
    } else {
      p' := p + 1;
    }
    next := i + 1;
  }

  /**
   * update_atoms over a copy of the list (for atom in atoms[:]): every atom ages and
   * decides exactly once and exactly the dead ones leave the list.
   */
  method UpdateAtomsOverCopy(pop: Population, hypot: (real, real) -> real, draws: seq<Draws>)
    requires Distinct(pop.atoms) && forall k :: 0 <= k < |pop.atoms| ==> pop.atoms[k].mass > 0.0
    requires |draws| == |pop.atoms| && forall k :: 0 <= k < |draws| ==> ValidDraws(draws[k])
    modifies pop`atoms, pop.atoms`age, pop.atoms`hunger, pop.atoms`energy, pop.atoms`health, pop.atoms`cooldown
    modifies pop.atoms`vx, pop.atoms`vy
    ensures pop.atoms == Kept(old(pop.atoms), AllFated(old(VitalsOfAll(pop.atoms)))) && Distinct(pop.atoms)
    ensures forall k :: 0 <= k < |old(pop.atoms)| ==>
              VitalsOf(old(pop.atoms)[k]) == Decay(old(VitalsOfAll(pop.atoms))[k]) &&
              old(pop.atoms)[k].cooldown == CountDown(old(Cooldowns(pop.atoms))[k])
  {
    var snapshot := pop.atoms;
    ghost var vs, cs := VitalsOfAll(pop.atoms), Cooldowns(pop.atoms);
    ghost var plan := AllFated(vs);
    SweptStart(pop, vs, cs, plan);
    for k := 0 to |snapshot|
      invariant SweptTo(pop, snapshot, vs, cs, plan, k)
      modifies pop`atoms, snapshot`age, snapshot`hunger, snapshot`energy, snapshot`health, snapshot`cooldown
      modifies snapshot`vx, snapshot`vy
    {
      var died := Visit(pop, snapshot[k], hypot, draws[k], snapshot, vs, cs, plan, k);
    }
    CopySweptAll(pop, snapshot, vs, cs);
  }

  /** A pass in which every atom met its own fate leaves exactly the survivors, each aged once. */
  lemma CopySweptAll(pop: Population, orig: seq<Atom>, vs: seq<Vitals>, cs: seq<real>)
    requires SweptTo(pop, orig, vs, cs, AllFated(vs), |orig|)
    ensures pop.atoms == Kept(orig, AllFated(vs)) && Distinct(pop.atoms)
    ensures forall k :: 0 <= k < |orig| ==> VitalsOf(orig[k]) == Decay(vs[k]) && orig[k].cooldown == CountDown(cs[k])
  {
    var plan := AllFated(vs);
    SweptAll(pop, orig, vs, cs, plan);
    forall k | 0 <= k < |orig|
      ensures VitalsOf(orig[k]) == Decay(vs[k]) && orig[k].cooldown == CountDown(cs[k])
    {
      assert plan[k] == Fated(vs[k]);
    }
  }
}
