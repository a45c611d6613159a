# Life simulation: a verified model of one tick

This project models the per-tick logic of the agent simulation in
`the_life_simulation_by_L4DK_v6_21062024.py`. Atoms move, feel pairwise gravity and
Coulomb forces, collide, eat food, mate and age. The model covers:

- the `Atom` methods that update an atom in place: forces, bounds, movement, trail,
  collisions, fleeing, chasing, wandering and `decide_behavior`;
- the list operations on the population: `eat`, `reproduce`/`mate_with` and `update_atoms`;
- the read-only searches: nearest food, nearest atom and first mate;
- `combine_atoms`;
- the force pair loop of `apply_gravity_and_forces` and `handle_collisions`;
- `EvolvingStructure` with `update_structures`.

Layout:

- `config.dfy` (module `Config`) holds the program's tuning constants.
- `physics.dfy` (module `Physics`) holds the arithmetic as pure functions over `Body`
  snapshots. This covers clamping, reflection at the borders, the trail, the collision
  impulse, the chase step and the pair force. It also holds the lemmas about them:
  momentum conservation, the behaviour of the collision guard, and the balance of the
  pair forces.
- `atom.dfy` (module `Atoms`) models `Atom` as a class whose methods change its fields.
  The atom list is a `seq<Atom>`. `Population` holds the list that `eat`, `mate_with`
  and `update_atoms` change. Python's `other != self` is reference inequality.
- `tick.dfy` (module `Tick`) models the pair loop of `apply_gravity_and_forces` and the
  loop of `handle_collisions` as methods with loops. They are proved against the
  specification functions in `Physics`.
- `ageing.dfy` (module `Ageing`) models `update_atoms` with an explicit index. It removes
  atoms from the list it walks, exactly as the Python `for` loop does.
- `structures.dfy` (module `Structures`) models `EvolvingStructure` and `update_structures`.

Several inputs are parameters rather than computed values:

- `math.hypot` is a parameter `hypot`. Lemmas that need it to be the Euclidean norm
  require `IsHypot(hypot)`.
- Each `random.uniform` draw is a parameter bounded by the draw's interval. For
  `decide_behavior` the draws are grouped in `Draws`.
- `SIMULATION_SPEED` is a parameter `speed`.

Floats are modelled as `real`.

## Model

| member | source | states |
|---|---|---|
| Physics.Clamp | the_life_simulation_by_L4DK_v6_21062024.py:289-290 | `max(lo, min(v, hi))` lies in `[lo, hi]`. It equals `v` inside the interval and the nearer bound outside it. |
| Physics.Bounce | the_life_simulation_by_L4DK_v6_21062024.py:251-262 | check_bounds on one axis. The position ends up in `[0, 1200]`. The velocity is negated exactly when the position is strictly outside that interval, and the position is then clamped to the nearer border. |
| Physics.BorderIsNotReflected | the_life_simulation_by_L4DK_v6_21062024.py:251-258 | A position of exactly 0 or exactly 1200 leaves position and velocity unchanged. |
| Physics.TrailPush | the_life_simulation_by_L4DK_v6_21062024.py:296-298 | The trail ends with the new point and is a suffix of the old trail plus that point. From at most 10 points it grows by one, and it is capped at 10. |
| Physics.MoveAxis | the_life_simulation_by_L4DK_v6_21062024.py:278-290 | After moving, damping, bouncing and clamping, the position lies in `[0, 1200]` and the speed is at most 5. The position is the plain step `p + v*speed` when that step stays inside. The new speed is the damped speed, capped at 5. |
| Physics.CappedSpeedBoundsEnergy | the_life_simulation_by_L4DK_v6_21062024.py:289-293 | With both velocity components clamped to 5, the recomputed kinetic energy lies between 0 and `25*mass`. |
| Physics.ChaseStepTowardTarget | the_life_simulation_by_L4DK_v6_21062024.py:527-533 | A chase step is zero when the target is at the same point. Otherwise it has length 0.1 and points toward the target (positive dot product with the offset). |
| Physics.Collide | the_life_simulation_by_L4DK_v6_21062024.py:373-413 | resolve_collision as written. Nothing changes when the centres coincide or when vn > 0 (the pair approaches). Otherwise only velocities change. Mass-weighted velocity (momentum) is conserved on each axis. |
| Physics.CollidePairMomentum | the_life_simulation_by_L4DK_v6_21062024.py:398-413 | The two bodies' total momentum on each axis is the same before and after a collision. |
| Physics.CollisionKeepsMomentum | the_life_simulation_by_L4DK_v6_21062024.py:398-413 | Colliding two members of a list leaves the list's total momentum unchanged on both axes. |
| Physics.ImpulseKeepsMomentum | the_life_simulation_by_L4DK_v6_21062024.py:398-413 | The damped impulse exchange keeps `ma*va + mb*vb` on both axes. |
| Physics.ImpulseShares | the_life_simulation_by_L4DK_v6_21062024.py:398-413 | Both velocity changes of the impulse lie along the normal. They carry equal and opposite momentum, so their sizes are in the ratio mb : ma. For positive masses, a's change along the normal never has the sign of vn: an approaching atom is slowed and a receding one pushed forward. |
| Physics.ImpulseScalesClosing | the_life_simulation_by_L4DK_v6_21062024.py:389-413 | Along a unit normal, the exchange turns the normal relative speed `vn` into `(1 - 2*0.98)*vn`. |
| Physics.CollisionNeverSeparates | the_life_simulation_by_L4DK_v6_21062024.py:389-413 | As written, the normal relative speed after resolve_collision is never negative. An approaching pair (vn > 0) keeps its normal speed, and Collide states that it is left unchanged. Any other pair has vn mapped to `-0.96*vn`, so after the call the pair is approaching or at rest along the normal. |
| Physics.SeparatingPairIsPushedTogether | the_life_simulation_by_L4DK_v6_21062024.py:394-395 | A concrete separating pair: one atom moving away at speed 1 from a resting atom of equal mass. After the collision the two atoms move toward each other. |
| Physics.CollideIntended | the_life_simulation_by_L4DK_v6_21062024.py:389-413 | The collision with the guard the other way round. Nothing changes when the centres coincide or when vn <= 0, so only approaching pairs receive the impulse. Momentum is conserved on both axes. |
| Physics.IntendedCollisionSeparates | the_life_simulation_by_L4DK_v6_21062024.py:389-413 | With the corrected guard, the normal relative speed after the call is never positive: colliding pairs end up separating or at rest along the normal. |
| Physics.KickMomentum | the_life_simulation_by_L4DK_v6_21062024.py:552-553 | Adding `(dvx, dvy)` to one body's velocity changes the list's momentum by exactly `mass * dv` on each axis. |
| Physics.NetForces | the_life_simulation_by_L4DK_v6_21062024.py:860-888 | The net force on atom k is the sum, over all other atoms, of the pair force the loop adds for that pair, with the sign for k's side. |
| Physics.ForceOnAntisymmetric | the_life_simulation_by_L4DK_v6_21062024.py:887-888 | The force a pair adds to one atom is the negative of what it adds to the other. |
| Physics.NetForcesBalance | the_life_simulation_by_L4DK_v6_21062024.py:860-888 | The net forces from the pair loop sum to zero over the population, on each axis. |
| Physics.IsolatedAtomFeelsNoForce | the_life_simulation_by_L4DK_v6_21062024.py:867-868 | An atom whose every pair is skipped (distance 0 or over 100) receives no net force. |
| Physics.OppositeChargesAttract | the_life_simulation_by_L4DK_v6_21062024.py:871-880 | Take two positive masses with charges of opposite sign within range. The scalar `Fg - Fe` is positive, and the force on the first atom points toward the second on each axis. |
| Atoms.Midpoint | the_life_simulation_by_L4DK_v6_21062024.py:1059-1061 | `(c1+c2)//2` lies between the two components and is their floored mean. |
| Atoms.Blend | the_life_simulation_by_L4DK_v6_21062024.py:1055-1077 | combine_atoms on traits. Mass is the sum, and health is the minimum of the parents'. Charge, size, vx and vy are means. Each colour component is the floored mean. Position and species come from the first parent. |
| Atoms.BlendKeepsColorRange | the_life_simulation_by_L4DK_v6_21062024.py:1058-1062 | Colours with components in 0..255 blend to such a colour. |
| Atoms.CountDown | the_life_simulation_by_L4DK_v6_21062024.py:634-635 | The cooldown drops by exactly 1 when positive and is otherwise unchanged. |
| Atoms.CountDownFromWhole | the_life_simulation_by_L4DK_v6_21062024.py:634-635 | From a whole cooldown n (such as 0 or 60), k ticks leave `max(n - k, 0)`, so the cooldown never goes negative. |
| Atoms.IndexOf | the_life_simulation_by_L4DK_v6_21062024.py:235 | `list.remove` finds the first occurrence of the atom. |
| Atoms.RemoveFirst | the_life_simulation_by_L4DK_v6_21062024.py:235 | `list.remove` takes out exactly the first occurrence and keeps the order of the rest. |
| Atoms.Atom.constructor | the_life_simulation_by_L4DK_v6_21062024.py:112-180 | A new atom has the given physical traits. Energy, hunger and health start at 100, and age, forces and cooldown at 0. The trail is empty and the atom is not in battle. |
| Atoms.Atom.ApplyForce | the_life_simulation_by_L4DK_v6_21062024.py:302-323 | apply_force accumulates the force and adds `force / mass` to the velocity. |
| Atoms.Atom.ResetForce | the_life_simulation_by_L4DK_v6_21062024.py:327-340 | reset_force zeroes the accumulated force. |
| Atoms.Atom.CheckBounds | the_life_simulation_by_L4DK_v6_21062024.py:240-262 | check_bounds is Bounce on each axis, and the atom ends inside the window. |
| Atoms.Atom.UpdatePosition | the_life_simulation_by_L4DK_v6_21062024.py:266-298 | update_position is MoveAxis on each axis. Energy becomes `0.5*mass*(vx²+vy²)`. The new position is pushed onto the trail. |
| Atoms.Atom.Advance | the_life_simulation_by_L4DK_v6_21062024.py:278-283 | The position moves by velocity times speed, then the velocity is damped by 0.995. |
| Atoms.Atom.ExtendTrail | the_life_simulation_by_L4DK_v6_21062024.py:296-298 | The trail becomes TrailPush of the current position. |
| Atoms.Atom.CollidesWithItself | the_life_simulation_by_L4DK_v6_21062024.py:344-358 | An atom of positive size collides with itself (distance 0 is less than twice its size). |
| Atoms.Atom.ResolveCollision | the_life_simulation_by_L4DK_v6_21062024.py:362-413 | For two different atoms, both velocities become those Collide computes. So nothing changes when they share a centre or approach (vn > 0), and momentum is conserved. An atom resolved against itself is unchanged. |
| Atoms.Atom.Nearest | the_life_simulation_by_L4DK_v6_21062024.py:451-459 | The strict-`<` scan over the first k atoms. A result is a candidate within that prefix. |
| Atoms.Atom.NearestIsEarliestMinimum | the_life_simulation_by_L4DK_v6_21062024.py:451-459 | The scan finds nothing exactly when no candidate exists. Otherwise it returns a candidate at minimal distance, strictly closer than every earlier candidate. |
| Atoms.Atom.NearestFound | the_life_simulation_by_L4DK_v6_21062024.py:568-576 | The result over the whole list is the unique earliest nearest candidate, or None exactly when there is no candidate. |
| Atoms.Atom.FindNearestFood | the_life_simulation_by_L4DK_v6_21062024.py:440-459 | find_nearest_food returns the atom Nearest picks among food atoms (which may be this atom). |
| Atoms.Atom.FindNearestAtom | the_life_simulation_by_L4DK_v6_21062024.py:557-576 | find_nearest_atom returns the atom Nearest picks among atoms other than this one. |
| Atoms.Atom.FirstMate | the_life_simulation_by_L4DK_v6_21062024.py:475-487 | This is the first atom in list order other than self with health over 70, cooldown 0 and the same species. The result is None exactly when there is none. |
| Atoms.Atom.FindMate | the_life_simulation_by_L4DK_v6_21062024.py:463-487 | find_mate returns the atom FirstMate picks. |
| Atoms.Atom.FirstEdible | the_life_simulation_by_L4DK_v6_21062024.py:229-236 | This is the first food atom in list order that collides with self, or None exactly when there is none. |
| Atoms.Atom.FoodEatsItself | the_life_simulation_by_L4DK_v6_21062024.py:229-236 | A listed food atom of positive size always finds an edible atom at or before its own index: itself, if no earlier one. |
| Atoms.Atom.Eat | the_life_simulation_by_L4DK_v6_21062024.py:212-236 | On a match, hunger and energy become `min(100, old + 20)` and exactly the first edible atom leaves the list, the others keeping their order. With no match, the list, hunger and energy are unchanged. |
| Atoms.Atom.MateWith | the_life_simulation_by_L4DK_v6_21062024.py:580-606 | Exactly one fresh offspring, the Blend of the parents, is appended. Both parents' cooldowns become 60. |
| Atoms.Atom.Reproduce | the_life_simulation_by_L4DK_v6_21062024.py:184-208 | With cooldown 0 and a mate found, one offspring is appended and self and the mate get cooldown 60, with no other cooldown changed. Otherwise the list and every cooldown are unchanged. |
| Atoms.Atom.CollideIfTouching | the_life_simulation_by_L4DK_v6_21062024.py:429-431 | One step of flee's loop: Collide is applied exactly when the atoms collide (and are two different atoms). The list's momentum is conserved. |
| Atoms.Atom.CollideWithAll | the_life_simulation_by_L4DK_v6_21062024.py:429-431 | flee's collision loop conserves the list's momentum on both axes. When no other atom of the list touches this one, no velocity changes. |
| Atoms.Atom.Flee | the_life_simulation_by_L4DK_v6_21062024.py:417-436 | flee changes the list's momentum only by the panic kick, `mass * draw`, which happens when health is below 30. When no other atom touches this one, its own velocity changes by that draw alone, or not at all above health 30. |
| Atoms.Atom.Chase | the_life_simulation_by_L4DK_v6_21062024.py:516-533 | chase adds ChaseDelta toward the target to this atom's velocity. The list's momentum changes by mass times that step. |
| Atoms.Atom.Nudge | the_life_simulation_by_L4DK_v6_21062024.py:643-644 | The jitter adds the two draws to the velocity. |
| Atoms.Atom.Wander | the_life_simulation_by_L4DK_v6_21062024.py:537-553 | wander adds two draws from `[-0.1, 0.1]` to the velocity. |
| Atoms.Atom.ChaseIfFound | the_life_simulation_by_L4DK_v6_21062024.py:669-670 | The velocity changes by the chase step toward the found atom, and not at all when none was found. |
| Atoms.Atom.ApproachNearest | the_life_simulation_by_L4DK_v6_21062024.py:647-662 | Unless in battle, the atom steps 0.1 toward the nearest other atom. |
| Atoms.Atom.SteerStep | the_life_simulation_by_L4DK_v6_21062024.py:665-695 | The velocity changes by the pull of the steering choice Steer makes. |
| Atoms.Atom.DecideBehavior | the_life_simulation_by_L4DK_v6_21062024.py:610-695 | The cooldown counts down. Without fleeing, the velocity changes by jitter + approach + steering pull, and no other atom's velocity changes. |
| Atoms.Atom.SteerTargets | the_life_simulation_by_L4DK_v6_21062024.py:665-695 | The nearest food when hunger is below 50. Otherwise, in the mating mood, the first suitable mate. Otherwise the nearest other atom if strictly weaker, else a wander. NoFood and NoMate mean that no such atom exists. |
| Atoms.Atom.HungerAtThresholdNeitherFeedsNorMates | the_life_simulation_by_L4DK_v6_21062024.py:665-688 | At hunger exactly 50 the atom neither seeks food nor looks for a mate. |
| Atoms.CombineAtoms | the_life_simulation_by_L4DK_v6_21062024.py:1053-1078 | A fresh atom whose traits are the Blend of the parents, with a newborn's hunger, energy, age, cooldown and empty trail. |
| Tick.ResetForces | the_life_simulation_by_L4DK_v6_21062024.py:856-857 | Every atom's force is zeroed. |
| Tick.PairStep | the_life_simulation_by_L4DK_v6_21062024.py:862-888 | The pair force goes to `a` and its negative to `b`. Each velocity changes by its force over its mass. |
| Tick.PairVisit | the_life_simulation_by_L4DK_v6_21062024.py:861-888 | Visiting pair (i, j) moves the loop state on to (i, j+1). |
| Tick.PairRows | the_life_simulation_by_L4DK_v6_21062024.py:860-888 | The double loop over pairs i < j reaches its final state. |
| Tick.ApplyPairForces | the_life_simulation_by_L4DK_v6_21062024.py:854-888 | After reset_force and the pair loop, each atom's force is NetForces of the positions before the loop, and each velocity has moved by force over mass. The forces sum to zero on both axes. |
| Tick.HandleCollisions | the_life_simulation_by_L4DK_v6_21062024.py:910-926 | The loop over pairs i < j conserves the population's momentum on both axes. |
| Tick.CollideRow | the_life_simulation_by_L4DK_v6_21062024.py:923-926 | The inner loop for one i conserves momentum. |
| Ageing.DecayOverTicks | the_life_simulation_by_L4DK_v6_21062024.py:1096-1102 | After k ageing steps, age is up by k, hunger down by 0.1k and energy down by 0.2k. Health is between `h - 0.5k` and `h`. It is unchanged while fed and drops by exactly 0.5k when starving from the start. |
| Ageing.SweepPlan | the_life_simulation_by_L4DK_v6_21062024.py:1094-1106 | The fates the loop gives the list. The first atom is visited. An atom is skipped exactly when the atom before it died. Visited atoms age (and die when health is gone), and skipped atoms keep their vitals. |
| Ageing.AllFated | the_life_simulation_by_L4DK_v6_21062024.py:1094-1106 | The fates of a walk over a copy: every atom ages once. |
| Ageing.SweepMatchesCopyIff | the_life_simulation_by_L4DK_v6_21062024.py:1094-1106 | The loop as written treats every atom as a walk over a copy would exactly when no atom but possibly the last dies. |
| Ageing.DeathSkipsNextAtom | the_life_simulation_by_L4DK_v6_21062024.py:1103-1106 | A concrete two-atom list in which the first atom dies: the second is skipped and neither ages nor decides. |
| Ageing.KeptSurvivors | the_life_simulation_by_L4DK_v6_21062024.py:1103-1104 | The list after the pass holds only original atoms and keeps every atom that did not die. In a list without repeats, no atom that died is kept, and the list stays without repeats. |
| Ageing.Age | the_life_simulation_by_L4DK_v6_21062024.py:1096-1103 | One ageing step is Decay of the vitals. The atom is dead exactly when Fated says so. |
| Ageing.StepAtom | the_life_simulation_by_L4DK_v6_21062024.py:1096-1106 | The loop body for one atom. The atom ages. It is removed from its position exactly when it died. decide_behavior runs even for a removed atom: its cooldown counts down and, unless it flees, its velocity moves by jitter + approach + steering pull among the atoms still listed, with no other listed atom's velocity changed. |
| Ageing.Decide | the_life_simulation_by_L4DK_v6_21062024.py:1106 | decide_behavior as the loop sees it. The cooldown counts down. Unless the atom flees (health below 30), its velocity moves by jitter + approach pull + steering pull, and no other listed atom's velocity changes. |
| Ageing.Visit | the_life_simulation_by_L4DK_v6_21062024.py:1094-1106 | Visiting the next original atom advances the pass state by one atom. |
| Ageing.SweepStep | the_life_simulation_by_L4DK_v6_21062024.py:1094-1106 | One iteration at list index i advances the pass past that atom. If it died, the pass also moves past the next one, which is skipped. |
| Ageing.UpdateAtoms | the_life_simulation_by_L4DK_v6_21062024.py:1082-1106 | update_atoms as written. The list becomes the atoms SweepPlan does not kill, in order, and stays duplicate-free. Each atom's vitals are those of its fate. The cooldown counts down for visited atoms and not for skipped ones. |
| Ageing.UpdateAtomsOverCopy | the_life_simulation_by_L4DK_v6_21062024.py:1094-1106 | The loop over a copy: every atom ages and decides exactly once, and exactly the dead leave the list. |
| Structures.GrowthKeepsLimit | the_life_simulation_by_L4DK_v6_21062024.py:753-761 | After n grow steps, `size + rate/(1-0.99)` is unchanged, age is up by n and the rate is `rate * 0.99^n`. |
| Structures.GrowthBounded | the_life_simulation_by_L4DK_v6_21062024.py:753-761 | With a non-negative rate, the size never decreases and never exceeds that limit, and the rate stays in `[0, initial rate]`. |
| Structures.TimesIsProduct | the_life_simulation_by_L4DK_v6_21062024.py:755-757 | Adding the rate once per listing adds `count * rate`. |
| Structures.CountOnce | the_life_simulation_by_L4DK_v6_21062024.py:1121-1122 | A structure listed once is counted once, so update_structures grows it exactly once. |
| Structures.EvolvingStructure.constructor | the_life_simulation_by_L4DK_v6_21062024.py:700-718 | A new structure has the given position, size and rate, no atoms and age 0. |
| Structures.EvolvingStructure.AddAtom | the_life_simulation_by_L4DK_v6_21062024.py:721-732 | add_atom appends the atom. |
| Structures.EvolvingStructure.Grow | the_life_simulation_by_L4DK_v6_21062024.py:735-761 | The structure takes one GrowStep: the size grows by the rate, the age goes up by one and the rate decays by 0.99. Each owned atom's size grows by the old rate once per listing. |
| Structures.GrowNext | the_life_simulation_by_L4DK_v6_21062024.py:1121-1122 | One visit of update_structures' loop advances its state by one structure. |
| Structures.SoleOwnerGainsItsRate | the_life_simulation_by_L4DK_v6_21062024.py:755-757 | When every structure is listed once and exactly one lists the atom, once, the atom's gain over the pass is that structure's rate before the pass: the `atom.size += self.growth_rate` of grow. |
| Structures.UpdateStructures | the_life_simulation_by_L4DK_v6_21062024.py:1110-1122 | Each structure's growth becomes Grown of its old growth, as many steps as it is listed. Each owned atom gains the rate of every visit of a structure that lists it, as Gain defines it. |

## Left out

- Rendering is not modelled because it is UI: `draw_atom`, `EvolvingStructure.draw`, and the food, structure and caption drawing in the main loop.
- Not modelled because they are input plumbing and view state: the event loop, keyboard and mouse handling, `zoom_at`, and the pan/zoom globals.
- `save_simulation` and `load_simulation` are not modelled because they are pickle file I/O.
- `create_atom` and the initial population setup are not modelled because they are driven by `random`. The model uses two facts from them: every atom has a positive mass, and every list holds distinct objects. Several methods require these.
- The random generator is not modelled. Each draw is a parameter bounded by its interval.
- `Ageing.UpdateAtoms` takes the draws of the i-th loop iteration from `draws[i]`, which is an assumption about how those draws are arranged.
- `Ageing.UpdateAtoms`: the velocities that decide_behavior changes are not stated for the whole pass. Its contract covers the list, the vitals and the cooldowns. `Ageing.StepAtom` states each visit's velocity change, but the pass does not compose them, because each visit reads velocities that earlier visits changed.
- `Ageing.UpdateAtomsOverCopy`: the velocities that decide_behavior changes are not stated for the whole pass, for the same reason as `Ageing.UpdateAtoms`.
- `Ageing.Decide`: when health is below 30 (the flee branch), only the cooldown is stated, as for `Atoms.Atom.DecideBehavior`.
- `Ageing.StepAtom`: when the aged atom's health is below 30, only its cooldown is stated among the decide_behavior effects, as for `Atoms.Atom.DecideBehavior`.
- `Atoms.Atom.DecideBehavior`: when health is below 30 (the flee branch), only the cooldown is stated. Flee's effect on momentum is stated by `Atoms.Atom.Flee`.
- `Atoms.Atom.CollideWithAll`: when some atom touches this one, it states only that momentum is conserved. The exact velocities depend on list order, because each collision sees the velocities left by the previous ones.
- `Atoms.Atom.Flee`: when some atom touches this one, it states only the momentum change, for the same reason as `Atoms.Atom.CollideWithAll`.
- `Tick.CollideRow`: states only that momentum is conserved. The exact velocities depend on the order of the pairs.
- `Tick.HandleCollisions` states only that momentum is conserved. It does not state the exact velocities, which depend on the order of the pairs.
- The drag loop of `apply_gravity_and_forces` (each atom gets `apply_force(-vx, -vy)`) is not modelled as a loop. `Atoms.Atom.ApplyForce` states the single call. The force balance holds for the pair loop only, because drag is not pairwise.
- The composite per-atom loop of `apply_gravity_and_forces` and the outer tick cadence are not modelled as one operation. The model covers each operation they call instead.
- The nested `find_mate` defined after a `return` is not modelled because it is unreachable.
- The constant `TRAIL_LENGTH` is the float 10.0 in the source. Comparing a list length with it is the same as comparing with the integer 10.
- IEEE-754 rounding, infinities and NaN are not modelled, because all arithmetic is on `real`. `float("inf")` as the initial best distance becomes "no candidate yet".
- The actual magnitudes of gravity and Coulomb forces matter only through `PairScalar`. The properties stated are the skipping of pairs, antisymmetry, the balance of forces and the sign for opposite charges.
- `Structures.UpdateStructures`: structures and atoms are separate classes, so growing a structure never changes another structure's fields. `add_atom` is never called in the program, so the owned lists are empty there. The model still handles any owned lists, duplicates included.

## Findings

| source | as written | input that shows it | evidently intended | confidence | as-written member | corrected member |
|---|---|---|---|---|---|---|
| the_life_simulation_by_L4DK_v6_21062024.py:394-395 | `if vn > 0: return` with `vn = (v_self - v_other) · n` and `n` pointing from self to other. The call returns for approaching pairs and applies the impulse to separating ones. | Atom at (0,0) with velocity (-1,0) and atom at (1,0) at rest, both of mass 1. The pair is separating (vn = -1). After the call the velocities are -0.02 and -0.98, so the pair now approaches. | Skip pairs that do not approach (`vn <= 0`), and push approaching pairs apart. | high (not executed) | Physics.SeparatingPairIsPushedTogether | Physics.IntendedCollisionSeparates |
| the_life_simulation_by_L4DK_v6_21062024.py:1094-1106 | `for atom in atoms` with `atoms.remove(atom)` inside the loop. The following atom slides into the freed slot, and the iterator moves past it. | Two atoms, the first with hunger 0.05 and health 0.5 (it dies this tick), the second healthy. The second atom neither ages nor runs decide_behavior this tick. | Every atom ages and decides once per tick, for example by iterating over `atoms[:]`. | high (not executed) | Ageing.DeathSkipsNextAtom | Ageing.UpdateAtomsOverCopy |
