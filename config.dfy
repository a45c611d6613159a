/**
 * The simulation's tuning constants (module-level globals of the Python program),
 * plus the literal thresholds and decay amounts written inline in the Atom methods.
 * SIMULATION_SPEED is not here: the control surface reassigns it, so it is a parameter
 * of UpdatePosition.
 */
module Config {
  const WindowSize: real := 1200.0
  const TrailLength: nat := 10
  const MaxVelocity: real := 5.0
  const DampingFactor: real := 0.995
  const CollisionDamping: real := 0.98
  const ForceScale: real := 1.0
  const Gravity: real := 0.01
  const Coulomb: real := 0.01
  const ForceThreshold: real := 100.0
  const MatingSeason: bool := true
  const ReproductionCooldown: real := 60.0

  /** The cooldown mate_with writes as a literal (the same value as REPRODUCTION_COOLDOWN). */
  const MatingCooldown: real := 60.0

  const FoodSpecies: string := "food"

  /** Vital caps and the amount one meal restores (Atom.eat). */
  const VitalCap: real := 100.0
  const MealGain: real := 20.0

  /** Per-tick decay applied by update_atoms. */
  const HungerDecay: real := 0.1
  const EnergyDecay: real := 0.2
  const StarvationDamage: real := 0.5

  /** Thresholds used by decide_behavior and find_mate. */
  const FleeHealth: real := 30.0
  const HungryBelow: real := 50.0
  const MatingHealth: real := 50.0
  const MateHealth: real := 70.0

  /** Velocity increment of one chase step (dx / distance * 0.1). */
  const ChaseStep: real := 0.1

  /** Half-widths of the random.uniform draws. */
  const WanderSpread: real := 0.1
  const PanicSpread: real := 1.0

  /** EvolvingStructure.grow: the growth rate is multiplied by this each call. */
  const GrowthDecay: real := 0.99
}
