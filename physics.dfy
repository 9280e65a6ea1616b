/**
 * The bird's vertical motion: the gravity step of a normal tick and the
 * 15-pixel steps of the fall after death.
 */
module Physics {

  /** The velocity `resetData` gives the bird. */
  const InitialVelocity: real := 8.0
  /** What a tick adds to the velocity while it is not above `VelocityCeiling`. */
  const Acceleration: real := 0.5
  /** The velocity a touch sets. */
  const JumpVelocity: real := -10.0
  /** The velocity grows only while it is at most this. */
  const VelocityCeiling: real := 10.0
  /** No velocity reached from a jump or a reset exceeds this. */
  const MaxVelocity: real := VelocityCeiling + Acceleration
  /** Pixels the dead bird drops per step of its fall. */
  const FallStep: real := 15.0

  /** The velocity after one tick's gravity step. Its contract bounds the step;
      `VelocityAfterTicks` pins the exact half-pixel step for every velocity a reset
      or a jump can lead to. */
  function NextVelocity(v: real): (w: real)
    ensures v <= w <= v + Acceleration
    ensures v <= MaxVelocity ==> w <= MaxVelocity
    ensures v <= VelocityCeiling ==> w > v
  {
    if v <= VelocityCeiling then v + Acceleration else v
  }

  /** The velocity after `n` ticks without a touch. */
  function VelocityAfter(v: real, n: nat): real
    decreases n
  {
    if n == 0 then v else VelocityAfter(NextVelocity(v), n - 1)
  }

  /**
   * From a velocity of `h` half-pixels per tick (a reset gives 16, a jump -20),
   * `n` ticks without a touch raise it by half a pixel per tick until it reaches
   * `MaxVelocity`, where it stays.
   */
  lemma {:induction false} VelocityAfterTicks(h: int, n: nat)
    requires h <= 21
    ensures VelocityAfter(h as real / 2.0, n) ==
              if h + n <= 21 then (h + n) as real / 2.0 else MaxVelocity
    decreases n
  {
    if n > 0 {
      if h <= 20 {
        assert NextVelocity(h as real / 2.0) == (h + 1) as real / 2.0;
        VelocityAfterTicks(h + 1, n - 1);
      } else {
        VelocityStaysAtMax(n - 1);
      }
    }
  }

  /** Once at `MaxVelocity`, the velocity no longer changes. */
  lemma {:induction false} VelocityStaysAtMax(n: nat)
    ensures VelocityAfter(MaxVelocity, n) == MaxVelocity
  {
    if n > 0 {
      VelocityStaysAtMax(n - 1);
    }
  }

  /** After a reset the velocity reaches its ceiling on the fifth tick. */
  lemma VelocityFromReset(n: nat)
    ensures VelocityAfter(InitialVelocity, n) ==
              if n <= 5 then InitialVelocity + n as real * Acceleration else MaxVelocity
  {
    VelocityAfterTicks(16, n);
  }

  /** The number of steps of the fall loop from height `y` to the ground at `ground`. */
  function FallSteps(y: real, ground: int): nat
    decreases if y < ground as real then (ground as real - y).Floor + 1 else 0
  {
    if y < ground as real then 1 + FallSteps(y + FallStep, ground) else 0
  }

  /**
   * The fall makes no step from the ground or below it; from above it, it makes
   * the least number of steps that reaches the ground, that is
   * ceil((ground - y) / 15), so the bird ends less than one step below it.
   */
  lemma {:induction false} FallStepsExact(y: real, ground: int)
    ensures y >= ground as real ==> FallSteps(y, ground) == 0
    ensures y < ground as real ==>
              var n := FallSteps(y, ground);
              n > 0 &&
              y + (n - 1) as real * FallStep < ground as real <= y + n as real * FallStep &&
              y + n as real * FallStep < ground as real + FallStep
    decreases if y < ground as real then (ground as real - y).Floor + 1 else 0
  {
    if y < ground as real {
      FallStepsExact(y + FallStep, ground);
    }
  }

  /** A bird that dies 150 pixels above the ground lands after exactly 10 steps. */
  lemma FallFromTenStepsAbove(ground: int)
    ensures FallSteps(ground as real - 150.0, ground) == 10
  {
    FallStepsExact(ground as real - 150.0, ground);
  }
}
