/** The one-dimensional noisy move shared by the environment (`track::transition`)
    and the planner's simulation model (`model::transition_model`). */
module Dynamics {
  import opened Utils

  /** Whether the action's effect is inverted: the uniform draw `u` falls below
      the failure probability by more than the tolerance. */
  predicate Fails(u: real, failureProbability: real)
  {
    IsLessThan(u, failureProbability)
  }

  /** One move from `s` under action `a`. The Gaussian noise `normal(0, stddev)` is
      `stddev * z` for a standard normal draw `z`; `u` is the uniform draw on [0, 1). */
  function Step(s: real, a: int, stddev: real, failureProbability: real, z: real, u: real): (next: real)
    ensures Fails(u, failureProbability) ==> next == s - a as real + stddev * z
    ensures !Fails(u, failureProbability) ==> next == s + a as real + stddev * z
  {
    var effect := if Fails(u, failureProbability) then -(a as real) else a as real;
    s + effect + stddev * z
  }

  /** For a non-zero action, the move goes against the action exactly when the draw fails. */
  lemma StepInvertsExactlyOnFailure(s: real, a: int, stddev: real, failureProbability: real, z: real, u: real)
    requires a != 0
    ensures Step(s, a, stddev, failureProbability, z, u) == s - a as real + stddev * z
            <==> Fails(u, failureProbability)
  {
  }

  /** Without noise and with a zero failure probability, a draw in [0, 1) never fails
      and the move is exactly the action. */
  lemma ReliableNoiselessStep(s: real, a: int, z: real, u: real)
    requires 0.0 <= u
    ensures Step(s, a, 0.0, 0.0, z, u) == s + a as real
  {
  }
}
