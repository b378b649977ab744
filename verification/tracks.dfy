/** The environment: a one-dimensional track of half-length `trackLength`,
    a time counter, a terminal test and a reward. */
module Tracks {
  import opened Utils
  import Dynamics

  datatype Track = Track(trackLength: real, stddev: real, failureProbability: real, time: u32)

  /** The constructor: the clock starts at zero. */
  function NewTrack(trackLength: real, stddev: real, failureProbability: real): (tr: Track)
    ensures tr.time == 0
    ensures tr.trackLength == trackLength && tr.stddev == stddev
    ensures tr.failureProbability == failureProbability
  {
    Track(trackLength, stddev, failureProbability, 0)
  }

  /** A state is terminal when its distance from the centre is not below the
      half-length by more than the tolerance. */
  predicate IsTerminal(tr: Track, s: real)
  {
    !IsLessThan(Abs(s), tr.trackLength)
  }

  lemma TerminalIffNearOrBeyondTheEnd(tr: Track, s: real)
    ensures IsTerminal(tr, s) <==>
              (s >= tr.trackLength - COMPARISON_THRESHOLD || s <= COMPARISON_THRESHOLD - tr.trackLength)
  {
  }

  /** Both ends of the track are alike. */
  lemma TerminalIsSymmetric(tr: Track, s: real)
    ensures IsTerminal(tr, s) == IsTerminal(tr, -s)
  {
  }

  datatype Moved = Moved(track: Track, next: real)

  /** `transition`: one noisy move; the clock advances by one tick (modulo 2^32). */
  function Transition(tr: Track, s: real, a: int, z: real, u: real): (r: Moved)
    ensures r.track.(time := tr.time) == tr
    ensures tr.time < U32_MAX ==> r.track.time as int == tr.time as int + 1
    ensures Dynamics.Fails(u, tr.failureProbability) ==> r.next == s - a as real + tr.stddev * z
    ensures !Dynamics.Fails(u, tr.failureProbability) ==> r.next == s + a as real + tr.stddev * z
  {
    var next := Dynamics.Step(s, a, tr.stddev, tr.failureProbability, z, u);
    Moved(tr.(time := Inc(tr.time)), next)
  }

  /** `reward`: one exactly on terminal states, zero elsewhere; the action and the
      next state are ignored. */
  function Reward(tr: Track, s: real, a: int, next: real): (r: real)
    ensures r == 1.0 <==> IsTerminal(tr, s)
    ensures r == 0.0 <==> !IsTerminal(tr, s)
  {
    if IsLessThan(Abs(s), tr.trackLength) then 0.0 else 1.0
  }

  /** The reward depends on the current state only. */
  lemma RewardIgnoresActionAndNextState(tr: Track, s: real, a: int, next: real, a': int, next': real)
    ensures Reward(tr, s, a, next) == Reward(tr, s, a', next')
  {
  }

  /** On a track of half-length 5, the tolerance makes 4.999999 as terminal as
      5.000001: both earn reward 1, while 4.99999 earns 0. */
  lemma RewardAtTheBoundary(a: int, next: real)
    ensures var tr := NewTrack(5.0, 0.0, 0.0);
            && Reward(tr, 4.999999, a, next) == 1.0
            && Reward(tr, 5.000001, a, next) == 1.0
            && Reward(tr, 4.99999, a, next) == 0.0
  {
  }
}
