/** The fixed-timestep accumulator that decides how many update ticks a
    frame runs. Time is an exact `real`, compared directly against the
    update interval of 1/30; no unit is attached to it, because the clock
    reading the frame loop subtracts is whatever the host returns. */
module Timestep {

  const MaximumFrameRate: int := 30
  const MinimumFrameRate: int := 15

  /** The update interval, 1 / MAXIMUM_FRAME_RATE. */
  const UpdateInterval: real := 1.0 / MaximumFrameRate as real

  /** The integer quotient 30 / 15, stored as a floating value. */
  const MaxCyclesPerFrame: real := (MaximumFrameRate / MinimumFrameRate) as real

  /** The most time one frame may spend on updates. */
  const FrameCap: real := MaxCyclesPerFrame * UpdateInterval

  /** The time a frame has for updates: the elapsed time plus what the last
      frame left over, capped at FrameCap. */
  function Budget(elapsed: real, leftover: real): (v: real)
    ensures v <= FrameCap && v <= elapsed + leftover
    ensures v == elapsed + leftover || v == FrameCap
  {
    var v := elapsed + leftover;
    if v > FrameCap then FrameCap else v
  }

  /** What the update loop leaves behind when it starts from v, runs n
      iterations each taking one interval off, and stops with `left`: the loop
      stops only once `left` is at most one interval, and its last iteration
      ran because the value was still above one interval. */
  predicate Drained(v: real, n: nat, left: real) {
    && left == v - n as real * UpdateInterval
    && left <= UpdateInterval
    && (n > 0 ==> left > 0.0)
  }

  /** The outcome of one frame: how many ticks ran and the leftover stored. */
  datatype Step = Step(ticks: nat, leftover: real)

  /** The loop's outcome is determined by where it starts. */
  lemma DrainedUnique(v: real, n1: nat, left1: real, n2: nat, left2: real)
    requires Drained(v, n1, left1) && Drained(v, n2, left2)
    ensures n1 == n2 && left1 == left2
  {
  }

  /** One frame of the accumulator. Because the budget is capped at two
      intervals and the loop runs only while strictly more than one interval
      remains, a frame runs at most one tick, exactly when the elapsed time
      plus the leftover exceeds an interval, and the new leftover never
      exceeds one interval (nor drops below zero when time does not run
      backwards). */
  function FrameStep(elapsed: real, leftover: real): (r: Step)
    ensures Drained(Budget(elapsed, leftover), r.ticks, r.leftover)
    ensures r.ticks <= 1
    ensures r.ticks == 1 <==> elapsed + leftover > UpdateInterval
    ensures 0.0 <= elapsed && 0.0 <= leftover ==> 0.0 <= r.leftover
  {
    var v := Budget(elapsed, leftover);
    if v > UpdateInterval then Step(1, v - UpdateInterval) else Step(0, v)
  }

  /** Any number of loop iterations that ends in a state the loop could stop
      in, from a capped budget, is the frame step. */
  lemma LoopIsFrameStep(elapsed: real, leftover: real, n: nat, left: real)
    requires Drained(Budget(elapsed, leftover), n, left)
    ensures Step(n, left) == FrameStep(elapsed, leftover)
    ensures n <= 1
  {
  }

  /** A long stall (ten seconds) still runs just one tick and keeps one full
      interval as leftover. */
  lemma LongStall(leftover: real)
    requires 0.0 <= leftover <= UpdateInterval
    ensures FrameStep(10.0, leftover) == Step(1, UpdateInterval)
  {
  }

  function Sum(es: seq<real>): (total: real)
    decreases |es|
  {
    if es == [] then 0.0 else es[0] + Sum(es[1..])
  }

  lemma {:induction false} SumNonNegative(es: seq<real>)
    requires forall j :: 0 <= j < |es| ==> es[j] >= 0.0
    ensures Sum(es) >= 0.0
    decreases |es|
  {
    if es != [] {
      SumNonNegative(es[1..]);
    }
  }

  /** Successive frames with the given elapsed times: total ticks and the
      final leftover. Each frame runs at most one tick. */
  function Frames(leftover: real, es: seq<real>): (r: Step)
    ensures r.ticks <= |es|
    decreases |es|
  {
    if es == [] then Step(0, leftover)
    else
      var s := FrameStep(es[0], leftover);
      var rest := Frames(s.leftover, es[1..]);
      Step(s.ticks + rest.ticks, rest.leftover)
  }

  /** Frames whose elapsed times, added to the leftover, stay within one
      interval run no tick and accumulate all of that time as leftover. */
  lemma {:induction false} FramesWithinOneInterval(leftover: real, es: seq<real>)
    requires 0.0 <= leftover
    requires forall j :: 0 <= j < |es| ==> es[j] >= 0.0
    requires leftover + Sum(es) <= UpdateInterval
    ensures Frames(leftover, es) == Step(0, leftover + Sum(es))
    decreases |es|
  {
    if es != [] {
      SumNonNegative(es[1..]);
      assert FrameStep(es[0], leftover) == Step(0, es[0] + leftover);
      FramesWithinOneInterval(es[0] + leftover, es[1..]);
    }
  }

  /** Small frames adding up to exactly one interval run no tick, because the
      loop needs strictly more than one interval; the interval is carried
      over whole, and the next frame with any positive elapsed time runs the
      tick. */
  lemma OneIntervalInSmallFrames(es: seq<real>, next: real)
    requires forall j :: 0 <= j < |es| ==> es[j] >= 0.0
    requires Sum(es) == UpdateInterval
    requires next > 0.0
    ensures Frames(0.0, es) == Step(0, UpdateInterval)
    ensures FrameStep(next, Frames(0.0, es).leftover).ticks == 1
  {
    FramesWithinOneInterval(0.0, es);
  }
}
