/** The demo's update state as the program holds it: the bar list and the
    depletion map are updated in place by the key handlers and the update
    tick, and the last frame time and the leftover update time persist from
    one frame to the next. */
module Demo {
  import opened Bars
  import opened Timestep

  class BarDemo {
    var bars: seq<Bar>
    var depletions: seq<Entry>
    var lastFrameTime: real
    var cyclesLeftOver: real

    /** The bars and the depletion map as one value. */
    function State(): World
      reads this
    {
      World(bars, depletions)
    }

    ghost predicate Valid()
      reads this
    {
      Bars.Valid(State())
    }

    /** One bar {0, 90, 0, 100}, nothing depleting, no time accumulated. */
    constructor ()
      ensures Valid() && State() == Initial()
      ensures lastFrameTime == 0.0 && cyclesLeftOver == 0.0
    {
      bars := [Bar(0, 90, 0, 100)];
      depletions := [];
      lastFrameTime := 0.0;
      cyclesLeftOver := 0.0;
      InitialValid();
    }

    /** The 'x' key. */
    method ToggleDepletion()
      requires Valid()
      modifies this`depletions
      ensures Valid() && State() == Toggle(old(State()))
    {
      ghost var before := State();
      if depletions == [] {
        depletions := [Entry(0, 1)];
      } else {
        depletions := [];
      }
      ToggleKeepsValid(before);
    }

    /** The 'z' key. */
    method Refill()
      requires Valid()
      modifies this`bars
      ensures Valid() && State() == Bars.Refill(old(State()))
    {
      ghost var before := State();
      bars := bars[0 := bars[0].(current := bars[0].max)];
      RefillKeepsValid(before);
    }

    /** One update tick: walk the depletion map, deplete each entry's bar and
        erase the entry once its bar is below its minimum. The loop reproduces
        the source's iterator handling, including the skip after an erase;
        on the maps this program builds that is the same as visiting every
        entry. */
    method Tick()
      requires Valid()
      modifies this`bars, this`depletions
      ensures Valid()
      ensures State() == Pass(old(State()))
      ensures State() == CorrectedPass(old(State()))
    {
      ghost var before := State();
      PassKeepsValid(before);
      PassAgreesOnSmallMaps(before);
      var i := 0;
      while i < |depletions|
        invariant i <= |depletions| && KeysInRange(State())
        invariant PassFrom(State(), i) == Pass(before)
        decreases |depletions| - i
      {
        var e := depletions[i];
        bars := bars[e.bar := Deplete(bars[e.bar], e.rate)];
        if bars[e.bar].current < bars[e.bar].min {
          depletions := Erase(depletions, i);
          if i == |depletions| {
            break;
          }
        }
        i := i + 1;
      }
    }

    /** The update part of one frame at clock reading `currentTime` (the raw
        `SDL_GetTicks` value, in milliseconds, which the loop compares against
        an interval of 1/30 without conversion): add the elapsed time to the
        leftover, cap it, run a tick while more than one interval remains,
        and keep the rest for the next frame. `ticks` counts the loop's
        iterations for the contract; the source keeps no such counter. */
    method Frame(currentTime: real) returns (ghost ticks: nat)
      requires Valid()
      modifies this
      ensures Valid()
      ensures lastFrameTime == currentTime
      ensures Step(ticks, cyclesLeftOver) == FrameStep(currentTime - old(lastFrameTime), old(cyclesLeftOver))
      ensures ticks <= 1
      ensures ticks == 1 <==> (currentTime - old(lastFrameTime)) + old(cyclesLeftOver) > UpdateInterval
      ensures cyclesLeftOver <= UpdateInterval
      ensures old(lastFrameTime) <= currentTime && 0.0 <= old(cyclesLeftOver) ==> 0.0 <= cyclesLeftOver
      ensures State() == if ticks == 0 then old(State()) else Pass(old(State()))
    {
      ghost var elapsed, leftover := currentTime - lastFrameTime, cyclesLeftOver;
      var updateIterations := (currentTime - lastFrameTime) + cyclesLeftOver;
      if updateIterations > MaxCyclesPerFrame * UpdateInterval {
        updateIterations := MaxCyclesPerFrame * UpdateInterval;
      }
      ghost var budget := updateIterations;
      ghost var before := State();
      ticks := 0;
      while updateIterations > UpdateInterval
        invariant Valid()
        invariant ticks <= 1
        invariant ticks == 0 ==> updateIterations == budget && State() == before
        invariant ticks == 1 ==> updateIterations == budget - UpdateInterval && State() == Pass(before)
        invariant ticks == 1 ==> updateIterations > 0.0
        decreases 1 - ticks
      {
        updateIterations := updateIterations - UpdateInterval;
        Tick();
        ticks := ticks + 1;
      }
      LoopIsFrameStep(elapsed, leftover, ticks, updateIterations);
      cyclesLeftOver := updateIterations;
      lastFrameTime := currentTime;
    }
  }
}
