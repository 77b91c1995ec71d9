# Depleting progress bar: a Dafny model

The demo in `src/main.cpp` draws one progress bar and runs a small state
machine inside `main`:

- It keeps a list of bars `{id, percent_current, percent_min, percent_max}`,
  starting as the single bar `{0, 90, 0, 100}`.
- It keeps a `std::map` from bar to a `depletion {percent}` rate.
- The `x` key toggles depletion of the front bar at 1 point per tick.
- The `z` key refills the front bar to its maximum.
- Every frame, a fixed-timestep accumulator decides whether an update tick
  runs. A tick walks the map, depletes each bar, and erases an entry once its
  bar falls below its minimum.
- The inner rectangle of the bar is `floor(380 * current / max + 0.5)` pixels
  wide. It is drawn only when that width is positive.

The project has four modules:

- `Bars` (`bars.dfy`) holds the state as a value, `World(bars, deps)`. The map
  is a sequence of entries ordered by strictly increasing key. The key is the
  bar's index in the list. The invariant keeps bar ids increasing along the
  list, so index order is the map's id order. The module defines the two key
  intents and the tick exactly as the source's iterator loop runs it. It also
  holds the lemmas about them.
- `Timestep` (`timestep.dfy`) is the per-frame accumulator in exact
  arithmetic (`real`). The update interval is 1/30 and the cap factor is the
  integer quotient 30 / 15 = 2.
- `Width` (`width.dfy`) is the inner-rectangle width. It uses C++ truncating
  division, written out explicitly, because Dafny's `/` is Euclidean.
- `Demo` (`demo.dfy`) is the class `BarDemo`. Its fields are the bar list,
  the depletion map, and the two `static double`s of the frame loop. Its
  methods are the key handlers, the tick with its iterator loop, and the frame
  with its `while` loop. Each method is proved against the functions of
  `Bars` and `Timestep`.

Facts about the code that the model makes precise:

- The code never clamps `percent_current`. Each tick lowers it by the rate,
  and a bar that has run out can be depleted again by pressing `x`, so it has
  no lower bound (`Bars.NoLowerBound`). It never rises above its maximum
  (`Bars.NeverAboveMax`).
- The entry is erased on the 91st tick from the start, not the 90th, because
  the test is `current < min` and the bar must reach -1 first
  (`Bars.RunExhausted`).
- At most one tick runs per frame. The budget is capped at two intervals, and
  the loop runs only while strictly more than one interval remains
  (`Timestep.FrameStep`).
- Frames whose times add up to exactly one interval run no tick, because the
  test is a strict `>`. The carried interval ticks on the next frame with
  positive elapsed time (`Timestep.OneIntervalInSmallFrames`).
- The tick loop skips the successor of an erased entry (see Findings).

## Model

| member | source | states |
|---|---|---|
| Bars.Initial | src/main.cpp:138-139 | The program starts with one bar: current 90, min 0, max 100. Nothing is depleting. |
| Bars.Toggle | src/main.cpp:154-163 | Bars are unchanged. An empty map becomes exactly `{front bar ↦ 1}`. A non-empty map becomes empty. |
| Bars.Refill | src/main.cpp:165-167 | The front bar's current becomes its max. Its id, min and max stay. Other bars and the depletion map are unchanged. |
| Bars.Deplete | src/main.cpp:199 | The bar's current drops by exactly the rate. Its id, min and max stay. |
| Bars.Erase | src/main.cpp:203 | Erasing at position i removes exactly that entry. The entries before it keep their places, and the ones after it move down by one. |
| Bars.PassFrom | src/main.cpp:197-210 | The iterator loop as written, including the skip after an erase and the break at the end. It keeps the bar count, and every key still names a bar. |
| Bars.Pass | src/main.cpp:197-210 | One update tick from the start of the map. It keeps the bar count, and every key still names a bar. |
| Bars.PassFromPrefix | src/main.cpp:197-210 | Entries before the iterator's position are never touched, and the map never grows. |
| Bars.PassFromSubset | src/main.cpp:197-210 | Every entry left after the tick was in the map before it. |
| Bars.PassFromBars | src/main.cpp:199-203 | Every bar keeps its id, min and max. A bar that no remaining entry names is untouched. With non-negative rates no current rises. |
| Bars.PassVisitsAt | src/main.cpp:197-203 | Whenever the loop reaches position i, it visits that entry: its bar becomes exactly one depletion step of the old bar, and the entry is erased iff the new current is below min. |
| Bars.VisitErased | src/main.cpp:197-203 | The erasing half of `PassVisitsAt`: the bar drops by its rate and the entry is gone after the tick. |
| Bars.VisitKept | src/main.cpp:197-203 | The keeping half of `PassVisitsAt`: the bar drops by its rate and the entry is still in the map after the tick. |
| Bars.PassSkipsSuccessor | src/main.cpp:197-210 | If the entry at i is erased and has a successor, the successor stays in the map but its bar is untouched by this tick. |
| Bars.PassVisitsSuccessor | src/main.cpp:197-210 | If the entry at i stays and has a successor, the successor is visited: its bar drops by its rate, and it is erased iff the new current is below min. |
| Bars.PassFirstEntry | src/main.cpp:197-203 | The first entry is always visited. Its bar's current drops by exactly its rate, and its id, min and max stay. The entry is erased iff the new current is below min. |
| Bars.PassSingleEntry | src/main.cpp:197-210 | With one entry, the tick is one depletion of that entry's bar. The entry is removed exactly when the bar falls below its min. |
| Bars.PassEmpty | src/main.cpp:197 | With an empty map the tick changes nothing. |
| Bars.PassKeepsValid | src/main.cpp:197-210 | The tick keeps the invariant. Bars stay non-empty with increasing ids. Keys stay in range and ordered. There is at most one entry, rates are non-negative, and no current is above its max. |
| Bars.ToggleKeepsValid | src/main.cpp:154-163 | The toggle keeps the invariant, so the map never holds more than one entry. |
| Bars.RefillKeepsValid | src/main.cpp:165-167 | The refill keeps the invariant, because it raises current only to max. |
| Bars.InitialValid | src/main.cpp:138-139 | The starting state satisfies the invariant. |
| Bars.ToggleTwiceFromEmpty | src/main.cpp:154-163 | From an idle state, one toggle inserts `{front ↦ 1}`. A second toggle restores the idle state. |
| Bars.CorrectedPass | src/main.cpp:197-210 | The traversal the loop intends, which continues at the successor returned by erase. It keeps the bar count, and every key still names a bar. |
| Bars.CorrectedPassVisitsAll | src/main.cpp:197-210 | The corrected tick visits every entry. Each entry's bar drops by exactly its rate. An entry stays iff its bar is still at or above its min. No entry is added, and bars without entries are untouched. |
| Bars.SkipAfterErase | src/main.cpp:203-210 | Take two entries where the first runs out. The loop as written erases the first and never depletes the second bar. The corrected pass depletes both. |
| Bars.PassAgreesOnSmallMaps | src/main.cpp:197-210 | On maps with at most one entry, the only maps this program builds, the loop as written equals the corrected traversal. |
| Bars.Run | src/main.cpp:193-210 | n ticks in a row keep the bar count, and every key still names a bar. |
| Bars.RunKeepsDepleting | src/main.cpp:197-203 | A single bar depleting at rate 1 loses exactly one point per tick. It stays in the map for current - min ticks. |
| Bars.RunWhileDepleting | src/main.cpp:138-203 | From the start with `x` pressed, after n ≤ 90 ticks the bar is at 90 - n and still depleting. |
| Bars.RefillThenRun | src/main.cpp:166-203 | After a refill, the bar survives max - min ticks still depleting, at current max - n. |
| Bars.RunExhausted | src/main.cpp:138-210 | The 91st tick takes the bar to -1 and erases the entry. With no further `x` press, every later tick leaves the bar at -1 with an empty map. |
| Bars.ToggleAgainAfterExhaustion | src/main.cpp:154-203 | For a bar at or below its min with an empty map, pressing `x` and running one tick takes exactly one more point off and leaves the map empty again. |
| Bars.NoLowerBound | src/main.cpp:154-203 | From such a bar, n rounds of `x` and one tick leave it exactly n points lower with an empty map, so the current has no lower bound. |
| Bars.Replay | src/main.cpp:141-214 | Any sequence of `x`, `z` and ticks keeps the bar count, and every key still names a bar. |
| Bars.ReplayKeepsValid | src/main.cpp:138-210 | Every state reachable from a valid one is valid, and every bar keeps its id, min and max. |
| Bars.NeverAboveMax | src/main.cpp:138-210 | From the program's start, under any events, the bar's current never exceeds 100. |
| Timestep.Budget | src/main.cpp:186-191 | The frame's update time is the elapsed time plus the leftover, capped at `MAX_CYCLES_PER_FRAME * UPDATE_INTERVAL` (two intervals). |
| Timestep.Drained | src/main.cpp:193-195 | The state where the subtract-one-interval loop stops after n iterations: the start value less n intervals, at most one interval, and positive if the loop ran. |
| Timestep.DrainedUnique | src/main.cpp:193-195 | Where the subtract-one-interval loop stops, and after how many iterations, is determined by its starting value. |
| Timestep.FrameStep | src/main.cpp:186-213 | A frame runs at most one tick. The tick runs iff elapsed + leftover > one interval. The new leftover is at most one interval, and non-negative for non-negative inputs. The result is the loop's own stopping state. |
| Timestep.LoopIsFrameStep | src/main.cpp:188-195 | Any run of the loop from the capped budget is that frame step, and so runs at most once. |
| Timestep.LongStall | src/main.cpp:186-195 | A 10-second stall runs one tick, not 300, and leaves a full interval as leftover. |
| Timestep.Frames | src/main.cpp:182-214 | Over successive frames, each frame runs at most one tick. |
| Timestep.FramesWithinOneInterval | src/main.cpp:182-214 | Frames whose elapsed times plus the leftover stay within one interval run no tick. All that time is carried as leftover. |
| Timestep.OneIntervalInSmallFrames | src/main.cpp:182-214 | Small frames summing to exactly one interval run no tick and carry the interval whole. The next frame with positive elapsed time ticks. |
| Width.TruncDiv | src/main.cpp:235 | C++ `int` division: the quotient's magnitude is the quotient of the magnitudes, and it is positive only for operands of equal sign, negative only for opposite signs. |
| Width.TruncDivRemainder | src/main.cpp:234-235 | The C++ `int` quotient leaves a remainder smaller than the divisor in magnitude, with the sign of the dividend. |
| Width.InnerWidth | src/main.cpp:234-235 | `floor(q + 0.5)` of the integer quotient is the truncated quotient `380 * current / max` itself. |
| Width.WidthInRange | src/main.cpp:234-235 | For `0 <= current <= max`, the width lies in [0, 380]. |
| Width.DrawsInner | src/main.cpp:237 | The inner rectangle is drawn only when its width is positive. |
| Width.DrawnIff | src/main.cpp:234-237 | With a positive max, the inner rectangle is drawn iff `380 * current >= max`. |
| Width.DemoWidths | src/main.cpp:234-237 | Widths are 380 when full and 342 at the start. At -1 the width is -3 and nothing is drawn. |
| Demo.BarDemo.constructor | src/main.cpp:138-183 | Builds the starting state with both frame statics at 0, and establishes the invariant. |
| Demo.BarDemo.ToggleDepletion | src/main.cpp:154-163 | The map is updated in place to the toggle's result. The bars are untouched. |
| Demo.BarDemo.Refill | src/main.cpp:165-167 | The front bar is overwritten in place with the refill's result. The map is untouched. |
| Demo.BarDemo.Tick | src/main.cpp:197-210 | The iterator loop with in-place erase ends in the state of `Pass`. On this program's maps that equals `CorrectedPass`, and the invariant is kept. |
| Demo.BarDemo.Frame | src/main.cpp:177-214 | Updates the persistent leftover and last-frame time. It runs at most one tick, exactly when elapsed + leftover > one interval. The new leftover is at most one interval, and non-negative when the clock does not run backwards. |

## Findings

| source | as written | input that shows it | evidently intended | confidence | as-written member | corrected member |
|---|---|---|---|---|---|---|
| src/main.cpp:197-210 | After `iterator = depletions.erase(iterator)`, the loop header's `++iterator` steps past the successor that erase returned. That entry is not depleted in this tick. | Bars 0 (current 0) and 1 (current 50), both depleting at 1. The tick erases bar 0's entry at -1 and leaves bar 1 at 50, not 49. | Deplete every entry once per tick, continuing at the successor erase returns. | High, but latent: the program's map never holds more than one entry. Not executed. | Bars.SkipAfterErase | Bars.CorrectedPassVisitsAll |

The class's `Tick` is proved equal to both the loop as written and the
corrected pass (`Bars.PassAgreesOnSmallMaps`). The model's results therefore
hold under either reading.

## Left out

- SDL and TTF setup: window, GL context, renderer, font, text texture, and
  their error throws. These are foreign library calls.
- Event polling, the quit flag, and the `catch` and teardown. The two keys are
  modelled as the intents `ToggleDepletion` and `Refill`, or the `Event`
  values `PressX` and `PressZ`.
- All drawing and the rectangle positions. These depend on the renderer size
  reported by the host. Only the inner width and the "drawn only if positive"
  test are modelled.
- The clock. `SDL_GetTicks` is external, so `Frame` takes the current time as
  a parameter. Time is exact: no IEEE double rounding is modelled. The
  reading is in milliseconds while the interval is 1/30, with no conversion
  between them. In the running program almost every frame therefore reaches
  the cap and runs exactly one tick, and depletion follows the frame rate
  rather than 30 ticks per second. The contracts hold for any clock value.
- 32-bit `int` overflow of `380 * percent_current`. The current is bounded
  above by 100 but not below. The product leaves the `int` range only once the
  current is below about -5,651,272, which takes about 5.65 million rounds of
  pressing `x` and ticking. The model uses unbounded `int`.
- Division by a zero `percent_max`. The model requires a non-zero max, and the
  invariant keeps every max positive.
- The map's keys are list indices rather than references to bars. The
  invariant keeps bar ids increasing along the list, so key order matches the
  map's comparator on ids.
