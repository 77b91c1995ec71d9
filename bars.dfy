/** The bars of the demo and the map of active depletions, as values.
    A `std::map` keyed by bar is an ordered sequence of entries whose keys
    (indices into the bar list) strictly increase; erasing an entry removes
    it from the sequence in place. */
module Bars {

  /** One progress bar: `percent_current` moves, the rest never changes. */
  datatype Bar = Bar(id: int, current: int, min: int, max: int)

  /** One entry of the depletion map: the bar it depletes (its index in the
      bar list) and the amount taken off per update tick. */
  datatype Entry = Entry(bar: nat, rate: int)

  /** The whole mutable state of the demo's update logic. */
  datatype World = World(bars: seq<Bar>, deps: seq<Entry>)

  /** The bar list the program starts with. */
  function Initial(): (w: World)
    ensures |w.bars| == 1 && w.deps == []
    ensures w.bars[0].current == 90 && w.bars[0].min == 0 && w.bars[0].max == 100
  {
    World([Bar(0, 90, 0, 100)], [])
  }

  /** Same bar apart from `current`. */
  predicate SameBar(a: Bar, b: Bar) {
    a.id == b.id && a.min == b.min && a.max == b.max
  }

  /** Every key of the depletion map names a bar of the list. */
  predicate KeysInRange(w: World) {
    forall j :: 0 <= j < |w.deps| ==> w.deps[j].bar < |w.bars|
  }

  /** The map's entries are ordered by strictly increasing key. */
  predicate KeysOrdered(deps: seq<Entry>) {
    forall j1, j2 :: 0 <= j1 < j2 < |deps| ==> deps[j1].bar < deps[j2].bar
  }

  /** Bar ids strictly increase along the list, so ordering keys by list
      index is the same as ordering them by bar id (the map's comparator). */
  predicate IdsOrdered(bars: seq<Bar>) {
    forall k1, k2 :: 0 <= k1 < k2 < |bars| ==> bars[k1].id < bars[k2].id
  }

  /** Bar k is not the key of any entry from position i on. */
  predicate NotKeyFrom(deps: seq<Entry>, i: nat, k: nat) {
    forall j :: i <= j < |deps| ==> deps[j].bar != k
  }

  /** The invariant of every state the program reaches: a non-empty bar list,
      at most one active depletion (only the toggle inserts, and only into an
      empty map), non-negative rates, and no bar above its maximum. */
  predicate Valid(w: World) {
    && |w.bars| >= 1
    && IdsOrdered(w.bars)
    && KeysInRange(w)
    && KeysOrdered(w.deps)
    && |w.deps| <= 1
    && (forall j :: 0 <= j < |w.deps| ==> w.deps[j].rate >= 0)
    && (forall k :: 0 <= k < |w.bars| ==> 0 < w.bars[k].max && w.bars[k].current <= w.bars[k].max)
  }

  // ---------------------------------------------------------------------------
  // Key intents

  /** The 'x' key: start depleting the front bar by 1 per tick when nothing
      is depleting, otherwise stop every depletion. */
  function Toggle(w: World): (r: World)
    ensures r.bars == w.bars
    ensures w.deps == [] ==> r.deps == [Entry(0, 1)]
    ensures w.deps != [] ==> r.deps == []
  {
    if w.deps == [] then w.(deps := [Entry(0, 1)]) else w.(deps := [])
  }

  /** The 'z' key: the front bar's current becomes its maximum. */
  function Refill(w: World): (r: World)
    requires |w.bars| >= 1
    ensures |r.bars| == |w.bars| && r.deps == w.deps
    ensures SameBar(r.bars[0], w.bars[0]) && r.bars[0].current == w.bars[0].max
    ensures forall k :: 1 <= k < |w.bars| ==> r.bars[k] == w.bars[k]
  {
    var front := w.bars[0];
    w.(bars := w.bars[0 := front.(current := front.max)])
  }

  // ---------------------------------------------------------------------------
  // One update tick

  /** `percent_current -= percent` for one entry. */
  function Deplete(b: Bar, rate: int): (r: Bar)
    ensures SameBar(r, b) && r.current + rate == b.current
  {
    b.(current := b.current - rate)
  }

  /** `std::map::erase` at position i. */
  function Erase(deps: seq<Entry>, i: nat): (r: seq<Entry>)
    requires i < |deps|
    ensures |r| + 1 == |deps|
    ensures forall j :: 0 <= j < i ==> r[j] == deps[j]
    ensures forall j :: i <= j < |r| ==> r[j] == deps[j + 1]
  {
    deps[..i] + deps[i + 1..]
  }

  /** The tick's iterator loop as written, resumed at position i: deplete
      the entry's bar, and erase the entry once the bar is below its minimum.
      After an erase the iterator already points at the successor, and the
      loop header's increment then steps past it, so that successor is not
      visited in this pass; when the erased entry was the last one the loop
      breaks. */
  function PassFrom(w: World, i: nat): (r: World)
    requires KeysInRange(w) && i <= |w.deps|
    ensures |r.bars| == |w.bars| && KeysInRange(r)
    decreases |w.deps| - i
  {
    if i == |w.deps| then w
    else
      var e := w.deps[i];
      var b := Deplete(w.bars[e.bar], e.rate);
      var bars := w.bars[e.bar := b];
      if b.current < b.min then
        var deps := Erase(w.deps, i);
        if i == |deps| then World(bars, deps)
        else PassFrom(World(bars, deps), i + 1)
      else
        PassFrom(World(bars, w.deps), i + 1)
  }

  /** One update tick, as the source runs it. */
  function Pass(w: World): (r: World)
    requires KeysInRange(w)
    ensures |r.bars| == |w.bars| && KeysInRange(r)
  {
    PassFrom(w, 0)
  }

  /** The pass never touches the entries before position i and never adds
      an entry. */
  lemma {:induction false} PassFromPrefix(w: World, i: nat)
    requires KeysInRange(w) && i <= |w.deps|
    ensures i <= |PassFrom(w, i).deps| <= |w.deps|
    ensures PassFrom(w, i).deps[..i] == w.deps[..i]
    decreases |w.deps| - i
  {
    if i < |w.deps| {
      var e := w.deps[i];
      var b := Deplete(w.bars[e.bar], e.rate);
      var bars := w.bars[e.bar := b];
      if b.current < b.min {
        var deps := Erase(w.deps, i);
        assert deps[..i] == w.deps[..i];
        if i < |deps| {
          var w' := World(bars, deps);
          assert PassFrom(w, i) == PassFrom(w', i + 1);
          PassFromPrefix(w', i + 1);
          assert deps[..i + 1][..i] == deps[..i];
        } else {
          assert PassFrom(w, i) == World(bars, deps);
        }
      } else {
        var w' := World(bars, w.deps);
        assert PassFrom(w, i) == PassFrom(w', i + 1);
        PassFromPrefix(w', i + 1);
        assert w.deps[..i + 1][..i] == w.deps[..i];
      }
    }
  }

  /** Every entry left after the pass was there before it. */
  lemma {:induction false} PassFromSubset(w: World, i: nat)
    requires KeysInRange(w) && i <= |w.deps|
    ensures forall e :: e in PassFrom(w, i).deps ==> e in w.deps
    decreases |w.deps| - i
  {
    if i < |w.deps| {
      var e := w.deps[i];
      var b := Deplete(w.bars[e.bar], e.rate);
      var bars := w.bars[e.bar := b];
      if b.current < b.min {
        var deps := Erase(w.deps, i);
        forall e' | e' in deps ensures e' in w.deps {
          var j :| 0 <= j < |deps| && deps[j] == e';
          if j < i { assert w.deps[j] == e'; } else { assert w.deps[j + 1] == e'; }
        }
        if i < |deps| {
          PassFromSubset(World(bars, deps), i + 1);
        }
      } else {
        PassFromSubset(World(bars, w.deps), i + 1);
      }
    }
  }

  /** What the pass does to the bars: every bar keeps its id, min and max, a
      bar that no entry from position i on names is untouched, and no current
      rises when the rates are non-negative. */
  lemma {:induction false} PassFromBars(w: World, i: nat)
    requires KeysInRange(w) && i <= |w.deps|
    ensures forall k :: 0 <= k < |w.bars| ==> SameBar(PassFrom(w, i).bars[k], w.bars[k])
    ensures forall k: nat :: k < |w.bars| && NotKeyFrom(w.deps, i, k) ==> PassFrom(w, i).bars[k] == w.bars[k]
    ensures (forall j :: i <= j < |w.deps| ==> w.deps[j].rate >= 0) ==>
              forall k :: 0 <= k < |w.bars| ==> PassFrom(w, i).bars[k].current <= w.bars[k].current
    decreases |w.deps| - i
  {
    if i < |w.deps| {
      var e := w.deps[i];
      var b := Deplete(w.bars[e.bar], e.rate);
      var bars := w.bars[e.bar := b];
      if b.current < b.min {
        var deps := Erase(w.deps, i);
        if i < |deps| {
          PassFromBars(World(bars, deps), i + 1);
          forall k: nat | k < |w.bars| && NotKeyFrom(w.deps, i, k) ensures NotKeyFrom(deps, i + 1, k) {
            forall j | i + 1 <= j < |deps| ensures deps[j].bar != k {
              assert deps[j] == w.deps[j + 1];
            }
          }
          if forall j :: i <= j < |w.deps| ==> w.deps[j].rate >= 0 {
            forall j | i + 1 <= j < |deps| ensures deps[j].rate >= 0 {
              assert deps[j] == w.deps[j + 1];
            }
          }
        }
      } else {
        PassFromBars(World(bars, w.deps), i + 1);
      }
    }
  }

  /** The loop reaches position i only through the entries before it, so
      whatever it does at i is what the source does to the entry there: the
      entry's bar drops by exactly its rate (id, min and max stay), and the
      entry is erased exactly when the new current is below the minimum. */
  lemma PassVisitsAt(w: World, i: nat)
    requires KeysInRange(w) && KeysOrdered(w.deps) && i < |w.deps|
    ensures PassFrom(w, i).bars[w.deps[i].bar] == Deplete(w.bars[w.deps[i].bar], w.deps[i].rate)
    ensures w.deps[i] !in PassFrom(w, i).deps <==>
              PassFrom(w, i).bars[w.deps[i].bar].current < w.bars[w.deps[i].bar].min
  {
    var e := w.deps[i];
    if Deplete(w.bars[e.bar], e.rate).current < w.bars[e.bar].min {
      VisitErased(w, i);
    } else {
      VisitKept(w, i);
    }
  }

  /** PassVisitsAt when the visited entry runs out. */
  lemma VisitErased(w: World, i: nat)
    requires KeysInRange(w) && KeysOrdered(w.deps) && i < |w.deps|
    requires Deplete(w.bars[w.deps[i].bar], w.deps[i].rate).current < w.bars[w.deps[i].bar].min
    ensures PassFrom(w, i).bars[w.deps[i].bar] == Deplete(w.bars[w.deps[i].bar], w.deps[i].rate)
    ensures w.deps[i] !in PassFrom(w, i).deps
  {
    var e := w.deps[i];
    var bars := w.bars[e.bar := Deplete(w.bars[e.bar], e.rate)];
    var deps := Erase(w.deps, i);
    assert e !in deps by {
      forall j | 0 <= j < |deps| ensures deps[j] != e {
        if j < i { assert deps[j] == w.deps[j]; } else { assert deps[j] == w.deps[j + 1]; }
      }
    }
    if i < |deps| {
      var w' := World(bars, deps);
      assert PassFrom(w, i) == PassFrom(w', i + 1);
      PassFromSubset(w', i + 1);
      PassFromBars(w', i + 1);
      assert NotKeyFrom(deps, i + 1, e.bar) by {
        forall j | i + 1 <= j < |deps| ensures deps[j].bar != e.bar {
          assert deps[j] == w.deps[j + 1];
        }
      }
    } else {
      assert PassFrom(w, i) == World(bars, deps);
    }
  }

  /** PassVisitsAt when the visited entry stays. */
  lemma VisitKept(w: World, i: nat)
    requires KeysInRange(w) && KeysOrdered(w.deps) && i < |w.deps|
    requires Deplete(w.bars[w.deps[i].bar], w.deps[i].rate).current >= w.bars[w.deps[i].bar].min
    ensures PassFrom(w, i).bars[w.deps[i].bar] == Deplete(w.bars[w.deps[i].bar], w.deps[i].rate)
    ensures w.deps[i] in PassFrom(w, i).deps
  {
    var e := w.deps[i];
    var w' := World(w.bars[e.bar := Deplete(w.bars[e.bar], e.rate)], w.deps);
    assert PassFrom(w, i) == PassFrom(w', i + 1);
    PassFromPrefix(w', i + 1);
    PassFromBars(w', i + 1);
    assert NotKeyFrom(w.deps, i + 1, e.bar);
    assert PassFrom(w, i).deps[..i + 1][i] == e;
  }

  /** The skip: when the entry at i is erased, the iterator lands on its
      successor and the loop header steps past it, so the successor stays in
      the map but its bar is not depleted in this tick. */
  lemma PassSkipsSuccessor(w: World, i: nat)
    requires KeysInRange(w) && KeysOrdered(w.deps) && i + 1 < |w.deps|
    requires Deplete(w.bars[w.deps[i].bar], w.deps[i].rate).current < w.bars[w.deps[i].bar].min
    ensures PassFrom(w, i).bars[w.deps[i + 1].bar] == w.bars[w.deps[i + 1].bar]
    ensures w.deps[i + 1] in PassFrom(w, i).deps
  {
    var e := w.deps[i];
    var b := Deplete(w.bars[e.bar], e.rate);
    var bars := w.bars[e.bar := b];
    var deps := Erase(w.deps, i);
    var k := w.deps[i + 1].bar;
    var w' := World(bars, deps);
    assert PassFrom(w, i) == PassFrom(w', i + 1);
    PassFromPrefix(w', i + 1);
    PassFromBars(w', i + 1);
    assert NotKeyFrom(deps, i + 1, k) by {
      forall j | i + 1 <= j < |deps| ensures deps[j].bar != k {
        assert deps[j] == w.deps[j + 1];
      }
    }
    assert deps[i] == w.deps[i + 1];
    assert PassFrom(w, i).deps[..i + 1][i] == deps[i];
  }

  /** When the entry at i stays, the loop header moves on to its successor,
      which is then visited like any other entry. */
  lemma PassVisitsSuccessor(w: World, i: nat)
    requires KeysInRange(w) && KeysOrdered(w.deps) && i + 1 < |w.deps|
    requires Deplete(w.bars[w.deps[i].bar], w.deps[i].rate).current >= w.bars[w.deps[i].bar].min
    ensures PassFrom(w, i).bars[w.deps[i + 1].bar] == Deplete(w.bars[w.deps[i + 1].bar], w.deps[i + 1].rate)
    ensures w.deps[i + 1] !in PassFrom(w, i).deps <==>
              PassFrom(w, i).bars[w.deps[i + 1].bar].current < w.bars[w.deps[i + 1].bar].min
  {
    var e := w.deps[i];
    var w' := World(w.bars[e.bar := Deplete(w.bars[e.bar], e.rate)], w.deps);
    assert PassFrom(w, i) == PassFrom(w', i + 1);
    PassVisitsAt(w', i + 1);
    assert w'.bars[w.deps[i + 1].bar] == w.bars[w.deps[i + 1].bar];
  }

  /** The first entry is always visited: its bar's current drops by exactly
      the entry's rate, id, min and max stay, and the entry is erased exactly
      when the new current is below the minimum. */
  lemma PassFirstEntry(w: World)
    requires KeysInRange(w) && KeysOrdered(w.deps) && |w.deps| > 0
    ensures Pass(w).bars[w.deps[0].bar].current == w.bars[w.deps[0].bar].current - w.deps[0].rate
    ensures SameBar(Pass(w).bars[w.deps[0].bar], w.bars[w.deps[0].bar])
    ensures w.deps[0] !in Pass(w).deps <==> Pass(w).bars[w.deps[0].bar].current < w.bars[w.deps[0].bar].min
  {
    PassVisitsAt(w, 0);
  }

  /** With a single entry the tick is one depletion step of that entry's bar. */
  lemma PassSingleEntry(w: World)
    requires KeysInRange(w) && |w.deps| == 1
    ensures var e := w.deps[0];
            var b := Deplete(w.bars[e.bar], e.rate);
            Pass(w) == World(w.bars[e.bar := b], if b.current < b.min then [] else w.deps)
  {
    var e := w.deps[0];
    var b := Deplete(w.bars[e.bar], e.rate);
    var bars := w.bars[e.bar := b];
    if b.current < b.min {
      assert Erase(w.deps, 0) == [];
      assert Pass(w) == World(bars, []);
    } else {
      assert Pass(w) == PassFrom(World(bars, w.deps), 1);
    }
  }

  /** An empty depletion map makes the tick a no-op. */
  lemma PassEmpty(w: World)
    requires w.deps == []
    ensures Pass(w) == w
  {
  }

  /** The tick keeps the program's invariant; in particular no current ever
      rises above its maximum, since only the refill raises it. */
  lemma PassKeepsValid(w: World)
    requires Valid(w)
    ensures Valid(Pass(w))
  {
    PassFromPrefix(w, 0);
    PassFromSubset(w, 0);
    PassFromBars(w, 0);
    var r := Pass(w);
    assert forall k :: 0 <= k < |w.bars| ==> SameBar(r.bars[k], w.bars[k]);
  }

  lemma ToggleKeepsValid(w: World)
    requires Valid(w)
    ensures Valid(Toggle(w))
  {
  }

  lemma RefillKeepsValid(w: World)
    requires Valid(w)
    ensures Valid(Refill(w))
  {
    var r := Refill(w);
    forall k1, k2 | 0 <= k1 < k2 < |r.bars| ensures r.bars[k1].id < r.bars[k2].id {
      assert SameBar(r.bars[k1], w.bars[k1]) && SameBar(r.bars[k2], w.bars[k2]);
    }
  }

  lemma InitialValid()
    ensures Valid(Initial())
  {
  }

  /** Two presses of 'x' from an idle state leave nothing depleting. */
  lemma ToggleTwiceFromEmpty(w: World)
    requires w.deps == []
    ensures Toggle(w).deps == [Entry(0, 1)]
    ensures Toggle(Toggle(w)) == w
  {
  }

  // ---------------------------------------------------------------------------
  // Erasing during traversal without skipping

  /** The traversal the loop evidently intends: after an erase, continue at
      the successor that erase returns, so every entry is visited once. */
  function CorrectedPass(w: World): (r: World)
    requires KeysInRange(w)
    ensures |r.bars| == |w.bars| && KeysInRange(r)
    decreases |w.deps|
  {
    if w.deps == [] then w
    else
      var e := w.deps[0];
      var b := Deplete(w.bars[e.bar], e.rate);
      var rest := CorrectedPass(World(w.bars[e.bar := b], w.deps[1..]));
      World(rest.bars, (if b.current < b.min then [] else [e]) + rest.deps)
  }

  /** The corrected pass visits every entry: each entry's bar drops by exactly
      its rate, the entry stays iff that bar is still at or above its minimum,
      and bars no entry names are untouched. */
  lemma {:induction false} CorrectedPassVisitsAll(w: World)
    requires KeysInRange(w) && KeysOrdered(w.deps)
    ensures forall j :: 0 <= j < |w.deps| ==>
              CorrectedPass(w).bars[w.deps[j].bar] == Deplete(w.bars[w.deps[j].bar], w.deps[j].rate)
    ensures forall j :: 0 <= j < |w.deps| ==>
              (w.deps[j] in CorrectedPass(w).deps <==>
                 CorrectedPass(w).bars[w.deps[j].bar].current >= w.bars[w.deps[j].bar].min)
    ensures forall e :: e in CorrectedPass(w).deps ==> e in w.deps
    ensures forall k: nat :: k < |w.bars| && NotKeyFrom(w.deps, 0, k) ==> CorrectedPass(w).bars[k] == w.bars[k]
    decreases |w.deps|
  {
    if w.deps != [] {
      var e := w.deps[0];
      var b := Deplete(w.bars[e.bar], e.rate);
      var w' := World(w.bars[e.bar := b], w.deps[1..]);
      CorrectedPassVisitsAll(w');
      var rest := CorrectedPass(w');
      assert NotKeyFrom(w'.deps, 0, e.bar);
      assert rest.bars[e.bar] == b;
      forall j | 0 <= j < |w.deps|
        ensures CorrectedPass(w).bars[w.deps[j].bar] == Deplete(w.bars[w.deps[j].bar], w.deps[j].rate)
        ensures w.deps[j] in CorrectedPass(w).deps <==>
                  CorrectedPass(w).bars[w.deps[j].bar].current >= w.bars[w.deps[j].bar].min
      {
        if j > 0 {
          assert w.deps[j] == w'.deps[j - 1];
          assert w'.bars[w.deps[j].bar] == w.bars[w.deps[j].bar];
          assert w.deps[j] != e;
        } else {
          assert e !in w'.deps;
        }
      }
      forall k: nat | k < |w.bars| && NotKeyFrom(w.deps, 0, k) ensures CorrectedPass(w).bars[k] == w.bars[k] {
        assert NotKeyFrom(w'.deps, 0, k);
      }
    }
  }

  /** Two entries, the first of which runs out: the pass as written erases it
      and then never visits the second, whose bar keeps its value; the
      corrected pass depletes the second bar too. */
  lemma SkipAfterErase()
    ensures var w := World([Bar(0, 0, 0, 100), Bar(1, 50, 0, 100)], [Entry(0, 1), Entry(1, 1)]);
            && Pass(w) == World([Bar(0, -1, 0, 100), Bar(1, 50, 0, 100)], [Entry(1, 1)])
            && CorrectedPass(w) == World([Bar(0, -1, 0, 100), Bar(1, 49, 0, 100)], [Entry(1, 1)])
  {
  }

  /** On the maps the program can build (at most one entry) the pass as
      written and the corrected pass agree. */
  lemma PassAgreesOnSmallMaps(w: World)
    requires KeysInRange(w) && |w.deps| <= 1
    ensures Pass(w) == CorrectedPass(w)
  {
    if |w.deps| == 1 {
      PassSingleEntry(w);
      var e := w.deps[0];
      var b := Deplete(w.bars[e.bar], e.rate);
      assert w.deps[1..] == [];
      assert CorrectedPass(World(w.bars[e.bar := b], [])) == World(w.bars[e.bar := b], []);
    }
  }

  // ---------------------------------------------------------------------------
  // Running the demo's single bar down

  /** n update ticks in a row, with no key pressed in between. */
  function Run(w: World, n: nat): (r: World)
    requires KeysInRange(w)
    ensures |r.bars| == |w.bars| && KeysInRange(r)
  {
    if n == 0 then w else Pass(Run(w, n - 1))
  }

  /** A single bar depleting by 1 per tick loses exactly one point per tick
      and keeps depleting for as long as it stays at or above its minimum. */
  lemma {:induction false} RunKeepsDepleting(b: Bar, n: nat)
    requires n <= b.current - b.min
    ensures Run(World([b], [Entry(0, 1)]), n) == World([b.(current := b.current - n)], [Entry(0, 1)])
  {
    if n > 0 {
      RunKeepsDepleting(b, n - 1);
      PassSingleEntry(World([b.(current := b.current - (n - 1))], [Entry(0, 1)]));
    }
  }

  /** Pressing 'x' at start and never refilling: for the first 90 ticks the
      bar loses one point per tick and keeps depleting. */
  lemma RunWhileDepleting(n: nat)
    requires n <= 90
    ensures Run(Toggle(Initial()), n) == World([Bar(0, 90 - n, 0, 100)], [Entry(0, 1)])
  {
    RunKeepsDepleting(Bar(0, 90, 0, 100), n);
  }

  /** After a refill the depleting bar survives max - min ticks before its
      entry can be erased. */
  lemma RefillThenRun(b: Bar, n: nat)
    requires n <= b.max - b.min
    ensures Run(Refill(World([b], [Entry(0, 1)])), n).deps == [Entry(0, 1)]
    ensures Run(Refill(World([b], [Entry(0, 1)])), n).bars[0].current == b.max - n
  {
    assert Refill(World([b], [Entry(0, 1)])) == World([b.(current := b.max)], [Entry(0, 1)]);
    RunKeepsDepleting(b.(current := b.max), n);
  }

  /** The 91st tick takes the bar to -1, below its minimum of 0, and erases
      the entry; with no further key press, every later tick leaves the bar at -1. */
  lemma {:induction false} RunExhausted(n: nat)
    requires n >= 91
    ensures Run(Toggle(Initial()), n) == World([Bar(0, -1, 0, 100)], [])
  {
    if n == 91 {
      RunWhileDepleting(90);
      PassSingleEntry(World([Bar(0, 0, 0, 100)], [Entry(0, 1)]));
    } else {
      RunExhausted(n - 1);
      PassEmpty(World([Bar(0, -1, 0, 100)], []));
    }
  }

  /** Once the entry is gone, pressing 'x' again re-inserts it, and the next
      tick takes one more point off the bar and erases the entry again: the
      current has no lower bound. */
  lemma ToggleAgainAfterExhaustion(b: Bar)
    requires b.current <= b.min
    ensures Pass(Toggle(World([b], []))) == World([b.(current := b.current - 1)], [])
  {
    PassSingleEntry(World([b], [Entry(0, 1)]));
  }

  // ---------------------------------------------------------------------------
  // Any sequence of key presses and update ticks

  /** What can happen to the state between two frames' drawing: a press of
      'x', a press of 'z', or one update tick. */
  datatype Event = PressX | PressZ | UpdateTick

  /** The state after the events, in order. */
  function Replay(w: World, events: seq<Event>): (r: World)
    requires |w.bars| >= 1 && KeysInRange(w)
    ensures |r.bars| == |w.bars| && KeysInRange(r)
    decreases |events|
  {
    if events == [] then w
    else
      var next := match events[0]
        case PressX => Toggle(w)
        case PressZ => Refill(w)
        case UpdateTick => Pass(w);
      Replay(next, events[1..])
  }

  /** Every state reachable from a valid one keeps the invariant, and every
      bar keeps its id, min and max; in particular no bar's current ever
      exceeds its maximum. */
  lemma {:induction false} ReplayKeepsValid(w: World, events: seq<Event>)
    requires Valid(w)
    ensures Valid(Replay(w, events))
    ensures forall k :: 0 <= k < |w.bars| ==> SameBar(Replay(w, events).bars[k], w.bars[k])
    decreases |events|
  {
    if events != [] {
      var next := match events[0]
        case PressX => Toggle(w)
        case PressZ => Refill(w)
        case UpdateTick => Pass(w);
      match events[0] {
        case PressX => ToggleKeepsValid(w);
        case PressZ => RefillKeepsValid(w);
        case UpdateTick => PassKeepsValid(w); PassFromBars(w, 0);
      }
      ReplayKeepsValid(next, events[1..]);
    }
  }

  /** n rounds of pressing 'x' and letting one tick run. */
  function PressXThenTick(n: nat): (events: seq<Event>)
    ensures |events| == 2 * n
  {
    if n == 0 then [] else [PressX, UpdateTick] + PressXThenTick(n - 1)
  }

  /** From a bar at or below its minimum with nothing depleting, every round
      of 'x' and one tick takes exactly one more point off: the bar is
      bounded above by its maximum but not below by anything. */
  lemma {:induction false} NoLowerBound(b: Bar, n: nat)
    requires b.current <= b.min
    ensures Replay(World([b], []), PressXThenTick(n)) == World([b.(current := b.current - n)], [])
    decreases n
  {
    if n > 0 {
      var events := PressXThenTick(n);
      var w := World([b], []);
      var next := World([b.(current := b.current - 1)], []);
      ToggleAgainAfterExhaustion(b);
      assert events[0] == PressX && events[1..][0] == UpdateTick;
      assert events[1..][1..] == PressXThenTick(n - 1);
      assert Replay(w, events) == Replay(Toggle(w), events[1..]);
      assert Replay(Toggle(w), events[1..]) == Replay(next, PressXThenTick(n - 1));
      NoLowerBound(b.(current := b.current - 1), n - 1);
    }
  }

  /** From the program's start, whatever keys are pressed and however many
      ticks run, the bar never goes above its maximum of 100. */
  lemma NeverAboveMax(events: seq<Event>)
    ensures Replay(Initial(), events).bars[0].current <= 100
  {
    InitialValid();
    ReplayKeepsValid(Initial(), events);
  }
}
