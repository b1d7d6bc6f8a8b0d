/** The search engine of the grid world as pure values: the state of a
    `GridWorld`, what one reset, one step and one reconstruction do to it, the
    invariant that every reachable search state satisfies, and the lemmas that
    follow from it. The class in module GridWorlds is proved against these
    definitions. */
module Search {
  import opened Grid

  /** A snapshot of every field of the grid world. The unvisited map of the
      source is abstracted to its set of keys: its values are determined by the
      keys (the class invariant ties each key to the one cell that has it). */
  datatype World = World(
    width: int,
    height: int,
    start: Point,
    end: Point,
    walls: seq<bool>,
    current: Point,
    unvisited: set<int>,
    distances: seq<int>,
    path: seq<Point>)

  predicate Inside(w: World, p: Point) {
    InBounds(w.width, w.height, p)
  }

  function Index(w: World, p: Point): int {
    Key(w.width, p)
  }

  /** Sizes agree and every stored point and key lies inside the grid. */
  predicate WellFormed(w: World) {
    && w.width > 0 && w.height > 0
    && |w.walls| == w.width * w.height
    && |w.distances| == w.width * w.height
    && Inside(w, w.start) && Inside(w, w.end) && Inside(w, w.current)
    && forall k :: k in w.unvisited ==> 0 <= k < w.width * w.height
  }

  function Dist(w: World, p: Point): int
    requires WellFormed(w) && Inside(w, p)
  {
    w.distances[Index(w, p)]
  }

  /** In bounds and not a wall. */
  predicate Open(w: World, p: Point)
    requires WellFormed(w)
  {
    Inside(w, p) && !w.walls[Index(w, p)]
  }

  function Min(a: int, b: int): int {
    if a <= b then a else b
  }

  // ---------------------------------------------------------------------------
  // Relaxation of the neighbours of the current cell

  /** One pass of the inner loop body for offset `o`, on the running distances
      `d`: the neighbour `current + o` gets `d[current] + 1` when it is in bounds,
      unvisited, not a wall, and that value is strictly smaller. */
  function RelaxOne(w: World, d: seq<int>, o: Point): (r: seq<int>)
    requires WellFormed(w) && |d| == |w.distances|
    ensures |r| == |d|
    ensures forall k :: 0 <= k < |r| ==> r[k] <= d[k]
  {
    var n := Shift(w.current, o);
    if Inside(w, n) && Index(w, n) in w.unvisited && !w.walls[Index(w, n)]
       && d[Index(w, w.current)] + 1 < d[Index(w, n)]
    then d[Index(w, n) := d[Index(w, w.current)] + 1]
    else d
  }

  /** The offsets `offs` relaxed one after the other, first to last. */
  function RelaxAll(w: World, d: seq<int>, offs: seq<Point>): (r: seq<int>)
    requires WellFormed(w) && |d| == |w.distances|
    ensures |r| == |d|
    ensures forall k :: 0 <= k < |r| ==> r[k] <= d[k]
    decreases |offs|
  {
    if offs == [] then d
    else RelaxOne(w, RelaxAll(w, d, offs[..|offs| - 1]), offs[|offs| - 1])
  }

  /** Relaxing the first `n + 1` offsets is relaxing the first `n`, then offset `n`. */
  lemma RelaxAllSnoc(w: World, d: seq<int>, offs: seq<Point>, n: nat)
    requires WellFormed(w) && |d| == |w.distances| && n < |offs|
    ensures RelaxAll(w, d, offs[..n + 1]) == RelaxOne(w, RelaxAll(w, d, offs[..n]), offs[n])
  {
    assert offs[..n + 1][..n] == offs[..n];
  }

  /** The distances after the relaxation loop of one step: one per cell, and
      none larger than before. */
  function Relaxed(w: World): (r: seq<int>)
    requires WellFormed(w)
    ensures |r| == |w.distances|
    ensures forall k :: 0 <= k < |r| ==> r[k] <= w.distances[k]
  {
    RelaxAll(w, w.distances, Offsets)
  }

  /** Key `k` is the key of an in-bounds cell `current + o` for an `o` in `offs`. */
  ghost predicate ReachedBy(w: World, k: int, offs: seq<Point>) {
    exists i :: 0 <= i < |offs| && Inside(w, Shift(w.current, offs[i]))
                 && Index(w, Shift(w.current, offs[i])) == k
  }

  /** Relaxing a sequence of non-zero offsets lowers each unvisited, open cell
      they reach to the smaller of its distance and `d[current] + 1`, and leaves
      every other entry, the current cell's included, as it was. */
  lemma {:induction false} RelaxAllAt(w: World, d: seq<int>, offs: seq<Point>)
    requires WellFormed(w) && |d| == |w.distances|
    requires forall i :: 0 <= i < |offs| ==> offs[i] != Point(0, 0)
    ensures forall k :: 0 <= k < |d| ==>
      RelaxAll(w, d, offs)[k]
        == if ReachedBy(w, k, offs) && k in w.unvisited && !w.walls[k]
           then Min(d[k], d[Index(w, w.current)] + 1)
           else d[k]
    decreases |offs|
  {
    if offs != [] {
      var init, o := offs[..|offs| - 1], offs[|offs| - 1];
      RelaxAllAt(w, d, init);
      var r0 := RelaxAll(w, d, init);
      var c := Index(w, w.current);
      var n := Shift(w.current, o);
      assert !ReachedBy(w, c, init) by {
        if ReachedBy(w, c, init) {
          var i :| 0 <= i < |init| && Inside(w, Shift(w.current, init[i]))
                   && Index(w, Shift(w.current, init[i])) == c;
          KeyInjective(w.width, Shift(w.current, init[i]), w.current);
          assert false;
        }
      }
      assert r0[c] == d[c];
      forall k | 0 <= k < |d|
        ensures ReachedBy(w, k, offs) <==> ReachedBy(w, k, init) || (Inside(w, n) && Index(w, n) == k)
      {
        if ReachedBy(w, k, init) {
          var i :| 0 <= i < |init| && Inside(w, Shift(w.current, init[i]))
                   && Index(w, Shift(w.current, init[i])) == k;
          assert offs[i] == init[i];
        }
        if ReachedBy(w, k, offs) {
          var i :| 0 <= i < |offs| && Inside(w, Shift(w.current, offs[i]))
                   && Index(w, Shift(w.current, offs[i])) == k;
          if i < |init| {
            assert init[i] == offs[i];
          }
        }
        if Inside(w, n) && Index(w, n) == k {
          assert offs[|offs| - 1] == o;
        }
      }
    }
  }

  /** The neighbour keys reached by the four offsets are the keys of the cells
      orthogonally adjacent to the current one. */
  lemma ReachedByOffsets(w: World, p: Point)
    requires WellFormed(w) && Inside(w, p)
    ensures ReachedBy(w, Index(w, p), Offsets) <==> Adjacent(w.current, p)
  {
    AdjacentIsShift(w.current, p);
    if ReachedBy(w, Index(w, p), Offsets) {
      var i :| 0 <= i < |Offsets| && Inside(w, Shift(w.current, Offsets[i]))
               && Index(w, Shift(w.current, Offsets[i])) == Index(w, p);
      KeyInjective(w.width, Shift(w.current, Offsets[i]), p);
    }
  }

  /** Relaxation, cell by cell: an in-bounds cell changes only if it is one of
      the four orthogonal neighbours of `current`, still unvisited and not a
      wall, and then it becomes the smaller of its old distance and
      `distance[current] + 1`. In particular no distance increases and the
      current cell keeps its distance. */
  lemma RelaxedAt(w: World, p: Point)
    requires WellFormed(w) && Inside(w, p)
    ensures |Relaxed(w)| == |w.distances|
    ensures Relaxed(w)[Index(w, p)]
      == if Adjacent(w.current, p) && Index(w, p) in w.unvisited && !w.walls[Index(w, p)]
         then Min(Dist(w, p), Dist(w, w.current) + 1)
         else Dist(w, p)
  {
    RelaxAllAt(w, w.distances, Offsets);
    ReachedByOffsets(w, p);
  }

  // ---------------------------------------------------------------------------
  // One step

  /** The state after relaxing the neighbours of `current` and settling it
      (removing its key from the unvisited set). */
  function Settle(w: World): (s: World)
    requires WellFormed(w)
    ensures WellFormed(s)
  {
    w.(distances := Relaxed(w), unvisited := w.unvisited - {Index(w, w.current)})
  }

  /** Settling replaces the distances by the relaxed ones, drops exactly the
      current key from the unvisited keys and leaves everything else alone. */
  lemma SettleFields(w: World)
    requires WellFormed(w)
    ensures Settle(w).distances == Relaxed(w)
    ensures forall k :: k in Settle(w).unvisited <==> k in w.unvisited && k != Index(w, w.current)
    ensures Settle(w).walls == w.walls && Settle(w).current == w.current
    ensures Settle(w).start == w.start && Settle(w).end == w.end
  {
  }

  /** `c` may be the next current cell of `w`: when some unvisited cell has a
      distance below INFINITY, an unvisited cell of minimum distance; otherwise
      `w.current` itself. Which minimum is unspecified, as the source scans a
      hash map in no particular order. */
  ghost predicate ChoosesNext(w: World, c: Point)
    requires WellFormed(w)
    ensures ChoosesNext(w, c) ==> Inside(w, c)
  {
    if exists k :: k in w.unvisited && w.distances[k] < INFINITY then
      && Inside(w, c) && Index(w, c) in w.unvisited && Dist(w, c) < INFINITY
      && forall k :: k in w.unvisited ==> Dist(w, c) <= w.distances[k]
    else
      c == w.current
  }

  /** What one call of the step operation may do: nothing at all once `end` is
      settled; otherwise relax, settle `current` and choose the next current. */
  ghost predicate StepSpec(w: World, w': World)
    requires WellFormed(w)
    ensures StepSpec(w, w') ==>
      && WellFormed(w') && w'.width == w.width && w'.height == w.height
      && w'.walls == w.walls && w'.start == w.start && w'.end == w.end && w'.path == w.path
  {
    if Index(w, w.end) !in w.unvisited then
      w' == w
    else
      w' == Settle(w).(current := w'.current) && ChoosesNext(Settle(w), w'.current)
  }

  /** One step never raises a distance, removes exactly the current key from the
      unvisited set and adds none, and never changes the distance of a cell that
      was already settled. */
  lemma StepIsMonotone(w: World, w': World)
    requires WellFormed(w) && StepSpec(w, w')
    ensures w'.unvisited == w.unvisited || w'.unvisited == w.unvisited - {Index(w, w.current)}
    ensures |w'.distances| == |w.distances|
    ensures forall k :: 0 <= k < |w.distances| ==> w'.distances[k] <= w.distances[k]
    ensures forall k :: 0 <= k < |w.distances| && k !in w.unvisited ==>
      k !in w'.unvisited && w'.distances[k] == w.distances[k]
  {
    if Index(w, w.end) in w.unvisited {
      RelaxAllAt(w, w.distances, Offsets);
    }
  }

  // ---------------------------------------------------------------------------
  // Reset

  /** The keys 0 .. n-1. */
  function AllKeys(n: int): (s: set<int>)
    ensures forall k :: k in s <==> 0 <= k < n
    decreases n
  {
    if n <= 0 then {} else AllKeys(n - 1) + {n - 1}
  }

  /** Every distance INFINITY except the start's 0, current at start, every key
      unvisited, path empty; walls, endpoints and dimensions as they were. */
  function ResetSpec(w: World): (r: World)
    requires WellFormed(w)
    ensures WellFormed(r) && Dist(r, r.start) == 0
    ensures |r.unvisited| == w.width * w.height
  {
    AllKeysSize(w.width * w.height);
    w.(distances := seq(|w.distances|, _ => INFINITY)[Index(w, w.start) := 0],
       current := w.start,
       unvisited := AllKeys(w.width * w.height),
       path := [])
  }

  /** The unvisited set after a reset has exactly width * height members. */
  lemma {:induction false} AllKeysSize(n: nat)
    ensures |AllKeys(n)| == n
  {
    if n > 0 {
      AllKeysSize(n - 1);
    }
  }

  /** After a reset the start is at distance 0, every other cell at INFINITY,
      and every cell is unvisited. */
  lemma ResetDistances(w: World, p: Point)
    requires WellFormed(w) && Inside(w, p)
    ensures WellFormed(ResetSpec(w))
    ensures Dist(ResetSpec(w), p) == if p == w.start then 0 else INFINITY
    ensures Index(w, p) in ResetSpec(w).unvisited
    ensures |ResetSpec(w).unvisited| == w.width * w.height
  {
    if Index(w, p) == Index(w, w.start) {
      KeyInjective(w.width, p, w.start);
    }
    AllKeysSize(w.width * w.height);
  }

  // ---------------------------------------------------------------------------
  // The search invariant

  /** The start is at 0, every other cell at least 1, none above INFINITY. */
  ghost predicate DistanceBounds(w: World)
    requires WellFormed(w)
  {
    && Dist(w, w.start) == 0
    && forall k :: 0 <= k < |w.distances| ==>
         0 <= w.distances[k] <= INFINITY && (k != Index(w, w.start) ==> 1 <= w.distances[k])
  }

  /** Only open cells have been reached. */
  ghost predicate ReachedAreOpen(w: World)
    requires WellFormed(w)
  {
    forall k :: 0 <= k < |w.distances| && w.distances[k] < INFINITY ==> !w.walls[k]
  }

  /** Every settled cell has been reached. */
  ghost predicate SettledAreReached(w: World)
    requires WellFormed(w)
  {
    forall k :: 0 <= k < |w.distances| && k !in w.unvisited ==> w.distances[k] < INFINITY
  }

  /** Cells are settled in order of distance: no settled cell is farther than an
      unvisited one. */
  ghost predicate SettledFirst(w: World)
    requires WellFormed(w)
  {
    forall k, j :: 0 <= k < |w.distances| && k !in w.unvisited && j in w.unvisited ==>
      w.distances[k] <= w.distances[j]
  }

  /** The open neighbours of a settled cell have been relaxed through it. */
  ghost predicate SettledRelaxed(w: World)
    requires WellFormed(w)
  {
    forall p, q {:trigger Adjacent(p, q)} ::
      (Inside(w, p) && Inside(w, q) && Adjacent(p, q) && Index(w, p) !in w.unvisited
       && !w.walls[Index(w, q)]) ==> Dist(w, q) <= Dist(w, p) + 1
  }

  /** `q` is a settled neighbour of `p` exactly one closer to the start. */
  ghost predicate Predecessor(w: World, p: Point, q: Point)
    requires WellFormed(w) && Inside(w, p)
  {
    Inside(w, q) && Adjacent(p, q) && Index(w, q) !in w.unvisited && Dist(w, q) == Dist(w, p) - 1
  }

  /** `p` has a predecessor. */
  ghost predicate HasPredecessor(w: World, p: Point)
    requires WellFormed(w) && Inside(w, p)
  {
    exists q :: Predecessor(w, p, q)
  }

  /** Every reached cell other than the start has a predecessor. */
  ghost predicate HasPredecessors(w: World)
    requires WellFormed(w)
  {
    forall p {:trigger HasPredecessor(w, p)} ::
      Inside(w, p) && p != w.start && Dist(w, p) < INFINITY ==> HasPredecessor(w, p)
  }

  /** Unless `end` is settled, `current` is the unvisited cell to settle next
      (of minimum distance), or the search is exhausted: `current` is settled and
      no unvisited cell has been reached. */
  ghost predicate CurrentIsNext(w: World)
    requires WellFormed(w)
  {
    || Index(w, w.end) !in w.unvisited
    || (&& Index(w, w.current) in w.unvisited && Dist(w, w.current) < INFINITY
        && forall j :: j in w.unvisited ==> Dist(w, w.current) <= w.distances[j])
    || (&& Index(w, w.current) !in w.unvisited
        && forall j :: j in w.unvisited ==> w.distances[j] == INFINITY)
  }

  /** What holds of every state from a reset with an open start onwards, as long
      as no wall is toggled: the classical invariant of Dijkstra's algorithm with
      unit edge weights. */
  ghost predicate SearchInv(w: World) {
    && WellFormed(w)
    && Open(w, w.start)
    && DistanceBounds(w)
    && ReachedAreOpen(w)
    && SettledAreReached(w)
    && SettledFirst(w)
    && SettledRelaxed(w)
    && HasPredecessors(w)
    && CurrentIsNext(w)
  }

  /** A reset with an open start establishes the invariant. */
  lemma ResetEstablishesInv(w: World)
    requires WellFormed(w) && Open(w, w.start)
    ensures SearchInv(ResetSpec(w))
  {
    var r := ResetSpec(w);
    assert WellFormed(r);
    forall p | Inside(w, p) && p != w.start
      ensures Dist(r, p) == INFINITY
    {
      ResetDistances(w, p);
    }
    assert DistanceBounds(r);
    assert ReachedAreOpen(r);
    assert SettledAreReached(r);
  }

  /** Relaxation key by key, in the form the invariant proofs use. */
  lemma RelaxedKeys(w: World)
    requires WellFormed(w)
    ensures |Relaxed(w)| == |w.distances|
    ensures Relaxed(w)[Index(w, w.current)] == Dist(w, w.current)
    ensures forall k :: 0 <= k < |w.distances| ==> Relaxed(w)[k] <= w.distances[k]
    ensures forall k :: 0 <= k < |w.distances| && Relaxed(w)[k] != w.distances[k] ==>
      && k in w.unvisited && !w.walls[k] && Relaxed(w)[k] == Dist(w, w.current) + 1
      && Adjacent(w.current, PointOf(w.width, w.height, k))
    ensures forall q :: (Inside(w, q) && Adjacent(w.current, q) && Index(w, q) in w.unvisited
                         && !w.walls[Index(w, q)]) ==> Relaxed(w)[Index(w, q)] <= Dist(w, w.current) + 1
  {
    var r := Relaxed(w);
    RelaxedAt(w, w.current);
    forall k | 0 <= k < |w.distances|
      ensures r[k] <= w.distances[k]
      ensures r[k] != w.distances[k] ==>
        && k in w.unvisited && !w.walls[k] && r[k] == Dist(w, w.current) + 1
        && Adjacent(w.current, PointOf(w.width, w.height, k))
    {
      RelaxedAt(w, PointOf(w.width, w.height, k));
    }
    forall q | Inside(w, q) && Adjacent(w.current, q) && Index(w, q) in w.unvisited && !w.walls[Index(w, q)]
      ensures r[Index(w, q)] <= Dist(w, w.current) + 1
    {
      RelaxedAt(w, q);
    }
  }

  /** The main case of a step: `end` and `current` both unvisited. */
  lemma SettlingPreservesInv(w: World, w': World)
    requires SearchInv(w) && StepSpec(w, w')
    requires Index(w, w.end) in w.unvisited && Index(w, w.current) in w.unvisited
    ensures SearchInv(w')
  {
    SettlingKeepsBounds(w, w');
    SettlingKeepsOrder(w, w');
    SettlingKeepsRelaxed(w, w');
    SettlingKeepsPredecessors(w, w');
  }

  lemma SettlingKeepsBounds(w: World, w': World)
    requires SearchInv(w) && StepSpec(w, w')
    requires Index(w, w.end) in w.unvisited && Index(w, w.current) in w.unvisited
    ensures WellFormed(w') && Open(w', w'.start)
    ensures DistanceBounds(w') && ReachedAreOpen(w') && SettledAreReached(w') && CurrentIsNext(w')
  {
    RelaxedKeys(w);
    assert w' == Settle(w).(current := w'.current);
  }

  lemma SettlingKeepsOrder(w: World, w': World)
    requires SearchInv(w) && StepSpec(w, w')
    requires Index(w, w.end) in w.unvisited && Index(w, w.current) in w.unvisited
    ensures WellFormed(w') && SettledFirst(w')
  {
    RelaxedKeys(w);
    assert w' == Settle(w).(current := w'.current);
  }

  lemma SettlingKeepsRelaxed(w: World, w': World)
    requires SearchInv(w) && StepSpec(w, w')
    requires Index(w, w.end) in w.unvisited && Index(w, w.current) in w.unvisited
    ensures WellFormed(w') && SettledRelaxed(w')
  {
    var c := w.current;
    var d, r := w.distances, Relaxed(w);
    RelaxedKeys(w);
    assert w' == Settle(w).(current := w'.current);
    forall p, q | Inside(w, p) && Inside(w, q) && Adjacent(p, q) && Index(w, p) !in w'.unvisited
                  && !w.walls[Index(w, q)]
      ensures Dist(w', q) <= Dist(w', p) + 1
    {
      if p == c {
        if Index(w, q) !in w.unvisited {
          assert r[Index(w, q)] <= d[Index(w, q)] <= Dist(w, c);
        }
      } else {
        if Index(w, p) == Index(w, c) { KeyInjective(w.width, p, c); }
        assert Index(w, p) !in w.unvisited;
      }
    }
  }

  lemma SettlingKeepsPredecessors(w: World, w': World)
    requires SearchInv(w) && StepSpec(w, w')
    requires Index(w, w.end) in w.unvisited && Index(w, w.current) in w.unvisited
    ensures WellFormed(w') && HasPredecessors(w')
  {
    assert w' == Settle(w).(current := w'.current);
    forall p | Inside(w, p) && p != w.start && Dist(w', p) < INFINITY
      ensures HasPredecessor(w', p)
    {
      SettlingKeepsPredecessor(w, w', p);
    }
  }

  /** A reached cell keeps a predecessor through a step: the cell it had, or the
      settled current cell when relaxation just lowered it. */
  lemma SettlingKeepsPredecessor(w: World, w': World, p: Point)
    requires SearchInv(w) && StepSpec(w, w')
    requires Index(w, w.end) in w.unvisited && Index(w, w.current) in w.unvisited
    requires Inside(w, p) && p != w.start && Dist(w', p) < INFINITY
    ensures HasPredecessor(w', p)
  {
    var c := w.current;
    var d, r := w.distances, Relaxed(w);
    var k := Index(w, p);
    RelaxedKeys(w);
    assert w' == Settle(w).(current := w'.current);
    if r[k] != d[k] {
      assert PointOf(w.width, w.height, k) == p by {
        KeyInjective(w.width, PointOf(w.width, w.height, k), p);
      }
      assert Predecessor(w', p, c);
    } else {
      assert HasPredecessor(w, p);
      var q :| Predecessor(w, p, q);
      assert Predecessor(w', p, q);
    }
  }

  /** An exhausted search (`current` settled, no unvisited cell reached) is a
      fixpoint of the step operation: relaxation finds nothing to lower and the
      next current is the current one. */
  lemma ExhaustedStepIsIdentity(w: World, w': World)
    requires SearchInv(w) && StepSpec(w, w')
    requires Index(w, w.current) !in w.unvisited
    requires forall j :: j in w.unvisited ==> w.distances[j] == INFINITY
    ensures w' == w
  {
    if Index(w, w.end) in w.unvisited {
      RelaxedKeys(w);
      var r := Relaxed(w);
      assert forall k :: 0 <= k < |r| ==> r[k] == w.distances[k];
      assert r == w.distances;
      assert Settle(w) == w;
    }
  }

  /** Every step keeps the search invariant. */
  lemma StepPreservesInv(w: World, w': World)
    requires SearchInv(w) && StepSpec(w, w')
    ensures SearchInv(w')
  {
    if Index(w, w.end) in w.unvisited {
      if Index(w, w.current) in w.unvisited {
        SettlingPreservesInv(w, w');
      } else {
        ExhaustedStepIsIdentity(w, w');
      }
    }
  }

  // ---------------------------------------------------------------------------
  // Path reconstruction

  /** The neighbour scan of one reconstruction move from cell `c`, over the
      offsets `offs` in order: the first in-bounds, non-wall neighbour whose
      distance is strictly below every earlier candidate and below INFINITY, with
      that distance; `(c, INFINITY)` when there is none. */
  function Scan(w: World, c: Point, offs: seq<Point>): (r: (Point, int))
    requires WellFormed(w)
    ensures r.1 <= INFINITY
    ensures r.0 == c || (Open(w, r.0) && r.1 == Dist(w, r.0) < INFINITY)
    decreases |offs|
  {
    if offs == [] then (c, INFINITY)
    else ScanOne(w, c, Scan(w, c, offs[..|offs| - 1]), offs[|offs| - 1])
  }

  /** Scanning the first `n + 1` offsets is scanning the first `n`, then offset `n`. */
  lemma ScanSnoc(w: World, c: Point, offs: seq<Point>, n: nat)
    requires WellFormed(w) && n < |offs|
    ensures Scan(w, c, offs[..n + 1]) == ScanOne(w, c, Scan(w, c, offs[..n]), offs[n])
  {
    assert offs[..n + 1][..n] == offs[..n];
  }

  /** One pass of the scan's inner loop body for offset `o`: the neighbour
      `c + o` replaces the running best when it is open and strictly closer. */
  function ScanOne(w: World, c: Point, acc: (Point, int), o: Point): (r: (Point, int))
    requires WellFormed(w)
    ensures r.1 <= acc.1
    ensures r != acc ==> r.0 == Shift(c, o) && Open(w, r.0) && r.1 == Dist(w, r.0) < acc.1
  {
    var n := Shift(c, o);
    if Open(w, n) && Dist(w, n) < acc.1 then (n, Dist(w, n)) else acc
  }

  /** The cell a reconstruction move goes to from `c`: `c` itself, or an open
      orthogonal neighbour that has been reached. */
  function BestNeighbour(w: World, c: Point): (b: Point)
    requires WellFormed(w)
    ensures b == c || (Adjacent(c, b) && Open(w, b) && Dist(w, b) < INFINITY)
  {
    ScanPicksMinimum(w, c, Offsets);
    AdjacentIsShift(c, Scan(w, c, Offsets).0);
    Scan(w, c, Offsets).0
  }

  /** The scan either stays at `c` (no open neighbour has a distance below
      INFINITY) or picks an open neighbour of minimum distance among the open
      neighbours it scanned. */
  lemma {:induction false} ScanPicksMinimum(w: World, c: Point, offs: seq<Point>)
    requires WellFormed(w)
    ensures var (best, min) := Scan(w, c, offs);
      && min <= INFINITY
      && (|| (best == c && min == INFINITY)
          || (exists i :: 0 <= i < |offs| && best == Shift(c, offs[i]) && Open(w, best)
                && min == Dist(w, best) < INFINITY))
      && forall i :: 0 <= i < |offs| && Open(w, Shift(c, offs[i])) ==> min <= Dist(w, Shift(c, offs[i]))
    decreases |offs|
  {
    if offs != [] {
      var init := offs[..|offs| - 1];
      ScanPicksMinimum(w, c, init);
      var (best, min) := Scan(w, c, init);
      if !(best == c && min == INFINITY) {
        var i :| 0 <= i < |init| && best == Shift(c, init[i]) && Open(w, best) && min == Dist(w, best) < INFINITY;
        assert offs[i] == init[i];
      }
      forall i | 0 <= i < |init|
        ensures offs[i] == init[i]
      {
      }
    }
  }

  /** Under the invariant, a reconstruction move from a settled cell other than
      the start goes to an adjacent, open, settled cell whose distance is exactly
      one less. */
  lemma MoveDescends(w: World, c: Point)
    requires SearchInv(w) && Inside(w, c) && Index(w, c) !in w.unvisited && c != w.start
    ensures var b := BestNeighbour(w, c);
      && Adjacent(c, b) && Open(w, b) && Index(w, b) !in w.unvisited
      && Dist(w, b) == Dist(w, c) - 1
  {
    var (b, m) := Scan(w, c, Offsets);
    ScanPicksMinimum(w, c, Offsets);
    assert HasPredecessor(w, c);
    var q :| Predecessor(w, c, q);
    AdjacentIsShift(c, q);
    var iq :| 0 <= iq < |Offsets| && q == Shift(c, Offsets[iq]);
    assert Open(w, q);
    assert m <= Dist(w, q) < INFINITY;
    var i :| 0 <= i < |Offsets| && b == Shift(c, Offsets[i]) && Open(w, b) && m == Dist(w, b);
    AdjacentIsShift(c, b);
    assert Adjacent(b, c);
    assert Index(w, b) !in w.unvisited;
  }

  /** The path the reconstruction builds from settled cell `c`: `c`, then the
      cells the moves visit down to the start. */
  ghost function Trail(w: World, c: Point): (t: seq<Point>)
    requires SearchInv(w) && Inside(w, c) && Index(w, c) !in w.unvisited
    ensures |t| == Dist(w, c) + 1 && t[0] == c
    decreases Dist(w, c)
  {
    if c == w.start then
      [c]
    else
      MoveDescends(w, c);
      [c] + Trail(w, BestNeighbour(w, c))
  }

  /** Under the invariant the trail from a settled cell `c` ends at the start,
      every move is to an adjacent open settled cell exactly one closer, and it
      has `distance[c] + 1` cells. */
  lemma {:induction false} TrailShape(w: World, c: Point)
    requires SearchInv(w) && Inside(w, c) && Index(w, c) !in w.unvisited
    ensures var t := Trail(w, c);
      && |t| == Dist(w, c) + 1
      && t[0] == c && t[|t| - 1] == w.start
      && (forall i :: 0 <= i < |t| ==>
            Open(w, t[i]) && Index(w, t[i]) !in w.unvisited && Dist(w, t[i]) == Dist(w, c) - i)
      && forall i :: 0 <= i < |t| - 1 ==> Adjacent(t[i], t[i + 1])
    decreases Dist(w, c)
  {
    if c != w.start {
      MoveDescends(w, c);
      var b := BestNeighbour(w, c);
      TrailShape(w, b);
      var t, u := Trail(w, c), Trail(w, b);
      assert t == [c] + u;
      forall i | 1 <= i < |t|
        ensures t[i] == u[i - 1]
      {
      }
    }
  }

  /** One move of the trail: after `c` it continues from the best neighbour. */
  lemma TrailStep(w: World, c: Point)
    requires SearchInv(w) && Inside(w, c) && Index(w, c) !in w.unvisited && c != w.start
    ensures var b := BestNeighbour(w, c);
      && Inside(w, b) && Index(w, b) !in w.unvisited && Dist(w, b) < Dist(w, c)
      && Trail(w, c) == [c] + Trail(w, b)
  {
    MoveDescends(w, c);
  }

  /** The reconstruction loop's invariant: `c` is a settled cell and `path`,
      followed by the trail from `c` without `c` itself, is the trail from `end`. */
  ghost predicate OnTrail(w: World, path: seq<Point>, c: Point) {
    && SearchInv(w) && Inside(w, w.end) && Index(w, w.end) !in w.unvisited
    && Inside(w, c) && Index(w, c) !in w.unvisited
    && path + Trail(w, c)[1..] == Trail(w, w.end)
  }

  /** The loop starts with the path `[end]` at `end`. */
  lemma OnTrailStart(w: World)
    requires SearchInv(w) && Inside(w, w.end) && Index(w, w.end) !in w.unvisited
    ensures OnTrail(w, [w.end], w.end)
  {
    TrailShape(w, w.end);
  }

  /** One iteration keeps the loop invariant and moves strictly closer. */
  lemma OnTrailStep(w: World, path: seq<Point>, c: Point)
    requires OnTrail(w, path, c) && c != w.start
    ensures var b := BestNeighbour(w, c);
      && OnTrail(w, path + [b], b) && Inside(w, b) && Dist(w, b) < Dist(w, c)
  {
    var b := BestNeighbour(w, c);
    TrailStep(w, c);
    AppendAfterHead(path, c, Trail(w, b));
  }

  /** Appending the head of `t` to `path`, then the rest of `t`, is appending
      `[c] + t` without its head `c`. */
  lemma AppendAfterHead<T>(path: seq<T>, c: T, t: seq<T>)
    requires |t| > 0
    ensures path + [t[0]] + t[1..] == path + ([c] + t)[1..]
  {
    assert [t[0]] + t[1..] == t;
    assert ([c] + t)[1..] == t;
  }

  /** Once the loop reaches the start, the path is the whole trail from `end`. */
  lemma OnTrailDone(w: World, path: seq<Point>)
    requires OnTrail(w, path, w.start)
    ensures path == Trail(w, w.end)
  {
    assert Trail(w, w.start) == [w.start];
    assert Trail(w, w.start)[1..] == [];
    assert path + [] == path;
  }

  /** The neighbour scan reads only the grid and the distances, not the cursor
      or the path. */
  lemma {:induction false} ScanIgnoresCursor(w: World, c: Point, offs: seq<Point>, cur: Point, path: seq<Point>)
    requires WellFormed(w) && Inside(w, cur)
    ensures Scan(w.(current := cur, path := path), c, offs) == Scan(w, c, offs)
    decreases |offs|
  {
    if offs != [] {
      ScanIgnoresCursor(w, c, offs[..|offs| - 1], cur, path);
    }
  }

  /** Hence so does a reconstruction move. */
  lemma BestNeighbourIgnoresCursor(w: World, c: Point, cur: Point, path: seq<Point>)
    requires WellFormed(w) && Inside(w, cur)
    ensures BestNeighbour(w.(current := cur, path := path), c) == BestNeighbour(w, c)
  {
    ScanIgnoresCursor(w, c, Offsets, cur, path);
  }

  // ---------------------------------------------------------------------------
  // Settled distances are shortest

  /** `s` is a walk through open cells, each step to an orthogonal neighbour. */
  ghost predicate IsWalk(w: World, s: seq<Point>)
    requires WellFormed(w)
  {
    && |s| >= 1
    && (forall i :: 0 <= i < |s| ==> Inside(w, s[i]) && !w.walls[Index(w, s[i])])
    && forall i :: 0 <= i < |s| - 1 ==> Adjacent(s[i], s[i + 1])
  }

  /** Along a walk from the start whose cells before index `j` are all settled,
      the cell at `j` has a distance of at most `j`. */
  lemma {:induction false} SettledPrefixBound(w: World, s: seq<Point>, j: int)
    requires SearchInv(w) && IsWalk(w, s) && s[0] == w.start && 0 <= j < |s|
    requires forall i :: 0 <= i < j ==> Index(w, s[i]) !in w.unvisited
    ensures Dist(w, s[j]) <= j
    decreases j
  {
    if j > 0 {
      SettledPrefixBound(w, s, j - 1);
      assert Adjacent(s[j - 1], s[j]);
    }
  }

  /** Under the invariant, a settled cell's distance is at most the length of
      any open walk from the start to it: the distances the search settles are
      shortest-path lengths (the trail shows they are attained). */
  lemma SettledIsShortest(w: World, s: seq<Point>)
    requires SearchInv(w) && IsWalk(w, s) && s[0] == w.start
    requires Index(w, s[|s| - 1]) !in w.unvisited
    ensures Dist(w, s[|s| - 1]) <= |s| - 1
  {
    var j := 0;
    while j < |s| - 1 && Index(w, s[j]) !in w.unvisited
      invariant 0 <= j <= |s| - 1
      invariant forall i :: 0 <= i < j ==> Index(w, s[i]) !in w.unvisited
    {
      j := j + 1;
    }
    SettledPrefixBound(w, s, j);
    if Index(w, s[j]) in w.unvisited {
      assert Dist(w, s[|s| - 1]) <= Dist(w, s[j]);
    }
  }

  /** A walk makes at least as many moves as the horizontal plus the vertical
      distance between its ends. */
  lemma {:induction false} WalkSpan(s: seq<Point>)
    requires |s| >= 1 && forall i :: 0 <= i < |s| - 1 ==> Adjacent(s[i], s[i + 1])
    ensures Abs(s[0].x - s[|s| - 1].x) + Abs(s[0].y - s[|s| - 1].y) <= |s| - 1
  {
    if |s| > 1 {
      WalkSpan(s[1..]);
      assert Adjacent(s[0], s[1]);
    }
  }

  function Abs(a: int): int {
    if a < 0 then -a else a
  }

  /** The trail from a settled cell is a walk from that cell to the start with
      exactly `distance + 1` cells, and no open walk from the start is shorter. */
  lemma TrailIsShortest(w: World, c: Point, s: seq<Point>)
    requires SearchInv(w) && Inside(w, c) && Index(w, c) !in w.unvisited
    requires IsWalk(w, s) && s[0] == w.start && s[|s| - 1] == c
    ensures IsWalk(w, Trail(w, c)) && |Trail(w, c)| <= |s|
  {
    TrailShape(w, c);
    SettledIsShortest(w, s);
  }

  /** A settled cell is at least as far from the start as its horizontal plus
      vertical offset from it. */
  lemma DistAtLeastSpan(w: World, c: Point)
    requires SearchInv(w) && Inside(w, c) && Index(w, c) !in w.unvisited
    ensures Abs(c.x - w.start.x) + Abs(c.y - w.start.y) <= Dist(w, c)
  {
    TrailShape(w, c);
    WalkSpan(Trail(w, c));
  }

  /** An open walk from the start that is no longer than the Manhattan offset
      of its last cell is a shortest one: once the search has settled that cell,
      its distance is exactly the walk's number of moves and the reconstructed
      path has as many cells as the walk. */
  lemma ManhattanWalkIsShortest(w: World, s: seq<Point>, c: Point)
    requires WellFormed(w) && IsWalk(w, s) && s[0] == w.start && s[|s| - 1] == c
    requires Abs(c.x - w.start.x) + Abs(c.y - w.start.y) == |s| - 1
    ensures SearchInv(w) && Index(w, c) !in w.unvisited ==>
      Dist(w, c) == |s| - 1 && |Trail(w, c)| == |s|
  {
    if SearchInv(w) && Index(w, c) !in w.unvisited {
      SettledIsShortest(w, s);
      DistAtLeastSpan(w, c);
    }
  }

  /** Once the search has settled a cell other than the start, some in-bounds
      orthogonal neighbour of the start is open: the trail ends through one. */
  lemma SettledNeedsOpenStartNeighbour(w: World, c: Point)
    requires SearchInv(w) && Inside(w, c) && Index(w, c) !in w.unvisited && c != w.start
    ensures exists q :: Inside(w, q) && Adjacent(w.start, q) && !w.walls[Index(w, q)]
  {
    if Index(w, c) == Index(w, w.start) {
      KeyInjective(w.width, c, w.start);
    }
    TrailShape(w, c);
    var t := Trail(w, c);
    var q := t[|t| - 2];
    assert Adjacent(q, w.start);
    assert Adjacent(w.start, q);
  }

  /** When every in-bounds orthogonal neighbour of the start is a wall, the
      search settles no cell but the start: in particular an end elsewhere stays
      unvisited for good, and reconstruction does nothing. */
  lemma WalledInStart(w: World, c: Point)
    requires SearchInv(w)
    requires forall q :: Inside(w, q) && Adjacent(w.start, q) ==> w.walls[Index(w, q)]
    requires Inside(w, c) && Index(w, c) !in w.unvisited
    ensures c == w.start
  {
    if c != w.start {
      SettledNeedsOpenStartNeighbour(w, c);
      assert false;
    }
  }

  // ---------------------------------------------------------------------------
  // Reachability and termination

  /** `c` is reachable: some open walk runs from the start to it. */
  ghost predicate Reachable(w: World, c: Point)
    requires WellFormed(w)
  {
    exists s :: IsWalk(w, s) && s[0] == w.start && s[|s| - 1] == c
  }

  /** Reachability depends only on the grid and the start, not on the search
      state. */
  lemma SameGridReachable(w: World, v: World, c: Point)
    requires WellFormed(w) && WellFormed(v)
    requires v.width == w.width && v.height == w.height && v.walls == w.walls && v.start == w.start
    ensures Reachable(v, c) <==> Reachable(w, c)
  {
    if Reachable(w, c) {
      var s :| IsWalk(w, s) && s[0] == w.start && s[|s| - 1] == c;
      assert IsWalk(v, s);
    }
    if Reachable(v, c) {
      var s :| IsWalk(v, s) && s[0] == v.start && s[|s| - 1] == c;
      assert IsWalk(w, s);
    }
  }

  /** Pigeonhole: pairwise distinct keys below `n` number at most `n`. */
  lemma {:induction false} DistinctKeysBound(s: seq<int>, n: nat)
    requires forall i :: 0 <= i < |s| ==> 0 <= s[i] < n
    requires forall i, j :: 0 <= i < j < |s| ==> s[i] != s[j]
    ensures |s| <= n
    decreases n
  {
    assert |s| > 0 ==> 0 <= s[0] < n;
    if n > 0 {
      if m :| 0 <= m < |s| && s[m] == n - 1 {
        var t := s[..m] + s[m + 1..];
        forall i | 0 <= i < |t|
          ensures 0 <= t[i] < n - 1
        {
          if i < m {
            assert t[i] == s[i] && s[i] != s[m];
          } else {
            assert t[i] == s[i + 1] && s[m] != s[i + 1];
          }
        }
        forall i, j | 0 <= i < j < |t|
          ensures t[i] != t[j]
        {
          var i', j' := if i < m then i else i + 1, if j < m then j else j + 1;
          assert t[i] == s[i'] && t[j] == s[j'] && i' < j';
        }
        DistinctKeysBound(t, n - 1);
      } else {
        DistinctKeysBound(s, n - 1);
      }
    }
  }

  /** A settled distance is below the number of cells: the trail visits
      `distance + 1` distinct cells. */
  lemma SettledDistFitsGrid(w: World, c: Point)
    requires SearchInv(w) && Inside(w, c) && Index(w, c) !in w.unvisited
    ensures Dist(w, c) < w.width * w.height
  {
    TrailShape(w, c);
    var t := Trail(w, c);
    var keys := seq(|t|, i requires 0 <= i < |t| => Index(w, t[i]));
    forall i, j | 0 <= i < j < |keys|
      ensures keys[i] != keys[j]
    {
      assert Dist(w, t[i]) != Dist(w, t[j]);
    }
    DistinctKeysBound(keys, w.width * w.height);
  }

  /** Every settled cell is reachable: the trail, read backwards, is an open
      walk from the start to it. */
  lemma SettledIsReachable(w: World, c: Point)
    requires SearchInv(w) && Inside(w, c) && Index(w, c) !in w.unvisited
    ensures Reachable(w, c)
  {
    TrailShape(w, c);
    var t := Trail(w, c);
    assert IsWalk(w, t);
    var s := ReversedWalk(w, t);
  }

  /** A walk read backwards is a walk. */
  lemma ReversedWalk(w: World, t: seq<Point>) returns (s: seq<Point>)
    requires WellFormed(w) && IsWalk(w, t)
    ensures IsWalk(w, s) && s[0] == t[|t| - 1] && s[|s| - 1] == t[0]
  {
    s := seq(|t|, i requires 0 <= i < |t| => t[|t| - 1 - i]);
    forall i | 0 <= i < |s| - 1
      ensures Adjacent(s[i], s[i + 1])
    {
      assert Adjacent(t[|t| - 2 - i], t[|t| - 1 - i]);
    }
  }

  /** No unvisited cell has been reached. */
  ghost predicate Exhausted(w: World)
    requires WellFormed(w)
  {
    forall j :: j in w.unvisited ==> w.distances[j] == INFINITY
  }

  /** Once the search is exhausted, every cell of an open walk from the start
      is settled, provided distances cannot reach INFINITY on this grid. */
  lemma {:induction false} ExhaustedSettlesWalk(w: World, s: seq<Point>, j: int)
    requires SearchInv(w) && Exhausted(w) && w.width * w.height < INFINITY
    requires IsWalk(w, s) && s[0] == w.start && 0 <= j < |s|
    ensures Index(w, s[j]) !in w.unvisited
    decreases j
  {
    if j > 0 {
      ExhaustedSettlesWalk(w, s, j - 1);
      SettledDistFitsGrid(w, s[j - 1]);
      assert Adjacent(s[j - 1], s[j]);
    }
  }

  /** An exhausted search has settled exactly the reachable cells. */
  lemma ExhaustedSettlesReachable(w: World, c: Point)
    requires SearchInv(w) && Exhausted(w) && w.width * w.height < INFINITY && Inside(w, c)
    ensures Index(w, c) !in w.unvisited <==> Reachable(w, c)
  {
    if Index(w, c) !in w.unvisited {
      SettledIsReachable(w, c);
    }
    if Reachable(w, c) {
      var s :| IsWalk(w, s) && s[0] == w.start && s[|s| - 1] == c;
      ExhaustedSettlesWalk(w, s, |s| - 1);
    }
  }

  /** The step operation has nothing left to do: `end` is settled, or the
      search is exhausted with `current` settled. */
  ghost predicate Finished(w: World)
    requires WellFormed(w)
  {
    || Index(w, w.end) !in w.unvisited
    || (Index(w, w.current) !in w.unvisited && Exhausted(w))
  }

  /** A finished state is a fixpoint of the step operation. */
  lemma FinishedIsFixpoint(w: World, w': World)
    requires SearchInv(w) && Finished(w) && StepSpec(w, w')
    ensures w' == w
  {
    if Index(w, w.end) in w.unvisited {
      ExhaustedStepIsIdentity(w, w');
    }
  }

  /** Any other step settles one more cell. */
  lemma StepProgress(w: World, w': World)
    requires SearchInv(w) && !Finished(w) && StepSpec(w, w')
    ensures |w'.unvisited| == |w.unvisited| - 1
  {
    var k := Index(w, w.current);
    assert k in w.unvisited;
    assert w'.unvisited == w.unvisited - {k};
    assert w.unvisited == w'.unvisited + {k};
  }

  /** `ws` is a run of the step operation: each state is one step after the
      one before. */
  ghost predicate IsRun(ws: seq<World>) {
    && |ws| >= 1
    && (forall i :: 0 <= i < |ws| ==> WellFormed(ws[i]))
    && forall i :: 0 <= i < |ws| - 1 ==> StepSpec(ws[i], ws[i + 1])
  }

  /** Along a run from a state satisfying the invariant, the invariant and the
      grid are kept, and each state is finished or has settled one more cell
      than the state before. */
  lemma {:induction false} RunProgress(ws: seq<World>, i: int)
    requires IsRun(ws) && SearchInv(ws[0]) && 0 <= i < |ws|
    ensures SearchInv(ws[i])
    ensures && ws[i].width == ws[0].width && ws[i].height == ws[0].height
            && ws[i].walls == ws[0].walls && ws[i].start == ws[0].start && ws[i].end == ws[0].end
    ensures Finished(ws[i]) || |ws[i].unvisited| + i <= |ws[0].unvisited|
    decreases i
  {
    if i > 0 {
      RunProgress(ws, i - 1);
      StepPreservesInv(ws[i - 1], ws[i]);
      if Finished(ws[i - 1]) {
        FinishedIsFixpoint(ws[i - 1], ws[i]);
      } else {
        StepProgress(ws[i - 1], ws[i]);
      }
    }
  }

  /** A run longer than the number of unvisited cells it starts with ends
      finished. */
  lemma RunFinishes(ws: seq<World>)
    requires IsRun(ws) && SearchInv(ws[0]) && |ws| > |ws[0].unvisited|
    ensures Finished(ws[|ws| - 1])
  {
    var f := ws[|ws| - 1];
    RunProgress(ws, |ws| - 1);
    if !Finished(f) {
      assert false;
    }
  }

  /** From a reset with an open start, on a grid with fewer cells than
      INFINITY, `width * height` steps finish the search, and then `end` is
      settled exactly when an open walk leads from the start to it. */
  lemma SearchDecidesReachability(w: World, ws: seq<World>)
    requires WellFormed(w) && Open(w, w.start) && w.width * w.height < INFINITY
    requires IsRun(ws) && ws[0] == ResetSpec(w) && |ws| > w.width * w.height
    ensures Finished(ws[|ws| - 1])
    ensures Index(ws[|ws| - 1], w.end) !in ws[|ws| - 1].unvisited <==> Reachable(w, w.end)
  {
    ResetEstablishesInv(w);
    RunFinishes(ws);
    var f := ws[|ws| - 1];
    RunProgress(ws, |ws| - 1);
    SameGridReachable(w, f, w.end);
    if Index(f, f.end) in f.unvisited {
      ExhaustedSettlesReachable(f, f.end);
    } else {
      SettledIsReachable(f, f.end);
    }
  }
}
