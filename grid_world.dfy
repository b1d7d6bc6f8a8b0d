/** The grid world object: its fields, the cell queries, and the three search
    operations (reset, one step of Dijkstra's algorithm, path reconstruction),
    each proved against its specification in module Search. */
module GridWorlds {
  import opened Grid
  import opened Search

  /** How many of the four orthogonal offsets the nested loops
      `for dx in -1..=1 { for dy in -1..=1 { … } }` have visited before they reach
      `(dx, dy)`; `dy == 2` stands for "the inner loop has finished". */
  function OffsetsBefore(dx: int, dy: int): (n: nat)
    ensures n <= |Offsets|
  {
    if dx < 0 then (if dy <= 0 then 0 else 1)
    else if dx == 0 then (if dy <= -1 then 1 else if dy <= 1 then 2 else 3)
    else if dx == 1 then (if dy <= 0 then 3 else 4)
    else 4
  }

  /** At an orthogonal offset `(dx, dy)` the loops take the next entry of
      `Offsets`, which is `(dx, dy)`; at the other five they take none. */
  lemma OffsetsBeforeNext(dx: int, dy: int)
    requires -1 <= dx <= 1 && -1 <= dy <= 1
    ensures (dx == 0) != (dy == 0) ==>
      && OffsetsBefore(dx, dy) < |Offsets| && Offsets[OffsetsBefore(dx, dy)] == Point(dx, dy)
      && OffsetsBefore(dx, dy + 1) == OffsetsBefore(dx, dy) + 1
    ensures (dx == 0) == (dy == 0) ==> OffsetsBefore(dx, dy + 1) == OffsetsBefore(dx, dy)
  {
  }

  class GridWorld {
    const width: int
    const height: int

    var start: Point
    var end: Point
    /** Wall flags, one per cell, at index `y * width + x`. */
    const walls: array<bool>
    var current: Point

    /** The unvisited cells, each stored under its key `y * width + x`. */
    var unvisited: map<int, Point>
    /** Distances from the start, one per cell, at index `y * width + x`. */
    const distances: array<int>

    var path: seq<Point>

    /** Dimensions are positive and match the arrays, the endpoints and the
        current cell are in bounds, and every unvisited entry is an in-bounds cell
        stored under its own key. */
    ghost predicate Valid()
      reads this
    {
      && width > 0 && height > 0
      && walls.Length == width * height && distances.Length == width * height
      && InBounds(width, height, start) && InBounds(width, height, end)
      && InBounds(width, height, current)
      && forall k :: k in unvisited ==>
           InBounds(width, height, unvisited[k]) && Key(width, unvisited[k]) == k
    }

    /** The value of every field, with the unvisited map reduced to its keys. */
    ghost function State(): (w: World)
      reads this, walls, distances
      ensures Valid() ==> WellFormed(w)
    {
      World(width, height, start, end, walls[..], current, unvisited.Keys, distances[..], path)
    }

    /** The world the program starts with: every cell open, the start in the
        top-left corner, the end in the bottom-right one, every distance
        INFINITY and nothing unvisited until the first reset. */
    constructor (width: int, height: int)
      requires width > 0 && height > 0
      ensures Valid() && fresh(walls) && fresh(distances)
      ensures this.width == width && this.height == height
      ensures start == current == Point(0, 0) && end == Point(width - 1, height - 1)
      ensures forall k :: 0 <= k < width * height ==> !walls[k] && distances[k] == INFINITY
      ensures unvisited == map[] && path == []
    {
      this.width := width;
      this.height := height;
      start := Point(0, 0);
      end := Point(width - 1, height - 1);
      walls := new bool[width * height](_ => false);
      current := Point(0, 0);
      unvisited := map[];
      distances := new int[width * height](_ => INFINITY);
      path := [];
    }

    // -------------------------------------------------------------------------
    // Cell queries and updates

    /** The wall flag of an in-bounds cell: true exactly when the cell is not
        open to the search. */
    function WallAt(x: int, y: int): (b: bool)
      requires Valid() && InBounds(width, height, Point(x, y))
      reads this, walls
      ensures b == !Open(State(), Point(x, y))
    {
      walls[y * width + x]
    }

    /** Overwrites the wall flag of one in-bounds cell; every other cell and every
        other field keep their values. */
    method SetWallAt(x: int, y: int, value: bool)
      requires Valid() && InBounds(width, height, Point(x, y))
      modifies walls
      ensures Valid()
      ensures WallAt(x, y) == value
      ensures forall p :: InBounds(width, height, p) && p != Point(x, y) ==>
        WallAt(p.x, p.y) == old(WallAt(p.x, p.y))
      ensures State() == old(State()).(walls := old(walls[..])[Key(width, Point(x, y)) := value])
    {
      walls[y * width + x] := value;
      forall p | InBounds(width, height, p) && p != Point(x, y)
        ensures Key(width, p) != Key(width, Point(x, y))
      {
        if Key(width, p) == Key(width, Point(x, y)) {
          KeyInjective(width, p, Point(x, y));
        }
      }
    }

    /** In bounds: then the cell's key indexes the flat arrays, and no other
        in-bounds cell shares it. */
    function PointInBounds(p: Point): (b: bool)
      requires Valid()
      reads this
      ensures b ==> 0 <= Key(width, p) < walls.Length
      ensures b ==> forall q :: InBounds(width, height, q) && Key(width, q) == Key(width, p) ==> q == p
    {
      if p.x >= 0 && p.x < width && p.y >= 0 && p.y < height then
        assert InBounds(width, height, p);
        KeyDeterminesCell(width, p);
        true
      else
        false
    }

    /** Whether the cell's key is in the unvisited map (the emptiness test the
        source makes first changes nothing). */
    function PointIsUnvisited(p: Point): (b: bool)
      reads this
      ensures b <==> Key(width, p) in unvisited
    {
      if |unvisited| == 0 then
        false
      else
        p.y * width + p.x in unvisited
    }

    /** For an in-bounds cell, the key test agrees with the map's contents: the
        cell is unvisited exactly when the map stores that very cell. */
    lemma UnvisitedHoldsCell(p: Point)
      requires Valid() && InBounds(width, height, p)
      ensures PointIsUnvisited(p) <==> p in unvisited.Values
    {
      if Key(width, p) in unvisited {
        KeyDeterminesCell(width, p);
        assert unvisited[Key(width, p)] in unvisited.Values;
      }
      if Key(width, p) !in unvisited {
        assert forall k :: k in unvisited ==> unvisited[k] != p;
      }
    }

    function DistanceAt(p: Point): (d: int)
      requires Valid() && InBounds(width, height, p)
      reads this, distances
      ensures d == Dist(State(), p)
    {
      distances[p.y * width + p.x]
    }

    /** Overwrites the distance of one in-bounds cell; every other cell and every
        other field keep their values. */
    method SetDistanceAt(p: Point, value: int)
      requires Valid() && InBounds(width, height, p)
      modifies distances
      ensures Valid()
      ensures DistanceAt(p) == value
      ensures forall q :: InBounds(width, height, q) && q != p ==> DistanceAt(q) == old(DistanceAt(q))
      ensures State() == old(State()).(distances := old(distances[..])[Key(width, p) := value])
    {
      distances[p.y * width + p.x] := value;
      KeyDeterminesCell(width, p);
    }

    /** Whether the cell is on the reconstructed path (the emptiness test the
        source makes first changes nothing). */
    function PointInPath(p: Point): (b: bool)
      reads this
      ensures b <==> exists i :: 0 <= i < |path| && path[i] == p
    {
      if |path| == 0 then false else p in path
    }

    // -------------------------------------------------------------------------
    // Reset

    /** Every distance INFINITY, then the start at 0 and current at the start;
        every cell inserted into the unvisited map under its key; path cleared.
        With an open start this establishes the search invariant. */
    method Reset()
      requires Valid()
      modifies this`current, this`unvisited, this`path, distances
      ensures Valid()
      ensures State() == ResetSpec(old(State()))
      ensures forall p :: InBounds(width, height, p) ==>
        Key(width, p) in unvisited && unvisited[Key(width, p)] == p
      ensures !WallAt(start.x, start.y) ==> SearchInv(State())
    {
      ghost var w0 := State();
      ClearDistances();
      current := start;
      SetDistanceAt(start, 0);
      FillUnvisited();
      path := [];
      assert State() == ResetSpec(w0);
      if !WallAt(start.x, start.y) {
        ResetEstablishesInv(w0);
      }
    }

    /** The first loop of the reset: every distance becomes INFINITY. */
    method ClearDistances()
      requires Valid()
      modifies distances
      ensures distances[..] == seq(distances.Length, _ => INFINITY)
    {
      for i := 0 to width * height
        invariant forall k :: 0 <= k < i ==> distances[k] == INFINITY
      {
        distances[i] := INFINITY;
      }
    }

    /** The nested loops of the reset: every cell `(j, i)` is inserted under its
        key `i * width + j`. The map is not cleared first, but under the class
        invariant every key it already holds is among those inserted. */
    method FillUnvisited()
      requires Valid()
      modifies this`unvisited
      ensures Valid()
      ensures unvisited.Keys == AllKeys(width * height)
      ensures forall p :: InBounds(width, height, p) ==>
        Key(width, p) in unvisited && unvisited[Key(width, p)] == p
    {
      for i := 0 to height
        invariant Valid()
        invariant forall k :: k in unvisited <==> k in old(unvisited) || 0 <= k < i * width
      {
        FillRow(i);
        assert i * width + width == (i + 1) * width;
      }
      assert forall k :: k in unvisited <==> 0 <= k < width * height;
      forall p | InBounds(width, height, p)
        ensures Key(width, p) in unvisited && unvisited[Key(width, p)] == p
      {
        KeyDeterminesCell(width, p);
      }
    }

    /** The inner loop of the reset for row `i`: the cells `(0, i)` to
        `(width - 1, i)` are inserted under their keys. */
    method FillRow(i: int)
      requires Valid() && 0 <= i < height
      modifies this`unvisited
      ensures Valid()
      ensures forall k :: k in unvisited <==> k in old(unvisited) || i * width <= k < i * width + width
    {
      for j := 0 to width
        invariant Valid()
        invariant forall k :: k in unvisited <==> k in old(unvisited) || i * width <= k < i * width + j
      {
        assert InBounds(width, height, Point(j, i));
        unvisited := unvisited[i * width + j := Point(j, i)];
      }
    }

    // -------------------------------------------------------------------------
    // One step of the search

    /** Nothing once `end` is settled. Otherwise: relax the four orthogonal
        neighbours of `current`, remove `current` from the unvisited map, and move
        `current` to an unvisited cell of minimum distance below INFINITY if there
        is one. Keeps the search invariant. */
    method Step()
      requires Valid()
      modifies this`current, this`unvisited, distances
      ensures Valid()
      ensures StepSpec(old(State()), State())
      ensures old(SearchInv(State())) ==> SearchInv(State())
    {
      if !PointIsUnvisited(end) {
        return;
      }
      ghost var w0 := State();
      RelaxNeighbours();
      SettleCurrent();
      assert State() == Settle(w0);
      MoveToNearest();
      if SearchInv(w0) {
        StepPreservesInv(w0, State());
      }
    }

    /** Removes the current cell's key from the unvisited map, if it is there. */
    method SettleCurrent()
      requires Valid()
      modifies this`unvisited
      ensures Valid()
      ensures State() == old(State()).(unvisited := old(unvisited.Keys) - {Key(width, current)})
    {
      var key := current.y * width + current.x;
      if key in unvisited {
        unvisited := unvisited - {key};
      }
      assert unvisited.Keys == old(unvisited.Keys) - {key};
    }

    /** Moves `current` to the cell stored under the key the scan returns, unless
        the scan found no reached unvisited cell. */
    method MoveToNearest()
      requires Valid()
      modifies this`current
      ensures Valid()
      ensures State() == old(State()).(current := current)
      ensures ChoosesNext(old(State()), current)
    {
      var minIndex := ScanMinimum();
      if minIndex != -1 {
        current := unvisited[minIndex];
      }
    }

    /** The relaxation loop of one step: each in-bounds, unvisited, open
        orthogonal neighbour of `current` whose distance exceeds
        `distance[current] + 1` gets that distance; nothing else changes. */
    method RelaxNeighbours()
      requires Valid()
      modifies distances
      ensures Valid()
      ensures State() == old(State()).(distances := Relaxed(old(State())))
    {
      ghost var w0 := State();
      for dx := -1 to 2
        invariant distances[..] == RelaxAll(w0, w0.distances, Offsets[..OffsetsBefore(dx, -1)])
      {
        for dy := -1 to 2
          invariant distances[..] == RelaxAll(w0, w0.distances, Offsets[..OffsetsBefore(dx, dy)])
        {
          OffsetsBeforeNext(dx, dy);
          if dx == 0 && dy == 0 {
            continue;
          }
          if dx != 0 && dy != 0 {
            continue;
          }
          RelaxAllSnoc(w0, w0.distances, Offsets, OffsetsBefore(dx, dy));
          RelaxNeighbour(w0, dx, dy);
        }
      }
      assert Offsets[..OffsetsBefore(2, -1)] == Offsets;
    }

    /** The body of the relaxation loop for one offset `(dx, dy)`: the guards
        of the source in its order, then the update. `w0` is the state before the
        loop, which differs from the present one only in its distances. */
    method RelaxNeighbour(ghost w0: World, dx: int, dy: int)
      requires Valid() && w0 == State().(distances := w0.distances)
      requires |w0.distances| == distances.Length
      modifies distances
      ensures distances[..] == RelaxOne(w0, old(distances[..]), Point(dx, dy))
    {
      var neighbour := Point(current.x + dx, current.y + dy);
      if !PointInBounds(neighbour) {
        return;
      }
      if !PointIsUnvisited(neighbour) {
        return;
      }
      if WallAt(neighbour.x, neighbour.y) {
        return;
      }
      var distance := DistanceAt(current) + 1;
      if distance < DistanceAt(neighbour) {
        SetDistanceAt(neighbour, distance);
      }
    }

    /** The scan of the unvisited map for the next current cell, in whatever
        order the map yields its entries: -1 when no unvisited cell has a
        distance below INFINITY, otherwise the key of an unvisited cell of
        minimum distance. */
    method ScanMinimum() returns (minIndex: int)
      requires Valid()
      ensures minIndex == -1 <==> forall k :: k in unvisited ==> distances[k] >= INFINITY
      ensures minIndex != -1 ==>
        && minIndex in unvisited && distances[minIndex] < INFINITY
        && forall k :: k in unvisited ==> distances[minIndex] <= distances[k]
    {
      minIndex := -1;
      var minDistance := INFINITY;
      var remaining := unvisited.Keys;
      while remaining != {}
        invariant remaining <= unvisited.Keys
        invariant minIndex == -1 ==> minDistance == INFINITY
        invariant minIndex != -1 ==>
          minIndex in unvisited && minDistance == distances[minIndex] < INFINITY
        invariant forall k :: k in unvisited && k !in remaining ==> minDistance <= distances[k]
        decreases |remaining|
      {
        if forall k :: k !in remaining {
          assert false;
        }
        var key :| key in remaining;
        var dist := DistanceAt(unvisited[key]);
        if dist < minDistance {
          minDistance := dist;
          minIndex := key;
        }
        remaining := remaining - {key};
      }
    }

    // -------------------------------------------------------------------------
    // Path reconstruction

    /** Nothing while `end` is unvisited. Otherwise the path becomes the walk
        from `end` that always moves to the open neighbour of smallest distance
        (first found among west, north, south, east), down to `start`, and
        `current` ends at `start`; distances, the unvisited map and walls are
        untouched. Under the search invariant the walk is `Trail`: every move is
        to an adjacent open cell exactly one closer, so the path has
        `distance[end] + 1` cells. */
    method ReconstructPath()
      requires Valid()
      requires Key(width, end) !in unvisited ==> SearchInv(State())
      modifies this`current, this`path
      ensures Valid()
      ensures old(Key(width, end) in unvisited) ==> State() == old(State())
      ensures old(Key(width, end) !in unvisited) ==>
        State() == old(State()).(current := start, path := Trail(old(State()), end))
    {
      if PointIsUnvisited(end) {
        return;
      }
      ghost var w0 := State();
      current := end;
      path := [current];
      OnTrailStart(w0);
      TraceToStart(w0);
    }

    /** The reconstruction loop: moves until `current` is the start. Started on
        the trail from `end`, it stops with the whole trail as the path. */
    method TraceToStart(ghost w0: World)
      requires Valid() && State() == w0.(current := current, path := path)
      requires OnTrail(w0, path, current)
      modifies this`current, this`path
      ensures Valid() && State() == w0.(current := start, path := Trail(w0, w0.end))
    {
      while current.x != start.x || current.y != start.y
        invariant Valid() && State() == w0.(current := current, path := path)
        invariant OnTrail(w0, path, current)
        decreases Dist(w0, current)
      {
        TraceBack(w0);
      }
      OnTrailDone(w0, path);
    }

    /** One iteration of the reconstruction loop: `current` moves to the
        neighbour the scan picks, which is appended to the path. Under the loop
        invariant that is the next cell of the trail from `end`, one closer to
        the start. `w0` is the state the loop started from. */
    method TraceBack(ghost w0: World)
      requires Valid() && State() == w0.(current := current, path := path)
      requires OnTrail(w0, path, current) && current != start
      modifies this`current, this`path
      ensures Valid() && State() == w0.(current := current, path := path)
      ensures current == BestNeighbour(w0, old(current)) && path == old(path) + [current]
      ensures OnTrail(w0, path, current) && Dist(w0, current) < old(Dist(w0, current))
    {
      var next := NextOnPath();
      BestNeighbourIgnoresCursor(w0, current, current, path);
      OnTrailStep(w0, path, current);
      current := next;
      path := path + [current];
    }

    /** One reconstruction move: the neighbour of `current` the scan over west,
        north, south, east picks, or `current` itself when no open neighbour has
        a distance below INFINITY. */
    method NextOnPath() returns (next: Point)
      requires Valid()
      ensures next == BestNeighbour(State(), current)
    {
      ghost var w0 := State();
      next := current;
      var minDistance := INFINITY;
      for dx := -1 to 2
        invariant (next, minDistance) == Scan(w0, current, Offsets[..OffsetsBefore(dx, -1)])
      {
        for dy := -1 to 2
          invariant (next, minDistance) == Scan(w0, current, Offsets[..OffsetsBefore(dx, dy)])
        {
          OffsetsBeforeNext(dx, dy);
          if dx == 0 && dy == 0 {
            continue;
          }
          if dx != 0 && dy != 0 {
            continue;
          }
          ScanSnoc(w0, current, Offsets, OffsetsBefore(dx, dy));
          next, minDistance := ScanNeighbour(dx, dy, next, minDistance);
        }
      }
      assert Offsets[..OffsetsBefore(2, -1)] == Offsets;
    }

    /** The body of the scan loop for one offset `(dx, dy)`: the guards of the
        source in its order, then the comparison with the running minimum. */
    method ScanNeighbour(dx: int, dy: int, next: Point, minDistance: int)
      returns (best: Point, bestDistance: int)
      requires Valid()
      ensures (best, bestDistance) == ScanOne(State(), current, (next, minDistance), Point(dx, dy))
    {
      best, bestDistance := next, minDistance;
      var neighbour := Point(current.x + dx, current.y + dy);
      if !PointInBounds(neighbour) {
        return;
      }
      if WallAt(neighbour.x, neighbour.y) {
        return;
      }
      var dist := DistanceAt(neighbour);
      if dist < minDistance {
        bestDistance := dist;
        best := neighbour;
      }
    }

    // -------------------------------------------------------------------------
    // What the drawing code does on a click or a key press over a cell

    /** A left click: the cell's wall flag flips; no reset follows, so distances,
        the unvisited map and the path stay as they were. */
    method ToggleWall(x: int, y: int)
      requires Valid() && InBounds(width, height, Point(x, y))
      modifies walls
      ensures Valid()
      ensures WallAt(x, y) == !old(WallAt(x, y))
      ensures State() == old(State()).(walls := old(walls[..])[Key(width, Point(x, y)) := !old(WallAt(x, y))])
    {
      SetWallAt(x, y, !WallAt(x, y));
    }

    /** Key 1: the cell becomes the start, then the world is reset. */
    method MoveStart(p: Point)
      requires Valid() && InBounds(width, height, p)
      modifies this`start, this`current, this`unvisited, this`path, distances
      ensures Valid()
      ensures State() == ResetSpec(old(State()).(start := p))
    {
      start := p;
      Reset();
    }

    /** Key 2: the cell becomes the end, then the world is reset. */
    method MoveEnd(p: Point)
      requires Valid() && InBounds(width, height, p)
      modifies this`end, this`current, this`unvisited, this`path, distances
      ensures Valid()
      ensures State() == ResetSpec(old(State()).(end := p))
    {
      end := p;
      Reset();
    }
  }
}
