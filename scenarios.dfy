/** Concrete grids: a 3 x 3 grid whose shortest path the search finds, and a
    1 x 2 grid with a walled start on which path reconstruction never reaches
    the start. */
module Scenarios {
  import opened Grid
  import opened Search

  /** The route right along the top row and down the right column of a 3 x 3
      grid. */
  const ThreeByThreeRoute: seq<Point> := [Point(0, 0), Point(1, 0), Point(2, 0), Point(2, 1), Point(2, 2)]

  /** A cell of a 3 x 3 grid that is open there: at row-major key 0, 1, 2, 5
      or 8 — the top row and the right column. */
  predicate OnTopRightEdge(p: Point) {
    && 0 <= p.x < 3 && 0 <= p.y < 3
    && (3 * p.y + p.x == 0 || 3 * p.y + p.x == 1 || 3 * p.y + p.x == 2 || 3 * p.y + p.x == 5 || 3 * p.y + p.x == 8)
  }

  /** That route has five cells, runs from the top-left to the bottom-right
      corner along the top row and the right column, and each of its moves is
      to an orthogonal neighbour. */
  lemma ThreeByThreeRouteShape()
    ensures |ThreeByThreeRoute| == 5
    ensures ThreeByThreeRoute[0] == Point(0, 0) && ThreeByThreeRoute[4] == Point(2, 2)
    ensures forall i :: 0 <= i < |ThreeByThreeRoute| ==> OnTopRightEdge(ThreeByThreeRoute[i])
    ensures forall i :: 0 <= i < |ThreeByThreeRoute| - 1 ==>
      Adjacent(ThreeByThreeRoute[i], ThreeByThreeRoute[i + 1])
  {
    var s := ThreeByThreeRoute;
    forall i | 0 <= i < |s| - 1
      ensures Adjacent(s[i], s[i + 1])
    {
      if i == 0 {} else if i == 1 {} else if i == 2 {} else {}
    }
  }

  /** A cell of a 3 x 3 grid is inside it, at row-major key `3 * y + x`. */
  lemma ThreeByThreeCell(w: World, p: Point)
    requires WellFormed(w) && w.width == 3 && w.height == 3
    requires 0 <= p.x < 3 && 0 <= p.y < 3
    ensures Inside(w, p) && Index(w, p) == 3 * p.y + p.x
  {
  }

  /** On a 3 x 3 grid whose top row and right column are open, any sequence of
      orthogonal moves along them is an open walk. */
  lemma TopRightEdgeWalk(w: World, s: seq<Point>)
    requires WellFormed(w) && w.width == 3 && w.height == 3
    requires !w.walls[0] && !w.walls[1] && !w.walls[2] && !w.walls[5] && !w.walls[8]
    requires |s| >= 1 && forall i :: 0 <= i < |s| ==> OnTopRightEdge(s[i])
    requires forall i :: 0 <= i < |s| - 1 ==> Adjacent(s[i], s[i + 1])
    ensures IsWalk(w, s)
  {
    forall i | 0 <= i < |s|
      ensures Inside(w, s[i]) && !w.walls[Index(w, s[i])]
    {
      ThreeByThreeCell(w, s[i]);
    }
  }

  /** On a 3 x 3 grid whose top row and right column are open, that route is a
      walk of five cells from the top-left to the bottom-right corner. */
  lemma OpenThreeByThreeWalk(w: World) returns (s: seq<Point>)
    requires WellFormed(w) && w.width == 3 && w.height == 3
    requires !w.walls[0] && !w.walls[1] && !w.walls[2] && !w.walls[5] && !w.walls[8]
    ensures |s| == 5 && s[0] == Point(0, 0) && s[4] == Point(2, 2)
    ensures IsWalk(w, s)
  {
    ThreeByThreeRouteShape();
    s := ThreeByThreeRoute;
    TopRightEdgeWalk(w, s);
  }

  /** On a 3 x 3 grid with the start in the top-left and the end in the
      bottom-right corner, and no walls along the top row and the right column
      (an open grid, for one), once the search has settled the end its distance
      is 4 and the reconstructed path has 5 cells, whatever the other walls. */
  lemma OpenThreeByThree(w: World)
    requires WellFormed(w) && w.width == 3 && w.height == 3
    requires w.start == Point(0, 0) && w.end == Point(2, 2)
    requires !w.walls[0] && !w.walls[1] && !w.walls[2] && !w.walls[5] && !w.walls[8]
    ensures SearchInv(w) && Index(w, w.end) !in w.unvisited ==>
      Dist(w, w.end) == 4 && |Trail(w, w.end)| == 5
  {
    var s := OpenThreeByThreeWalk(w);
    ManhattanWalkIsShortest(w, s, w.end);
  }

  // ---------------------------------------------------------------------------
  // A walled start

  /** A 1 x 2 grid has two cells. */
  lemma OneByTwoSize(w: World)
    requires WellFormed(w) && w.width == 2 && w.height == 1
    ensures w.width * w.height == 2 && |w.walls| == 2 && |w.distances| == 2
  {
  }

  /** A cell inside a 1 x 2 grid lies in its only row, at key `x`. */
  lemma OneByTwoCell(w: World, p: Point)
    requires WellFormed(w) && w.width == 2 && w.height == 1 && Inside(w, p)
    ensures p.y == 0 && 0 <= p.x < 2 && Index(w, p) == p.x
  {
  }

  /** A reset of a 1 x 2 grid whose start is at key 0 puts the current cell
      on the start, at distance 0. */
  lemma OneByTwoResetStart(w: World)
    requires WellFormed(w) && w.width == 2 && w.height == 1 && Index(w, w.start) == 0
    ensures Index(ResetSpec(w), ResetSpec(w).current) == 0 && ResetSpec(w).distances[0] == 0
  {
  }

  /** That reset puts the other cell, at key 1, at distance INFINITY. */
  lemma OneByTwoResetOther(w: World)
    requires WellFormed(w) && w.width == 2 && w.height == 1 && Index(w, w.start) == 0
    ensures ResetSpec(w).distances[1] == INFINITY
  {
    ResetDistances(w, Point(1, 0));
  }

  /** That reset leaves both keys unvisited. */
  lemma OneByTwoResetUnvisited(w: World)
    requires WellFormed(w) && w.width == 2 && w.height == 1 && Index(w, w.start) == 0
    ensures forall k :: k in ResetSpec(w).unvisited <==> k == 0 || k == 1
  {
    OneByTwoSize(w);
  }

  /** The two cells of a 1 x 2 grid are orthogonal neighbours. */
  lemma OneByTwoAdjacent(w: World, p: Point, q: Point)
    requires WellFormed(w) && w.width == 2 && w.height == 1
    requires Inside(w, p) && Inside(w, q) && Index(w, p) != Index(w, q)
    ensures Adjacent(p, q)
  {
    OneByTwoCell(w, p);
    OneByTwoCell(w, q);
  }

  /** On a 1 x 2 grid whose end is at the open key 1, relaxing around the
      current cell at key 0, at distance 0, lowers the end to distance 1. */
  lemma OneByTwoSettleStartDistance(w0: World)
    requires WellFormed(w0) && w0.width == 2 && w0.height == 1 && !w0.walls[1]
    requires Index(w0, w0.current) == 0 && Index(w0, w0.end) == 1
    requires w0.distances[0] == 0 && w0.distances[1] == INFINITY
    requires forall k :: k in w0.unvisited <==> k == 0 || k == 1
    ensures Settle(w0).distances[1] == 1
  {
    OneByTwoAdjacent(w0, w0.current, w0.end);
    RelaxedAt(w0, w0.end);
    SettleFields(w0);
  }

  /** Settling the current cell at key 0 of a 1 x 2 grid leaves key 1 as the
      only unvisited key. */
  lemma OneByTwoSettleStartUnvisited(w0: World)
    requires WellFormed(w0) && w0.width == 2 && w0.height == 1
    requires Index(w0, w0.current) == 0
    requires forall k :: k in w0.unvisited <==> k == 0 || k == 1
    ensures forall k :: k in Settle(w0).unvisited <==> k == 1
  {
    SettleFields(w0);
  }

  /** On a 1 x 2 grid where only the key 1 is unvisited and its distance is
      below INFINITY, the next current cell is the one at key 1. */
  lemma OneByTwoChoice(s: World, c: Point)
    requires WellFormed(s) && s.width == 2 && s.height == 1
    requires forall k :: k in s.unvisited <==> k == 1
    requires s.distances[1] < INFINITY
    requires ChoosesNext(s, c)
    ensures Index(s, c) == 1
  {
    assert 1 in s.unvisited;
  }

  /** On a 1 x 2 grid whose end is at key 1 and whose key 1 is open, the first
      step from the reset state relaxes the end to distance 1, settles key 0 and
      moves to the end, the one unvisited cell left. */
  lemma WalledStartFirstStep(w0: World, w1: World)
    requires WellFormed(w0) && w0.width == 2 && w0.height == 1 && !w0.walls[1]
    requires Index(w0, w0.end) == 1 && Index(w0, w0.current) == 0
    requires w0.distances[0] == 0 && w0.distances[1] == INFINITY
    requires forall k :: k in w0.unvisited <==> k == 0 || k == 1
    requires StepSpec(w0, w1)
    ensures Index(w1, w1.current) == 1
    ensures forall k :: k in w1.unvisited <==> k == 1
  {
    OneByTwoSettleStartDistance(w0);
    OneByTwoSettleStartUnvisited(w0);
    OneByTwoChoice(Settle(w0), w1.current);
  }

  /** The second step settles the end; no unvisited cell is left, so the
      current cell stays where it was. */
  lemma WalledStartSecondStep(w1: World, w2: World)
    requires WellFormed(w1) && w1.width == 2 && w1.height == 1
    requires Index(w1, w1.end) == 1 && Index(w1, w1.current) == 1
    requires forall k :: k in w1.unvisited <==> k == 1
    requires StepSpec(w1, w2)
    ensures forall k :: k !in w2.unvisited
  {
    OneByTwoSize(w1);
  }

  /** On a 1 x 2 grid whose end is at key 1 and whose start, at key 0, is a
      wall, a reconstruction move from the end stays at the end: its only
      in-bounds neighbour is the walled start. */
  lemma WalledStartBestNeighbour(w: World)
    requires WellFormed(w) && w.width == 2 && w.height == 1 && w.walls[0]
    requires Index(w, w.end) == 1
    ensures BestNeighbour(w, w.end) == w.end
  {
    var b := BestNeighbour(w, w.end);
    if b != w.end {
      if Index(w, b) == Index(w, w.end) {
        KeyInjective(w.width, b, w.end);
      }
      assert false;
    }
  }

  /** On a 1 x 2 grid whose start, at key 0 (the cell (0, 0)), is a wall and
      whose end is at key 1 (the cell (1, 0)), two steps after a reset settle
      the end; a reconstruction move from the end stays at the end, which is
      not the start: the reconstruction loop, which runs until it reaches the
      start, never ends. */
  lemma WalledStartStalls(w: World, w1: World, w2: World)
    requires WellFormed(w) && w.width == 2 && w.height == 1
    requires Index(w, w.start) == 0 && Index(w, w.end) == 1 && w.walls[0] && !w.walls[1]
    requires StepSpec(ResetSpec(w), w1) && StepSpec(w1, w2)
    ensures Index(w2, w2.end) !in w2.unvisited
    ensures w2.end != w2.start && BestNeighbour(w2, w2.end) == w2.end
  {
    OneByTwoResetStart(w);
    OneByTwoResetOther(w);
    OneByTwoResetUnvisited(w);
    WalledStartFirstStep(ResetSpec(w), w1);
    WalledStartSecondStep(w1, w2);
    WalledStartBestNeighbour(w2);
  }
}
