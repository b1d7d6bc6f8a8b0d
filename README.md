# Dijkstra on a grid, step by step

The program is an interactive path finder. A `GridWorld` is a `width` x `height`
grid of cells. It holds:

- a wall flag per cell;
- a start and an end cell;
- a distance per cell, with `INFINITY = 1_000_000_000` meaning "not reached";
- the map of unvisited cells, keyed by `y * width + x`;
- the `current` cell;
- the reconstructed `path`.

The user edits the world and then drives the search a key press at a time:

- a click toggles a wall;
- keys 1 and 2 move the start or the end, and reset the world;
- R resets the world;
- S or F performs one step of Dijkstra's algorithm with unit edge weights;
- P walks back from the end to the start along decreasing distances.

This model covers the engine behind those keys. There are four modules:

- `Grid` (`grid.dfy`): cells, the flat key `y * width + x`, the four orthogonal
  offsets in the order the source's nested `dx`/`dy` loops visit them, and the
  key lemmas (injective within a row, every index is some cell's key).
- `Search` (`search.dfy`): the whole world as a value (`World`), and what reset
  (`ResetSpec`), one step (`Relaxed`, `Settle`, `ChoosesNext`, `StepSpec`) and
  reconstruction (`Scan`, `BestNeighbour`, `Trail`) do to it. It also holds the
  invariant `SearchInv` that every search state satisfies from a reset with an
  open start onward, as long as no wall is toggled. Around that invariant are the
  lemmas that follow from it:
  - every step preserves the invariant;
  - settled distances are shortest-path lengths;
  - the reconstructed path is a shortest open walk with `distance[end] + 1`
    cells;
  - a start walled in on all sides settles nothing else;
  - on a grid of fewer than INFINITY cells, `width * height` steps after a reset
    finish the search, and then the end is settled exactly when an open walk
    leads to it from the start.
- `GridWorlds` (`grid_world.dfy`): the `GridWorld` class with the source's fields.
  `walls` and `distances` are arrays, `unvisited` is a `map<int, Point>` and
  `path` is a sequence. Its methods carry the source's loops, and each is proved
  against the value-level definitions in `Search` through `State()`. The body of
  each long loop is a method of its own, so each proof stays small:
  - `RelaxNeighbour` and `RelaxNeighbours` for the relaxation loops;
  - `SettleCurrent`, `ScanMinimum` and `MoveToNearest` for settling and choosing
    the next cell;
  - `ClearDistances`, `FillUnvisited` and `FillRow` for the reset loops;
  - `ScanNeighbour` and `NextOnPath` for the reconstruction scan, `TraceBack`
    for one move of the reconstruction loop and `TraceToStart` for the loop.
- `Scenarios` (`scenarios.dfy`): two concrete grids. On a 3 x 3 grid the search
  finds distance 4 and a 5-cell path. On a 1 x 2 grid whose start is a wall the
  reconstruction loop never ends (see Findings).

Distances are integers. The source stores them as `f32`, but they only ever hold
`1_000_000_000`, `0.0`, or an earlier value plus `1.0`, and the grid is
small. Every such value is exact in `f32`, so integer arithmetic gives the same
comparisons.

The model follows the code at three points where one might expect different
behaviour:

- Ties between equal minima are broken in whatever order the hash map yields its
  entries, not in row-major order. The model promises "some unvisited cell of
  minimum distance".
- `reconstruct_path` leaves a previous path untouched, without clearing it, while
  the end is still unvisited.
- Neither the step loop nor the reconstruction loop has an iteration bound.

## Model

| member | source | states |
|---|---|---|
| Grid.InBounds | src/main.rs:184-186 | an in-bounds cell's key `y * width + x` is a valid index of the `width * height` vectors |
| Grid.KeyInjective | src/main.rs:193 | two cells with columns in `0 .. width` and the same key are the same cell, so the unvisited map's key identifies a cell |
| Grid.KeyDeterminesCell | src/main.rs:219 | no other cell of the row width shares the key a cell is inserted under |
| Grid.PointOf | src/main.rs:217-221 | every index below `width * height` is the key of an in-bounds cell |
| Grid.AdjacentIsShift | src/main.rs:129-141 | the four `(dx, dy)` pairs the loops keep reach exactly the orthogonal neighbours, never a diagonal |
| Search.AllKeys | src/main.rs:217-221 | the keys the reset inserts are exactly `0 .. width * height - 1` |
| Search.AllKeysSize | src/main.rs:217-221 | after a reset the unvisited set has exactly `width * height` members |
| Search.ResetDistances | src/main.rs:209-226 | after a reset the start is at 0, every other cell at INFINITY, and every cell is unvisited |
| Search.ResetEstablishesInv | src/main.rs:209-226 | a reset with an open start yields a state satisfying the search invariant |
| Search.RelaxAllAt | src/main.rs:129-162 | relaxing a sequence of offsets sets each in-bounds, unvisited, open cell they reach to the smaller of its distance and `distance[current] + 1`, and leaves every other entry (the current cell's included) unchanged |
| Search.ReachedByOffsets | src/main.rs:129-141 | a cell is reached by the four offsets exactly when it is orthogonally adjacent to `current` |
| Search.RelaxedAt | src/main.rs:142-159 | one relaxation pass changes an in-bounds cell only if it is an unvisited open orthogonal neighbour of `current`, and then to `min(old, distance[current] + 1)`; no distance increases |
| Search.RelaxedKeys | src/main.rs:145-159 | key by key: relaxation never raises a distance; a changed entry is an unvisited, open neighbour of `current` now at `distance[current] + 1`; every such neighbour ends at most there |
| Search.StepIsMonotone | src/main.rs:123-182 | a step removes at most the current key from the unvisited set and adds none, raises no distance, and leaves settled cells settled with their distances unchanged |
| Search.ExhaustedStepIsIdentity | src/main.rs:163-180 | once `current` is settled and no unvisited cell has been reached (an unreachable end), a step changes nothing |
| Search.SettlingPreservesInv | src/main.rs:129-180 | a step from an unvisited `current` keeps the search invariant |
| Search.SettlingKeepsBounds | src/main.rs:153-180 | a step keeps the start at 0, every distance in `1 .. INFINITY`, reached cells open, settled cells reached, and `current` the next cell to settle |
| Search.SettlingKeepsOrder | src/main.rs:163-180 | a step keeps every settled cell no farther than every unvisited one |
| Search.SettlingKeepsRelaxed | src/main.rs:129-166 | a step keeps every open neighbour of a settled cell within one of it |
| Search.SettlingKeepsPredecessors | src/main.rs:153-166 | a step keeps, for every reached cell other than the start, a settled neighbour exactly one closer |
| Search.SettlingKeepsPredecessor | src/main.rs:157-159 | a reached cell keeps its predecessor through a step, or gets the settled `current` as its predecessor when relaxation lowered it |
| Search.StepPreservesInv | src/main.rs:123-182 | every step keeps the search invariant |
| Search.ScanPicksMinimum | src/main.rs:238-264 | the reconstruction scan stays put when no open neighbour is below INFINITY, and otherwise picks an open neighbour whose distance is minimal among the open neighbours scanned |
| Search.MoveDescends | src/main.rs:238-266 | under the invariant, a move from a settled cell other than the start goes to an adjacent, open, settled cell exactly one closer |
| Search.TrailShape | src/main.rs:233-269 | the path reconstruction builds from a settled cell starts there, ends at the start, has `distance + 1` cells, consists of open settled cells with distances counting down by one, and moves only between orthogonal neighbours |
| Search.TrailStep | src/main.rs:237-267 | one loop iteration moves to a settled cell strictly closer and extends the path by it |
| Search.OnTrailStart | src/main.rs:233-235 | the path `[end]` at `end` satisfies the reconstruction loop invariant |
| Search.OnTrailStep | src/main.rs:237-268 | each loop iteration keeps the loop invariant and strictly decreases the current distance, so the loop terminates |
| Search.OnTrailDone | src/main.rs:237 | when the loop exits at the start, the path is the whole walk from the end |
| Search.ScanIgnoresCursor | src/main.rs:238-264 | the neighbour scan reads only the grid and the distances, not `current` or `path` |
| Search.SettledPrefixBound | src/main.rs:129-166 | along an open walk from the start whose first cells are settled, the next cell's distance is at most its position |
| Search.SettledIsShortest | src/main.rs:123-182 | under the invariant a settled cell's distance is at most the length of every open walk from the start to it |
| Search.WalkSpan | src/main.rs:237-267 | a walk through orthogonal neighbours makes at least as many moves as the horizontal plus vertical distance between its ends |
| Search.TrailIsShortest | src/main.rs:228-270 | the reconstructed path is an open walk, and no open walk from the start to the same cell is shorter |
| Search.DistAtLeastSpan | src/main.rs:228-270 | a settled cell's distance is at least its horizontal plus vertical offset from the start |
| Search.ManhattanWalkIsShortest | src/main.rs:123-270 | an open walk from the start no longer than its last cell's Manhattan offset is a shortest one: once that cell is settled its distance is the walk's number of moves and the reconstructed path has as many cells as the walk |
| Search.SettledNeedsOpenStartNeighbour | src/main.rs:129-166 | once any cell other than the start is settled, some orthogonal neighbour of the start is open |
| Search.WalledInStart | src/main.rs:123-182 | when every neighbour of the start is a wall, the start is the only cell the search ever settles, so an end elsewhere is never reached |
| Search.RelaxOne | src/main.rs:138-159 | one pass of the relaxation body for one offset keeps one distance per cell and raises none |
| Search.RelaxAll | src/main.rs:129-162 | relaxing offsets one after another keeps one distance per cell and raises none |
| Search.Relaxed | src/main.rs:129-162 | the distances after the relaxation loops: one per cell, none larger than before |
| Search.Settle | src/main.rs:129-166 | relaxing and then removing the current key leaves a well-formed world |
| Search.SettleFields | src/main.rs:129-166 | settling replaces the distances by the relaxed ones, removes exactly the current key from the unvisited set, and keeps walls, endpoints and `current` |
| Search.ChoosesNext | src/main.rs:168-180 | whatever cell the choice of the next current cell allows lies inside the grid |
| Search.StepSpec | src/main.rs:123-182 | a step leaves a well-formed world and never changes the dimensions, the walls, the endpoints or the path |
| Search.ResetSpec | src/main.rs:209-226 | after a reset the world is well formed, the start is at distance 0 and all `width * height` keys are unvisited |
| Search.ScanOne | src/main.rs:248-262 | one scan iteration never raises the running minimum, and replaces the running best only by the open cell `c + o` whose distance is below the old minimum |
| Search.Scan | src/main.rs:238-264 | the scan's minimum is at most INFINITY, and its pick is `c` or an open cell whose distance is that minimum, below INFINITY |
| Search.BestNeighbour | src/main.rs:238-266 | a reconstruction move stays at `c` or goes to an open orthogonal neighbour that has been reached |
| Search.BestNeighbourIgnoresCursor | src/main.rs:238-264 | a reconstruction move depends on neither `current` nor `path` |
| Search.Trail | src/main.rs:233-269 | the walk reconstruction builds from a settled cell starts at that cell and has `distance + 1` cells |
| Search.SameGridReachable | src/main.rs:31-38 | whether a cell is reachable depends only on the dimensions, the walls and the start, so no search step changes it |
| Search.SettledDistFitsGrid | src/main.rs:237-267 | a settled distance is below the number of cells, since the walk back from the cell visits `distance + 1` distinct cells |
| Search.SettledIsReachable | src/main.rs:123-182 | every settled cell is reachable: some open walk leads to it from the start |
| Search.ExhaustedSettlesWalk | src/main.rs:129-166 | once no unvisited cell has been reached, every cell of an open walk from the start is settled, on a grid with fewer than INFINITY cells |
| Search.ExhaustedSettlesReachable | src/main.rs:123-182 | an exhausted search has settled exactly the reachable cells |
| Search.FinishedIsFixpoint | src/main.rs:123-182 | once the end is settled, or the search is exhausted, a step changes nothing |
| Search.StepProgress | src/main.rs:163-180 | any other step settles exactly one more cell |
| Search.RunProgress | src/main.rs:123-182 | along any sequence of steps from a state with the invariant, the invariant and the grid are kept, and each state is finished or has settled one more cell than the state before |
| Search.RunFinishes | src/main.rs:123-182 | a sequence of more steps than there are unvisited cells at its start ends in a finished state |
| Search.SearchDecidesReachability | src/main.rs:123-226 | from a reset with an open start on a grid of fewer than INFINITY cells, `width * height` steps finish the search, and then the end is settled exactly when it is reachable |
| GridWorlds.OffsetsBeforeNext | src/main.rs:129-136 | each of the four kept `(dx, dy)` pairs is the next entry of the offset order, and the five skipped pairs take none |
| GridWorlds.GridWorld.constructor | src/main.rs:293-309 | the initial world: every cell open, start and current at (0,0), end at the bottom-right corner, every distance INFINITY, the unvisited map and the path empty |
| GridWorlds.GridWorld.WallAt | src/main.rs:31-34 | the flag at key `y * width + x` is set exactly when the cell is closed to the search |
| GridWorlds.GridWorld.SetWallAt | src/main.rs:36-38 | afterwards `WallAt(x, y) == value`, every other cell's flag is unchanged, and no other field changes |
| GridWorlds.GridWorld.PointInBounds | src/main.rs:184-186 | an in-bounds cell's key indexes the flat vectors and belongs to no other in-bounds cell |
| GridWorlds.GridWorld.PointIsUnvisited | src/main.rs:188-197 | true exactly when the cell's key is in the unvisited map; the early emptiness test makes no difference |
| GridWorlds.GridWorld.UnvisitedHoldsCell | src/main.rs:188-197 | for an in-bounds cell, the key test holds exactly when the map stores that very cell |
| GridWorlds.GridWorld.DistanceAt | src/main.rs:199-202 | the distance stored for an in-bounds cell |
| GridWorlds.GridWorld.SetDistanceAt | src/main.rs:204-206 | afterwards `DistanceAt(p) == value`, every other cell's distance is unchanged, and no other field changes |
| GridWorlds.GridWorld.PointInPath | src/main.rs:272-278 | true exactly when the cell occurs in the path; the early emptiness test makes no difference |
| GridWorlds.GridWorld.Reset | src/main.rs:209-226 | every distance INFINITY but the start's 0, current at start, every in-bounds cell stored under its key, path empty, walls, endpoints and dimensions unchanged; with an open start, the search invariant holds |
| GridWorlds.GridWorld.ClearDistances | src/main.rs:211-213 | every distance becomes INFINITY |
| GridWorlds.GridWorld.FillUnvisited | src/main.rs:217-221 | the unvisited map's keys become exactly `0 .. width * height - 1`, each mapped to its own cell |
| GridWorlds.GridWorld.FillRow | src/main.rs:218-220 | row `i`'s keys `i * width .. i * width + width - 1` are added and no others |
| GridWorlds.GridWorld.Step | src/main.rs:123-182 | nothing once the end is settled; otherwise relax, settle `current` and move to an unvisited cell of minimum finite distance (or stay); keeps the search invariant |
| GridWorlds.GridWorld.RelaxNeighbours | src/main.rs:129-162 | the distances become `Relaxed` of the state before, and nothing else changes |
| GridWorlds.GridWorld.RelaxNeighbour | src/main.rs:138-159 | one iteration of the relaxation loop for offset `(dx, dy)`, with the source's guards |
| GridWorlds.GridWorld.SettleCurrent | src/main.rs:163-166 | exactly the current key leaves the unvisited map; nothing else changes |
| GridWorlds.GridWorld.ScanMinimum | src/main.rs:168-177 | -1 exactly when no unvisited cell is below INFINITY, otherwise the key of an unvisited cell of minimum distance |
| GridWorlds.GridWorld.MoveToNearest | src/main.rs:168-180 | `current` becomes an unvisited cell of minimum finite distance, or stays when there is none; nothing else changes |
| GridWorlds.GridWorld.ReconstructPath | src/main.rs:228-270 | nothing while the end is unvisited; otherwise `current` ends at the start and the path is the trail from the end, with distances, unvisited map and walls untouched |
| GridWorlds.GridWorld.TraceToStart | src/main.rs:237-268 | started on the trail from the end, the loop ends with `current` at the start and the path equal to the whole trail |
| GridWorlds.GridWorld.TraceBack | src/main.rs:238-267 | one iteration moves `current` to the best neighbour and appends it, keeps the loop invariant and strictly lowers the current distance |
| GridWorlds.GridWorld.NextOnPath | src/main.rs:238-264 | the neighbour the scan over west, north, south, east picks, or `current` itself |
| GridWorlds.GridWorld.ScanNeighbour | src/main.rs:248-262 | one iteration of the scan for offset `(dx, dy)`, with the source's guards |
| GridWorlds.GridWorld.ToggleWall | src/main.rs:93-96 | a click flips the cell's wall flag and changes nothing else (no reset) |
| GridWorlds.GridWorld.MoveStart | src/main.rs:97-100 | key 1 moves the start to the cell and resets the world |
| GridWorlds.GridWorld.MoveEnd | src/main.rs:102-105 | key 2 moves the end to the cell and resets the world |
| Scenarios.ThreeByThreeRouteShape | src/main.rs:129-136 | the route right along the top row and down the right column has five cells from (0,0) to (2,2), each move to an orthogonal neighbour |
| Scenarios.TopRightEdgeWalk | src/main.rs:31-34 | on a 3 x 3 grid with the top row and right column open, every orthogonal walk along them is an open walk |
| Scenarios.OpenThreeByThreeWalk | src/main.rs:129-136 | on such a grid the route is an open walk from (0,0) to (2,2) with five cells |
| Scenarios.OpenThreeByThree | src/main.rs:209-270 | on a 3 x 3 grid from (0,0) to (2,2) with that route open, the settled end has distance 4 and the reconstructed path 5 cells |
| Scenarios.OneByTwoResetStart | src/main.rs:213-215 | on a 1 x 2 grid a reset puts `current` on the start at key 0, at distance 0 |
| Scenarios.OneByTwoResetOther | src/main.rs:211-215 | the reset leaves the other cell at INFINITY |
| Scenarios.OneByTwoResetUnvisited | src/main.rs:217-221 | the reset leaves both keys unvisited |
| Scenarios.OneByTwoSettleStartDistance | src/main.rs:138-159 | relaxing from the cell at key 0, at distance 0, lowers the open end at key 1 to 1, whether or not key 0 is a wall |
| Scenarios.OneByTwoSettleStartUnvisited | src/main.rs:163-166 | settling key 0 leaves key 1 as the only unvisited key |
| Scenarios.OneByTwoChoice | src/main.rs:168-180 | with only key 1 unvisited and reached, the next current cell is at key 1 |
| Scenarios.WalledStartFirstStep | src/main.rs:123-182 | the first step after the reset moves `current` to the end and leaves only key 1 unvisited |
| Scenarios.WalledStartSecondStep | src/main.rs:123-182 | the second step settles the end and leaves nothing unvisited |
| Scenarios.WalledStartBestNeighbour | src/main.rs:238-264 | with the start at key 0 a wall, a reconstruction move from the end at key 1 stays at the end |
| Scenarios.WalledStartStalls | src/main.rs:209-268 | on a 1 x 2 grid whose start is a wall, two steps after a reset settle the end, and a reconstruction move from the end stays at the end, which is not the start, so the reconstruction loop never ends |

## Left out

- `draw_grid` rendering, `center_rect`, the frame loop of `main`, and every raylib call: they are drawing, layout and input polling. The only world updates `draw_grid` makes are modelled as `ToggleWall`, `MoveStart` and `MoveEnd`.
- The `f32` type of distances: modelled as integers. Every value the program stores is exact in `f32` (see above).
- 32-bit wrap-around of `y * width + x` and of `width * height`: not modelled. The program's grid is 20 x 20.
- The iteration order of the hash map: the scan may return any unvisited cell of minimum distance.
- GridWorlds.GridWorld.WallAt, GridWorlds.GridWorld.SetWallAt, GridWorlds.GridWorld.DistanceAt and GridWorlds.GridWorld.SetDistanceAt require an in-bounds cell. The source computes the same index for out-of-range cells, which either aliases another cell or panics on the vector bound. Its callers only pass in-bounds cells.
- GridWorlds.GridWorld.Reset promises the search invariant only when the start is not a wall. A walled start still gets distance 0 in the source, and the search runs from it.
- GridWorlds.GridWorld.Step keeps the search invariant only from a state that has it. Toggling a wall after a reset can break the invariant, and then nothing is promised beyond `StepSpec`.
- GridWorlds.GridWorld.ReconstructPath requires the search invariant once the end is settled. Without it the source's loop can run forever: after a wall was toggled mid-search it can cycle between cells, and with a walled start it never leaves the end (see Findings).
- Search.SearchDecidesReachability requires an open start and fewer than INFINITY cells. On a larger grid a cell INFINITY moves away would look unreached; the program's grid is 20 x 20.
- The 3 x 3 example is proved about any state that has settled the end, not about a count of steps. Search.SearchDecidesReachability bounds that count by `width * height` for every grid.

## Findings

| source | as written | input that shows it | evidently intended | confidence | as-written member | corrected member |
|---|---|---|---|---|---|---|
| src/main.rs:95-268 | a click (:95) or key 1 (:97-99) can put the start on a wall; the reset still gives it distance 0 (:215) and the steps search from it, but the reconstruction scan skips walls (:255), so the loop, which runs until `current` is the start (:237), never gets there and keeps pushing the end onto the path | 1 x 2 grid, start (0, 0) a wall, end (1, 0) open: after a reset and two steps the end is settled, and a reconstruction move from the end stays at the end | reconstruction ends at the start: a walled start is refused before the search, as the search invariant that ReconstructPath requires demands an open start, and then the loop ends at the start with the whole trail | high, not executed | Scenarios.WalledStartStalls | GridWorlds.GridWorld.ReconstructPath |
