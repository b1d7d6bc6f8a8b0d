/** Cell coordinates of a width x height grid and the flat index the grid world
    uses for them: the walls and distances vectors and the unvisited map are all
    addressed by `y * width + x`. */
module Grid {

  /** A cell: column `x`, row `y`, both counted from 0. */
  datatype Point = Point(x: int, y: int)

  /** The sentinel distance of a cell the search has not reached. */
  const INFINITY: int := 1_000_000_000

  /** The four orthogonal offsets in the order the nested `dx`/`dy` loops of the
      search visit them: west (-1,0), north (0,-1), south (0,1), east (1,0). */
  const Offsets: seq<Point> := [Point(-1, 0), Point(0, -1), Point(0, 1), Point(1, 0)]

  /** The flat index of a cell. */
  function Key(width: int, p: Point): int {
    p.y * width + p.x
  }

  /** `p` lies inside the grid; then its key is a valid index of the flat vectors. */
  function InBounds(width: int, height: int, p: Point): (b: bool)
    ensures b ==> 0 <= Key(width, p) < width * height
  {
    if 0 <= p.x < width && 0 <= p.y < height then
      MulLeq(p.y, height - 1, width);
      true
    else
      false
  }

  function Shift(p: Point, o: Point): Point {
    Point(p.x + o.x, p.y + o.y)
  }

  /** `p` and `q` differ by one step west, north, south or east (never diagonally). */
  predicate Adjacent(p: Point, q: Point) {
    || (p.x == q.x && (p.y == q.y + 1 || p.y + 1 == q.y))
    || (p.y == q.y && (p.x == q.x + 1 || p.x + 1 == q.x))
  }

  lemma MulLeq(a: int, b: int, c: int)
    requires 0 <= a <= b && 0 <= c
    ensures a * c <= b * c
  {
  }

  /** Within a row of `width` columns the key determines the cell: two cells with
      the same key are the same cell. */
  lemma KeyInjective(width: int, p: Point, q: Point)
    requires 0 <= p.x < width && 0 <= q.x < width
    requires Key(width, p) == Key(width, q)
    ensures p == q
  {
    if p.y < q.y {
      MulLeq(p.y + 1, q.y, width);
      assert false;
    } else if q.y < p.y {
      MulLeq(q.y + 1, p.y, width);
      assert false;
    }
  }

  /** No other cell of a row-width `width` grid shares the key of `p`. */
  lemma KeyDeterminesCell(width: int, p: Point)
    requires 0 <= p.x < width
    ensures forall q: Point :: 0 <= q.x < width && Key(width, q) == Key(width, p) ==> q == p
  {
    forall q: Point | 0 <= q.x < width && Key(width, q) == Key(width, p)
      ensures q == p
    {
      KeyInjective(width, q, p);
    }
  }

  /** Every valid index is the key of exactly one in-bounds cell. */
  function PointOf(width: int, height: int, k: int): (p: Point)
    requires 0 < width && 0 <= k < width * height
    ensures InBounds(width, height, p) && Key(width, p) == k
  {
    var p := Point(k % width, k / width);
    if p.y >= height then
      MulLeq(height, p.y, width);
      assert false;
      p
    else
      p
  }

  /** The four offsets are exactly the orthogonal neighbours. */
  lemma AdjacentIsShift(p: Point, q: Point)
    ensures Adjacent(p, q) <==> exists i :: 0 <= i < |Offsets| && q == Shift(p, Offsets[i])
  {
    if Adjacent(p, q) {
      if q.x == p.x - 1 {
        assert q == Shift(p, Offsets[0]);
      } else if q.y == p.y - 1 {
        assert q == Shift(p, Offsets[1]);
      } else if q.y == p.y + 1 {
        assert q == Shift(p, Offsets[2]);
      } else {
        assert q == Shift(p, Offsets[3]);
      }
    }
  }
}
