/**
 * The shared grid coordinate utilities of aoc/src/point.rs: a `Point` of two
 * `usize` components, partial addition of a signed `(i32, i32)` offset,
 * bounds-checked indexing and the ordered cardinal neighbours of a cell.
 * A `grid::Grid<T>` is a rectangular `seq<seq<T>>`, rows first.
 */
module GridPoint {
  import opened Wrappers

  /** `Point(row, col)`; both components are `usize`, so never negative. */
  datatype Point = Point(row: nat, col: nat)

  /** A signed `(i32, i32)` offset: (row delta, column delta). */
  type Offset = (int, int)

  /** A `Grid<T>` is rectangular: every row has the length of the first one. */
  ghost predicate Rectangular<T>(g: seq<seq<T>>) {
    forall i :: 0 <= i < |g| ==> |g[i]| == |g[0]|
  }

  /** `Grid::rows()`. */
  function Rows<T>(g: seq<seq<T>>): nat { |g| }

  /** `Grid::cols()`; an empty grid has no columns. */
  function Cols<T>(g: seq<seq<T>>): nat { if |g| == 0 then 0 else |g[0]| }

  /** The point addresses a cell of the grid. */
  predicate InBounds<T>(g: seq<seq<T>>, p: Point) {
    p.row < Rows(g) && p.col < Cols(g)
  }

  /** `grid[p]`, which panics outside the grid. */
  function At<T>(g: seq<seq<T>>, p: Point): T
    requires Rectangular(g) && InBounds(g, p)
  {
    g[p.row][p.col]
  }

  /** `Point::new` and `From<(usize, usize)>`. */
  function FromTuple(t: (nat, nat)): Point { Point(t.0, t.1) }

  /** `From<Point> for (usize, usize)`. */
  function ToTuple(p: Point): (nat, nat) { (p.row, p.col) }

  /** Converting a point to a tuple and back, or a tuple to a point and back, changes nothing. */
  lemma TupleRoundTrip(p: Point, t: (nat, nat))
    ensures FromTuple(ToTuple(p)) == p
    ensures ToTuple(FromTuple(t)) == t
  {
  }

  /** `Point + Point`, the `impl_op_ex!` addition. */
  function AddPoints(a: Point, b: Point): (r: Point)
    ensures r.row - a.row == b.row && r.col - a.col == b.col
  {
    Point(a.row + b.row, a.col + b.col)
  }

  /**
   * `Point + (i32, i32)`: a non-negative offset is added without any check,
   * otherwise the sum is computed signed and rejected when a component is negative.
   */
  function Add(p: Point, d: Offset): (r: Option<Point>)
    ensures r == if p.row + d.0 >= 0 && p.col + d.1 >= 0
                 then Some(Point(p.row + d.0, p.col + d.1)) else None
  {
    if d.0 >= 0 && d.1 >= 0 then
      Some(AddPoints(p, Point(d.0, d.1)))
    else
      var l := p.row + d.0;
      var c := p.col + d.1;
      if l >= 0 && c >= 0 then Some(Point(l, c)) else None
  }

  /** With both deltas non-negative the addition cannot fail. */
  lemma AddNonNegativeIsTotal(p: Point, d: Offset)
    requires d.0 >= 0 && d.1 >= 0
    ensures Add(p, d) == Some(Point(p.row + d.0, p.col + d.1))
  {
  }

  /** `Point - (i32, i32)` negates both deltas and adds. */
  function Sub(p: Point, d: Offset): (r: Option<Point>)
    ensures r.Some? <==> p.row >= d.0 && p.col >= d.1
    ensures r.Some? ==> r.value.row + d.0 == p.row && r.value.col + d.1 == p.col
  {
    Add(p, (-d.0, -d.1))
  }

  /** Subtracting an offset undoes adding it whenever the addition succeeded. */
  lemma SubUndoesAdd(p: Point, d: Offset)
    requires Add(p, d).Some?
    ensures Sub(Add(p, d).value, d) == Some(p)
  {
  }

  /** `checked_idx`: `None` outside the grid, the cell's value inside it. */
  function CheckedIdx<T>(p: Point, g: seq<seq<T>>): (r: Option<T>)
    requires Rectangular(g)
    ensures r.None? <==> p.row >= Rows(g) || p.col >= Cols(g)
    ensures r.Some? ==> InBounds(g, p) && r.value == g[p.row][p.col]
  {
    if p.row >= Rows(g) || p.col >= Cols(g) then None else Some(At(g, p))
  }

  /** The four offsets of `get_cardinal_neighbours`, in their fixed order: up, down, left, right. */
  const CardinalDirections: seq<Offset> := [(-1, 0), (1, 0), (0, -1), (0, 1)]

  /** `flat_map(|dir| p + *dir).filter(|p| rows > p.0 && cols > p.1)` over `dirs`. */
  function NeighboursAlong(rows: nat, cols: nat, p: Point, dirs: seq<Offset>): (r: seq<Point>)
    ensures |r| <= |dirs|
    ensures forall q :: q in r ==> q.row < rows && q.col < cols
  {
    if dirs == [] then []
    else
      var rest := NeighboursAlong(rows, cols, p, dirs[1..]);
      match Add(p, dirs[0])
      case Some(q) => if rows > q.row && cols > q.col then [q] + rest else rest
      case None => rest
  }

  /** Manhattan distance between two points. */
  function Manhattan(a: Point, b: Point): nat {
    (if a.row >= b.row then a.row - b.row else b.row - a.row)
    + (if a.col >= b.col then a.col - b.col else b.col - a.col)
  }

  /** `get_cardinal_neighbours(grid, p)`. */
  function CardinalNeighbours<T>(g: seq<seq<T>>, p: Point): seq<Point> {
    NeighboursAlong(Rows(g), Cols(g), p, CardinalDirections)
  }

  /** The cell `p + d` when it exists and lies inside a `rows` x `cols` grid, as a 0- or 1-element list. */
  function Candidate(rows: nat, cols: nat, p: Point, d: Offset): seq<Point> {
    if 0 <= p.row + d.0 < rows && 0 <= p.col + d.1 < cols
    then [Point(p.row + d.0, p.col + d.1)] else []
  }

  /**
   * The neighbours are, in this order, the cell above, below, left and right
   * of `p`, each present exactly when it lies inside the grid.
   */
  lemma CardinalNeighboursOrder<T>(g: seq<seq<T>>, p: Point)
    ensures CardinalNeighbours(g, p)
         == Candidate(Rows(g), Cols(g), p, (-1, 0)) + Candidate(Rows(g), Cols(g), p, (1, 0))
          + Candidate(Rows(g), Cols(g), p, (0, -1)) + Candidate(Rows(g), Cols(g), p, (0, 1))
  {
    var rows, cols := Rows(g), Cols(g);
    var ds := CardinalDirections;
    assert ds[1..][1..][1..][1..] == [];
    calc {
      NeighboursAlong(rows, cols, p, ds);
      Candidate(rows, cols, p, ds[0]) + NeighboursAlong(rows, cols, p, ds[1..]);
      Candidate(rows, cols, p, ds[0]) + Candidate(rows, cols, p, ds[1])
        + NeighboursAlong(rows, cols, p, ds[1..][1..]);
      Candidate(rows, cols, p, ds[0]) + Candidate(rows, cols, p, ds[1])
        + Candidate(rows, cols, p, ds[2]) + NeighboursAlong(rows, cols, p, ds[1..][1..][1..]);
    }
  }

  /**
   * Every neighbour lies inside the grid at Manhattan distance 1 from `p`,
   * every in-grid cell at distance 1 is a neighbour, there are no duplicates
   * and at most four of them.
   */
  lemma CardinalNeighboursSpec<T>(g: seq<seq<T>>, p: Point)
    ensures |CardinalNeighbours(g, p)| <= 4
    ensures forall q :: q in CardinalNeighbours(g, p) <==> InBounds(g, q) && Manhattan(p, q) == 1
    ensures forall i, j :: 0 <= i < j < |CardinalNeighbours(g, p)|
              ==> CardinalNeighbours(g, p)[i] != CardinalNeighbours(g, p)[j]
  {
    CardinalNeighboursOrder(g, p);
    var rows, cols := Rows(g), Cols(g);
    var up, down := Candidate(rows, cols, p, (-1, 0)), Candidate(rows, cols, p, (1, 0));
    var left, right := Candidate(rows, cols, p, (0, -1)), Candidate(rows, cols, p, (0, 1));
    var r := CardinalNeighbours(g, p);
    assert r == up + down + left + right;
    forall q ensures q in r <==> InBounds(g, q) && Manhattan(p, q) == 1 {
      assert q in r <==> q in up || q in down || q in left || q in right;
    }
    forall i, j | 0 <= i < j < |r| ensures r[i] != r[j] {
      assert forall k :: 0 <= k < |r| ==> r[k] in up || r[k] in down || r[k] in left || r[k] in right;
    }
  }
}
