/**
 * day12/src/point.rs, the copy of the grid point utilities that day 12 uses:
 * offset addition and subtraction, point addition, the tuple conversions and
 * `get_cardinal_neighbours`, written out again in that file. It has neither
 * `IndexMut` nor `checked_idx`; day 12 uses the one of `GridPoint`.
 */
module Day12Point {
  import opened Wrappers
  import GP = GridPoint

  /** `Point::new` and `From<(usize, usize)>`. */
  function FromTuple(t: (nat, nat)): GP.Point { GP.Point(t.0, t.1) }

  /** `From<Point> for (usize, usize)`. */
  function ToTuple(p: GP.Point): (nat, nat) { (p.row, p.col) }

  /** Both conversions invert each other. */
  lemma TupleRoundTrip(p: GP.Point, t: (nat, nat))
    ensures FromTuple(ToTuple(p)) == p && ToTuple(FromTuple(t)) == t
  {
  }

  /** `Point + Point` of this copy. */
  function AddPoints(a: GP.Point, b: GP.Point): (r: GP.Point)
    ensures r == GP.AddPoints(a, b)
  {
    GP.Point(a.row + b.row, a.col + b.col)
  }

  /** `Point + (i32, i32)` of this copy. */
  function Add(p: GP.Point, d: GP.Offset): Option<GP.Point> {
    if d.0 >= 0 && d.1 >= 0 then
      Some(AddPoints(p, GP.Point(d.0, d.1)))
    else
      var l := p.row + d.0;
      var c := p.col + d.1;
      if l >= 0 && c >= 0 then Some(GP.Point(l, c)) else None
  }

  /** `Point - (i32, i32)` of this copy. */
  function Sub(p: GP.Point, d: GP.Offset): Option<GP.Point> {
    Add(p, (-d.0, -d.1))
  }

  /** `get_cardinal_neighbours` of this copy, with its own list of offsets. */
  function CardinalNeighbours<T>(g: seq<seq<T>>, p: GP.Point): seq<GP.Point> {
    Along(GP.Rows(g), GP.Cols(g), p, [(-1, 0), (1, 0), (0, -1), (0, 1)])
  }

  function Along(rows: nat, cols: nat, p: GP.Point, dirs: seq<GP.Offset>): seq<GP.Point> {
    if dirs == [] then []
    else
      var rest := Along(rows, cols, p, dirs[1..]);
      match Add(p, dirs[0])
      case Some(q) => if rows > q.row && cols > q.col then [q] + rest else rest
      case None => rest
  }

  /**
   * The copy behaves like the shared utilities: unchecked for non-negative
   * deltas, `None` when a component would be negative, subtraction negating
   * both deltas.
   */
  lemma AddAgrees(p: GP.Point, d: GP.Offset)
    ensures Add(p, d) == GP.Add(p, d)
    ensures Sub(p, d) == GP.Sub(p, d)
    ensures d.0 >= 0 && d.1 >= 0 ==> Add(p, d) == Some(GP.Point(p.row + d.0, p.col + d.1))
  {
  }

  lemma {:induction false} AlongAgrees(rows: nat, cols: nat, p: GP.Point, dirs: seq<GP.Offset>)
    ensures Along(rows, cols, p, dirs) == GP.NeighboursAlong(rows, cols, p, dirs)
  {
    if dirs != [] {
      AlongAgrees(rows, cols, p, dirs[1..]);
      AddAgrees(p, dirs[0]);
    }
  }

  /**
   * The copied `get_cardinal_neighbours` returns exactly the shared one's
   * list: the in-grid orthogonal neighbours, up, down, left, right.
   */
  lemma CardinalNeighboursAgree<T>(g: seq<seq<T>>, p: GP.Point)
    ensures CardinalNeighbours(g, p) == GP.CardinalNeighbours(g, p)
    ensures CardinalNeighbours(g, p)
         == GP.Candidate(GP.Rows(g), GP.Cols(g), p, (-1, 0)) + GP.Candidate(GP.Rows(g), GP.Cols(g), p, (1, 0))
          + GP.Candidate(GP.Rows(g), GP.Cols(g), p, (0, -1)) + GP.Candidate(GP.Rows(g), GP.Cols(g), p, (0, 1))
  {
    AlongAgrees(GP.Rows(g), GP.Cols(g), p, [(-1, 0), (1, 0), (0, -1), (0, 1)]);
    GP.CardinalNeighboursOrder(g, p);
  }
}
