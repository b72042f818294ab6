/**
 * day10/src/point.rs: a minimal copy of the grid point with its own offset
 * addition, written twice, once for `Point` and once for `&Point`.
 */
module Day10Point {
  import opened Wrappers
  import GP = GridPoint

  /** `From<Point> for (usize, usize)` and its `&Point` twin. */
  function ToTuple(p: GP.Point): (r: (nat, nat))
    ensures r.0 == p.row && r.1 == p.col
  {
    (p.row, p.col)
  }

  /** `Point + Point`. */
  function AddPoints(a: GP.Point, b: GP.Point): GP.Point {
    GP.Point(a.row + b.row, a.col + b.col)
  }

  /** `impl Add<(i32, i32)> for Point`. */
  function AddOwned(p: GP.Point, d: GP.Offset): Option<GP.Point> {
    if d.0 >= 0 && d.1 >= 0 then
      Some(AddPoints(p, GP.Point(d.0, d.1)))
    else
      var l := p.row + d.0;
      var c := p.col + d.1;
      if l >= 0 && c >= 0 then Some(GP.Point(l, c)) else None
  }

  /** `impl Add<(i32, i32)> for &Point`, a second copy of the same body. */
  function AddRef(p: GP.Point, d: GP.Offset): Option<GP.Point> {
    if d.0 >= 0 && d.1 >= 0 then
      Some(AddPoints(p, GP.Point(d.0, d.1)))
    else
      var l := p.row + d.0;
      var c := p.col + d.1;
      if l >= 0 && c >= 0 then Some(GP.Point(l, c)) else None
  }

  /**
   * Both additions agree on every input, and the result is `Some` exactly
   * when both resulting components are non-negative, with the componentwise sum.
   */
  lemma AddVariantsAgree(p: GP.Point, d: GP.Offset)
    ensures AddOwned(p, d) == AddRef(p, d) == GP.Add(p, d)
    ensures AddOwned(p, d).Some? <==> p.row + d.0 >= 0 && p.col + d.1 >= 0
    ensures AddOwned(p, d).Some? ==> AddOwned(p, d).value == GP.Point(p.row + d.0, p.col + d.1)
  {
  }

  /** Point addition is componentwise and the same as the shared one. */
  lemma AddPointsAgrees(a: GP.Point, b: GP.Point)
    ensures AddPoints(a, b) == GP.AddPoints(a, b)
    ensures AddPoints(a, b).row == a.row + b.row && AddPoints(a, b).col == a.col + b.col
  {
  }
}
