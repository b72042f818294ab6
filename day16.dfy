/**
 * Day 16, the reindeer maze (day16/src/main.rs): the successor function and
 * the heuristic handed to the shortest-path searches, and the parser that
 * builds the maze. Moving straight ahead costs 1; turning onto any other
 * open neighbour costs 1001 and makes the step's direction the new facing.
 */
module Day16 {
  import opened Wrappers
  import opened Sums
  import GP = GridPoint
  import opened ReadingOrder

  datatype Cell = Wall | Empty

  /** `glam::IVec2`: `x` is the column delta, `y` the row delta. */
  datatype IVec2 = IVec2(x: int, y: int)

  /** `IVec2::X`, the direction the reindeer faces at the start: east. */
  const East: IVec2 := IVec2(1, 0)

  /** A search node: where the reindeer is and which way it faces. */
  type State = (GP.Point, IVec2)

  type Grid = seq<seq<Cell>>

  predicate IsI32(v: int) { -0x8000_0000 <= v < 0x8000_0000 }

  /**
   * What `successors` needs to run without overflow: the coordinates of the
   * current cell and of its neighbours fit in `i32`, so the `as i32` casts
   * are exact, and so does the cell straight ahead.
   */
  predicate NoOverflow(g: Grid, current: GP.Point, dir: IVec2) {
    GP.Rows(g) < 0x8000_0000 && GP.Cols(g) < 0x8000_0000
    && current.row < 0x8000_0000 && current.col < 0x8000_0000
    && IsI32(current.row + dir.y) && IsI32(current.col + dir.x)
  }

  /**
   * `Point((current.0 as i32 + dir.y) as usize, (current.1 as i32 + dir.x) as usize) == p`.
   * A negative component turns into a huge `usize`, which no cell of the grid
   * has, so comparing the signed sums is the same test.
   */
  predicate Ahead(current: GP.Point, dir: IVec2, p: GP.Point) {
    current.row + dir.y == p.row && current.col + dir.x == p.col
  }

  /** A move onto `p`: straight ahead at cost 1, otherwise a turn at cost 1001. */
  function Move(current: GP.Point, dir: IVec2, p: GP.Point): (State, nat) {
    if Ahead(current, dir, p) then ((p, dir), 1)
    else ((p, IVec2(p.col - current.col, p.row - current.row)), 1001)
  }

  /** `.filter(|p| grid[*p] != Cell::Wall)`. */
  function Open(g: Grid, ps: seq<GP.Point>): (r: seq<GP.Point>)
    requires GP.Rectangular(g) && forall p :: p in ps ==> GP.InBounds(g, p)
    ensures forall p :: p in r <==> p in ps && GP.At(g, p) != Wall
  {
    if ps == [] then []
    else
      var rest := Open(g, ps[1..]);
      if GP.At(g, ps[0]) != Wall then [ps[0]] + rest else rest
  }

  ghost predicate NoRepeats(ps: seq<GP.Point>) {
    forall i, j :: 0 <= i < j < |ps| ==> ps[i] != ps[j]
  }

  /** Filtering keeps a list free of repeats. */
  lemma {:induction false} OpenNoRepeats(g: Grid, ps: seq<GP.Point>)
    requires GP.Rectangular(g) && forall p :: p in ps ==> GP.InBounds(g, p)
    requires NoRepeats(ps)
    ensures NoRepeats(Open(g, ps))
  {
    if ps != [] {
      var tail := ps[1..];
      assert NoRepeats(tail) by {
        forall i, j | 0 <= i < j < |tail| ensures tail[i] != tail[j] {
          assert tail[i] == ps[i + 1] && tail[j] == ps[j + 1];
        }
      }
      OpenNoRepeats(g, tail);
      var rest := Open(g, tail);
      if GP.At(g, ps[0]) != Wall {
        assert ps[0] !in tail by {
          forall k | 0 <= k < |tail| ensures tail[k] != ps[0] {
            assert tail[k] == ps[k + 1];
          }
        }
        var r := [ps[0]] + rest;
        forall i, j | 0 <= i < j < |r| ensures r[i] != r[j] {
          if i == 0 {
            assert r[j] == rest[j - 1] && r[j] in tail;
          } else {
            assert r[i] == rest[i - 1] && r[j] == rest[j - 1];
          }
        }
      }
    }
  }

  /** `.map(...)` of `successors`. */
  function Moves(current: GP.Point, dir: IVec2, ps: seq<GP.Point>): (r: seq<(State, nat)>)
    ensures |r| == |ps| && forall i :: 0 <= i < |ps| ==> r[i] == Move(current, dir, ps[i])
  {
    if ps == [] then [] else [Move(current, dir, ps[0])] + Moves(current, dir, ps[1..])
  }

  /** The open cardinal neighbours of `current`, in the order `get_cardinal_neighbours` gives them. */
  function OpenNeighbours(g: Grid, current: GP.Point): (r: seq<GP.Point>)
    requires GP.Rectangular(g)
    ensures forall q :: q in r <==> GP.InBounds(g, q) && GP.Manhattan(current, q) == 1 && GP.At(g, q) != Wall
  {
    GP.CardinalNeighboursSpec(g, current);
    Open(g, GP.CardinalNeighbours(g, current))
  }

  /** `successors`: every open cardinal neighbour of `current`, with its new facing and its cost. */
  function Successors(g: Grid, current: GP.Point, dir: IVec2): seq<(State, nat)>
    requires GP.Rectangular(g) && NoOverflow(g, current, dir)
  {
    Moves(current, dir, OpenNeighbours(g, current))
  }

  /** The four unit directions a step between neighbours can have. */
  predicate Unit(d: IVec2) {
    (d.x == 0 && (d.y == 1 || d.y == -1)) || (d.y == 0 && (d.x == 1 || d.x == -1))
  }

  /**
   * Each successor is an open cell next to `current`. The cell straight
   * ahead keeps the facing at cost 1; any other one, the cell behind
   * included, costs 1001 and faces the way the step went.
   */
  lemma SuccessorAt(g: Grid, current: GP.Point, dir: IVec2, i: nat)
    requires GP.Rectangular(g) && NoOverflow(g, current, dir) && i < |Successors(g, current, dir)|
    ensures var s := Successors(g, current, dir)[i];
      && GP.InBounds(g, s.0.0) && GP.Manhattan(current, s.0.0) == 1 && GP.At(g, s.0.0) != Wall
      && (Ahead(current, dir, s.0.0) ==> s.0.1 == dir && s.1 == 1)
      && (!Ahead(current, dir, s.0.0) ==>
            s.1 == 1001 && Unit(s.0.1) && s.0.0 == GP.Point(current.row + s.0.1.y, current.col + s.0.1.x))
  {
    var open := OpenNeighbours(g, current);
    assert open[i] in open;
  }

  /** Every open cell next to `current` is a successor, and none is listed twice. */
  lemma SuccessorsComplete(g: Grid, current: GP.Point, dir: IVec2, q: GP.Point)
    requires GP.Rectangular(g) && NoOverflow(g, current, dir)
    ensures var r := Successors(g, current, dir);
      && ((exists i :: 0 <= i < |r| && r[i].0.0 == q)
            <==> GP.InBounds(g, q) && GP.Manhattan(current, q) == 1 && GP.At(g, q) != Wall)
      && forall i, j :: 0 <= i < j < |r| ==> r[i].0.0 != r[j].0.0
  {
    SuccessorsCover(g, current, dir, q);
    SuccessorsDistinct(g, current, dir);
  }

  lemma SuccessorsCover(g: Grid, current: GP.Point, dir: IVec2, q: GP.Point)
    requires GP.Rectangular(g) && NoOverflow(g, current, dir)
    ensures var r := Successors(g, current, dir);
      (exists i :: 0 <= i < |r| && r[i].0.0 == q)
        <==> GP.InBounds(g, q) && GP.Manhattan(current, q) == 1 && GP.At(g, q) != Wall
  {
    var open := OpenNeighbours(g, current);
    var r := Successors(g, current, dir);
    if q in open {
      var i :| 0 <= i < |open| && open[i] == q;
      assert r[i].0.0 == q;
    }
    if exists i :: 0 <= i < |r| && r[i].0.0 == q {
      var i :| 0 <= i < |r| && r[i].0.0 == q;
      assert open[i] == q;
    }
  }

  lemma SuccessorsDistinct(g: Grid, current: GP.Point, dir: IVec2)
    requires GP.Rectangular(g) && NoOverflow(g, current, dir)
    ensures var r := Successors(g, current, dir);
      forall i, j :: 0 <= i < j < |r| ==> r[i].0.0 != r[j].0.0
  {
    GP.CardinalNeighboursSpec(g, current);
    OpenNoRepeats(g, GP.CardinalNeighbours(g, current));
    var open := OpenNeighbours(g, current);
    var r := Successors(g, current, dir);
    assert forall i :: 0 <= i < |r| ==> r[i].0.0 == open[i];
  }

  /** `heuristic`: the Manhattan distance to the goal. */
  function Heuristic(a: GP.Point, goal: GP.Point): (r: nat)
    ensures r == 0 <==> a == goal
  {
    (if a.row >= goal.row then a.row - goal.row else goal.row - a.row)
    + (if a.col >= goal.col then a.col - goal.col else goal.col - a.col)
  }

  /**
   * The heuristic is consistent: one move never lowers it by more than the
   * move costs, since a move goes one cell and costs at least 1.
   */
  lemma Consistent(g: Grid, current: GP.Point, dir: IVec2, goal: GP.Point, i: nat)
    requires GP.Rectangular(g) && NoOverflow(g, current, dir) && i < |Successors(g, current, dir)|
    ensures var s := Successors(g, current, dir)[i];
      Heuristic(current, goal) <= s.1 + Heuristic(s.0.0, goal)
  {
    SuccessorAt(g, current, dir, i);
  }

  /** A walk through the maze: each node is a successor of the one before, at the given cost. */
  ghost predicate IsPath(g: Grid, states: seq<State>, costs: seq<nat>) {
    GP.Rectangular(g) && |states| == |costs| + 1
    && forall k :: 0 <= k < |costs| ==>
         NoOverflow(g, states[k].0, states[k].1) && (states[k + 1], costs[k]) in Successors(g, states[k].0, states[k].1)
  }

  lemma {:induction false} PathPrefix(g: Grid, states: seq<State>, costs: seq<nat>, goal: GP.Point, k: nat)
    requires IsPath(g, states, costs) && k <= |costs|
    ensures Heuristic(states[0].0, goal) <= SeqSum(costs[..k]) + Heuristic(states[k].0, goal)
  {
    if k > 0 {
      PathPrefix(g, states, costs, goal, k - 1);
      PathStep(g, states, costs, goal, k - 1);
      assert costs[..k] == costs[..k - 1] + [costs[k - 1]];
      SeqSumAppend(costs[..k - 1], costs[k - 1]);
    }
  }

  lemma PathStep(g: Grid, states: seq<State>, costs: seq<nat>, goal: GP.Point, k: nat)
    requires IsPath(g, states, costs) && k < |costs|
    ensures Heuristic(states[k].0, goal) <= costs[k] + Heuristic(states[k + 1].0, goal)
  {
    var succ := Successors(g, states[k].0, states[k].1);
    var i :| 0 <= i < |succ| && succ[i] == (states[k + 1], costs[k]);
    Consistent(g, states[k].0, states[k].1, goal, i);
  }

  /** The heuristic is admissible: no walk to the goal costs less than it promises. */
  lemma Admissible(g: Grid, states: seq<State>, costs: seq<nat>, goal: GP.Point)
    requires IsPath(g, states, costs) && states[|states| - 1].0 == goal
    ensures Heuristic(states[0].0, goal) <= SeqSum(costs)
  {
    PathPrefix(g, states, costs, goal, |costs|);
    assert costs[..|costs|] == costs;
  }

  // ------------------------------------------------------------ parse

  /** What `parse` makes of one character. */
  function CellOf(c: char): Cell { if c == '#' then Wall else Empty }

  /** The cells of the lines, row after row: the vector `parse` fills. */
  function CellsOf(lines: seq<string>): seq<Cell> {
    if lines == [] then [] else CellsOf(lines[..|lines| - 1]) + RowOf(lines[|lines| - 1])
  }

  function RowOf(line: string): (r: seq<Cell>)
    ensures |r| == |line| && forall k :: 0 <= k < |line| ==> r[k] == CellOf(line[k])
  {
    if line == [] then [] else RowOf(line[..|line| - 1]) + [CellOf(line[|line| - 1])]
  }

  /** The longest line. */
  ghost predicate IsMaxLen(lines: seq<string>, cols: nat) {
    (forall k :: 0 <= k < |lines| ==> |lines[k]| <= cols)
    && (cols == 0 || exists k :: 0 <= k < |lines| && |lines[k]| == cols)
  }

  lemma MaxLenStep(lines: seq<string>, k: nat, cols: nat)
    requires k < |lines| && IsMaxLen(lines[..k], cols)
    ensures IsMaxLen(lines[..k + 1], if cols >= |lines[k]| then cols else |lines[k]|)
  {
    var next := lines[..k + 1];
    assert forall m :: 0 <= m < k ==> next[m] == lines[..k][m];
    assert next[k] == lines[k];
  }

  lemma CellsStep(lines: seq<string>, k: nat)
    requires k < |lines|
    ensures CellsOf(lines[..k + 1]) == CellsOf(lines[..k]) + RowOf(lines[k])
  {
    assert lines[..k + 1][..k] == lines[..k];
  }

  /** The inner loop of `parse`: one line, row `lineIdx`. */
  method ParseLine(lines: seq<string>, lineIdx: nat, start0: GP.Point, end0: GP.Point, vecs0: seq<Cell>, cols0: nat)
    returns (start: GP.Point, end: GP.Point, vecs: seq<Cell>, cols: nat)
    requires lineIdx < |lines|
    requires start0 == Recorded(Last(lines, 'S', lineIdx, 0)) && end0 == Recorded(Last(lines, 'E', lineIdx, 0))
    ensures vecs == vecs0 + RowOf(lines[lineIdx])
    ensures cols == if cols0 >= |lines[lineIdx]| then cols0 else |lines[lineIdx]|
    ensures start == Recorded(Last(lines, 'S', lineIdx + 1, 0)) && end == Recorded(Last(lines, 'E', lineIdx + 1, 0))
  {
    start, end, vecs, cols := start0, end0, vecs0, cols0;
    var line := lines[lineIdx];
    for colIdx := 0 to |line|
      invariant vecs == vecs0 + RowOf(line[..colIdx])
      invariant cols == if cols0 >= colIdx then cols0 else colIdx
      invariant start == Recorded(Last(lines, 'S', lineIdx, colIdx)) && end == Recorded(Last(lines, 'E', lineIdx, colIdx))
    {
      var col := line[colIdx];
      assert line[..colIdx + 1] == line[..colIdx] + [col];
      if col == '#' {
        vecs := vecs + [Wall];
      } else {
        vecs := vecs + [Empty];
        if col == 'S' {
          start := GP.Point(lineIdx, colIdx);
        }
        if col == 'E' {
          end := GP.Point(lineIdx, colIdx);
        }
      }
      cols := if cols >= colIdx + 1 then cols else colIdx + 1;
    }
    assert line[..|line|] == line;
  }

  /**
   * `parse`, given the lines of the input: the cells in reading order, the
   * last `S` and the last `E` (or `(0, 0)` when there is none) and the length
   * of the longest line.
   */
  method Parse(lines: seq<string>) returns (start: GP.Point, end: GP.Point, vecs: seq<Cell>, cols: nat)
    ensures vecs == CellsOf(lines) && IsMaxLen(lines, cols)
    ensures start == Recorded(Last(lines, 'S', |lines|, 0)) && end == Recorded(Last(lines, 'E', |lines|, 0))
  {
    start, end := GP.Point(0, 0), GP.Point(0, 0);
    vecs, cols := [], 0;
    for lineIdx := 0 to |lines|
      invariant vecs == CellsOf(lines[..lineIdx]) && IsMaxLen(lines[..lineIdx], cols)
      invariant start == Recorded(Last(lines, 'S', lineIdx, 0)) && end == Recorded(Last(lines, 'E', lineIdx, 0))
    {
      MaxLenStep(lines, lineIdx, cols);
      CellsStep(lines, lineIdx);
      start, end, vecs, cols := ParseLine(lines, lineIdx, start, end, vecs, cols);
    }
    assert lines[..|lines|] == lines;
  }

  /** `n` is a whole number of rows of `c` cells. */
  predicate Multiple(n: nat, c: nat)
    requires c > 0
  {
    n == 0 || (n >= c && Multiple(n - c, c))
  }

  /**
   * `Grid::from_vec(vecs, cols)`: the vector cut into rows of `cols` cells;
   * it panics unless the length is a whole number of rows.
   */
  function FromVec(vecs: seq<Cell>, cols: nat): (r: Grid)
    requires cols > 0 && Multiple(|vecs|, cols)
    ensures |r| * cols == |vecs| && forall i :: 0 <= i < |r| ==> |r[i]| == cols
    decreases |vecs|
  {
    if vecs == [] then []
    else FromVec(vecs[..|vecs| - cols], cols) + [vecs[|vecs| - cols..]]
  }

  lemma {:induction false} CellsLength(lines: seq<string>, w: nat)
    requires w > 0 && forall k :: 0 <= k < |lines| ==> |lines[k]| == w
    ensures Multiple(|CellsOf(lines)|, w) && |CellsOf(lines)| == |lines| * w
  {
    CellsMultiple(lines, w);
    if lines != [] {
      var n := |lines| - 1;
      CellsLength(lines[..n], w);
      assert |lines| * w == n * w + w;
    }
  }

  /** Lines of one length `w` give a whole number of rows of cells. */
  lemma {:induction false} CellsMultiple(lines: seq<string>, w: nat)
    requires w > 0 && forall k :: 0 <= k < |lines| ==> |lines[k]| == w
    ensures Multiple(|CellsOf(lines)|, w)
  {
    if lines != [] {
      var n := |lines| - 1;
      CellsMultiple(lines[..n], w);
      assert |CellsOf(lines)| == |CellsOf(lines[..n])| + w;
    }
  }

  /**
   * On an input whose lines all have the same length, the maze `parse` builds
   * has one row per line, and its cell `(i, j)` is a wall exactly when
   * character `j` of line `i` is `#`.
   */
  lemma {:induction false} ParsedGrid(lines: seq<string>, w: nat)
    requires w > 0 && forall k :: 0 <= k < |lines| ==> |lines[k]| == w
    ensures Multiple(|CellsOf(lines)|, w) && var g := FromVec(CellsOf(lines), w);
      |g| == |lines| && forall i, j :: 0 <= i < |lines| && 0 <= j < w ==> g[i][j] == CellOf(lines[i][j])
  {
    CellsMultiple(lines, w);
    if lines != [] {
      var n := |lines| - 1;
      var init := lines[..n];
      ParsedGrid(init, w);
      CellsMultiple(init, w);
      FromVecSnoc(CellsOf(init), RowOf(lines[n]), w);
      assert CellsOf(lines) == CellsOf(init) + RowOf(lines[n]);
      ExtendRows(lines, w, FromVec(CellsOf(init), w));
    }
  }

  /** The rows of the first lines, followed by the row of the last line, are the rows of all lines. */
  lemma ExtendRows(lines: seq<string>, w: nat, g0: Grid)
    requires |lines| > 0 && forall k :: 0 <= k < |lines| ==> |lines[k]| == w
    requires |g0| == |lines| - 1 && forall i :: 0 <= i < |g0| ==> |g0[i]| == w
    requires forall i, j :: 0 <= i < |g0| && 0 <= j < w ==> g0[i][j] == CellOf(lines[..|g0|][i][j])
    ensures var g := g0 + [RowOf(lines[|g0|])];
      |g| == |lines| && forall i, j :: 0 <= i < |lines| && 0 <= j < w ==> g[i][j] == CellOf(lines[i][j])
  {
    var g := g0 + [RowOf(lines[|g0|])];
    forall i, j | 0 <= i < |lines| && 0 <= j < w
      ensures g[i][j] == CellOf(lines[i][j])
    {
      if i < |g0| {
        assert g[i] == g0[i] && lines[..|g0|][i] == lines[i];
      }
    }
  }

  /** Appending one whole row of cells appends one row to the grid. */
  lemma FromVecSnoc(a: seq<Cell>, row: seq<Cell>, w: nat)
    requires w > 0 && Multiple(|a|, w) && |row| == w
    ensures Multiple(|a + row|, w) && FromVec(a + row, w) == FromVec(a, w) + [row]
  {
    var v := a + row;
    assert v[..|v| - w] == a && v[|v| - w..] == row;
  }
}
