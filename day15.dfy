/**
 * day15/src/main.rs: a robot walks through a walled warehouse and pushes
 * runs of crates. The grid is updated in place by swapping two cells at a
 * time; part 1 scores the final layout by the crates' GPS coordinates.
 */
module Day15 {
  import opened Wrappers
  import GP = GridPoint
  import opened Day15Types

  // ------------------------------------------------------------ the grid

  predicate InGrid(grid: array2<Cell>, p: GP.Point) {
    p.row < grid.Length0 && p.col < grid.Length1
  }

  predicate OnBorder(grid: array2<Cell>, p: GP.Point) {
    p.row == 0 || p.col == 0 || p.row == grid.Length0 - 1 || p.col == grid.Length1 - 1
  }

  function At(grid: array2<Cell>, p: GP.Point): Cell
    requires InGrid(grid, p)
    reads grid
  {
    grid[p.row, p.col]
  }

  /** The cells holding `c`. Together these sets describe the whole grid. */
  ghost function Where(grid: array2<Cell>, c: Cell): set<GP.Point>
    reads grid
  {
    set i, j | 0 <= i < grid.Length0 && 0 <= j < grid.Length1 && grid[i, j] == c :: GP.Point(i, j)
  }

  lemma WhereSpec(grid: array2<Cell>)
    ensures forall c, p :: p in Where(grid, c) <==> InGrid(grid, p) && At(grid, p) == c
  {
    forall c, p | InGrid(grid, p) && At(grid, p) == c ensures p in Where(grid, c) {
      assert GP.Point(p.row, p.col) in Where(grid, c);
    }
  }

  /** The cells on the edge of the grid. */
  ghost function Border(grid: array2<Cell>): set<GP.Point> {
    BorderOf(grid.Length0, grid.Length1)
  }

  /** The edge cells of a grid of `h` rows and `w` columns. */
  ghost function BorderOf(h: nat, w: nat): set<GP.Point> {
    set i, j | 0 <= i < h && 0 <= j < w && (i == 0 || j == 0 || i == h - 1 || j == w - 1) :: GP.Point(i, j)
  }

  /**
   * The warehouse is surrounded by walls. Cells are indexed without an
   * upper-bound check, so this is what keeps every step inside the grid.
   */
  ghost predicate Bordered(grid: array2<Cell>)
    reads grid
  {
    Border(grid) <= Where(grid, Wall)
  }

  /** The robot stands at `p` and nowhere else. */
  ghost predicate OnlyRobot(grid: array2<Cell>, p: GP.Point)
    reads grid
  {
    InGrid(grid, p) && Where(grid, Robot) == {p}
  }

  lemma NotWallInside(grid: array2<Cell>, p: GP.Point)
    requires Bordered(grid) && InGrid(grid, p) && At(grid, p) != Wall
    ensures !OnBorder(grid, p)
  {
    WhereSpec(grid);
    assert p !in Border(grid);
  }

  /** The one kind of cell each position holds. */
  lemma WhereAt(grid: array2<Cell>, p: GP.Point)
    requires InGrid(grid, p)
    ensures forall c :: p in Where(grid, c) <==> At(grid, p) == c
  {
    WhereSpec(grid);
  }

  lemma RobotAt(grid: array2<Cell>, p: GP.Point, q: GP.Point)
    requires OnlyRobot(grid, p) && InGrid(grid, q)
    ensures At(grid, q) == Robot <==> q == p
  {
    WhereSpec(grid);
  }

  /** The number of cells from `p` to the border in direction `d`. */
  function Dist(grid: array2<Cell>, p: GP.Point, d: Direction): nat
    requires InGrid(grid, p)
  {
    DistIn(grid.Length0, grid.Length1, p, d)
  }

  /** The number of cells from `p` to the edge of an `h` by `w` grid in direction `d`. */
  function DistIn(h: nat, w: nat, p: GP.Point, d: Direction): nat
    requires p.row < h && p.col < w
  {
    match d
    case Up => p.row
    case Down => h - 1 - p.row
    case Left => p.col
    case Right => w - 1 - p.col
  }

  /** `p + d` seen from a cell off the border: it exists, and it is one step closer to the border. */
  function Next(grid: array2<Cell>, p: GP.Point, d: Direction): (r: GP.Point)
    requires InGrid(grid, p) && !OnBorder(grid, p)
    ensures GP.Add(p, Offset(d)) == Some(r)
    ensures InGrid(grid, r) && Dist(grid, r, d) + 1 == Dist(grid, p, d)
  {
    GP.Add(p, Offset(d)).value
  }

  /** The cell in front of the robot: the robot is never on the border, so it exists. */
  function Ahead(grid: array2<Cell>, p: GP.Point, d: Direction): (r: GP.Point)
    requires Bordered(grid) && OnlyRobot(grid, p)
    reads grid
    ensures GP.Add(p, Offset(d)) == Some(r) && InGrid(grid, r)
    ensures Dist(grid, r, d) < Dist(grid, p, d)
  {
    RobotAt(grid, p, p);
    NotWallInside(grid, p);
    Next(grid, p, d)
  }

  /** The first cell from `p` on, in direction `d`, that is not a crate. */
  function RunEnd(grid: array2<Cell>, p: GP.Point, d: Direction): (r: GP.Point)
    requires Bordered(grid) && InGrid(grid, p)
    reads grid
    ensures InGrid(grid, r) && At(grid, r) != Crate && Dist(grid, r, d) <= Dist(grid, p, d)
    decreases Dist(grid, p, d)
  {
    if At(grid, p) == Crate then
      NotWallInside(grid, p);
      RunEnd(grid, Next(grid, p, d), d)
    else p
  }

  /** A set of cells after the contents of `a` and `b` were exchanged. */
  function SwapSet(s: set<GP.Point>, a: GP.Point, b: GP.Point): set<GP.Point> {
    (s - {a, b}) + (if a in s then {b} else {}) + (if b in s then {a} else {})
  }

  /** Exchanging two cells keeps the number of cells of every kind. */
  lemma SwapSize(s: set<GP.Point>, a: GP.Point, b: GP.Point)
    ensures |SwapSet(s, a, b)| == |s|
  {
    if (a in s) == (b in s) {
      assert SwapSet(s, a, b) == s;
    } else if a in s {
      assert SwapSet(s, a, b) == s - {a} + {b};
      TradeMember(s, a, b);
    } else {
      assert SwapSet(s, a, b) == s - {b} + {a};
      TradeMember(s, b, a);
    }
  }

  lemma TradeMember(s: set<GP.Point>, x: GP.Point, y: GP.Point)
    requires x in s && y !in s
    ensures |s - {x} + {y}| == |s|
  {
    var t := s - {x};
    assert y !in t;
    assert |t| == |s| - 1;
  }

  /** Exchanging two cells of the same kind, or two cells of neither kind, changes nothing. */
  lemma SwapSame(s: set<GP.Point>, a: GP.Point, b: GP.Point)
    requires (a in s) == (b in s)
    ensures SwapSet(s, a, b) == s
  {
  }

  /**
   * Swapping along a run: exchanging `next` with `end` and then `pos` with
   * `next`, where `pos` and `next` hold the same kind, is exchanging `pos`
   * with `end`.
   */
  lemma SwapChain(s: set<GP.Point>, pos: GP.Point, next: GP.Point, end: GP.Point)
    requires pos != next && pos != end && next != end && ((pos in s) == (next in s))
    ensures SwapSet(SwapSet(s, next, end), pos, next) == SwapSet(s, pos, end)
  {
  }

  /** The robot walking into an empty cell: the walls stay, the robot moves. */
  lemma WalkSets(walls: set<GP.Point>, robots: set<GP.Point>, curr: GP.Point, ahead: GP.Point)
    requires curr !in walls && ahead !in walls && robots == {curr} && curr != ahead
    ensures SwapSet(walls, curr, ahead) == walls && SwapSet(robots, curr, ahead) == {ahead}
  {
  }

  /** The robot pushing a run of crates into the empty cell `end`: the walls stay, the robot moves. */
  lemma PushSets(walls: set<GP.Point>, robots: set<GP.Point>, curr: GP.Point, ahead: GP.Point, end: GP.Point)
    requires curr !in walls && ahead !in walls && end !in walls && robots == {curr}
    requires curr != ahead && curr != end && ahead != end
    ensures SwapSet(SwapSet(walls, ahead, end), curr, ahead) == walls
    ensures SwapSet(SwapSet(robots, ahead, end), curr, ahead) == {ahead}
  {
    assert SwapSet(walls, ahead, end) == walls;
    assert SwapSet(robots, ahead, end) == robots;
  }

  // ------------------------------------------------------------ the walk as a value

  /** The warehouse as the set of cells of each kind, the value that `move_robot` changes. */
  datatype Layout = Layout(walls: set<GP.Point>, empty: set<GP.Point>, crates: set<GP.Point>, robots: set<GP.Point>)

  /** The layout of the array. With `WhereSpec` it determines every cell. */
  ghost function Contents(grid: array2<Cell>): Layout
    reads grid
  {
    Layout(Where(grid, Wall), Where(grid, Empty), Where(grid, Crate), Where(grid, Robot))
  }

  /** `grid.swap(a, b)` on a layout. */
  function Exchange(l: Layout, a: GP.Point, b: GP.Point): Layout {
    Layout(SwapSet(l.walls, a, b), SwapSet(l.empty, a, b), SwapSet(l.crates, a, b), SwapSet(l.robots, a, b))
  }

  /**
   * Where `move_crates` stops on a layout of `h` rows and `w` columns: the
   * first cell from `p` on in direction `d` that is not a crate. A run that
   * reaches the edge ends on its last crate, which makes the push fail (the
   * source returns `None` off the top or left edge and would index out of
   * bounds past the other two; a walled warehouse never gets there).
   */
  function RunEndOf(l: Layout, h: nat, w: nat, p: GP.Point, d: Direction): GP.Point
    requires p.row < h && p.col < w
    decreases DistIn(h, w, p, d)
  {
    if p !in l.crates then p
    else
      match GP.Add(p, Offset(d))
      case None => p
      case Some(q) => if q.row < h && q.col < w then RunEndOf(l, h, w, q, d) else p
  }

  /**
   * One iteration of `move_robot`'s loop on a layout: the new layout and the
   * robot's new position. A wall ahead changes nothing, an empty cell trades
   * places with the robot, and a crate run moves one cell when an empty cell
   * follows it, the robot taking the first crate's place.
   */
  function StepOf(l: Layout, h: nat, w: nat, curr: GP.Point, d: Direction): (Layout, GP.Point) {
    match GP.Add(curr, Offset(d))
    case None => (l, curr)
    case Some(a) =>
      if !(a.row < h && a.col < w) then (l, curr)
      else if a in l.empty then (Exchange(l, curr, a), a)
      else if a in l.crates then
        var end := RunEndOf(l, h, w, a, d);
        if end in l.empty then (Exchange(Exchange(l, a, end), curr, a), a) else (l, curr)
      else (l, curr)
  }

  /** `move_robot`'s loop over the whole path, from the robot at `curr`. */
  function Walk(l: Layout, h: nat, w: nat, curr: GP.Point, path: seq<Direction>): (Layout, GP.Point)
    decreases |path|
  {
    if path == [] then (l, curr)
    else
      var next := StepOf(l, h, w, curr, path[0]);
      Walk(next.0, h, w, next.1, path[1..])
  }

  ghost function Box(h: nat, w: nat): set<GP.Point> {
    set i, j | 0 <= i < h && 0 <= j < w :: GP.Point(i, j)
  }

  /** Every cell of the `h` by `w` grid is of exactly one kind. */
  ghost predicate Partition(l: Layout, h: nat, w: nat) {
    && l.walls + l.empty + l.crates + l.robots == Box(h, w)
    && l.walls !! l.empty && l.walls !! l.crates && l.walls !! l.robots
    && l.empty !! l.crates && l.empty !! l.robots && l.crates !! l.robots
  }

  /**
   * A walled warehouse of `h` by `w` with the robot at `curr`: every cell is
   * of exactly one kind, the edge is wall, and the robot is the only one.
   */
  ghost predicate Valid(l: Layout, h: nat, w: nat, curr: GP.Point) {
    Partition(l, h, w) && BorderOf(h, w) <= l.walls && l.robots == {curr}
  }

  lemma SwapDisjoint(s: set<GP.Point>, t: set<GP.Point>, a: GP.Point, b: GP.Point)
    requires s !! t
    ensures SwapSet(s, a, b) !! SwapSet(t, a, b)
  {
  }

  lemma SwapUnion(s: set<GP.Point>, t: set<GP.Point>, a: GP.Point, b: GP.Point)
    ensures SwapSet(s, a, b) + SwapSet(t, a, b) == SwapSet(s + t, a, b)
  {
  }

  /** Exchanging two cells of the grid keeps every cell of exactly one kind and every kind's count. */
  lemma ExchangeKeeps(l: Layout, h: nat, w: nat, a: GP.Point, b: GP.Point)
    requires a in Box(h, w) && b in Box(h, w) && Partition(l, h, w)
    ensures Partition(Exchange(l, a, b), h, w)
    ensures var e := Exchange(l, a, b);
      |e.walls| == |l.walls| && |e.empty| == |l.empty| && |e.crates| == |l.crates| && |e.robots| == |l.robots|
  {
    SwapSize(l.walls, a, b);
    SwapSize(l.empty, a, b);
    SwapSize(l.crates, a, b);
    SwapSize(l.robots, a, b);
    SwapDisjoint(l.walls, l.empty, a, b);
    SwapDisjoint(l.walls, l.crates, a, b);
    SwapDisjoint(l.walls, l.robots, a, b);
    SwapDisjoint(l.empty, l.crates, a, b);
    SwapDisjoint(l.empty, l.robots, a, b);
    SwapDisjoint(l.crates, l.robots, a, b);
    SwapUnion(l.walls, l.empty, a, b);
    SwapUnion(l.walls + l.empty, l.crates, a, b);
    SwapUnion(l.walls + l.empty + l.crates, l.robots, a, b);
    SwapSame(Box(h, w), a, b);
  }

  /** The run of a layout ends inside the grid. */
  lemma {:induction false} RunEndInside(l: Layout, h: nat, w: nat, p: GP.Point, d: Direction)
    requires p.row < h && p.col < w
    ensures var e := RunEndOf(l, h, w, p, d); e.row < h && e.col < w
    decreases DistIn(h, w, p, d)
  {
    if p in l.crates {
      match GP.Add(p, Offset(d))
      case None =>
      case Some(q) =>
        if q.row < h && q.col < w {
          RunEndInside(l, h, w, q, d);
        }
    }
  }

  /** The robot walking into the empty cell `a`. */
  lemma WalkIntoEmpty(l: Layout, h: nat, w: nat, curr: GP.Point, a: GP.Point)
    requires Valid(l, h, w, curr) && a in l.empty
    ensures Valid(Exchange(l, curr, a), h, w, a) && Exchange(l, curr, a).walls == l.walls
    ensures |Exchange(l, curr, a).empty| == |l.empty| && |Exchange(l, curr, a).crates| == |l.crates|
  {
    ExchangeKeeps(l, h, w, curr, a);
    WalkSets(l.walls, l.robots, curr, a);
  }

  /** The robot at `curr` pushing the run of crates from `a` into the empty cell `end`. */
  lemma PushIntoEmpty(l: Layout, h: nat, w: nat, curr: GP.Point, a: GP.Point, end: GP.Point)
    requires Valid(l, h, w, curr) && a in l.crates && end in l.empty
    ensures var l' := Exchange(Exchange(l, a, end), curr, a);
      Valid(l', h, w, a) && l'.walls == l.walls && |l'.empty| == |l.empty| && |l'.crates| == |l.crates|
  {
    ExchangeKeeps(l, h, w, a, end);
    var m := Exchange(l, a, end);
    ExchangeKeeps(m, h, w, curr, a);
    PushSets(l.walls, l.robots, curr, a, end);
  }

  /**
   * A step keeps the warehouse valid with the robot at its new position, one
   * cell ahead or where it was; it keeps the walls and the number of empty
   * cells and of crates.
   */
  lemma StepOfKeeps(l: Layout, h: nat, w: nat, curr: GP.Point, d: Direction)
    requires Valid(l, h, w, curr)
    ensures var r := StepOf(l, h, w, curr, d);
      Valid(r.0, h, w, r.1) && r.0.walls == l.walls && |r.0.empty| == |l.empty| && |r.0.crates| == |l.crates|
    ensures var r := StepOf(l, h, w, curr, d); r.1 == curr || GP.Add(curr, Offset(d)) == Some(r.1)
  {
    var r := StepOf(l, h, w, curr, d);
    var target := GP.Add(curr, Offset(d));
    if target.Some? && target.value.row < h && target.value.col < w {
      var a := target.value;
      if a in l.empty {
        assert r == (Exchange(l, curr, a), a);
        WalkIntoEmpty(l, h, w, curr, a);
      } else if a in l.crates && RunEndOf(l, h, w, a, d) in l.empty {
        var end := RunEndOf(l, h, w, a, d);
        assert r == (Exchange(Exchange(l, a, end), curr, a), a);
        PushIntoEmpty(l, h, w, curr, a, end);
      } else {
        assert r == (l, curr);
      }
    } else {
      assert r == (l, curr);
    }
  }

  /**
   * Following a path keeps the warehouse valid with the robot at its final
   * position; the walls stay and so do the numbers of empty cells and of crates.
   */
  lemma {:induction false} WalkKeeps(l: Layout, h: nat, w: nat, curr: GP.Point, path: seq<Direction>)
    requires Valid(l, h, w, curr)
    ensures var (l', last) := Walk(l, h, w, curr, path);
      Valid(l', h, w, last) && l'.walls == l.walls && |l'.empty| == |l.empty| && |l'.crates| == |l.crates|
    decreases |path|
  {
    if path != [] {
      StepOfKeeps(l, h, w, curr, path[0]);
      var next := StepOf(l, h, w, curr, path[0]);
      WalkKeeps(next.0, h, w, next.1, path[1..]);
    }
  }

  /** Following `p` and then `q` is following `p + q`. */
  lemma {:induction false} WalkAppend(l: Layout, h: nat, w: nat, curr: GP.Point, p: seq<Direction>, q: seq<Direction>)
    ensures var mid := Walk(l, h, w, curr, p); Walk(mid.0, h, w, mid.1, q) == Walk(l, h, w, curr, p + q)
    decreases |p|
  {
    if p != [] {
      var next := StepOf(l, h, w, curr, p[0]);
      assert (p + q)[1..] == p[1..] + q;
      WalkAppend(next.0, h, w, next.1, p[1..], q);
    } else {
      assert p + q == q;
    }
  }

  /** The array version of the run agrees with the layout version. */
  lemma {:induction false} RunEndAgrees(grid: array2<Cell>, p: GP.Point, d: Direction)
    requires Bordered(grid) && InGrid(grid, p)
    ensures RunEnd(grid, p, d) == RunEndOf(Contents(grid), grid.Length0, grid.Length1, p, d)
    decreases Dist(grid, p, d)
  {
    WhereAt(grid, p);
    if At(grid, p) == Crate {
      NotWallInside(grid, p);
      RunEndAgrees(grid, Next(grid, p, d), d);
    }
  }

  /** A walled grid with one robot is a valid layout. */
  lemma ContentsValid(grid: array2<Cell>, p: GP.Point)
    requires Bordered(grid) && OnlyRobot(grid, p)
    ensures Valid(Contents(grid), grid.Length0, grid.Length1, p)
  {
    var l := Contents(grid);
    WhereSpec(grid);
    forall q | q in Box(grid.Length0, grid.Length1) ensures q in l.walls + l.empty + l.crates + l.robots {
      assert InGrid(grid, q);
    }
  }

  // ------------------------------------------------------------ moves

  /** `move_and_swap`: exchange two cells and return the second one. */
  method MoveAndSwap(grid: array2<Cell>, current: GP.Point, target: GP.Point) returns (p: GP.Point)
    requires InGrid(grid, current) && InGrid(grid, target)
    modifies grid
    ensures p == target
    ensures forall c :: Where(grid, c) == SwapSet(old(Where(grid, c)), current, target)
  {
    WhereSpec(grid);
    var c, n := grid[current.row, current.col], grid[target.row, target.col];
    grid[target.row, target.col] := c;
    grid[current.row, current.col] := n;
    p := target;
    WhereSpec(grid);
    forall cell ensures Where(grid, cell) == SwapSet(old(Where(grid, cell)), current, target) {
      forall q ensures q in Where(grid, cell) <==> q in SwapSet(old(Where(grid, cell)), current, target) {
        if InGrid(grid, q) && q != current && q != target {
          assert grid[q.row, q.col] == old(grid[q.row, q.col]);
        }
      }
    }
  }

  /**
   * `move_crates`, called on a crate that `dir` pushes. The run of crates
   * starting at `pos` moves one cell exactly when the first cell after the
   * run is empty rather than a wall: then the net effect is that `pos` and
   * that cell trade places, and the result is `pos`. Otherwise nothing
   * changes and the result is `None`.
   */
  method MoveCrates(grid: array2<Cell>, pos: GP.Point, dir: Direction) returns (r: Option<GP.Point>)
    requires Bordered(grid) && InGrid(grid, pos) && At(grid, pos) == Crate
    requires At(grid, RunEnd(grid, pos, dir)) != Robot
    modifies grid
    ensures r.Some? <==> old(At(grid, RunEnd(grid, pos, dir))) == Empty
    ensures r.Some? ==> r.value == pos
    ensures r.Some? ==> forall c :: Where(grid, c) == SwapSet(old(Where(grid, c)), pos, old(RunEnd(grid, pos, dir)))
    ensures r.None? ==> unchanged(grid)
    decreases Dist(grid, pos, dir)
  {
    NotWallInside(grid, pos);
    var next := GP.Add(pos, Offset(dir));
    if next.None? {
      r := None;
    } else {
      var newPosition := next.value;
      assert newPosition == Next(grid, pos, dir);
      var ahead := grid[newPosition.row, newPosition.col];
      if ahead == Wall {
        r := None;
      } else if ahead == Crate {
        ghost var end := RunEnd(grid, pos, dir);
        WhereSpec(grid);
        var moved := MoveCrates(grid, newPosition, dir);
        if moved.Some? {
          var _ := MoveAndSwap(grid, pos, moved.value);
          r := Some(pos);
          forall c ensures Where(grid, c) == SwapSet(old(Where(grid, c)), pos, end) {
            SwapChain(old(Where(grid, c)), pos, newPosition, end);
          }
        } else {
          r := None;
        }
      } else if ahead == Robot {
        assert false;
      } else {
        var _ := MoveAndSwap(grid, pos, newPosition);
        r := Some(pos);
      }
    }
  }

  /**
   * The robot at `curr` pushes the crate in front of it, at `ahead`. When an
   * empty cell follows the run of crates, the crate's cell and that empty
   * cell trade places, and then the robot trades places with the crate's old
   * cell; otherwise nothing changes.
   */
  method Push(grid: array2<Cell>, curr: GP.Point, ahead: GP.Point, dir: Direction) returns (next: GP.Point)
    requires Bordered(grid) && OnlyRobot(grid, curr)
    requires ahead == Ahead(grid, curr, dir) && At(grid, ahead) == Crate
    modifies grid
    ensures Bordered(grid) && OnlyRobot(grid, next)
    ensures Where(grid, Wall) == old(Where(grid, Wall)) && forall c :: |Where(grid, c)| == old(|Where(grid, c)|)
    ensures var end := old(RunEnd(grid, ahead, dir));
      if old(At(grid, end)) == Empty then
        next == ahead && forall c :: Where(grid, c) == SwapSet(SwapSet(old(Where(grid, c)), ahead, end), curr, ahead)
      else next == curr && unchanged(grid)
  {
    ghost var end := RunEnd(grid, ahead, dir);
    WhereAt(grid, curr);
    WhereAt(grid, ahead);
    WhereAt(grid, end);
    RobotAt(grid, curr, end);
    next := curr;
    var moved := MoveCrates(grid, ahead, dir);
    if moved.Some? {
      label Pushed:
      next := MoveAndSwap(grid, curr, moved.value);
      forall c ensures Where(grid, c) == SwapSet(SwapSet(old(Where(grid, c)), ahead, end), curr, ahead) {
        assert old@Pushed(Where(grid, c)) == SwapSet(old(Where(grid, c)), ahead, end);
      }
      forall c ensures |Where(grid, c)| == old(|Where(grid, c)|) {
        SwapSize(old(Where(grid, c)), ahead, end);
        SwapSize(SwapSet(old(Where(grid, c)), ahead, end), curr, ahead);
      }
      PushSets(old(Where(grid, Wall)), old(Where(grid, Robot)), curr, ahead, end);
    }
  }

  /**
   * One iteration of the loop of `move_robot`, with the effect `StepOf`
   * states. A wall ahead changes nothing; an empty cell ahead trades places
   * with the robot; a crate ahead is pushed as `Push` describes.
   */
  method Step(grid: array2<Cell>, curr: GP.Point, dir: Direction) returns (next: GP.Point)
    requires Bordered(grid) && OnlyRobot(grid, curr)
    modifies grid
    ensures Bordered(grid) && OnlyRobot(grid, next)
    ensures (Contents(grid), next) == StepOf(old(Contents(grid)), grid.Length0, grid.Length1, curr, dir)
  {
    ghost var front := Ahead(grid, curr, dir);
    ghost var before := Contents(grid);
    ghost var spec := StepOf(before, grid.Length0, grid.Length1, curr, dir);
    WhereAt(grid, front);
    next := curr;
    var dirVec := Offset(dir);
    var target := GP.Add(curr, dirVec);
    if target.Some? {
      var newPos := target.value;
      assert newPos == front;
      var ahead := grid[newPos.row, newPos.col];
      if ahead == Crate {
        ghost var end := RunEnd(grid, front, dir);
        RunEndAgrees(grid, front, dir);
        WhereAt(grid, end);
        next := Push(grid, curr, newPos, dir);
        if old(At(grid, end)) == Empty {
          assert spec == (Exchange(Exchange(before, front, end), curr, front), front);
          assert Contents(grid) == Exchange(Exchange(before, front, end), curr, front);
        } else {
          assert spec == (before, curr);
        }
      } else if ahead == Robot {
        RobotAt(grid, curr, newPos);
        assert false;
      } else if ahead == Empty {
        WhereAt(grid, curr);
        next := MoveAndSwap(grid, curr, newPos);
        WalkSets(old(Where(grid, Wall)), old(Where(grid, Robot)), curr, newPos);
        assert spec == (Exchange(before, curr, front), front);
        assert Contents(grid) == Exchange(before, curr, front);
      } else {
        assert spec == (before, curr);
      }
    }
  }

  /**
   * `move_robot`: find the robot and follow the path. The grid ends as
   * `Walk` of the path from the robot's cell says; so (`WalkKeeps`) the
   * walls stay where they are, there is still exactly one robot, and the
   * number of cells of every kind is kept.
   */
  method MoveRobot(grid: array2<Cell>, path: seq<Direction>)
    requires Bordered(grid) && exists i, j :: 0 <= i < grid.Length0 && 0 <= j < grid.Length1 && OnlyRobot(grid, GP.Point(i, j))
    modifies grid
    ensures Bordered(grid) && exists i, j :: 0 <= i < grid.Length0 && 0 <= j < grid.Length1 && OnlyRobot(grid, GP.Point(i, j))
    ensures Where(grid, Wall) == old(Where(grid, Wall)) && forall c :: |Where(grid, c)| == old(|Where(grid, c)|)
    ensures forall p :: old(OnlyRobot(grid, p)) ==> Contents(grid) == Walk(old(Contents(grid)), grid.Length0, grid.Length1, p, path).0
  {
    var currPos := FindRobot(grid);
    ghost var start, first := Contents(grid), currPos;
    ContentsValid(grid, first);
    for k := 0 to |path|
      invariant Bordered(grid) && OnlyRobot(grid, currPos)
      invariant Walk(start, grid.Length0, grid.Length1, first, path[..k]) == (Contents(grid), currPos)
    {
      WalkAppend(start, grid.Length0, grid.Length1, first, path[..k], [path[k]]);
      assert path[..k + 1] == path[..k] + [path[k]];
      currPos := Step(grid, currPos, path[k]);
    }
    assert path[..|path|] == path;
    forall p | old(OnlyRobot(grid, p)) ensures p == first {
      assert p in old(Where(grid, Robot));
    }
    WalkKeeps(start, grid.Length0, grid.Length1, first, path);
    forall c ensures |Where(grid, c)| == old(|Where(grid, c)|) {
      match c
      case Wall =>
      case Empty =>
      case Crate =>
      case Robot =>
    }
    assert OnlyRobot(grid, GP.Point(currPos.row, currPos.col));
  }

  /** The robot found by the row-major scan of `move_robot`: the first robot cell, so the only one. */
  method FindRobot(grid: array2<Cell>) returns (p: GP.Point)
    requires exists i, j :: 0 <= i < grid.Length0 && 0 <= j < grid.Length1 && OnlyRobot(grid, GP.Point(i, j))
    ensures OnlyRobot(grid, p)
  {
    ghost var wi, wj :| 0 <= wi < grid.Length0 && 0 <= wj < grid.Length1 && OnlyRobot(grid, GP.Point(wi, wj));
    WhereSpec(grid);
    for i := 0 to grid.Length0
      invariant i <= wi
    {
      for j := 0 to grid.Length1
        invariant i < wi || j <= wj
      {
        if grid[i, j] == Robot {
          RobotAt(grid, GP.Point(wi, wj), GP.Point(i, j));
          return GP.Point(i, j);
        }
      }
    }
    assert false;
  }

  // ------------------------------------------------------------ score

  /** The crates in row-major order, from cell `(i, j)` on. */
  function CratesFrom(grid: array2<Cell>, i: nat, j: nat): seq<GP.Point>
    requires i <= grid.Length0 && j <= grid.Length1
    reads grid
    decreases grid.Length0 - i, grid.Length1 - j
  {
    if i == grid.Length0 then []
    else if j == grid.Length1 then CratesFrom(grid, i + 1, 0)
    else (if grid[i, j] == Crate then [GP.Point(i, j)] else []) + CratesFrom(grid, i, j + 1)
  }

  /** The list holds exactly the crate cells from `(i, j)` on in row-major order. */
  lemma {:induction false} CratesFromSpec(grid: array2<Cell>, i: nat, j: nat, p: GP.Point)
    requires i <= grid.Length0 && j <= grid.Length1
    ensures p in CratesFrom(grid, i, j) <==>
      InGrid(grid, p) && At(grid, p) == Crate && (p.row > i || (p.row == i && p.col >= j))
    decreases grid.Length0 - i, grid.Length1 - j
  {
    if i < grid.Length0 {
      if j == grid.Length1 {
        CratesFromSpec(grid, i + 1, 0, p);
      } else {
        CratesFromSpec(grid, i, j + 1, p);
      }
    }
  }

  /** `100 * line + col` summed over the points. */
  function GpsSum(ps: seq<GP.Point>): nat {
    if ps == [] then 0 else 100 * ps[0].row + ps[0].col + GpsSum(ps[1..])
  }

  /** `part1`: the GPS coordinates of every crate, added up. */
  function Part1(grid: array2<Cell>): nat
    reads grid
  {
    GpsSum(CratesFrom(grid, 0, 0))
  }

  /** The score sums over exactly the crate cells of the grid. */
  lemma Part1Crates(grid: array2<Cell>, p: GP.Point)
    ensures p in CratesFrom(grid, 0, 0) <==> InGrid(grid, p) && At(grid, p) == Crate
  {
    CratesFromSpec(grid, 0, 0, p);
  }

  /** No crate is listed twice: each one comes strictly after the ones before it. */
  lemma {:induction false} CratesFromDistinct(grid: array2<Cell>, i: nat, j: nat)
    requires i <= grid.Length0 && j <= grid.Length1
    ensures Distinct(CratesFrom(grid, i, j))
    decreases grid.Length0 - i, grid.Length1 - j
  {
    if i < grid.Length0 {
      if j == grid.Length1 {
        CratesFromDistinct(grid, i + 1, 0);
      } else {
        CratesFromDistinct(grid, i, j + 1);
        if grid[i, j] == Crate {
          CratesFromSpec(grid, i, j + 1, GP.Point(i, j));
          DistinctCons(GP.Point(i, j), CratesFrom(grid, i, j + 1));
        }
      }
    }
  }

  ghost predicate Distinct(s: seq<GP.Point>) {
    forall a, b :: 0 <= a < b < |s| ==> s[a] != s[b]
  }

  lemma DistinctCons(x: GP.Point, s: seq<GP.Point>)
    requires Distinct(s) && x !in s
    ensures Distinct([x] + s)
  {
    forall a, b | 0 <= a < b < |s| + 1 ensures ([x] + s)[a] != ([x] + s)[b] {
      if a > 0 {
        assert ([x] + s)[a] == s[a - 1] && ([x] + s)[b] == s[b - 1];
      }
    }
  }

  /** A list without repeats has as many elements as the set of them. */
  lemma {:induction false} DistinctCard(s: seq<GP.Point>)
    requires Distinct(s)
    ensures |set x | x in s| == |s|
  {
    if s != [] {
      var t := s[1..];
      assert Distinct(t) by {
        forall a, b | 0 <= a < b < |t| ensures t[a] != t[b] {
          assert t[a] == s[a + 1] && t[b] == s[b + 1];
        }
      }
      DistinctCard(t);
      assert s[0] !in t by {
        forall k | 0 <= k < |t| ensures t[k] != s[0] {
          assert t[k] == s[k + 1];
        }
      }
      assert (set x | x in s) == (set x | x in t) + {s[0]} by {
        assert s == [s[0]] + t;
      }
    }
  }

  /** The score counts every crate of the grid exactly once. */
  lemma ScoredCrates(grid: array2<Cell>)
    ensures |CratesFrom(grid, 0, 0)| == |Where(grid, Crate)|
  {
    var list := CratesFrom(grid, 0, 0);
    CratesFromDistinct(grid, 0, 0);
    DistinctCard(list);
    WhereSpec(grid);
    forall p ensures p in list <==> p in Where(grid, Crate) {
      Part1Crates(grid, p);
    }
    assert (set x | x in list) == Where(grid, Crate);
  }
}
