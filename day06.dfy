/**
 * Day 6 (day06/src/main.rs): a guard walks a grid, turning right in front
 * of an obstacle, until it leaves the grid or comes back to a position it
 * has already held facing the same way.
 */
module Day06 {
  import opened Wrappers
  import GP = GridPoint

  datatype Place = Empty | Visited | Obstacle | Start

  /** `Direction(i32, i32)`: (row delta, column delta). */
  type Direction = (int, int)

  /** The guard starts facing up. */
  const Up: Direction := (-1, 0)

  /** `Direction::rotate_90`: a quarter turn clockwise. */
  function Rotate90(d: Direction): Direction { (d.1, -d.0) }

  /** The four headings a guard can have. */
  predicate IsHeading(d: Direction) {
    d == (-1, 0) || d == (0, 1) || d == (1, 0) || d == (0, -1)
  }

  const Headings: set<Direction> := {(-1, 0), (0, 1), (1, 0), (0, -1)}

  /** Rotation cycles up, right, down, left; four rotations are the identity. */
  lemma RotateCycle(d: Direction)
    ensures Rotate90((-1, 0)) == (0, 1) && Rotate90((0, 1)) == (1, 0)
    ensures Rotate90((1, 0)) == (0, -1) && Rotate90((0, -1)) == (-1, 0)
    ensures Rotate90(Rotate90(Rotate90(Rotate90(d)))) == d
    ensures IsHeading(d) ==> IsHeading(Rotate90(d)) && Rotate90(d) != d
  {
  }

  /** `Place::from(char)`. */
  function PlaceFromChar(c: char): (r: Place)
    ensures r == Obstacle <==> c == '#'
    ensures r == Start <==> c == '^'
    ensures r == Empty <==> c != '#' && c != '^'
  {
    match c
    case '#' => Obstacle
    case '^' => Start
    case _ => Empty
  }

  /** What the inner loop of `walk_guard` does from one state. */
  datatype Step = Leave | Move(pos: GP.Point, dir: Direction) | Spin

  /**
   * The inner loop: leave when the next cell is off the grid, turn in front
   * of an obstacle, otherwise step forward. After four turns the direction
   * is the original one again and the loop would repeat forever: `Spin`.
   */
  function Advance(g: seq<seq<Place>>, pos: GP.Point, dir: Direction, turns: nat): Step
    requires GP.Rectangular(g) && turns <= 4
    decreases 4 - turns
  {
    if turns == 4 then Spin
    else match GP.Add(pos, dir)
      case None => Leave
      case Some(next) =>
        if next.row >= GP.Rows(g) || next.col >= GP.Cols(g) then Leave
        else if GP.At(g, next) == Obstacle then Advance(g, pos, Rotate90(dir), turns + 1)
        else Move(next, dir)
  }

  /** A guard state: a position and the direction it faces. */
  type State = (GP.Point, Direction)

  /** All states inside the grid. */
  ghost function States(g: seq<seq<Place>>): set<State> {
    set r: nat, c: nat, d: Direction | r < GP.Rows(g) && c < GP.Cols(g) && d in Headings :: (GP.Point(r, c), d)
  }

  lemma IsState(g: seq<seq<Place>>, pos: GP.Point, dir: Direction)
    requires GP.InBounds(g, pos) && IsHeading(dir)
    ensures (pos, dir) in States(g)
  {
    var r: nat, c: nat, d: Direction := pos.row, pos.col, dir;
    assert d in Headings;
    assert (GP.Point(r, c), d) in States(g);
  }

  /** The inner loop's result: a move keeps the guard inside the grid with a heading. */
  lemma AdvanceStaysInside(g: seq<seq<Place>>, pos: GP.Point, dir: Direction, turns: nat)
    requires GP.Rectangular(g) && turns <= 4 && IsHeading(dir)
    ensures Advance(g, pos, dir, turns).Move? ==>
      var s := Advance(g, pos, dir, turns);
      GP.InBounds(g, s.pos) && IsHeading(s.dir)
    decreases 4 - turns
  {
    if turns < 4 {
      RotateCycle(dir);
      match GP.Add(pos, dir)
      case None =>
      case Some(next) =>
        if next.row < GP.Rows(g) && next.col < GP.Cols(g) && GP.At(g, next) == Obstacle {
          AdvanceStaysInside(g, pos, Rotate90(dir), turns + 1);
        }
    }
  }

  /** How the walk ends: the states it went through, and whether it came back to one. */
  datatype Outcome = Walked(seen: set<State>, foundLoop: bool) | Diverges

  /** `walk_guard`'s outer loop, from `pos` facing `dir` with `seen` already recorded. */
  ghost function Walk(g: seq<seq<Place>>, pos: GP.Point, dir: Direction, seen: set<State>): Outcome
    requires GP.Rectangular(g) && seen <= States(g) && GP.InBounds(g, pos) && IsHeading(dir)
    decreases |States(g) - seen|
  {
    if (pos, dir) in seen then Walked(seen, true)
    else
      var seen' := seen + {(pos, dir)};
      IsState(g, pos, dir);
      assert States(g) - seen' < States(g) - seen;
      match Advance(g, pos, dir, 0)
      case Leave => Walked(seen', false)
      case Spin => Diverges
      case Move(p, d) =>
        AdvanceStaysInside(g, pos, dir, 0);
        Walk(g, p, d, seen')
  }

  /** One round of the outer loop, as the walk takes it. */
  lemma WalkStep(g: seq<seq<Place>>, pos: GP.Point, dir: Direction, seen: set<State>)
    requires GP.Rectangular(g) && seen <= States(g) && GP.InBounds(g, pos) && IsHeading(dir)
    ensures (pos, dir) in States(g)
    ensures (pos, dir) in seen ==> Walk(g, pos, dir, seen) == Walked(seen, true)
    ensures (pos, dir) !in seen && Advance(g, pos, dir, 0) == Leave ==>
      Walk(g, pos, dir, seen) == Walked(seen + {(pos, dir)}, false)
    ensures (pos, dir) !in seen && Advance(g, pos, dir, 0) == Spin ==> Walk(g, pos, dir, seen) == Diverges
    ensures Advance(g, pos, dir, 0).Move? ==>
      GP.InBounds(g, Advance(g, pos, dir, 0).pos) && IsHeading(Advance(g, pos, dir, 0).dir)
    ensures (pos, dir) !in seen && Advance(g, pos, dir, 0).Move? ==>
      Walk(g, pos, dir, seen) == Walk(g, Advance(g, pos, dir, 0).pos, Advance(g, pos, dir, 0).dir, seen + {(pos, dir)})
  {
    IsState(g, pos, dir);
    AdvanceStaysInside(g, pos, dir, 0);
  }

  /** `Path`: the distinct visited positions (in no particular order) and the loop flag. */
  datatype Path = Path(data: set<GP.Point>, foundLoop: bool)

  /** What `walk_guard` returns, `None` when it never returns. */
  function Positions(seen: set<State>): set<GP.Point> {
    set s | s in seen :: s.0
  }

  ghost function PathOf(o: Outcome): Option<Path> {
    match o
    case Walked(seen, l) => Some(Path(Positions(seen), l))
    case Diverges => None
  }


  /**
   * The inner loop of `walk_guard`: turn while an obstacle is ahead, then
   * step or leave. It counts its turns, which changes nothing but shows
   * when it spins for ever.
   */
  method InnerLoop(g: seq<seq<Place>>, pos: GP.Point, dir: Direction) returns (step: Step)
    requires GP.Rectangular(g) && IsHeading(dir)
    ensures step == Advance(g, pos, dir, 0)
  {
    var direction := dir;
    var turns := 0;
    while true
      invariant 0 <= turns <= 4 && IsHeading(direction)
      invariant Advance(g, pos, direction, turns) == Advance(g, pos, dir, 0)
      decreases 4 - turns
    {
      AdvanceOnce(g, pos, direction, turns);
      if turns == 4 {
        // Back to the original direction: the loop repeats for ever.
        return Spin;
      }
      var nextOption := GP.Add(pos, direction);
      if nextOption.None? {
        return Leave;
      }
      var next := nextOption.value;
      if next.row >= GP.Rows(g) || next.col >= GP.Cols(g) {
        return Leave;
      }
      AdvanceOnce(g, pos, direction, turns);
      if GP.At(g, next) == Obstacle {
        RotateCycle(direction);
        direction := Rotate90(direction);
        turns := turns + 1;
      } else {
        return Move(next, direction);
      }
    }
  }

  /** One unfolding of `Advance`, case by case. */
  lemma AdvanceOnce(g: seq<seq<Place>>, pos: GP.Point, d: Direction, t: nat)
    requires GP.Rectangular(g) && t <= 4
    ensures t == 4 ==> Advance(g, pos, d, t) == Spin
    ensures t < 4 && GP.Add(pos, d).None? ==> Advance(g, pos, d, t) == Leave
    ensures t < 4 && GP.Add(pos, d).Some? ==>
      var next := GP.Add(pos, d).value;
      && (next.row >= GP.Rows(g) || next.col >= GP.Cols(g) ==> Advance(g, pos, d, t) == Leave)
      && (next.row < GP.Rows(g) && next.col < GP.Cols(g) && GP.At(g, next) == Obstacle ==>
            Advance(g, pos, d, t) == Advance(g, pos, Rotate90(d), t + 1))
      && (next.row < GP.Rows(g) && next.col < GP.Cols(g) && GP.At(g, next) != Obstacle ==>
            Advance(g, pos, d, t) == Move(next, d))
  {
  }

  /** `walk_guard`: from `start` facing up; `None` when it never returns. */
  method WalkGuard(start: GP.Point, g: seq<seq<Place>>) returns (path: Option<Path>)
    requires GP.Rectangular(g) && GP.InBounds(g, start)
    ensures path == PathOf(Walk(g, start, Up, {}))
  {
    var direction := Up;
    var current := start;
    var seen: set<State> := {};
    var foundLoop := false;
    while true
      invariant seen <= States(g) && GP.InBounds(g, current) && IsHeading(direction)
      invariant Walk(g, current, direction, seen) == Walk(g, start, Up, {})
      decreases |States(g) - seen|
    {
      WalkStep(g, current, direction, seen);
      if (current, direction) in seen {
        foundLoop := true;
        break;
      }
      seen := seen + {(current, direction)};
      var step := InnerLoop(g, current, direction);
      match step {
        case Leave => return Some(Path(Positions(seen), false));
        case Spin => return None;
        case Move(p, d) =>
          current, direction := p, d;
      }
    }
    return Some(Path(Positions(seen), foundLoop));
  }

  /** States all of whose inner-loop steps move to a state of `seen` or to `next`. */
  ghost predicate StepsInto(g: seq<seq<Place>>, seen: set<State>, next: State)
    requires GP.Rectangular(g)
  {
    forall s :: s in seen ==>
      && Advance(g, s.0, s.1, 0).Move?
      && ((Advance(g, s.0, s.1, 0).pos, Advance(g, s.0, s.1, 0).dir) in seen || (Advance(g, s.0, s.1, 0).pos, Advance(g, s.0, s.1, 0).dir) == next)
  }

  /** Recording a state that moves keeps every recorded state stepping into the records or the next state. */
  lemma StepsIntoExtend(g: seq<seq<Place>>, seen: set<State>, pos: GP.Point, dir: Direction)
    requires GP.Rectangular(g) && StepsInto(g, seen, (pos, dir)) && Advance(g, pos, dir, 0).Move?
    ensures StepsInto(g, seen + {(pos, dir)}, (Advance(g, pos, dir, 0).pos, Advance(g, pos, dir, 0).dir))
  {
  }

  /**
   * What the outcome means. With `found_loop`, the recorded states are
   * closed under the guard's step, so the guard walks among them for ever;
   * without it, the last recorded state steps off the grid. Either way the
   * current state is recorded and nothing recorded earlier is lost.
   */
  lemma {:induction false} WalkMeaning(g: seq<seq<Place>>, pos: GP.Point, dir: Direction, seen: set<State>)
    requires GP.Rectangular(g) && seen <= States(g) && GP.InBounds(g, pos) && IsHeading(dir)
    requires StepsInto(g, seen, (pos, dir))
    ensures Walk(g, pos, dir, seen).Walked? ==>
      var v := Walk(g, pos, dir, seen).seen;
      seen <= v && (pos, dir) in v && v <= States(g)
    ensures Walk(g, pos, dir, seen).Walked? && Walk(g, pos, dir, seen).foundLoop ==>
      var v := Walk(g, pos, dir, seen).seen;
      forall s :: s in v ==> Advance(g, s.0, s.1, 0).Move? && (Advance(g, s.0, s.1, 0).pos, Advance(g, s.0, s.1, 0).dir) in v
    ensures Walk(g, pos, dir, seen).Walked? && !Walk(g, pos, dir, seen).foundLoop ==>
      var v := Walk(g, pos, dir, seen).seen;
      exists s :: s in v && Advance(g, s.0, s.1, 0) == Leave
    decreases |States(g) - seen|
  {
    WalkStep(g, pos, dir, seen);
    if (pos, dir) !in seen {
      var seen' := seen + {(pos, dir)};
      var st := Advance(g, pos, dir, 0);
      if st.Move? {
        StepsIntoExtend(g, seen, pos, dir);
        assert |States(g) - seen'| < |States(g) - seen| by {
          assert States(g) - seen' < States(g) - seen;
        }
        WalkMeaning(g, st.pos, st.dir, seen');
      } else if st == Leave {
        assert (pos, dir) in seen';
      }
    }
  }

  /**
   * A walk that returns starts from `start`: its positions include the
   * start and are cells of the grid, and a walk without a loop ends in a
   * state whose next step leaves the grid.
   */
  lemma WalkGuardSpec(g: seq<seq<Place>>, start: GP.Point)
    requires GP.Rectangular(g) && GP.InBounds(g, start)
    ensures PathOf(Walk(g, start, Up, {})).Some? ==>
      var path := PathOf(Walk(g, start, Up, {})).value;
      start in path.data && forall p :: p in path.data ==> GP.InBounds(g, p)
    ensures Walk(g, start, Up, {}).Walked? && !Walk(g, start, Up, {}).foundLoop ==>
      exists s :: s in Walk(g, start, Up, {}).seen && Advance(g, s.0, s.1, 0) == Leave
    ensures Walk(g, start, Up, {}).Walked? && Walk(g, start, Up, {}).foundLoop ==>
      var v := Walk(g, start, Up, {}).seen;
      forall s :: s in v ==> Advance(g, s.0, s.1, 0).Move? && (Advance(g, s.0, s.1, 0).pos, Advance(g, s.0, s.1, 0).dir) in v
  {
    WalkMeaning(g, start, Up, {});
    var o := Walk(g, start, Up, {});
    if o.Walked? {
      assert (start, Up) in o.seen;
      forall p | p in Positions(o.seen) ensures GP.InBounds(g, p) {
        var s :| s in o.seen && s.0 == p;
        assert s in States(g);
      }
    }
  }

  /** `place_obstacle`: a copy of the grid with an obstacle at `pos` and nothing else changed. */
  function PlaceObstacle(g: seq<seq<Place>>, pos: GP.Point): (r: seq<seq<Place>>)
    requires GP.Rectangular(g) && GP.InBounds(g, pos)
    ensures GP.Rectangular(r) && GP.Rows(r) == GP.Rows(g) && GP.Cols(r) == GP.Cols(g)
    ensures GP.At(r, pos) == Obstacle
    ensures forall q :: GP.InBounds(g, q) && q != pos ==> GP.At(r, q) == GP.At(g, q)
  {
    g[pos.row := g[pos.row][pos.col := Obstacle]]
  }

  /** The first `Start` cell in row-major order at or after (`row`, `col`). */
  function FindStart(g: seq<seq<Place>>, row: nat, col: nat): (r: Option<GP.Point>)
    requires GP.Rectangular(g) && row <= GP.Rows(g) && col <= GP.Cols(g)
    ensures r.Some? ==> GP.InBounds(g, r.value) && GP.At(g, r.value) == Start
    ensures r.Some? ==> r.value.row > row || (r.value.row == row && r.value.col >= col)
    ensures r.Some? ==> forall q ::
      (GP.InBounds(g, q) && (q.row > row || (q.row == row && q.col >= col))
       && (q.row < r.value.row || (q.row == r.value.row && q.col < r.value.col))) ==> GP.At(g, q) != Start
    ensures r.None? ==> forall q :: GP.InBounds(g, q) && (q.row > row || (q.row == row && q.col >= col)) ==> GP.At(g, q) != Start
    decreases GP.Rows(g) - row, GP.Cols(g) - col
  {
    if row == GP.Rows(g) then None
    else if col == GP.Cols(g) then FindStart(g, row + 1, 0)
    else if g[row][col] == Start then Some(GP.Point(row, col))
    else FindStart(g, row, col + 1)
  }

  /**
   * `parse_map`: rows of equal width (the width of the first line), the
   * first `^` in reading order is the start and becomes `Empty`; it panics
   * when there is no start.
   */
  function ParseMap(lines: seq<string>): (r: Option<(GP.Point, seq<seq<Place>>)>)
    requires |lines| > 0 && forall i :: 0 <= i < |lines| ==> |lines[i]| == |lines[0]|
    ensures r.None? <==> forall i, j :: 0 <= i < |lines| && 0 <= j < |lines[i]| ==> lines[i][j] != '^'
    ensures r.Some? ==>
      var (start, g) := r.value;
      GP.Rectangular(g) && GP.Rows(g) == |lines| && GP.Cols(g) == |lines[0]| && GP.InBounds(g, start)
      && lines[start.row][start.col] == '^' && GP.At(g, start) == Empty
      && (forall q :: GP.InBounds(g, q) && q != start ==> GP.At(g, q) == PlaceFromChar(lines[q.row][q.col]))
      && (forall q :: GP.InBounds(g, q) && (q.row < start.row || (q.row == start.row && q.col < start.col)) ==> lines[q.row][q.col] != '^')
  {
    var g := CharGrid(lines);
    match FindStart(g, 0, 0)
    case None =>
      NoStart(lines, g);
      None
    case Some(start) =>
      var g' := PlaceObstacleFree(g, start);
      FoundStart(lines, g, start, g');
      Some((start, g'))
  }

  /** The places of the lines, one per character. */
  function CharGrid(lines: seq<string>): (g: seq<seq<Place>>)
    requires |lines| > 0 && forall i :: 0 <= i < |lines| ==> |lines[i]| == |lines[0]|
    ensures GP.Rectangular(g) && GP.Rows(g) == |lines| && GP.Cols(g) == |lines[0]|
    ensures forall q :: GP.InBounds(g, q) ==> GP.At(g, q) == PlaceFromChar(lines[q.row][q.col])
  {
    seq(|lines|, i requires 0 <= i < |lines| => seq(|lines[i]|, j requires 0 <= j < |lines[i]| => PlaceFromChar(lines[i][j])))
  }

  /** The grid with the cell `pos` made `Empty`. */
  function PlaceObstacleFree(g: seq<seq<Place>>, pos: GP.Point): (r: seq<seq<Place>>)
    requires GP.Rectangular(g) && GP.InBounds(g, pos)
    ensures GP.Rectangular(r) && GP.Rows(r) == GP.Rows(g) && GP.Cols(r) == GP.Cols(g)
    ensures GP.At(r, pos) == Empty
    ensures forall q :: GP.InBounds(g, q) && q != pos ==> GP.At(r, q) == GP.At(g, q)
  {
    g[pos.row := g[pos.row][pos.col := Empty]]
  }

  /** Without a `Start` place, no line holds a `^`. */
  lemma NoStart(lines: seq<string>, g: seq<seq<Place>>)
    requires |lines| > 0 && forall i :: 0 <= i < |lines| ==> |lines[i]| == |lines[0]|
    requires g == CharGrid(lines) && FindStart(g, 0, 0).None?
    ensures forall i, j :: 0 <= i < |lines| && 0 <= j < |lines[i]| ==> lines[i][j] != '^'
  {
    forall i, j | 0 <= i < |lines| && 0 <= j < |lines[i]|
      ensures lines[i][j] != '^'
    {
      assert GP.InBounds(g, GP.Point(i, j));
    }
  }

  /** The start found is a `^`, the first in reading order, and clearing it leaves the other places alone. */
  lemma FoundStart(lines: seq<string>, g: seq<seq<Place>>, start: GP.Point, g': seq<seq<Place>>)
    requires |lines| > 0 && forall i :: 0 <= i < |lines| ==> |lines[i]| == |lines[0]|
    requires g == CharGrid(lines) && FindStart(g, 0, 0) == Some(start)
    requires GP.InBounds(g, start) && g' == PlaceObstacleFree(g, start)
    ensures GP.Rectangular(g') && GP.Rows(g') == |lines| && GP.Cols(g') == |lines[0]| && GP.InBounds(g', start)
    ensures lines[start.row][start.col] == '^' && GP.At(g', start) == Empty
    ensures forall q :: GP.InBounds(g', q) && q != start ==> GP.At(g', q) == PlaceFromChar(lines[q.row][q.col])
    ensures forall q :: GP.InBounds(g', q) && (q.row < start.row || (q.row == start.row && q.col < start.col)) ==>
      lines[q.row][q.col] != '^'
  {
  }
}
