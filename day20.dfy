/**
 * Day 20, race condition (day20/src/main.rs): a race track is a single
 * corridor of open cells from `S` to `E`. `get_distances` walks the corridor
 * labelling every cell with its distance from the start; part two counts the
 * cheats, pairs of open cells between 2 and 20 steps apart (Manhattan) where
 * jumping from the later one back to the earlier saves at least 100 steps
 * beyond the jump's own length. Part one's candidates are the track with one
 * wall next to an open cell removed.
 */
module Day20 {
  import opened Wrappers
  import GP = GridPoint
  import opened ReadingOrder

  datatype Cell = Empty | Wall

  type Grid = seq<seq<Cell>>

  datatype RaceTrack = RaceTrack(grid: Grid, start: GP.Point, end: GP.Point)

  /** `MIN_DIFF`: the least saving a cheat must achieve. */
  const MinDiff: nat := 100

  predicate Open(g: Grid, q: GP.Point)
    requires GP.Rectangular(g)
  {
    GP.InBounds(g, q) && GP.At(g, q) != Wall
  }

  // ------------------------------------------------------------ neighbours and the search heuristic

  /** `.filter(|coord| grid[coord] != Cell::Wall).map(|coord| (coord, 1))`. */
  function Costed(g: Grid, ps: seq<GP.Point>): (r: seq<(GP.Point, nat)>)
    requires GP.Rectangular(g) && forall q :: q in ps ==> GP.InBounds(g, q)
    ensures forall e :: e in r <==> e.0 in ps && GP.At(g, e.0) != Wall && e.1 == 1
  {
    if ps == [] then []
    else (if GP.At(g, ps[0]) != Wall then [(ps[0], 1)] else []) + Costed(g, ps[1..])
  }

  /** `neighbours`: the open cardinal neighbours of `p`, each one step away. */
  function Neighbours(p: GP.Point, g: Grid): seq<(GP.Point, nat)>
    requires GP.Rectangular(g)
  {
    GP.CardinalNeighboursSpec(g, p);
    Costed(g, GP.CardinalNeighbours(g, p))
  }

  /** The neighbours are exactly the open cells at Manhattan distance 1, each at cost 1. */
  lemma NeighboursSpec(p: GP.Point, g: Grid)
    requires GP.Rectangular(g)
    ensures forall e :: e in Neighbours(p, g) <==> Open(g, e.0) && GP.Manhattan(p, e.0) == 1 && e.1 == 1
  {
    GP.CardinalNeighboursSpec(g, p);
  }

  /** The heuristic of `search_path`: the Manhattan distance to the end. */
  function Heuristic(p: GP.Point, end: GP.Point): nat {
    GP.Manhattan(p, end)
  }

  lemma ManhattanTriangle(a: GP.Point, b: GP.Point, c: GP.Point)
    ensures GP.Manhattan(a, c) <= GP.Manhattan(a, b) + GP.Manhattan(b, c)
  {
  }

  /** The heuristic never drops by more than the cost of a step, so it is consistent. */
  lemma HeuristicConsistent(g: Grid, p: GP.Point, end: GP.Point, e: (GP.Point, nat))
    requires GP.Rectangular(g) && e in Neighbours(p, g)
    ensures Heuristic(p, end) <= e.1 + Heuristic(e.0, end)
  {
    NeighboursSpec(p, g);
    ManhattanTriangle(p, e.0, end);
  }

  // ------------------------------------------------------------ parse

  /** Every `#` lies within the width of the first line; `grid[p] = Cell::Wall` panics otherwise. */
  predicate WallsInside(lines: seq<string>)
    requires |lines| >= 1
  {
    forall i, j :: 0 <= i < |lines| && 0 <= j < |lines[i]| && lines[i][j] == '#' ==> j < |lines[0]|
  }

  /** The grid holds walls exactly at the `#` of the lines scanned before `(i, j)`. */
  ghost predicate WallsBefore(g: Grid, lines: seq<string>, i: nat, j: nat) {
    forall r, c :: 0 <= r < |g| && 0 <= c < |g[r]| ==>
      (g[r][c] == Wall <==> (r < i || (r == i && c < j)) && Has(lines, GP.Point(r, c), '#'))
  }

  /** A `rows` × `cols` grid. */
  ghost predicate Shaped(g: Grid, rows: nat, cols: nat) {
    |g| == rows && forall r :: 0 <= r < rows ==> |g[r]| == cols
  }

  /** The inner loop of `parse`: line `i`. */
  method ParseLine(lines: seq<string>, i: nat, grid0: Grid, start0: GP.Point, end0: GP.Point)
    returns (grid: Grid, start: GP.Point, end: GP.Point)
    requires i < |lines| && WallsInside(lines)
    requires Shaped(grid0, |lines|, |lines[0]|) && WallsBefore(grid0, lines, i, 0)
    requires start0 == Recorded(Last(lines, 'S', i, 0)) && end0 == Recorded(Last(lines, 'E', i, 0))
    ensures Shaped(grid, |lines|, |lines[0]|) && WallsBefore(grid, lines, i + 1, 0)
    ensures start == Recorded(Last(lines, 'S', i + 1, 0)) && end == Recorded(Last(lines, 'E', i + 1, 0))
  {
    grid, start, end := grid0, start0, end0;
    var line := lines[i];
    for j := 0 to |line|
      invariant Shaped(grid, |lines|, |lines[0]|) && WallsBefore(grid, lines, i, j)
      invariant start == Recorded(Last(lines, 'S', i, j)) && end == Recorded(Last(lines, 'E', i, j))
    {
      var c := line[j];
      if c == '#' {
        grid := grid[i := grid[i][j := Wall]];
      } else if c == 'S' {
        start := GP.Point(i, j);
      } else if c == 'E' {
        end := GP.Point(i, j);
      }
    }
    forall r, c | 0 <= r < |grid| && 0 <= c < |grid[r]| && r == i && c >= |line|
      ensures !Has(lines, GP.Point(r, c), '#')
    {
    }
  }

  /**
   * `parse`, given the lines of the input: a grid as wide as the first line,
   * a wall exactly at every `#`, and the last `S` and `E` (or `(0, 0)`).
   */
  method Parse(lines: seq<string>) returns (track: RaceTrack)
    requires |lines| >= 1 && WallsInside(lines)
    ensures Shaped(track.grid, |lines|, |lines[0]|)
    ensures forall r, c :: 0 <= r < |lines| && 0 <= c < |lines[0]| ==>
      (track.grid[r][c] == Wall <==> Has(lines, GP.Point(r, c), '#'))
    ensures track.start == Recorded(Last(lines, 'S', |lines|, 0))
    ensures track.end == Recorded(Last(lines, 'E', |lines|, 0))
  {
    var start, end := GP.Point(0, 0), GP.Point(0, 0);
    var grid: Grid := seq(|lines|, _ => seq(|lines[0]|, _ => Empty));
    for i := 0 to |lines|
      invariant Shaped(grid, |lines|, |lines[0]|) && WallsBefore(grid, lines, i, 0)
      invariant start == Recorded(Last(lines, 'S', i, 0)) && end == Recorded(Last(lines, 'E', i, 0))
    {
      grid, start, end := ParseLine(lines, i, grid, start, end);
    }
    track := RaceTrack(grid, start, end);
  }

  // ------------------------------------------------------------ the corridor and its distances

  /**
   * The track is one corridor: `path` runs from the start to the end through
   * distinct open cells, one step at a time; every open cell is on it, and
   * the only open cells next to a path cell are its neighbours on the path.
   * `get_distances` loops forever on any other track. Distances fit in `i32`.
   */
  ghost predicate Corridor(track: RaceTrack, path: seq<GP.Point>) {
    var g := track.grid;
    && GP.Rectangular(g)
    && 1 <= |path| < 0x8000_0000
    && path[0] == track.start && path[|path| - 1] == track.end
    && (forall k :: 0 <= k < |path| ==> Open(g, path[k]))
    && (forall i, j :: 0 <= i < j < |path| ==> path[i] != path[j])
    && (forall k :: 0 <= k < |path| - 1 ==> GP.Manhattan(path[k], path[k + 1]) == 1)
    && (forall k, q {:trigger GP.Manhattan(path[k], q)} :: 0 <= k < |path| && Open(g, q) && GP.Manhattan(path[k], q) == 1
          ==> (k > 0 && q == path[k - 1]) || (k + 1 < |path| && q == path[k + 1]))
    && (forall q :: Open(g, q) ==> q in path)
  }

  /** An open cell next to `path[k]` is the cell before it or the cell after it on the path. */
  lemma CorridorSides(track: RaceTrack, path: seq<GP.Point>, k: nat, q: GP.Point)
    requires Corridor(track, path) && k < |path|
    requires Open(track.grid, q) && GP.Manhattan(path[k], q) == 1
    ensures (k > 0 && q == path[k - 1]) || (k + 1 < |path| && q == path[k + 1])
  {
  }

  /** Short of the end, the path goes on. */
  lemma NotYetEnd(track: RaceTrack, path: seq<GP.Point>, k: nat)
    requires Corridor(track, path) && k < |path| && path[k] != track.end
    ensures k + 1 < |path|
  {
  }

  /** Where `q` is on the path. */
  function IndexOf(path: seq<GP.Point>, q: GP.Point): (k: nat)
    requires q in path
    ensures k < |path| && path[k] == q
  {
    if path[0] == q then 0 else 1 + IndexOf(path[1..], q)
  }

  lemma IndexOfDistinct(path: seq<GP.Point>, k: nat)
    requires k < |path| && forall i, j :: 0 <= i < j < |path| ==> path[i] != path[j]
    ensures IndexOf(path, path[k]) == k
  {
  }

  /** The distance grid after the walk has labelled `path[..n]`. */
  ghost predicate Labelled(dists: array2<Option<int>>, path: seq<GP.Point>, n: nat)
    requires n <= |path|
    reads dists
  {
    && (forall j :: 0 <= j < n ==>
          path[j].row < dists.Length0 && path[j].col < dists.Length1 && dists[path[j].row, path[j].col] == Some(j))
    && (forall r, c :: 0 <= r < dists.Length0 && 0 <= c < dists.Length1 && GP.Point(r, c) !in path[..n]
          ==> dists[r, c] == None)
  }

  /**
   * `get_distances`: every cell of the corridor gets its distance from the
   * start along the corridor, every other cell stays `None`.
   */
  method GetDistances(track: RaceTrack, ghost path: seq<GP.Point>) returns (dists: array2<Option<int>>)
    requires Corridor(track, path)
    ensures fresh(dists)
    ensures dists.Length0 == GP.Rows(track.grid) && dists.Length1 == GP.Cols(track.grid)
    ensures Labelled(dists, path, |path|)
  {
    var g := track.grid;
    dists := new Option<int>[GP.Rows(g), GP.Cols(g)]((_, _) => None);
    var current := track.start;
    dists[current.row, current.col] := Some(0);
    ghost var k := 0;
    assert path[..1] == [path[0]];
    while current != track.end
      invariant 0 <= k < |path| && current == path[k]
      invariant dists.Length0 == GP.Rows(g) && dists.Length1 == GP.Cols(g)
      invariant Labelled(dists, path, k + 1)
      decreases |path| - k
    {
      NotYetEnd(track, path, k);
      current := Advance(track, path, dists, current, k);
      k := k + 1;
    }
    assert path[..|path|] == path;
  }

  /** One pass of the outer loop of `get_distances`: from `path[k]`, label and move to `path[k + 1]`. */
  method Advance(track: RaceTrack, ghost path: seq<GP.Point>, dists: array2<Option<int>>, from: GP.Point, ghost k: nat)
    returns (current: GP.Point)
    requires Corridor(track, path) && k + 1 < |path| && from == path[k]
    requires dists.Length0 == GP.Rows(track.grid) && dists.Length1 == GP.Cols(track.grid)
    requires Labelled(dists, path, k + 1)
    modifies dists
    ensures current == path[k + 1] && Labelled(dists, path, k + 2)
  {
    var g := track.grid;
    var ns := Neighbours(from, g);
    NeighboursSpec(from, g);
    ghost var next := path[k + 1];
    assert (next, 1) in ns;
    forall m | 0 <= m < |ns|
      ensures ns[m].0 == next || (k > 0 && ns[m].0 == path[k - 1])
    {
      assert ns[m] in ns;
      CorridorSides(track, path, k, ns[m].0);
    }
    current := TakeStep(dists, ns, from, path, k);
  }

  /**
   * The `for` loop of `get_distances` over the neighbours of `path[k]`: the
   * one still unlabelled is `path[k + 1]`, which gets the next distance and
   * becomes the current position; the cell behind is already labelled.
   */
  method TakeStep(dists: array2<Option<int>>, ns: seq<(GP.Point, nat)>, from: GP.Point, ghost path: seq<GP.Point>, ghost k: nat)
    returns (current: GP.Point)
    requires k + 1 < |path| && from == path[k] && (path[k + 1], 1) in ns
    requires forall m :: 0 <= m < |ns| ==> ns[m].0 == path[k + 1] || (k > 0 && ns[m].0 == path[k - 1])
    requires forall i, j :: 0 <= i < j < |path| ==> path[i] != path[j]
    requires path[k + 1].row < dists.Length0 && path[k + 1].col < dists.Length1
    requires Labelled(dists, path, k + 1)
    modifies dists
    ensures current == path[k + 1] && Labelled(dists, path, k + 2)
  {
    ghost var next := path[k + 1];
    assert next !in path[..k + 1];
    current := from;
    ghost var moved := false;
    for i := 0 to |ns|
      invariant Walking(dists, path, k, current, moved)
      invariant !moved ==> forall m :: 0 <= m < i ==> ns[m].0 != next
    {
      current, moved := Visit(dists, ns[i].0, current, path, k, moved);
    }
    assert moved;
    assert path[..k + 2] == path[..k + 1] + [next];
  }

  /**
   * The state of the neighbour loop from `path[k]`: `path[..k + 1]` labelled,
   * `path[k + 1]` labelled and current once it has been met, all else `None`.
   */
  ghost predicate Walking(dists: array2<Option<int>>, path: seq<GP.Point>, k: nat, current: GP.Point, moved: bool)
    requires k + 1 < |path|
    reads dists
  {
    && path[k + 1].row < dists.Length0 && path[k + 1].col < dists.Length1
    && (forall j :: 0 <= j <= k ==>
          path[j].row < dists.Length0 && path[j].col < dists.Length1 && dists[path[j].row, path[j].col] == Some(j))
    && (forall r, c ::
          (0 <= r < dists.Length0 && 0 <= c < dists.Length1 && GP.Point(r, c) !in path[..k + 1] && GP.Point(r, c) != path[k + 1])
          ==> dists[r, c] == None)
    && (moved ==> current == path[k + 1] && dists[path[k + 1].row, path[k + 1].col] == Some(k + 1))
    && (!moved ==> current == path[k] && dists[path[k + 1].row, path[k + 1].col] == None)
  }

  /** One pass of the neighbour loop: only `path[k + 1]` is still unlabelled, and it is labelled `k + 1`. */
  method Visit(dists: array2<Option<int>>, neighbour: GP.Point, current: GP.Point, ghost path: seq<GP.Point>, ghost k: nat, ghost moved: bool)
    returns (next: GP.Point, ghost nowMoved: bool)
    requires k + 1 < |path| && (neighbour == path[k + 1] || (k > 0 && neighbour == path[k - 1]))
    requires forall i, j :: 0 <= i < j < |path| ==> path[i] != path[j]
    requires Walking(dists, path, k, current, moved)
    modifies dists
    ensures Walking(dists, path, k, next, nowMoved)
    ensures nowMoved == (moved || neighbour == path[k + 1])
  {
    if neighbour != path[k + 1] {
      assert dists[path[k - 1].row, path[k - 1].col] == Some(k - 1);
    }
    next, nowMoved := current, moved;
    if dists[neighbour.row, neighbour.col].None? {
      dists[neighbour.row, neighbour.col] := Some(dists[current.row, current.col].value + 1);
      next, nowMoved := neighbour, true;
    }
  }

  // ------------------------------------------------------------ part two: the cheats

  function AbsDiff(a: int, b: int): nat {
    if a >= b then a - b else b - a
  }

  /** `checked_surroundings`: the points `p + (±dr, ±dc)` that have no negative component. */
  function CheckedSurroundings(p: GP.Point, dr: int, dc: int): set<GP.Point> {
    Present(GP.Add(p, (dr, dc))) + Present(GP.Add(p, (dr, -dc)))
    + Present(GP.Add(p, (-dr, dc))) + Present(GP.Add(p, (-dr, -dc)))
  }

  function Present(o: Option<GP.Point>): set<GP.Point> {
    if o.Some? then {o.value} else {}
  }

  /**
   * For non-negative deltas the surroundings are exactly the points `dr`
   * rows and `dc` columns away from `p`, so all at Manhattan distance `dr + dc`.
   */
  lemma SurroundingsSpec(p: GP.Point, dr: int, dc: int, q: GP.Point)
    requires dr >= 0 && dc >= 0
    ensures q in CheckedSurroundings(p, dr, dc) <==> AbsDiff(q.row, p.row) == dr && AbsDiff(q.col, p.col) == dc
    ensures q in CheckedSurroundings(p, dr, dc) ==> GP.Manhattan(p, q) == dr + dc
  {
    if AbsDiff(q.row, p.row) == dr && AbsDiff(q.col, p.col) == dc {
      SurroundingsHas(p, dr, dc, q);
    }
  }

  lemma SurroundingsHas(p: GP.Point, dr: int, dc: int, q: GP.Point)
    requires dr >= 0 && dc >= 0
    requires AbsDiff(q.row, p.row) == dr && AbsDiff(q.col, p.col) == dc
    ensures q in CheckedSurroundings(p, dr, dc)
  {
    var sr := if q.row >= p.row then dr else -dr;
    var sc := if q.col >= p.col then dc else -dc;
    assert GP.Add(p, (sr, sc)) == Some(q);
  }

  /** The cells of the grid. */
  ghost function Cells(g: Grid): set<GP.Point> {
    set r, c | 0 <= r < GP.Rows(g) && 0 <= c < GP.Cols(g) :: GP.Point(r, c)
  }

  lemma CellsSpec(g: Grid, q: GP.Point)
    ensures q in Cells(g) <==> GP.InBounds(g, q)
  {
    if GP.InBounds(g, q) {
      assert GP.Point(q.row, q.col) == q;
    }
  }

  /** The distance `get_distances` gives `q`: its place on the path. */
  function Label(path: seq<GP.Point>, q: GP.Point): int {
    if q in path then IndexOf(path, q) else -1
  }

  /** Jumping from `p` back to `q` is a cheat worth counting. */
  ghost predicate IsCheat(g: Grid, path: seq<GP.Point>, p: GP.Point, q: GP.Point)
    requires GP.Rectangular(g)
  {
    Open(g, q) && 2 <= GP.Manhattan(p, q) <= 20 && Label(path, p) - Label(path, q) >= MinDiff + GP.Manhattan(p, q)
  }

  /** The cheats from `p`. */
  ghost function CheatsFrom(g: Grid, path: seq<GP.Point>, p: GP.Point): set<GP.Point>
    requires GP.Rectangular(g)
  {
    set q | q in Cells(g) && IsCheat(g, path, p, q)
  }

  /** The cheats from `p` the loops have counted before radius `radius`, row delta `dr`. */
  ghost function Counted(g: Grid, path: seq<GP.Point>, p: GP.Point, radius: nat, dr: nat): set<GP.Point>
    requires GP.Rectangular(g)
  {
    set q | q in Cells(g) && IsCheat(g, path, p, q)
      && (GP.Manhattan(p, q) < radius || (GP.Manhattan(p, q) == radius && AbsDiff(q.row, p.row) < dr))
  }

  /** The options at one row delta that save enough. */
  ghost function Saving(path: seq<GP.Point>, p: GP.Point, radius: nat, options: set<GP.Point>): set<GP.Point> {
    set q | q in options && Label(path, p) - Label(path, q) >= MinDiff + radius
  }

  lemma CountedStart(g: Grid, path: seq<GP.Point>, p: GP.Point)
    requires GP.Rectangular(g)
    ensures Counted(g, path, p, 2, 0) == {}
  {
  }

  lemma CountedNextRadius(g: Grid, path: seq<GP.Point>, p: GP.Point, radius: nat)
    requires GP.Rectangular(g)
    ensures Counted(g, path, p, radius, radius + 1) == Counted(g, path, p, radius + 1, 0)
  {
  }

  lemma CountedEnd(g: Grid, path: seq<GP.Point>, p: GP.Point)
    requires GP.Rectangular(g)
    ensures Counted(g, path, p, 21, 0) == CheatsFrom(g, path, p)
  {
  }

  /** One row delta adds the saving options, none of which was counted before. */
  lemma CountedStep(g: Grid, path: seq<GP.Point>, p: GP.Point, radius: nat, dr: nat, options: set<GP.Point>)
    requires GP.Rectangular(g) && 2 <= radius <= 20 && dr <= radius
    requires forall x :: x in options <==> x in CheckedSurroundings(p, dr, radius - dr) && Open(g, x)
    ensures Counted(g, path, p, radius, dr + 1)
      == Counted(g, path, p, radius, dr) + Saving(path, p, radius, options)
    ensures Counted(g, path, p, radius, dr) !! Saving(path, p, radius, options)
    ensures |Counted(g, path, p, radius, dr + 1)|
      == |Counted(g, path, p, radius, dr)| + |Saving(path, p, radius, options)|
  {
    var before, after := Counted(g, path, p, radius, dr), Counted(g, path, p, radius, dr + 1);
    var saving := Saving(path, p, radius, options);
    forall x
      ensures x in after <==> x in before || x in saving
      ensures !(x in before && x in saving)
    {
      CountedAt(g, path, p, radius, dr, options, x);
    }
    assert after == before + saving;
    DisjointUnionCard(before, saving);
  }

  /** `CountedStep` for one point. */
  lemma CountedAt(g: Grid, path: seq<GP.Point>, p: GP.Point, radius: nat, dr: nat, options: set<GP.Point>, x: GP.Point)
    requires GP.Rectangular(g) && 2 <= radius <= 20 && dr <= radius
    requires forall x :: x in options <==> x in CheckedSurroundings(p, dr, radius - dr) && Open(g, x)
    ensures x in Counted(g, path, p, radius, dr + 1)
      <==> x in Counted(g, path, p, radius, dr) || x in Saving(path, p, radius, options)
    ensures !(x in Counted(g, path, p, radius, dr) && x in Saving(path, p, radius, options))
  {
    SurroundingsSpec(p, dr, radius - dr, x);
    CellsSpec(g, x);
  }

  lemma DisjointUnionCard<T>(a: set<T>, b: set<T>)
    requires a !! b
    ensures |a + b| == |a| + |b|
  {
    assert a * b == {};
  }

  /** Adding one option to those looked at adds it to the saving ones exactly when it saves enough. */
  lemma SavingAdd(path: seq<GP.Point>, p: GP.Point, radius: nat, done: set<GP.Point>, x: GP.Point)
    requires x !in done
    ensures |Saving(path, p, radius, done + {x})|
      == |Saving(path, p, radius, done)| + if Label(path, p) - Label(path, x) >= MinDiff + radius then 1 else 0
  {
    if Label(path, p) - Label(path, x) >= MinDiff + radius {
      assert Saving(path, p, radius, done + {x}) == Saving(path, p, radius, done) + {x};
    } else {
      assert Saving(path, p, radius, done + {x}) == Saving(path, p, radius, done);
    }
  }

  /** Every open cell carries its place on the path as its distance. */
  ghost predicate Distances(g: Grid, path: seq<GP.Point>, dists: array2<Option<int>>)
    requires GP.Rectangular(g)
    reads dists
  {
    forall q :: Open(g, q) ==>
      q.row < dists.Length0 && q.col < dists.Length1 && dists[q.row, q.col] == Some(Label(path, q))
  }

  /** On a corridor, the distances `get_distances` leaves are the places on the path. */
  lemma CorridorDistances(track: RaceTrack, path: seq<GP.Point>, dists: array2<Option<int>>)
    requires Corridor(track, path) && Labelled(dists, path, |path|)
    ensures Distances(track.grid, path, dists)
  {
    forall q | Open(track.grid, q)
      ensures q.row < dists.Length0 && q.col < dists.Length1 && dists[q.row, q.col] == Some(Label(path, q))
    {
      var k := IndexOf(path, q);
      assert dists[path[k].row, path[k].col] == Some(k);
    }
  }

  /** `for next in options`: how many of the options save at least `100 + radius`. */
  method CountSaving(track: RaceTrack, ghost path: seq<GP.Point>, dists: array2<Option<int>>, p: GP.Point,
                     radius: nat, options: set<GP.Point>)
    returns (n: nat)
    requires GP.Rectangular(track.grid) && Distances(track.grid, path, dists) && Open(track.grid, p)
    requires forall x :: x in options ==> Open(track.grid, x)
    ensures n == |Saving(path, p, radius, options)|
  {
    n := 0;
    var todo := options;
    while todo != {}
      invariant todo <= options
      invariant n == |Saving(path, p, radius, options - todo)|
      decreases |todo|
    {
      var next :| next in todo;
      SavingStep(path, p, radius, options, todo, next);
      if dists[p.row, p.col].value - dists[next.row, next.col].value >= MinDiff + radius {
        n := n + 1;
      }
      todo := todo - {next};
    }
    assert options - todo == options;
  }

  lemma SavingStep(path: seq<GP.Point>, p: GP.Point, radius: nat, options: set<GP.Point>, todo: set<GP.Point>, x: GP.Point)
    requires x in todo && todo <= options
    ensures |Saving(path, p, radius, options - (todo - {x}))|
      == |Saving(path, p, radius, options - todo)| + if Label(path, p) - Label(path, x) >= MinDiff + radius then 1 else 0
    ensures |todo - {x}| < |todo|
  {
    assert options - (todo - {x}) == (options - todo) + {x};
    SavingAdd(path, p, radius, options - todo, x);
  }

  /** The loops over `radius` and `delta_row` for one open cell `p`. */
  method CountFrom(track: RaceTrack, ghost path: seq<GP.Point>, dists: array2<Option<int>>, p: GP.Point)
    returns (n: nat)
    requires GP.Rectangular(track.grid) && Distances(track.grid, path, dists) && Open(track.grid, p)
    ensures n == |CheatsFrom(track.grid, path, p)|
  {
    var g := track.grid;
    n := 0;
    CountedStart(g, path, p);
    for radius := 2 to 21
      invariant n == |Counted(g, path, p, radius, 0)|
    {
      var m := CountRadius(track, path, dists, p, radius);
      n := n + m;
      CountedNextRadius(g, path, p, radius);
    }
    CountedEnd(g, path, p);
  }

  /** `options`: the surroundings inside the grid that are not walls. */
  function Options(g: Grid, p: GP.Point, dr: int, dc: int): (r: set<GP.Point>)
    requires GP.Rectangular(g)
    ensures forall x :: x in r <==> x in CheckedSurroundings(p, dr, dc) && Open(g, x)
  {
    set x | x in CheckedSurroundings(p, dr, dc) && x.row < GP.Rows(g) && x.col < GP.Cols(g) && GP.At(g, x) != Wall
  }

  /** The loop over `delta_row` for one radius. */
  method CountRadius(track: RaceTrack, ghost path: seq<GP.Point>, dists: array2<Option<int>>, p: GP.Point, radius: nat)
    returns (n: nat)
    requires GP.Rectangular(track.grid) && Distances(track.grid, path, dists) && Open(track.grid, p)
    requires 2 <= radius <= 20
    ensures |Counted(track.grid, path, p, radius, 0)| + n == |Counted(track.grid, path, p, radius, radius + 1)|
  {
    n := 0;
    for dr := 0 to radius + 1
      invariant |Counted(track.grid, path, p, radius, 0)| + n == |Counted(track.grid, path, p, radius, dr)|
    {
      var m := CountDelta(track, path, dists, p, radius, dr);
      n := n + m;
    }
  }

  /** One `delta_row`: the saving options among the surroundings. */
  method CountDelta(track: RaceTrack, ghost path: seq<GP.Point>, dists: array2<Option<int>>, p: GP.Point,
                    radius: nat, dr: nat)
    returns (m: nat)
    requires GP.Rectangular(track.grid) && Distances(track.grid, path, dists) && Open(track.grid, p)
    requires 2 <= radius <= 20 && dr <= radius
    ensures |Counted(track.grid, path, p, radius, dr + 1)| == |Counted(track.grid, path, p, radius, dr)| + m
  {
    var options := Options(track.grid, p, dr, radius - dr);
    m := CountSaving(track, path, dists, p, radius, options);
    CountedStep(track.grid, path, p, radius, dr, options);
  }

  /** The cheats from the cells of row `r` before column `c`. */
  ghost function RowCheats(g: Grid, path: seq<GP.Point>, r: nat, c: nat): nat
    requires GP.Rectangular(g)
  {
    if c == 0 then 0
    else
      var p := GP.Point(r, c - 1);
      RowCheats(g, path, r, c - 1) + if Open(g, p) then |CheatsFrom(g, path, p)| else 0
  }

  /** The cheats from the cells of the rows before `r`: pairs of cells, counted once per starting cell. */
  ghost function GridCheats(g: Grid, path: seq<GP.Point>, r: nat): nat
    requires GP.Rectangular(g)
  {
    if r == 0 then 0 else GridCheats(g, path, r - 1) + RowCheats(g, path, r - 1, GP.Cols(g))
  }

  /** `part2`: the number of cheats, summed over the open cells. */
  method Part2(track: RaceTrack, ghost path: seq<GP.Point>) returns (count: nat)
    requires Corridor(track, path)
    ensures count == GridCheats(track.grid, path, GP.Rows(track.grid))
  {
    var dist := GetDistances(track, path);
    CorridorDistances(track, path, dist);
    count := CountCheats(track, path, dist);
  }

  /** The loops of `part2` over the cells, given the distances. */
  method CountCheats(track: RaceTrack, ghost path: seq<GP.Point>, dist: array2<Option<int>>) returns (count: nat)
    requires GP.Rectangular(track.grid) && Distances(track.grid, path, dist)
    ensures count == GridCheats(track.grid, path, GP.Rows(track.grid))
  {
    var g := track.grid;
    count := 0;
    for r := 0 to GP.Rows(g)
      invariant count == GridCheats(g, path, r)
    {
      for c := 0 to GP.Cols(g)
        invariant count == GridCheats(g, path, r) + RowCheats(g, path, r, c)
      {
        var p := GP.Point(r, c);
        if GP.At(g, p) != Wall {
          var n := CountFrom(track, path, dist, p);
          count := count + n;
        }
      }
    }
  }

  // ------------------------------------------------------------ part one's candidates

  /** The grid with the cell `p` made `Empty`. */
  function Clear(g: Grid, p: GP.Point): Grid
    requires GP.Rectangular(g) && GP.InBounds(g, p)
  {
    g[p.row := g[p.row][p.col := Empty]]
  }

  /** A wall with an open cardinal neighbour. */
  predicate Removable(g: Grid, p: GP.Point)
    requires GP.Rectangular(g)
  {
    GP.InBounds(g, p) && GP.At(g, p) == Wall
    && exists q :: q in GP.CardinalNeighbours(g, p) && GP.InBounds(g, q) && GP.At(g, q) == Empty
  }

  /** The set of grids part one searches again: one per removable wall. */
  ghost function Candidates(g: Grid): set<Grid>
    requires GP.Rectangular(g)
  {
    set r, c | 0 <= r < GP.Rows(g) && 0 <= c < GP.Cols(g) && Removable(g, GP.Point(r, c))
      :: Clear(g, GP.Point(r, c))
  }

  /**
   * Every candidate is the track with exactly one removable wall made
   * `Empty`, and every removable wall gives a candidate.
   */
  lemma CandidatesSpec(g: Grid, h: Grid)
    requires GP.Rectangular(g)
    ensures h in Candidates(g) <==> exists p :: Removable(g, p) && h == Clear(g, p)
    ensures h in Candidates(g) ==>
      exists p :: Removable(g, p) && h == Clear(g, p) && Differs(g, h) == {p}
  {
    if h in Candidates(g) {
      var r, c :| 0 <= r < GP.Rows(g) && 0 <= c < GP.Cols(g) && Removable(g, GP.Point(r, c))
        && h == Clear(g, GP.Point(r, c));
      ClearedDiffers(g, GP.Point(r, c));
    }
  }

  /** The cells where two grids of the same shape disagree. */
  ghost function Differs(g: Grid, h: Grid): set<GP.Point>
    requires GP.Rectangular(g)
  {
    set r, c | 0 <= r < GP.Rows(g) && 0 <= c < GP.Cols(g) && (r >= |h| || c >= |h[r]| || g[r][c] != h[r][c])
      :: GP.Point(r, c)
  }

  lemma ClearedDiffers(g: Grid, p: GP.Point)
    requires GP.Rectangular(g) && GP.InBounds(g, p) && GP.At(g, p) == Wall
    ensures Differs(g, Clear(g, p)) == {p}
  {
    var h := Clear(g, p);
    assert p in Differs(g, h);
  }

  /** Distinct removable walls give distinct candidates, so there are as many candidates as such walls. */
  lemma CandidatesDistinct(g: Grid, p: GP.Point, q: GP.Point)
    requires GP.Rectangular(g) && Removable(g, p) && Removable(g, q) && p != q
    ensures Clear(g, p) != Clear(g, q)
  {
    assert Clear(g, q)[p.row][p.col] == Wall;
  }
}
