/**
 * day12/src/main.rs: garden plots. A region is a maximal set of cells with
 * the same letter connected by cardinal steps. `find_region` scans the grid
 * in row-major order and flood-fills a new region from every cell not seen
 * yet; the price of a region is its area times its fence length (part 1) or
 * its area times its number of corners, which equals its number of sides
 * (part 2).
 */
module Day12 {
  import opened Wrappers
  import opened Sums
  import GP = GridPoint
  import P12 = Day12Point

  type Grid = seq<seq<char>>

  // ------------------------------------------------------------ connectivity

  /** Every cell of the grid. */
  ghost function Cells(g: Grid): set<GP.Point> {
    set r, c | 0 <= r < GP.Rows(g) && 0 <= c < GP.Cols(g) :: GP.Point(r, c)
  }

  lemma CellsSpec(g: Grid, p: GP.Point)
    ensures p in Cells(g) <==> GP.InBounds(g, p)
  {
    if GP.InBounds(g, p) {
      assert GP.Point(p.row, p.col) in Cells(g);
    }
  }

  /** One step of a flood fill: cardinally adjacent cells of the grid with the same letter. */
  predicate Link(g: Grid, a: GP.Point, b: GP.Point)
    requires GP.Rectangular(g)
  {
    GP.InBounds(g, a) && GP.InBounds(g, b) && GP.Manhattan(a, b) == 1 && GP.At(g, a) == GP.At(g, b)
  }

  /** A walk through same-letter cardinal steps. */
  ghost predicate IsWalk(g: Grid, w: seq<GP.Point>)
    requires GP.Rectangular(g)
  {
    |w| >= 1 && GP.InBounds(g, w[0]) && forall i :: 0 <= i < |w| - 1 ==> Link(g, w[i], w[i + 1])
  }

  /** `b` can be reached from `a` by same-letter cardinal steps. */
  ghost predicate Reaches(g: Grid, a: GP.Point, b: GP.Point)
    requires GP.Rectangular(g)
  {
    exists w :: IsWalk(g, w) && w[0] == a && w[|w| - 1] == b
  }

  /** The region of `a`: every cell reachable from it. */
  ghost function Component(g: Grid, a: GP.Point): set<GP.Point>
    requires GP.Rectangular(g)
  {
    set b | b in Cells(g) && Reaches(g, a, b)
  }

  lemma ReachSelf(g: Grid, a: GP.Point)
    requires GP.Rectangular(g) && GP.InBounds(g, a)
    ensures Reaches(g, a, a)
  {
    assert IsWalk(g, [a]);
  }

  lemma ReachExtend(g: Grid, a: GP.Point, b: GP.Point, c: GP.Point)
    requires GP.Rectangular(g) && Reaches(g, a, b) && Link(g, b, c)
    ensures Reaches(g, a, c)
  {
    var w :| IsWalk(g, w) && w[0] == a && w[|w| - 1] == b;
    var w' := w + [c];
    forall i | 0 <= i < |w'| - 1 ensures Link(g, w'[i], w'[i + 1]) {
      if i < |w| - 1 {
        assert w'[i] == w[i] && w'[i + 1] == w[i + 1];
      }
    }
    assert IsWalk(g, w');
  }

  lemma ReachPrepend(g: Grid, a: GP.Point, b: GP.Point, c: GP.Point)
    requires GP.Rectangular(g) && Link(g, a, b) && Reaches(g, b, c)
    ensures Reaches(g, a, c)
  {
    var w :| IsWalk(g, w) && w[0] == b && w[|w| - 1] == c;
    var w' := [a] + w;
    forall i | 0 <= i < |w'| - 1 ensures Link(g, w'[i], w'[i + 1]) {
      if i > 0 {
        assert w'[i] == w[i - 1] && w'[i + 1] == w[i];
      }
    }
    assert IsWalk(g, w');
  }

  /** Walking a walk backwards is a walk, since a step can be taken both ways. */
  lemma {:induction false} WalkBack(g: Grid, w: seq<GP.Point>)
    requires GP.Rectangular(g) && IsWalk(g, w)
    ensures Reaches(g, w[|w| - 1], w[0])
  {
    if |w| == 1 {
      ReachSelf(g, w[0]);
    } else {
      var w' := w[..|w| - 1];
      assert IsWalk(g, w');
      WalkBack(g, w');
      assert Link(g, w[|w| - 2], w[|w| - 1]);
      ReachPrepend(g, w[|w| - 1], w[|w| - 2], w[0]);
    }
  }

  lemma ReachSymmetric(g: Grid, a: GP.Point, b: GP.Point)
    requires GP.Rectangular(g) && Reaches(g, a, b)
    ensures Reaches(g, b, a)
  {
    var w :| IsWalk(g, w) && w[0] == a && w[|w| - 1] == b;
    WalkBack(g, w);
  }

  /** Following a walk onwards from a reachable start stays reachable. */
  lemma {:induction false} WalkOn(g: Grid, a: GP.Point, w: seq<GP.Point>)
    requires GP.Rectangular(g) && IsWalk(g, w) && Reaches(g, a, w[0])
    ensures Reaches(g, a, w[|w| - 1])
  {
    if |w| > 1 {
      var w' := w[..|w| - 1];
      assert IsWalk(g, w');
      WalkOn(g, a, w');
      assert Link(g, w[|w| - 2], w[|w| - 1]);
      ReachExtend(g, a, w[|w| - 2], w[|w| - 1]);
    }
  }

  lemma ReachTransitive(g: Grid, a: GP.Point, b: GP.Point, c: GP.Point)
    requires GP.Rectangular(g) && Reaches(g, a, b) && Reaches(g, b, c)
    ensures Reaches(g, a, c)
  {
    var w :| IsWalk(g, w) && w[0] == b && w[|w| - 1] == c;
    WalkOn(g, a, w);
  }

  /** Every cell of a walk is inside the grid and has the letter of its start. */
  lemma {:induction false} WalkLetter(g: Grid, w: seq<GP.Point>)
    requires GP.Rectangular(g) && IsWalk(g, w)
    ensures GP.InBounds(g, w[|w| - 1]) && GP.At(g, w[|w| - 1]) == GP.At(g, w[0])
  {
    if |w| > 1 {
      var w' := w[..|w| - 1];
      assert IsWalk(g, w');
      WalkLetter(g, w');
      assert Link(g, w[|w| - 2], w[|w| - 1]);
    }
  }

  lemma ReachLetter(g: Grid, a: GP.Point, b: GP.Point)
    requires GP.Rectangular(g) && Reaches(g, a, b)
    ensures GP.InBounds(g, a) && GP.InBounds(g, b) && GP.At(g, a) == GP.At(g, b)
  {
    var w :| IsWalk(g, w) && w[0] == a && w[|w| - 1] == b;
    WalkLetter(g, w);
  }

  /** A set closed under same-letter steps. */
  ghost predicate Closed(g: Grid, s: set<GP.Point>)
    requires GP.Rectangular(g)
  {
    forall c, q :: c in s && Link(g, c, q) ==> q in s
  }

  /** A closed set that holds the start of a walk holds its end. */
  lemma {:induction false} ClosedWalk(g: Grid, s: set<GP.Point>, w: seq<GP.Point>)
    requires GP.Rectangular(g) && Closed(g, s) && IsWalk(g, w) && w[0] in s
    ensures w[|w| - 1] in s
  {
    if |w| > 1 {
      var w' := w[..|w| - 1];
      assert IsWalk(g, w');
      ClosedWalk(g, s, w');
      assert Link(g, w[|w| - 2], w[|w| - 1]);
    }
  }

  /**
   * A closed set of cells holding `a` whose cells all reach `a` is exactly the
   * region of `a`.
   */
  lemma ClosedIsComponent(g: Grid, s: set<GP.Point>, a: GP.Point)
    requires GP.Rectangular(g) && a in s && s <= Cells(g) && Closed(g, s)
    requires forall c :: c in s ==> Reaches(g, a, c)
    ensures s == Component(g, a)
  {
    forall b | b in Component(g, a) ensures b in s {
      var w :| IsWalk(g, w) && w[0] == a && w[|w| - 1] == b;
      ClosedWalk(g, s, w);
    }
  }

  /** Two regions are equal or disjoint. */
  lemma ComponentsDisjoint(g: Grid, a: GP.Point, b: GP.Point)
    requires GP.Rectangular(g) && a !in Component(g, b) && GP.InBounds(g, a)
    ensures Component(g, a) !! Component(g, b)
  {
    forall c | c in Component(g, a) && c in Component(g, b) ensures false {
      ReachSymmetric(g, a, c);
      ReachTransitive(g, b, c, a);
      CellsSpec(g, a);
    }
  }

  /** All cells of a region have the letter of its seed. */
  lemma ComponentLetter(g: Grid, a: GP.Point, b: GP.Point)
    requires GP.Rectangular(g) && b in Component(g, a)
    ensures GP.InBounds(g, b) && GP.At(g, b) == GP.At(g, a)
  {
    ReachLetter(g, a, b);
  }

  /** Removing an element of `b - a` from the cells still to fill shrinks them. */
  lemma FewerLeft(u: set<GP.Point>, a: set<GP.Point>, b: set<GP.Point>, x: GP.Point)
    requires a <= b <= u && x in b && x !in a
    ensures |u - b| < |u - a|
  {
    assert u - a == (u - b) + (b - a);
    assert (u - b) !! (b - a);
    assert x in b - a;
  }

  // ------------------------------------------------------------ flood fill

  /** The `Arc<RwLock<HashSet<Point>>>` a flood fill writes into. */
  class SharedRegion {
    var data: set<GP.Point>

    constructor ()
      ensures data == {}
    {
      data := {};
    }
  }

  /**
   * `flood_fill_region`: insert `next`, then recurse into every same-letter
   * neighbour not in the region yet, checked lazily just before each call.
   * Every cell it adds reaches `next`, and every cell it adds has all its
   * same-letter neighbours in the region when it returns.
   */
  method FloodFill(region: SharedRegion, next: GP.Point, g: Grid)
    requires GP.Rectangular(g) && GP.InBounds(g, next)
    requires next !in region.data && region.data <= Cells(g)
    modifies region
    ensures old(region.data) + {next} <= region.data <= Cells(g)
    ensures forall c :: c in region.data - old(region.data) ==> Reaches(g, next, c)
    ensures forall c, q :: c in region.data - old(region.data) && Link(g, c, q) ==> q in region.data
    decreases |Cells(g) - region.data|
  {
    ghost var before := region.data;
    CellsSpec(g, next);
    region.data := region.data + {next};
    ReachSelf(g, next);
    var ns := P12.CardinalNeighbours(g, next);
    NeighbourList(g, next);
    for i := 0 to |ns|
      invariant before + {next} <= region.data <= Cells(g)
      invariant forall c :: c in region.data - before ==> Reaches(g, next, c)
      invariant forall c, q :: c in region.data - before - {next} && Link(g, c, q) ==> q in region.data
      invariant forall j :: 0 <= j < i && GP.At(g, ns[j]) == GP.At(g, next) ==> ns[j] in region.data
    {
      var p := ns[i];
      if GP.At(g, p) == GP.At(g, next) && p !in region.data {
        ghost var mid := region.data;
        FewerLeft(Cells(g), before, mid, next);
        FloodFill(region, p, g);
        forall c | c in region.data - mid ensures Reaches(g, next, c) {
          ReachPrepend(g, next, p, c);
        }
      }
    }
  }

  /** The neighbours `flood_fill_region` visits: each inside the grid, linked when it has the seed's letter, and every link among them. */
  lemma NeighbourList(g: Grid, a: GP.Point)
    requires GP.Rectangular(g) && GP.InBounds(g, a)
    ensures forall j :: 0 <= j < |P12.CardinalNeighbours(g, a)| ==>
      GP.InBounds(g, P12.CardinalNeighbours(g, a)[j])
      && (GP.At(g, P12.CardinalNeighbours(g, a)[j]) == GP.At(g, a) ==> Link(g, a, P12.CardinalNeighbours(g, a)[j]))
    ensures forall q :: Link(g, a, q) ==> q in P12.CardinalNeighbours(g, a)
  {
    P12.CardinalNeighboursAgree(g, a);
    GP.CardinalNeighboursSpec(g, a);
  }

  /** A flood fill started on an empty region collects exactly the region of its seed. */
  lemma FilledIsComponent(g: Grid, s: set<GP.Point>, a: GP.Point)
    requires GP.Rectangular(g) && {a} <= s <= Cells(g)
    requires forall c :: c in s ==> Reaches(g, a, c)
    requires forall c, q :: c in s && Link(g, c, q) ==> q in s
    ensures s == Component(g, a)
  {
    ClosedIsComponent(g, s, a);
  }

  // ------------------------------------------------------------ regions

  /** `Region`, a set of cells. */
  datatype Region = Region(data: set<GP.Point>)

  /** `Region::add`. */
  function Add(r: Region, p: GP.Point): Region {
    Region(r.data + {p})
  }

  /** `get_area`: the number of cells. */
  function Area(r: Region): nat {
    |r.data|
  }

  /** Adding a cell grows the area by one exactly when the cell is new. */
  lemma AddArea(r: Region, p: GP.Point)
    ensures Area(Add(r, p)) == if p in r.data then Area(r) else Area(r) + 1
    ensures p in Add(r, p).data
  {
    if p in r.data {
      assert r.data + {p} == r.data;
    }
  }

  /** The union of the regions found so far; `seen_points`. */
  ghost function Union(regions: seq<Region>): set<GP.Point> {
    if regions == [] then {} else Union(regions[..|regions| - 1]) + regions[|regions| - 1].data
  }

  lemma {:induction false} UnionSpec(regions: seq<Region>, p: GP.Point)
    ensures p in Union(regions) <==> exists i :: 0 <= i < |regions| && p in regions[i].data
  {
    if regions != [] {
      var init := regions[..|regions| - 1];
      UnionSpec(init, p);
      if p in Union(regions) && p !in regions[|regions| - 1].data {
        var i :| 0 <= i < |init| && p in init[i].data;
        assert regions[i] == init[i];
      }
      if exists i :: 0 <= i < |regions| && p in regions[i].data {
        var i :| 0 <= i < |regions| && p in regions[i].data;
        if i < |init| {
          assert init[i] == regions[i];
        }
      }
    }
  }

  /** `s` is the region of one of its cells. */
  ghost predicate IsRegion(g: Grid, s: set<GP.Point>)
    requires GP.Rectangular(g)
  {
    exists a :: a in s && s == Component(g, a)
  }

  ghost predicate PairwiseDisjoint(regions: seq<Region>) {
    forall i, j :: 0 <= i < j < |regions| ==> regions[i].data !! regions[j].data
  }

  /** The regions are pairwise disjoint, each is the region of one of its cells, and `seen` is their union. */
  ghost predicate Regions(g: Grid, regions: seq<Region>, seen: set<GP.Point>)
    requires GP.Rectangular(g)
  {
    && seen == Union(regions)
    && seen <= Cells(g)
    && (forall i :: 0 <= i < |regions| ==> IsRegion(g, regions[i].data))
    && PairwiseDisjoint(regions)
  }

  /** The region of a cell outside a region is disjoint from it. */
  lemma RegionApart(g: Grid, p: GP.Point, s: set<GP.Point>)
    requires GP.Rectangular(g) && IsRegion(g, s) && p !in s && GP.InBounds(g, p)
    ensures s !! Component(g, p)
  {
    var a :| a in s && s == Component(g, a);
    ComponentsDisjoint(g, p, a);
  }

  /** The region of a cell not seen yet is disjoint from every region found so far. */
  lemma AddRegion(g: Grid, regions: seq<Region>, seen: set<GP.Point>, p: GP.Point, s: set<GP.Point>)
    requires GP.Rectangular(g) && Regions(g, regions, seen) && p !in seen && GP.InBounds(g, p)
    requires s == Component(g, p) && p in s && s <= Cells(g)
    ensures Regions(g, regions + [Region(s)], seen + s)
  {
    var regions' := regions + [Region(s)];
    assert regions'[..|regions'| - 1] == regions;
    forall i | 0 <= i < |regions| ensures regions[i].data !! s {
      UnionSpec(regions, p);
      RegionApart(g, p, regions[i].data);
    }
    assert IsRegion(g, s);
    forall i | 0 <= i < |regions'| ensures IsRegion(g, regions'[i].data) {
      if i < |regions| {
        assert regions'[i] == regions[i];
      }
    }
    forall i, j | 0 <= i < j < |regions'| ensures regions'[i].data !! regions'[j].data {
      if j < |regions| {
        assert regions'[i] == regions[i] && regions'[j] == regions[j];
      } else {
        assert regions'[i] == regions[i];
      }
    }
  }

  /** One cell of the scan of `find_region`: flood-fill it unless it was seen already. */
  method Visit(g: Grid, regions: seq<Region>, seen: set<GP.Point>, point: GP.Point)
    returns (regions': seq<Region>, seen': set<GP.Point>)
    requires GP.Rectangular(g) && Regions(g, regions, seen) && GP.InBounds(g, point)
    ensures Regions(g, regions', seen') && seen <= seen' && point in seen'
  {
    regions', seen' := regions, seen;
    if point !in seen {
      var shared := new SharedRegion();
      FloodFill(shared, point, g);
      var points := shared.data;
      FilledIsComponent(g, points, point);
      AddRegion(g, regions, seen, point, points);
      seen' := seen + points;
      regions' := regions + [Region(points)];
    }
  }

  /**
   * `find_region`: scan the cells in row-major order and flood-fill a new
   * region from each one not seen yet. The result partitions the grid into
   * its regions: they are pairwise disjoint, each is the region of one of
   * its cells, and every cell lies in one of them.
   */
  method FindRegion(g: Grid) returns (regions: seq<Region>)
    requires GP.Rectangular(g)
    ensures forall i :: 0 <= i < |regions| ==> IsRegion(g, regions[i].data)
    ensures PairwiseDisjoint(regions)
    ensures forall p :: GP.InBounds(g, p) <==> exists i :: 0 <= i < |regions| && p in regions[i].data
  {
    var seen: set<GP.Point> := {};
    regions := [];
    for line := 0 to GP.Rows(g)
      invariant Regions(g, regions, seen)
      invariant SeenBefore(g, seen, line, 0)
    {
      for col := 0 to GP.Cols(g)
        invariant Regions(g, regions, seen)
        invariant SeenBefore(g, seen, line, col)
      {
        ghost var before := seen;
        regions, seen := Visit(g, regions, seen, GP.Point(line, col));
        SeenStep(g, before, seen, line, col);
      }
      SeenLine(g, seen, line);
    }
    SeenAll(g, seen);
    Covering(g, regions, seen);
  }

  /** Every cell before `(line, col)` in reading order has been seen. */
  ghost predicate SeenBefore(g: Grid, seen: set<GP.Point>, line: nat, col: nat) {
    forall p :: GP.InBounds(g, p) && (p.row < line || (p.row == line && p.col < col)) ==> p in seen
  }

  lemma SeenStep(g: Grid, seen: set<GP.Point>, seen': set<GP.Point>, line: nat, col: nat)
    requires SeenBefore(g, seen, line, col) && seen <= seen' && GP.Point(line, col) in seen'
    ensures SeenBefore(g, seen', line, col + 1)
  {
  }

  lemma SeenLine(g: Grid, seen: set<GP.Point>, line: nat)
    requires GP.Rectangular(g) && SeenBefore(g, seen, line, GP.Cols(g))
    ensures SeenBefore(g, seen, line + 1, 0)
  {
  }

  lemma SeenAll(g: Grid, seen: set<GP.Point>)
    requires GP.Rectangular(g) && SeenBefore(g, seen, GP.Rows(g), 0)
    ensures forall p :: GP.InBounds(g, p) && p.row < GP.Rows(g) ==> p in seen
  {
  }

  /** Once every cell is seen, the union of the regions is the whole grid. */
  lemma Covering(g: Grid, regions: seq<Region>, seen: set<GP.Point>)
    requires GP.Rectangular(g) && seen == Union(regions) && seen <= Cells(g)
    requires forall p :: GP.InBounds(g, p) && p.row < GP.Rows(g) ==> p in seen
    ensures forall p :: GP.InBounds(g, p) <==> exists i :: 0 <= i < |regions| && p in regions[i].data
  {
    forall p ensures GP.InBounds(g, p) <==> exists i :: 0 <= i < |regions| && p in regions[i].data {
      UnionSpec(regions, p);
      CellsSpec(g, p);
    }
  }

  // ------------------------------------------------------------ fences

  /** `.filter(|x| self.data.contains(x)).count()`. */
  function CountIn(ns: seq<GP.Point>, s: set<GP.Point>): (r: nat)
    ensures r <= |ns|
  {
    if ns == [] then 0 else (if ns[0] in s then 1 else 0) + CountIn(ns[1..], s)
  }

  lemma {:induction false} CountInConcat(a: seq<GP.Point>, b: seq<GP.Point>, s: set<GP.Point>)
    ensures CountIn(a + b, s) == CountIn(a, s) + CountIn(b, s)
  {
    if a != [] {
      assert (a + b)[1..] == a[1..] + b;
      CountInConcat(a[1..], b, s);
    } else {
      assert a + b == b;
    }
  }

  /** The fence pieces around one cell, `4 - count`. */
  function FenceAt(g: Grid, s: set<GP.Point>, p: GP.Point): nat {
    var ns := P12.CardinalNeighbours(g, p);
    P12.CardinalNeighboursAgree(g, p);
    GP.CardinalNeighboursSpec(g, p);
    4 - CountIn(ns, s)
  }

  /** The side of `p` towards `d` needs a fence: no member cell of `s` lies there. */
  predicate Exposed(g: Grid, s: set<GP.Point>, p: GP.Point, d: GP.Offset) {
    GP.Candidate(GP.Rows(g), GP.Cols(g), p, d) == [] || GP.Candidate(GP.Rows(g), GP.Cols(g), p, d)[0] !in s
  }

  /**
   * The fence around a cell has one piece for every side whose neighbour is
   * outside the grid or outside the region.
   */
  lemma FenceAtSides(g: Grid, s: set<GP.Point>, p: GP.Point)
    ensures FenceAt(g, s, p) ==
      (if Exposed(g, s, p, (-1, 0)) then 1 else 0) + (if Exposed(g, s, p, (1, 0)) then 1 else 0)
      + (if Exposed(g, s, p, (0, -1)) then 1 else 0) + (if Exposed(g, s, p, (0, 1)) then 1 else 0)
  {
    var rows, cols := GP.Rows(g), GP.Cols(g);
    var up, down := GP.Candidate(rows, cols, p, (-1, 0)), GP.Candidate(rows, cols, p, (1, 0));
    var left, right := GP.Candidate(rows, cols, p, (0, -1)), GP.Candidate(rows, cols, p, (0, 1));
    var ns := P12.CardinalNeighbours(g, p);
    P12.CardinalNeighboursAgree(g, p);
    assert ns == up + down + left + right;
    assert FenceAt(g, s, p) == 4 - CountIn(ns, s);
    CountInConcat(up + down + left, right, s);
    CountInConcat(up + down, left, s);
    CountInConcat(up, down, s);
    CountInCandidate(g, s, p, (-1, 0));
    CountInCandidate(g, s, p, (1, 0));
    CountInCandidate(g, s, p, (0, -1));
    CountInCandidate(g, s, p, (0, 1));
  }

  lemma CountInCandidate(g: Grid, s: set<GP.Point>, p: GP.Point, d: GP.Offset)
    ensures CountIn(GP.Candidate(GP.Rows(g), GP.Cols(g), p, d), s) == if Exposed(g, s, p, d) then 0 else 1
  {
  }

  /** The fence length of a set of cells, summed in no particular order. */
  function FenceOf(g: Grid, s: set<GP.Point>): GP.Point -> int {
    p => FenceAt(g, s, p)
  }

  /** `get_fence_length`: for every cell, four minus the member neighbours. */
  method FenceLength(r: Region, g: Grid) returns (result: nat)
    ensures result == SetSum(r.data, FenceOf(g, r.data))
  {
    result := 0;
    var todo := r.data;
    ghost var done: set<GP.Point> := {};
    while todo != {}
      invariant done !! todo && done + todo == r.data
      invariant result == SetSum(done, FenceOf(g, r.data))
      decreases |todo|
    {
      var point :| point in todo;
      var count := CountIn(P12.CardinalNeighbours(g, point), r.data);
      SetSumAdd(done, FenceOf(g, r.data), point);
      ShiftElement(done, todo, point);
      result := result + (4 - count);
      done := done + {point};
      todo := todo - {point};
    }
    Exhausted(done, todo, r.data);
  }

  /** The price of a region: its area times its fence length or number of sides. */
  function Price(area: nat, length: nat): nat {
    area * length
  }

  /** `get_value_part1`: area times fence length. */
  method ValuePart1(r: Region, g: Grid) returns (value: nat)
    ensures SetSum(r.data, FenceOf(g, r.data)) >= 0 && value == Price(Area(r), SetSum(r.data, FenceOf(g, r.data)))
  {
    var fence := FenceLength(r, g);
    value := Price(Area(r), fence);
  }

  // ------------------------------------------------------------ corners

  /** `(p + d).and_then(|p| checked_idx(p, g))`: the letter in direction `d`, if any. */
  function Look(g: Grid, p: GP.Point, d: GP.Offset): Option<char>
    requires GP.Rectangular(g)
  {
    match P12.Add(p, d)
    case None => None
    case Some(q) => GP.CheckedIdx(q, g)
  }

  /**
   * The corner tests of `get_value_part2` on the letters around a cell: a
   * convex corner where two perpendicular neighbours both differ from the
   * region's letter, a concave one where both carry it but the cell between
   * them does not.
   */
  function Corners(n: Option<char>, s: Option<char>, w: Option<char>, e: Option<char>,
                   ne: Option<char>, nw: Option<char>, se: Option<char>, sw: Option<char>,
                   own: Option<char>): nat
  {
    (if n != own && w != own then 1 else 0)
    + (if s != own && w != own then 1 else 0)
    + (if s != own && e != own then 1 else 0)
    + (if n != own && e != own then 1 else 0)
    + (if w == n && w == own && nw != own then 1 else 0)
    + (if w == s && w == own && sw != own then 1 else 0)
    + (if e == s && e == own && se != own then 1 else 0)
    + (if e == n && e == own && ne != own then 1 else 0)
  }

  /** The corners at one cell. */
  function CornersAt(g: Grid, p: GP.Point, own: Option<char>): nat
    requires GP.Rectangular(g)
  {
    Corners(Look(g, p, (-1, 0)), Look(g, p, (1, 0)), Look(g, p, (0, -1)), Look(g, p, (0, 1)),
            Look(g, p, (-1, 1)), Look(g, p, (-1, -1)), Look(g, p, (1, 1)), Look(g, p, (1, -1)), own)
  }

  /**
   * A cell none of whose four neighbours carries its letter is a 1x1 region
   * with exactly four corners; a cell surrounded by its letter on all eight
   * sides has none; a cell with its letter above and below only has none
   * either (it lies in the middle of a vertical bar).
   */
  lemma CornersExtremes(n: Option<char>, s: Option<char>, w: Option<char>, e: Option<char>,
                        ne: Option<char>, nw: Option<char>, se: Option<char>, sw: Option<char>,
                        own: Option<char>)
    ensures n != own && s != own && w != own && e != own ==> Corners(n, s, w, e, ne, nw, se, sw, own) == 4
    ensures n == s == w == e == ne == nw == se == sw == own ==> Corners(n, s, w, e, ne, nw, se, sw, own) == 0
    ensures n == own && s == own && w != own && e != own ==> Corners(n, s, w, e, ne, nw, se, sw, own) == 0
  {
  }

  /** A cell whose whole surroundings lie outside the grid is its own region with four corners. */
  lemma LoneCellCorners(g: Grid, p: GP.Point, own: Option<char>)
    requires GP.Rectangular(g) && own.Some?
    requires forall d :: d in [(-1, 0), (1, 0), (0, -1), (0, 1)] ==> Look(g, p, d) != own
    ensures CornersAt(g, p, own) == 4
  {
    var ds: seq<GP.Offset> := [(-1, 0), (1, 0), (0, -1), (0, 1)];
    assert ds[0] in ds && ds[1] in ds && ds[2] in ds && ds[3] in ds;
  }

  /** The corner total of a set of cells, summed in no particular order. */
  function CornersOf(g: Grid, own: Option<char>): GP.Point -> int
    requires GP.Rectangular(g)
  {
    p => CornersAt(g, p, own)
  }

  /** `get_letter`: the letter of some cell of a non-empty region. */
  method GetLetter(r: Region, g: Grid) returns (c: char)
    requires GP.Rectangular(g) && r.data != {} && forall p :: p in r.data ==> GP.InBounds(g, p)
    ensures exists p :: p in r.data && c == GP.At(g, p)
  {
    var point :| point in r.data;
    c := GP.At(g, point);
  }

  /** On a region, `get_letter` is the letter every cell of the region carries. */
  lemma LetterOfRegion(g: Grid, a: GP.Point, p: GP.Point, q: GP.Point)
    requires GP.Rectangular(g) && p in Component(g, a) && q in Component(g, a)
    ensures GP.At(g, p) == GP.At(g, q) == GP.At(g, a)
  {
    ComponentLetter(g, a, p);
    ComponentLetter(g, a, q);
  }

  /** The corner loop of `get_value_part2`, against the letter `own`. */
  method CornerTotal(r: Region, g: Grid, own: Option<char>) returns (corners: nat)
    requires GP.Rectangular(g)
    ensures corners == SetSum(r.data, CornersOf(g, own))
  {
    corners := 0;
    var todo := r.data;
    ghost var done: set<GP.Point> := {};
    while todo != {}
      invariant done !! todo && done + todo == r.data
      invariant corners == SetSum(done, CornersOf(g, own))
      decreases |todo|
    {
      var p :| p in todo;
      SetSumAdd(done, CornersOf(g, own), p);
      ShiftElement(done, todo, p);
      corners := corners + CornersAt(g, p, own);
      done := done + {p};
      todo := todo - {p};
    }
    Exhausted(done, todo, r.data);
  }

  /**
   * `get_value_part2`: the corners of every cell, against the region's own
   * letter, times the area.
   */
  method ValuePart2(r: Region, g: Grid) returns (value: nat)
    requires GP.Rectangular(g) && r.data != {} && forall p :: p in r.data ==> GP.InBounds(g, p)
    ensures exists p :: (p in r.data && SetSum(r.data, CornersOf(g, Some(GP.At(g, p)))) >= 0 &&
      value == Price(Area(r), SetSum(r.data, CornersOf(g, Some(GP.At(g, p))))))
  {
    var letter := GetLetter(r, g);
    ghost var p :| p in r.data && letter == GP.At(g, p);
    var corners := CornerTotal(r, g, Some(letter));
    value := Price(Area(r), corners);
    assert p in r.data && SetSum(r.data, CornersOf(g, Some(GP.At(g, p)))) >= 0 &&
      value == Price(Area(r), SetSum(r.data, CornersOf(g, Some(GP.At(g, p)))));
  }
}
