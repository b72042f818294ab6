/**
 * day10/src/main.rs: hiking trails on a topographic map. A trail starts at a
 * cell of height 0 and climbs by exactly one per cardinal step until it has
 * ten cells (heights 0 to 9). `travel` extends a partial chain in every
 * possible way, `solve` starts one chain at each height-0 cell, part 1
 * counts distinct (trailhead, summit) pairs and part 2 counts trails.
 */
module Day10 {
  import GP = GridPoint

  type Grid = seq<seq<nat>>

  /** A chain is complete once it holds this many cells. */
  const TrailLength: nat := 10

  /**
   * One climbing step from `a` to `b`: both inside the grid, cardinally
   * adjacent, and `b` exactly one higher. The source tests
   * `grid[b] - grid[a] == 1` on `usize`; a wrapped difference is never 1,
   * so the test is the same as this one.
   */
  predicate Climb(g: Grid, a: GP.Point, b: GP.Point)
    requires GP.Rectangular(g)
  {
    GP.InBounds(g, a) && GP.InBounds(g, b) && GP.Manhattan(a, b) == 1
    && GP.At(g, b) == GP.At(g, a) + 1
  }

  /** `get_cardinal_neighbours(grid, p).filter(|q| grid[q] - grid[p] == 1)`. */
  function Climbers(g: Grid, p: GP.Point, ns: seq<GP.Point>): (r: seq<GP.Point>)
    requires GP.Rectangular(g) && GP.InBounds(g, p)
    requires forall q :: q in ns ==> GP.InBounds(g, q)
    ensures |r| <= |ns| && forall q :: q in r ==> q in ns
  {
    if ns == [] then []
    else
      var rest := Climbers(g, p, ns[1..]);
      if GP.At(g, ns[0]) == GP.At(g, p) + 1 then [ns[0]] + rest else rest
  }

  /** `.filter(|x| x.len() == 10)` on the chains returned by a recursive call. */
  function Complete(ts: seq<seq<GP.Point>>): seq<seq<GP.Point>> {
    if ts == [] then []
    else if |ts[0]| == TrailLength then [ts[0]] + Complete(ts[1..])
    else Complete(ts[1..])
  }

  /** `travel(chain, grid)`. */
  function Travel(g: Grid, chain: seq<GP.Point>): seq<seq<GP.Point>>
    requires GP.Rectangular(g) && 1 <= |chain| <= TrailLength
    requires GP.InBounds(g, chain[|chain| - 1])
    decreases TrailLength - |chain|, 1, 0
  {
    if |chain| == TrailLength then [chain]
    else
      var last := chain[|chain| - 1];
      var ns := GP.CardinalNeighbours(g, last);
      var n := Climbers(g, last, ns);
      if n == [] then [] else TravelEach(g, chain, n)
  }

  /** The `flat_map` over the climbing neighbours `ns` of the chain's last cell. */
  function TravelEach(g: Grid, chain: seq<GP.Point>, ns: seq<GP.Point>): seq<seq<GP.Point>>
    requires GP.Rectangular(g) && 1 <= |chain| < TrailLength
    requires forall q :: q in ns ==> GP.InBounds(g, q)
    decreases TrailLength - |chain|, 0, |ns|
  {
    if ns == [] then []
    else Complete(Travel(g, chain + [ns[0]])) + TravelEach(g, chain, ns[1..])
  }

  // ------------------------------------------------------------- specification

  /** `t` is a ten-cell chain that continues `chain` by climbing steps only. */
  ghost predicate Completes(g: Grid, chain: seq<GP.Point>, t: seq<GP.Point>)
    requires GP.Rectangular(g) && 1 <= |chain|
  {
    |t| == TrailLength && |chain| <= |t| && t[..|chain|] == chain
    && forall i :: |chain| - 1 <= i < |t| - 1 ==> Climb(g, t[i], t[i + 1])
  }

  /** A hiking trail: ten cells, starting at height 0, each step a climb. */
  ghost predicate IsTrail(g: Grid, t: seq<GP.Point>)
    requires GP.Rectangular(g)
  {
    |t| == TrailLength && GP.InBounds(g, t[0]) && GP.At(g, t[0]) == 0
    && forall i :: 0 <= i < |t| - 1 ==> Climb(g, t[i], t[i + 1])
  }

  predicate Distinct<T(==)>(s: seq<T>) {
    forall i, j :: 0 <= i < j < |s| ==> s[i] != s[j]
  }

  lemma DistinctConcat<T>(a: seq<T>, b: seq<T>)
    requires Distinct(a) && Distinct(b)
    requires forall x :: x in a ==> x !in b
    ensures Distinct(a + b)
  {
    forall i, j | 0 <= i < j < |a + b| ensures (a + b)[i] != (a + b)[j] {
      if j >= |a| && i < |a| {
        assert (a + b)[i] in a && (a + b)[j] in b;
      }
    }
  }

  /** The filtered neighbours are exactly the climbing ones, without repeats. */
  lemma {:induction false} ClimbersSpec(g: Grid, p: GP.Point, ns: seq<GP.Point>)
    requires GP.Rectangular(g) && GP.InBounds(g, p)
    requires forall q :: q in ns ==> GP.InBounds(g, q)
    ensures forall q :: q in Climbers(g, p, ns) <==> q in ns && GP.At(g, q) == GP.At(g, p) + 1
    ensures Distinct(ns) ==> Distinct(Climbers(g, p, ns))
  {
    if ns != [] {
      ClimbersSpec(g, p, ns[1..]);
      if Distinct(ns) {
        assert Distinct(ns[1..]);
        assert ns[0] !in ns[1..];
      }
    }
  }

  /** The climbing neighbours of the chain's last cell are exactly its climb successors. */
  lemma ClimbingNeighbours(g: Grid, p: GP.Point)
    requires GP.Rectangular(g) && GP.InBounds(g, p)
    ensures var n := Climbers(g, p, GP.CardinalNeighbours(g, p));
      Distinct(n) && forall q :: q in n <==> Climb(g, p, q)
  {
    var ns := GP.CardinalNeighbours(g, p);
    GP.CardinalNeighboursSpec(g, p);
    ClimbersSpec(g, p, ns);
  }

  /** Keeping only the ten-cell chains keeps exactly those, and no repeats. */
  lemma {:induction false} CompleteSpec(ts: seq<seq<GP.Point>>)
    ensures forall t :: t in Complete(ts) <==> t in ts && |t| == TrailLength
    ensures Distinct(ts) ==> Distinct(Complete(ts))
  {
    if ts != [] {
      CompleteSpec(ts[1..]);
      if Distinct(ts) {
        assert Distinct(ts[1..]);
        assert ts[0] !in ts[1..];
      }
    }
  }

  /** A completion of `chain` is a completion of `chain` extended by its next cell. */
  lemma CompletesStep(g: Grid, chain: seq<GP.Point>, t: seq<GP.Point>)
    requires GP.Rectangular(g) && 1 <= |chain| < TrailLength
    ensures Completes(g, chain, t) <==>
      |t| == TrailLength && Climb(g, chain[|chain| - 1], t[|chain|])
      && Completes(g, chain + [t[|chain|]], t)
  {
    if Completes(g, chain, t) {
      assert t[..|chain| + 1] == chain + [t[|chain|]];
    }
    if |t| == TrailLength && Climb(g, chain[|chain| - 1], t[|chain|])
      && Completes(g, chain + [t[|chain|]], t) {
      assert t[..|chain|] == (chain + [t[|chain|]])[..|chain|] == chain;
      assert t[|chain| - 1] == chain[|chain| - 1];
    }
  }

  /**
   * `travel` returns exactly the ten-cell climbing completions of `chain`,
   * each once.
   */
  lemma {:induction false} TravelSpec(g: Grid, chain: seq<GP.Point>)
    requires GP.Rectangular(g) && 1 <= |chain| <= TrailLength
    requires GP.InBounds(g, chain[|chain| - 1])
    ensures forall t :: t in Travel(g, chain) <==> Completes(g, chain, t)
    ensures Distinct(Travel(g, chain))
    decreases TrailLength - |chain|, 1, 0
  {
    if |chain| == TrailLength {
      forall t ensures t in Travel(g, chain) <==> Completes(g, chain, t) {
        if Completes(g, chain, t) {
          assert t == t[..|chain|];
        }
      }
    } else {
      var last := chain[|chain| - 1];
      var n := Climbers(g, last, GP.CardinalNeighbours(g, last));
      ClimbingNeighbours(g, last);
      TravelEachSpec(g, chain, n);
      forall t ensures t in Travel(g, chain) <==> Completes(g, chain, t) {
        CompletesStep(g, chain, t);
      }
    }
  }

  /** The `flat_map` over `ns` yields, each once, the completions through some cell of `ns`. */
  lemma {:induction false} TravelEachSpec(g: Grid, chain: seq<GP.Point>, ns: seq<GP.Point>)
    requires GP.Rectangular(g) && 1 <= |chain| < TrailLength
    requires forall q :: q in ns ==> GP.InBounds(g, q)
    requires Distinct(ns)
    ensures forall t :: t in TravelEach(g, chain, ns) <==>
      |t| == TrailLength && t[|chain|] in ns && Completes(g, chain + [t[|chain|]], t)
    ensures Distinct(TravelEach(g, chain, ns))
    decreases TrailLength - |chain|, 0, |ns|
  {
    if ns != [] {
      var c := chain + [ns[0]];
      TravelSpec(g, c);
      CompleteSpec(Travel(g, c));
      assert Distinct(ns[1..]);
      TravelEachSpec(g, chain, ns[1..]);
      var head := Complete(Travel(g, c));
      var rest := TravelEach(g, chain, ns[1..]);
      forall t | t in head ensures t !in rest && t[|chain|] == ns[0] {
        assert t[..|c|] == c;
        assert t[|chain|] == t[..|c|][|chain|];
        assert ns[0] !in ns[1..];
      }
      DistinctConcat(head, rest);
      forall t ensures t in head + rest <==>
        |t| == TrailLength && t[|chain|] in ns && Completes(g, chain + [t[|chain|]], t)
      {
        if |t| == TrailLength && t[|chain|] in ns && Completes(g, chain + [t[|chain|]], t) {
          if t[|chain|] == ns[0] {
            assert t in head;
          } else {
            assert t[|chain|] in ns[1..];
          }
        }
      }
    }
  }

  // ------------------------------------------------------------- solve, parts

  /** The height-0 cells of row `r` from column `c` on, left to right. */
  function ZerosInRow(g: Grid, r: nat, c: nat): seq<GP.Point>
    requires GP.Rectangular(g) && r < GP.Rows(g) && c <= GP.Cols(g)
    decreases GP.Cols(g) - c
  {
    if c == GP.Cols(g) then []
    else (if g[r][c] == 0 then [GP.Point(r, c)] else []) + ZerosInRow(g, r, c + 1)
  }

  /** `indexed_iter().filter(|(_, x)| **x == 0)` from row `r` on, in row-major order. */
  function Zeros(g: Grid, r: nat): seq<GP.Point>
    requires GP.Rectangular(g) && r <= GP.Rows(g)
    decreases GP.Rows(g) - r
  {
    if r == GP.Rows(g) then [] else ZerosInRow(g, r, 0) + Zeros(g, r + 1)
  }

  lemma {:induction false} ZerosInRowSpec(g: Grid, r: nat, c: nat)
    requires GP.Rectangular(g) && r < GP.Rows(g) && c <= GP.Cols(g)
    ensures forall p :: p in ZerosInRow(g, r, c) <==>
      p.row == r && c <= p.col < GP.Cols(g) && g[r][p.col] == 0
    ensures Distinct(ZerosInRow(g, r, c))
    decreases GP.Cols(g) - c
  {
    if c < GP.Cols(g) {
      ZerosInRowSpec(g, r, c + 1);
    }
  }

  /** The starting cells are exactly the height-0 cells at or below row `r`, each once. */
  lemma {:induction false} ZerosSpec(g: Grid, r: nat)
    requires GP.Rectangular(g) && r <= GP.Rows(g)
    ensures forall p :: p in Zeros(g, r) <==> r <= p.row && GP.InBounds(g, p) && GP.At(g, p) == 0
    ensures Distinct(Zeros(g, r))
    decreases GP.Rows(g) - r
  {
    if r < GP.Rows(g) {
      ZerosInRowSpec(g, r, 0);
      ZerosSpec(g, r + 1);
      DistinctConcat(ZerosInRow(g, r, 0), Zeros(g, r + 1));
    }
  }

  /** `starting_pos.into_iter().flat_map(|p| travel(vec![p], grid))`. */
  function TravelFrom(g: Grid, starts: seq<GP.Point>): seq<seq<GP.Point>>
    requires GP.Rectangular(g) && forall p :: p in starts ==> GP.InBounds(g, p)
  {
    if starts == [] then [] else Travel(g, [starts[0]]) + TravelFrom(g, starts[1..])
  }

  /** `solve(grid)`: every chain started at a height-0 cell. */
  function Solve(g: Grid): seq<seq<GP.Point>>
    requires GP.Rectangular(g)
  {
    ZerosSpec(g, 0);
    TravelFrom(g, Zeros(g, 0))
  }

  /** A trail is a completion of its own first cell, when that cell has height 0. */
  lemma TrailIsCompletion(g: Grid, t: seq<GP.Point>)
    requires GP.Rectangular(g)
    ensures IsTrail(g, t) <==>
      |t| > 0 && GP.InBounds(g, t[0]) && GP.At(g, t[0]) == 0 && Completes(g, [t[0]], t)
  {
    if |t| > 0 {
      assert t[..1] == [t[0]] ==> t[..|[t[0]]|] == [t[0]];
    }
  }

  lemma {:induction false} TravelFromSpec(g: Grid, starts: seq<GP.Point>)
    requires GP.Rectangular(g) && forall p :: p in starts ==> GP.InBounds(g, p)
    requires Distinct(starts)
    ensures forall t :: t in TravelFrom(g, starts) <==>
      |t| > 0 && t[0] in starts && Completes(g, [t[0]], t)
    ensures Distinct(TravelFrom(g, starts))
  {
    if starts != [] {
      TravelSpec(g, [starts[0]]);
      assert Distinct(starts[1..]);
      TravelFromSpec(g, starts[1..]);
      var head := Travel(g, [starts[0]]);
      var rest := TravelFrom(g, starts[1..]);
      forall t | t in head ensures t !in rest && t[0] == starts[0] {
        assert t[..1] == [starts[0]];
        assert starts[0] !in starts[1..];
      }
      DistinctConcat(head, rest);
      forall t ensures t in head + rest <==> |t| > 0 && t[0] in starts && Completes(g, [t[0]], t) {
        if |t| > 0 && t[0] in starts && Completes(g, [t[0]], t) {
          if t[0] != starts[0] {
            assert t[0] in starts[1..];
          }
        }
      }
    }
  }

  /** `solve` yields every hiking trail of the map, each exactly once, and nothing else. */
  lemma SolveSpec(g: Grid)
    requires GP.Rectangular(g)
    ensures forall t :: t in Solve(g) <==> IsTrail(g, t)
    ensures Distinct(Solve(g))
  {
    ZerosSpec(g, 0);
    TravelFromSpec(g, Zeros(g, 0));
    forall t ensures t in Solve(g) <==> IsTrail(g, t) {
      TrailIsCompletion(g, t);
    }
  }

  /** Along a trail the `i`-th cell has height `i`, and consecutive cells are adjacent. */
  lemma {:induction false} TrailHeights(g: Grid, t: seq<GP.Point>, i: nat)
    requires GP.Rectangular(g) && IsTrail(g, t) && i < |t|
    ensures GP.InBounds(g, t[i]) && GP.At(g, t[i]) == i
    ensures i + 1 < |t| ==> GP.Manhattan(t[i], t[i + 1]) == 1
  {
    if i > 0 {
      TrailHeights(g, t, i - 1);
      assert Climb(g, t[i - 1], t[i]);
    }
    if i + 1 < |t| {
      assert Climb(g, t[i], t[i + 1]);
    }
  }

  /** The (first, last) pairs of the chains, `.map(|c| (c[0], c[c.len() - 1])).collect::<HashSet<_>>()`. */
  function Ends(ts: seq<seq<GP.Point>>): (r: set<(GP.Point, GP.Point)>)
    requires forall t :: t in ts ==> |t| > 0
    ensures |r| <= |ts|
    ensures forall e :: e in r <==> exists t :: t in ts && e == (t[0], t[|t| - 1])
  {
    if ts == [] then {}
    else
      var rest := Ends(ts[1..]);
      assert forall t :: t in ts <==> t == ts[0] || t in ts[1..];
      {(ts[0][0], ts[0][|ts[0]| - 1])} + rest
  }

  /** The set built in `part1`. */
  function TrailEnds(g: Grid): set<(GP.Point, GP.Point)>
    requires GP.Rectangular(g)
  {
    SolveSpec(g);
    Ends(Solve(g))
  }

  /** `part1`: the number of distinct (trailhead, summit) pairs joined by a trail; never more than part 2. */
  function Part1(g: Grid): (r: nat)
    requires GP.Rectangular(g)
    ensures r <= Part2(g)
  {
    |TrailEnds(g)|
  }

  /** `part2`: the number of trails, which is zero exactly when the map has no trail. */
  function Part2(g: Grid): (r: nat)
    requires GP.Rectangular(g)
    ensures r == 0 <==> forall t :: !IsTrail(g, t)
  {
    SolveSpec(g);
    assert Solve(g) != [] ==> IsTrail(g, Solve(g)[0]);
    |Solve(g)|
  }

  /**
   * Part 1 counts exactly the pairs (a, b) for which some trail leads from
   * `a` to `b`, and there are never more of them than trails.
   */
  lemma PartsRelated(g: Grid)
    requires GP.Rectangular(g)
    ensures Part1(g) <= Part2(g)
    ensures forall a, b :: (a, b) in TrailEnds(g) <==>
      exists t :: IsTrail(g, t) && t[0] == a && t[9] == b
  {
    SolveSpec(g);
  }
}
