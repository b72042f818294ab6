/**
 * Day 8 (day08/src/main.rs): antennas on a grid. Every unordered pair of
 * antennas of the same frequency creates antinodes: in part 1 the two
 * mirror points of the pair, in part 2 every grid point on the line through
 * the pair in steps of their difference, the antennas included.
 */
module Day08 {
  import Sums

  datatype Point = Point(line: int, col: int)

  function Add(a: Point, b: Point): Point { Point(a.line + b.line, a.col + b.col) }
  function Sub(a: Point, b: Point): Point { Point(a.line - b.line, a.col - b.col) }
  function Scale(v: Point, k: nat): Point { Point(k * v.line, k * v.col) }

  /** The point `k` steps from `base` along `v` (`forward`) or against it. */
  function Shift(base: Point, v: Point, forward: bool): Point {
    if forward then Add(base, v) else Sub(base, v)
  }

  predicate InBox(p: Point, lineMax: int, colMax: int) {
    0 <= p.line <= lineMax && 0 <= p.col <= colMax
  }

  ghost function Box(lineMax: int, colMax: int): set<Point> {
    set l: int, c: int | 0 <= l <= lineMax && 0 <= c <= colMax :: Point(l, c)
  }

  lemma BoxMembers(p: Point, lineMax: int, colMax: int)
    ensures p in Box(lineMax, colMax) <==> InBox(p, lineMax, colMax)
  {
    if InBox(p, lineMax, colMax) {
      assert p == Point(p.line, p.col);
    }
  }

  /**
   * The antinodes the pair `a`, `b` (difference `a - b`) contributes to,
   * before the bounds check. Part 1: `a + (a-b)` and `b - (a-b)`. Part 2:
   * `a`, `b` and `a + k(a-b)`, `b - k(a-b)` for every `k >= 1`.
   */
  ghost predicate Contributes(a: Point, b: Point, part2: bool, p: Point) {
    var v := Sub(a, b);
    if !part2 then p == Add(a, v) || p == Sub(b, v)
    else p == a || p == b || exists k: nat :: k >= 1 && (p == Add(a, Scale(v, k)) || p == Sub(b, Scale(v, k)))
  }

  /** Which of the two antennas comes first in the iteration does not matter. */
  lemma ContributesSymmetric(a: Point, b: Point, part2: bool, p: Point)
    ensures Contributes(a, b, part2, p) <==> Contributes(b, a, part2, p)
  {
    forall k: nat ensures Add(a, Scale(Sub(a, b), k)) == Sub(a, Scale(Sub(b, a), k))
                      && Sub(b, Scale(Sub(a, b), k)) == Add(b, Scale(Sub(b, a), k))
    {
      assert k * (a.line - b.line) == -(k * (b.line - a.line));
      assert k * (a.col - b.col) == -(k * (b.col - a.col));
    }
  }

  /** A same-frequency pair drawn from the frequencies `done`. */
  ghost predicate AntinodeFrom(data: map<Point, char>, part2: bool, p: Point, done: set<char>) {
    exists a, b :: a in data && b in data && a != b && data[a] == data[b] && data[a] in done
                   && Contributes(a, b, part2, p)
  }

  ghost predicate IsAntinode(data: map<Point, char>, part2: bool, p: Point) {
    exists a, b :: a in data && b in data && a != b && data[a] == data[b] && Contributes(a, b, part2, p)
  }

  /** The antinodes on the grid. */
  ghost function Antinodes(data: map<Point, char>, part2: bool, lineMax: int, colMax: int): set<Point> {
    set p | p in Box(lineMax, colMax) && IsAntinode(data, part2, p)
  }

  /** Every part 1 antinode is a part 2 antinode (take `k = 1`). */
  lemma Part1WithinPart2(data: map<Point, char>, p: Point)
    ensures IsAntinode(data, false, p) ==> IsAntinode(data, true, p)
  {
    if IsAntinode(data, false, p) {
      var a, b :| a in data && b in data && a != b && data[a] == data[b] && Contributes(a, b, false, p);
      assert Scale(Sub(a, b), 1) == Sub(a, b);
      assert Contributes(a, b, true, p);
    }
  }

  lemma Part1SubsetPart2(data: map<Point, char>, lineMax: int, colMax: int)
    ensures Antinodes(data, false, lineMax, colMax) <= Antinodes(data, true, lineMax, colMax)
    ensures |Antinodes(data, false, lineMax, colMax)| <= |Antinodes(data, true, lineMax, colMax)|
  {
    forall p | p in Antinodes(data, false, lineMax, colMax)
      ensures p in Antinodes(data, true, lineMax, colMax)
    {
      Part1WithinPart2(data, p);
    }
    Sums.SubsetCard(Antinodes(data, false, lineMax, colMax), Antinodes(data, true, lineMax, colMax));
  }

  /** The frequencies present in `data`. */
  function Frequencies(data: map<Point, char>): (r: set<char>)
    ensures forall p :: p in data ==> data[p] in r
    ensures forall c :: c in r ==> exists p :: p in data && data[p] == c
  {
    set p | p in data :: data[p]
  }

  lemma FrequenciesInsert(data: map<Point, char>, p: Point, c: char)
    requires p !in data
    ensures Frequencies(data[p := c]) == Frequencies(data) + {c}
  {
    var d := data[p := c];
    assert d[p] == c;
    forall x | x in Frequencies(data) ensures x in Frequencies(d) {
      var q :| q in data && data[q] == x;
      assert d[q] == x;
    }
    forall x | x in Frequencies(d) ensures x in Frequencies(data) + {c} {
      var q :| q in d && d[q] == x;
      if q != p {
        assert data[q] == x;
      }
    }
  }

  /** The cells `from_str` keeps: every non-'.' character at (line, column). */
  ghost predicate IsCell(lines: seq<string>, p: Point) {
    0 <= p.line < |lines| && 0 <= p.col < |lines[p.line]| && lines[p.line][p.col] != '.'
  }

  /** The largest column index in the first `n` lines (0 when there is none). */
  function ColMax(lines: seq<string>, n: nat): (r: int)
    requires n <= |lines|
    ensures r >= 0
    ensures forall l :: 0 <= l < n ==> |lines[l]| - 1 <= r
    ensures r == 0 || exists l :: 0 <= l < n && r == |lines[l]| - 1
  {
    if n == 0 then 0
    else
      var m := ColMax(lines, n - 1);
      if |lines[n - 1]| - 1 >= m then |lines[n - 1]| - 1 else m
  }

  /** Scanning one more antenna cell extends the map by exactly that cell. */
  lemma ScanStep(lines: seq<string>, data: map<Point, char>, lineIdx: nat, colIdx: nat)
    requires lineIdx < |lines| && colIdx < |lines[lineIdx]| && lines[lineIdx][colIdx] != '.'
    requires forall p :: p in data <==> IsCell(lines, p) && (p.line < lineIdx || (p.line == lineIdx && p.col < colIdx))
    requires forall p :: p in data ==> IsCell(lines, p) && data[p] == lines[p.line][p.col]
    ensures forall p :: p in data[Point(lineIdx, colIdx) := lines[lineIdx][colIdx]] <==>
      IsCell(lines, p) && (p.line < lineIdx || (p.line == lineIdx && p.col <= colIdx))
    ensures forall p :: p in data[Point(lineIdx, colIdx) := lines[lineIdx][colIdx]] ==>
      IsCell(lines, p) && data[Point(lineIdx, colIdx) := lines[lineIdx][colIdx]][p] == lines[p.line][p.col]
    ensures Frequencies(data[Point(lineIdx, colIdx) := lines[lineIdx][colIdx]]) == Frequencies(data) + {lines[lineIdx][colIdx]}
  {
    FrequenciesInsert(data, Point(lineIdx, colIdx), lines[lineIdx][colIdx]);
  }

  function Max(a: int, b: int): int { if a >= b then a else b }

  class Grid {
    var data: map<Point, char>
    var antinodes: set<Point>
    var foundTowers: set<char>
    var lineMax: int
    var colMax: int

    /** What `from_str` establishes: every antenna on the grid, frequencies collected. */
    ghost predicate Valid()
      reads this
    {
      && lineMax >= 0 && colMax >= 0
      && (forall p :: p in data ==> IsInBounds(p))
      && foundTowers == Frequencies(data)
    }

    predicate IsInBounds(p: Point)
      reads this
    {
      p.line <= lineMax && p.col <= colMax && p.line >= 0 && p.col >= 0
    }

    /** `from_str` over the lines of the input. */
    constructor FromStr(lines: seq<string>)
      ensures forall p :: p in data <==> IsCell(lines, p)
      ensures forall p :: p in data ==> IsCell(lines, p) && data[p] == lines[p.line][p.col]
      ensures antinodes == {}
      ensures lineMax == if |lines| == 0 then 0 else |lines| - 1
      ensures colMax == ColMax(lines, |lines|)
      ensures Valid()
    {
      data := map[];
      antinodes := {};
      foundTowers := {};
      lineMax := 0;
      colMax := 0;
      new;
      for lineIdx := 0 to |lines|
        invariant antinodes == {}
        invariant lineMax == if lineIdx == 0 then 0 else lineIdx - 1
        invariant colMax == ColMax(lines, lineIdx)
        invariant forall p :: p in data <==> IsCell(lines, p) && p.line < lineIdx
        invariant forall p :: p in data ==> IsCell(lines, p) && data[p] == lines[p.line][p.col]
        invariant foundTowers == Frequencies(data)
      {
        if lineIdx >= lineMax {
          lineMax := lineIdx;
        }
        ParseLine(lines, lineIdx);
      }
      forall p | p in data ensures IsInBounds(p) {
        assert 0 <= p.col < |lines[p.line]|;
      }
    }

    /** The body of the outer loop of `from_str`: one line of the input. */
    method ParseLine(lines: seq<string>, lineIdx: nat)
      requires lineIdx < |lines|
      requires colMax == ColMax(lines, lineIdx)
      requires forall p :: p in data <==> IsCell(lines, p) && p.line < lineIdx
      requires forall p :: p in data ==> IsCell(lines, p) && data[p] == lines[p.line][p.col]
      requires foundTowers == Frequencies(data)
      modifies this
      ensures antinodes == old(antinodes) && lineMax == old(lineMax)
      ensures colMax == ColMax(lines, lineIdx + 1)
      ensures forall p :: p in data <==> IsCell(lines, p) && p.line <= lineIdx
      ensures forall p :: p in data ==> IsCell(lines, p) && data[p] == lines[p.line][p.col]
      ensures foundTowers == Frequencies(data)
    {
      var line := lines[lineIdx];
      for colIdx := 0 to |line|
        invariant antinodes == old(antinodes) && lineMax == old(lineMax)
        invariant colMax == Max(ColMax(lines, lineIdx), colIdx - 1)
        invariant forall p :: p in data <==> IsCell(lines, p) && (p.line < lineIdx || (p.line == lineIdx && p.col < colIdx))
        invariant forall p :: p in data ==> IsCell(lines, p) && data[p] == lines[p.line][p.col]
        invariant foundTowers == Frequencies(data)
      {
        var c := line[colIdx];
        if c != '.' {
          InsertCell(lines, lineIdx, colIdx);
        }
        if colIdx >= colMax {
          colMax := colIdx;
        }
      }
    }

    /** Records the antenna at (`lineIdx`, `colIdx`). */
    method InsertCell(lines: seq<string>, lineIdx: nat, colIdx: nat)
      requires lineIdx < |lines| && colIdx < |lines[lineIdx]| && lines[lineIdx][colIdx] != '.'
      requires forall p :: p in data <==> IsCell(lines, p) && (p.line < lineIdx || (p.line == lineIdx && p.col < colIdx))
      requires forall p :: p in data ==> IsCell(lines, p) && data[p] == lines[p.line][p.col]
      requires foundTowers == Frequencies(data)
      modifies this
      ensures antinodes == old(antinodes) && lineMax == old(lineMax) && colMax == old(colMax)
      ensures forall p :: p in data <==> IsCell(lines, p) && (p.line < lineIdx || (p.line == lineIdx && p.col <= colIdx))
      ensures forall p :: p in data ==> IsCell(lines, p) && data[p] == lines[p.line][p.col]
      ensures foundTowers == Frequencies(data)
    {
      var c := lines[lineIdx][colIdx];
      ScanStep(lines, data, lineIdx, colIdx);
      data := data[Point(lineIdx, colIdx) := c];
      foundTowers := foundTowers + {c};
    }

    /** `add_antinode`: insert `p` exactly when it is on the grid; nothing else changes. */
    method AddAntinode(p: Point)
      modifies this
      ensures antinodes == if old(IsInBounds(p)) then old(antinodes) + {p} else old(antinodes)
      ensures data == old(data) && foundTowers == old(foundTowers)
      ensures lineMax == old(lineMax) && colMax == old(colMax)
    {
      if IsInBounds(p) {
        antinodes := antinodes + {p};
      }
    }

    /** `count`: the number of antinodes. */
    function Count(): (r: nat)
      reads this
      ensures r == |antinodes|
    {
      |antinodes|
    }

    /** The antennas of frequency `t`, in some order (a `HashMap` filter). */
    method TowersOf(t: char) returns (r: seq<Point>)
      ensures forall p :: p in r <==> p in data && data[p] == t
      ensures forall i, j :: 0 <= i < j < |r| ==> r[i] != r[j]
    {
      var rest := set p | p in data && data[p] == t;
      r := [];
      while rest != {}
        invariant forall p :: p in data && data[p] == t <==> p in r || p in rest
        invariant forall p :: p in r ==> p !in rest
        invariant forall i, j :: 0 <= i < j < |r| ==> r[i] != r[j]
        decreases |rest|
      {
        var p :| p in rest;
        r := r + [p];
        rest := rest - {p};
      }
    }

    /** Part 2's `while` loops: push every grid point past `base` along (or against) `v`. */
    method PushRay(toAdd0: seq<Point>, base: Point, v: Point, forward: bool) returns (toAdd: seq<Point>)
      requires Valid() && IsInBounds(base) && v != Point(0, 0)
      ensures forall p :: p in toAdd ==> p in toAdd0 || IsInBounds(p)
      ensures forall p :: IsInBounds(p) ==>
        (p in toAdd <==> p in toAdd0 || exists k: nat :: k >= 1 && p == Shift(base, Scale(v, k), forward))
    {
      toAdd := toAdd0;
      var vector := v;
      ghost var k: nat := 1;
      while IsInBounds(Shift(base, vector, forward))
        invariant vector == Scale(v, k) && 1 <= k <= lineMax + colMax + 1
        invariant forall p :: p in toAdd ==> p in toAdd0 || IsInBounds(p)
        invariant forall p :: IsInBounds(p) ==>
          (p in toAdd <==> p in toAdd0 || exists m: nat :: 1 <= m < k && p == Shift(base, Scale(v, m), forward))
        decreases lineMax + colMax + 1 - k
      {
        RayBound(base, v, k, forward, lineMax, colMax);
        toAdd := toAdd + [Shift(base, vector, forward)];
        vector := Add(vector, v);
        k := k + 1;
      }
      forall p | IsInBounds(p) && (exists m: nat :: m >= 1 && p == Shift(base, Scale(v, m), forward))
        ensures p in toAdd
      {
        var m: nat :| m >= 1 && p == Shift(base, Scale(v, m), forward);
        if m >= k {
          RayLeaves(base, v, k, m, forward, lineMax, colMax);
        }
      }
    }

    /** The points one pair pushes onto `to_add`. */
    method PushPair(toAdd0: seq<Point>, a: Point, b: Point, part2: bool) returns (toAdd: seq<Point>)
      requires Valid() && IsInBounds(a) && IsInBounds(b) && a != b
      ensures forall p :: p in toAdd ==> p in toAdd0 || IsInBounds(p) || !part2
      ensures forall p :: IsInBounds(p) ==> (p in toAdd <==> p in toAdd0 || Contributes(a, b, part2, p))
    {
      var vector := Sub(a, b);
      if !part2 {
        toAdd := toAdd0 + [Add(a, vector), Sub(b, vector)];
      } else {
        toAdd := toAdd0 + [a, b];
        toAdd := PushRay(toAdd, a, vector, true);
        toAdd := PushRay(toAdd, b, vector, false);
      }
    }

    /** The `tuple_combinations` loop over the antennas `pts` of one frequency. */
    method PushPairs(toAdd0: seq<Point>, pts: seq<Point>, part2: bool) returns (toAdd: seq<Point>)
      requires Valid()
      requires forall q :: q in pts ==> IsInBounds(q)
      requires forall i, j :: 0 <= i < j < |pts| ==> pts[i] != pts[j]
      ensures forall p :: p in toAdd ==> p in toAdd0 || IsInBounds(p) || !part2
      ensures forall p :: IsInBounds(p) ==> (p in toAdd <==> p in toAdd0 || PairOf(pts, part2, p, |pts|, 0))
    {
      toAdd := toAdd0;
      for i := 0 to |pts|
        invariant forall p :: p in toAdd ==> p in toAdd0 || IsInBounds(p) || !part2
        invariant forall p :: IsInBounds(p) ==> (p in toAdd <==> p in toAdd0 || PairOf(pts, part2, p, i, 0))
      {
        for j := i + 1 to |pts|
          invariant forall p :: p in toAdd ==> p in toAdd0 || IsInBounds(p) || !part2
          invariant forall p :: IsInBounds(p) ==> (p in toAdd <==> p in toAdd0 || PairOf(pts, part2, p, i, j))
        {
          toAdd := PushPair(toAdd, pts[i], pts[j], part2);
          PairOfStep(pts, part2, i, j);
        }
        PairOfRow(pts, part2, i);
      }
    }

    /** Every candidate of every frequency in `found_towers`. */
    method Candidates(part2: bool) returns (toAdd: seq<Point>)
      requires Valid()
      ensures forall p :: p in toAdd ==> IsInBounds(p) || !part2
      ensures forall p :: IsInBounds(p) ==> (p in toAdd <==> IsAntinode(data, part2, p))
    {
      toAdd := [];
      var towers := foundTowers;
      while towers != {}
        invariant towers <= foundTowers
        invariant forall p :: p in toAdd ==> IsInBounds(p) || !part2
        invariant forall p :: IsInBounds(p) ==> (p in toAdd <==> AntinodeFrom(data, part2, p, foundTowers - towers))
        decreases |towers|
      {
        var t :| t in towers;
        var pts := TowersOf(t);
        FrequencyAdded(data, pts, t, part2, foundTowers - towers);
        assert foundTowers - (towers - {t}) == (foundTowers - towers) + {t};
        toAdd := PushPairs(toAdd, pts, part2);
        towers := towers - {t};
      }
      forall p | IsInBounds(p) ensures AntinodeFrom(data, part2, p, foundTowers) <==> IsAntinode(data, part2, p) {
        AntinodeFromAll(data, part2, p);
      }
      assert foundTowers - towers == foundTowers;
    }

    /** Adds every collected candidate that is on the grid. */
    method AddAll(toAdd: seq<Point>)
      modifies this
      ensures antinodes == old(antinodes) + set p | p in toAdd && old(IsInBounds(p))
      ensures data == old(data) && foundTowers == old(foundTowers)
      ensures lineMax == old(lineMax) && colMax == old(colMax)
    {
      for i := 0 to |toAdd|
        invariant antinodes == old(antinodes) + set p | p in toAdd[..i] && IsInBounds(p)
        invariant data == old(data) && foundTowers == old(foundTowers)
        invariant lineMax == old(lineMax) && colMax == old(colMax)
      {
        AddAntinode(toAdd[i]);
        assert toAdd[..i + 1] == toAdd[..i] + [toAdd[i]];
      }
      assert toAdd[..|toAdd|] == toAdd;
    }

    /** `find_antinodes_part1`. */
    method FindAntinodesPart1()
      requires Valid()
      modifies this
      ensures Valid() && data == old(data) && lineMax == old(lineMax) && colMax == old(colMax)
      ensures antinodes == old(antinodes) + Antinodes(data, false, lineMax, colMax)
    {
      var toAdd := Candidates(false);
      AddAll(toAdd);
      Collected(toAdd, false);
    }

    /** `find_antinodes_part2`. */
    method FindAntinodesPart2()
      requires Valid()
      modifies this
      ensures Valid() && data == old(data) && lineMax == old(lineMax) && colMax == old(colMax)
      ensures antinodes == old(antinodes) + Antinodes(data, true, lineMax, colMax)
    {
      var toAdd := Candidates(true);
      AddAll(toAdd);
      Collected(toAdd, true);
    }

    lemma Collected(toAdd: seq<Point>, part2: bool)
      requires forall p :: IsInBounds(p) ==> (p in toAdd <==> IsAntinode(data, part2, p))
      ensures (set p | p in toAdd && IsInBounds(p)) == Antinodes(data, part2, lineMax, colMax)
    {
      forall p ensures p in Box(lineMax, colMax) <==> IsInBounds(p) {
        BoxMembers(p, lineMax, colMax);
      }
    }
  }

  /** The pairs `x < y` of `pts` visited before `(i, j)`, in either order, contribute `p`. */
  ghost predicate PairOf(pts: seq<Point>, part2: bool, p: Point, i: int, j: int) {
    exists x, y :: 0 <= x < y < |pts| && (x < i || (x == i && y < j)) && Contributes(pts[x], pts[y], part2, p)
  }

  lemma PairOfStep(pts: seq<Point>, part2: bool, i: int, j: int)
    requires 0 <= i < j < |pts|
    ensures forall p :: PairOf(pts, part2, p, i, j + 1) <==> PairOf(pts, part2, p, i, j) || Contributes(pts[i], pts[j], part2, p)
  {
  }

  lemma PairOfRow(pts: seq<Point>, part2: bool, i: int)
    requires 0 <= i < |pts|
    ensures forall p :: PairOf(pts, part2, p, i + 1, 0) <==> PairOf(pts, part2, p, i, |pts|)
  {
  }

  /** The visited pairs are exactly the same-frequency pairs of frequency `t`. */
  lemma PairsOfFrequency(data: map<Point, char>, pts: seq<Point>, t: char, part2: bool, p: Point)
    requires forall q :: q in pts <==> q in data && data[q] == t
    requires forall i, j :: 0 <= i < j < |pts| ==> pts[i] != pts[j]
    ensures PairOf(pts, part2, p, |pts|, 0) <==>
      exists a, b :: a in data && b in data && a != b && data[a] == t && data[b] == t && Contributes(a, b, part2, p)
  {
    if exists a, b :: a in data && b in data && a != b && data[a] == t && data[b] == t && Contributes(a, b, part2, p) {
      var a, b :| a in data && b in data && a != b && data[a] == t && data[b] == t && Contributes(a, b, part2, p);
      var x :| 0 <= x < |pts| && pts[x] == a;
      var y :| 0 <= y < |pts| && pts[y] == b;
      if x < y {
        assert PairOf(pts, part2, p, |pts|, 0);
      } else {
        ContributesSymmetric(a, b, part2, p);
        assert PairOf(pts, part2, p, |pts|, 0);
      }
    }
  }

  lemma AntinodeFromAdd(data: map<Point, char>, part2: bool, p: Point, done: set<char>, t: char)
    ensures AntinodeFrom(data, part2, p, done + {t}) <==>
      AntinodeFrom(data, part2, p, done) ||
      exists a, b :: a in data && b in data && a != b && data[a] == t && data[b] == t && Contributes(a, b, part2, p)
  {
  }

  /** The pairs of the antennas of frequency `t` are what adding `t` to the frequencies looked at adds. */
  lemma FrequencyAdded(data: map<Point, char>, pts: seq<Point>, t: char, part2: bool, done: set<char>)
    requires forall q :: q in pts <==> q in data && data[q] == t
    requires forall i, j :: 0 <= i < j < |pts| ==> pts[i] != pts[j]
    ensures forall p :: AntinodeFrom(data, part2, p, done + {t}) <==>
      AntinodeFrom(data, part2, p, done) || PairOf(pts, part2, p, |pts|, 0)
  {
    forall p ensures AntinodeFrom(data, part2, p, done + {t}) <==>
      AntinodeFrom(data, part2, p, done) || PairOf(pts, part2, p, |pts|, 0)
    {
      PairsOfFrequency(data, pts, t, part2, p);
      AntinodeFromAdd(data, part2, p, done, t);
    }
  }

  lemma AntinodeFromAll(data: map<Point, char>, part2: bool, p: Point)
    ensures AntinodeFrom(data, part2, p, Frequencies(data)) <==> IsAntinode(data, part2, p)
  {
  }

  /** On the grid, `k` steps from an on-grid `base` need `k <= lineMax + colMax`. */
  lemma RayBound(base: Point, v: Point, k: nat, forward: bool, lineMax: int, colMax: int)
    requires InBox(base, lineMax, colMax) && InBox(Shift(base, Scale(v, k), forward), lineMax, colMax)
    requires v != Point(0, 0) && k >= 1
    ensures k <= lineMax + colMax
  {
    var q := Shift(base, Scale(v, k), forward);
    assert -lineMax <= k * v.line <= lineMax;
    assert -colMax <= k * v.col <= colMax;
    if v.line != 0 {
      AtLeastK(k, v.line);
    } else {
      AtLeastK(k, v.col);
    }
  }

  lemma {:induction false} AtLeastK(k: nat, x: int)
    requires x != 0
    ensures (x > 0 && k * x >= k) || (x < 0 && k * x <= -(k as int))
  {
    if k > 0 {
      AtLeastK(k - 1, x);
      assert k * x == (k - 1) * x + x;
    }
  }

  /** Once a ray from an on-grid point leaves the grid, it stays outside. */
  lemma RayLeaves(base: Point, v: Point, k: nat, m: nat, forward: bool, lineMax: int, colMax: int)
    requires InBox(base, lineMax, colMax) && !InBox(Shift(base, Scale(v, k), forward), lineMax, colMax)
    requires m >= k
    ensures !InBox(Shift(base, Scale(v, m), forward), lineMax, colMax)
  {
    MoreSteps(k, m, v.line);
    MoreSteps(k, m, v.col);
  }

  /** `m * x` lies beyond `k * x` on the side of the sign of `x`. */
  lemma MoreSteps(k: nat, m: nat, x: int)
    requires m >= k
    ensures x >= 0 ==> m * x >= k * x
    ensures x <= 0 ==> m * x <= k * x
  {
    assert m * x == k * x + (m - k) * x;
  }
}
