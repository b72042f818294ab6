/**
 * Day 1 (day01/src/main.rs): two columns of location ids. Part 1 pairs the
 * sorted columns and sums the distances; part 2 weighs each left id by how
 * often it occurs in the right column. Lines arrive already split into
 * their whitespace-separated numbers.
 */
module Day01 {
  import Sorting
  import opened Sums

  /** The `k`-th number of every line; each line must have more than `k`. */
  function Column(lines: seq<seq<nat>>, k: nat): (r: seq<nat>)
    requires forall i :: 0 <= i < |lines| ==> |lines[i]| > k
    ensures |r| == |lines| && forall i :: 0 <= i < |r| ==> r[i] == lines[i][k]
  {
    if lines == [] then [] else Column(lines[..|lines| - 1], k) + [lines[|lines| - 1][k]]
  }

  lemma ColumnSnoc(lines: seq<seq<nat>>, i: nat, k: nat)
    requires i < |lines| && forall j :: 0 <= j < |lines| ==> |lines[j]| > k
    ensures Column(lines[..i + 1], k) == Column(lines[..i], k) + [lines[i][k]]
  {
    assert lines[..i + 1][..i] == lines[..i];
  }

  function Le(a: nat, b: nat): bool { a <= b }

  /** `Vec::sort` on ids. */
  function SortIds(s: seq<nat>): seq<nat> { Sorting.Sort(s, Le) }

  /** `usize::abs_diff`. */
  function AbsDiff(a: nat, b: nat): nat { if a >= b then a - b else b - a }

  /** `left.iter().zip(right).map(abs_diff)`: pairs up to the shorter length. */
  function Differences(left: seq<nat>, right: seq<nat>): (r: seq<nat>)
    ensures |r| == if |left| <= |right| then |left| else |right|
    ensures forall i :: 0 <= i < |r| ==> r[i] == AbsDiff(left[i], right[i])
  {
    if |left| == 0 || |right| == 0 then []
    else [AbsDiff(left[0], right[0])] + Differences(left[1..], right[1..])
  }

  /** The part 1 answer for two unsorted columns. */
  function TotalDistance(left: seq<nat>, right: seq<nat>): int {
    SeqSum(Differences(SortIds(left), SortIds(right)))
  }

  lemma LeIsTotalOrder(s: seq<nat>)
    ensures Sorting.TotalOn(Le, Sorting.Elements(s)) && Sorting.TransitiveOn(Le, Sorting.Elements(s))
    ensures Sorting.AntisymmetricOn(Le, Sorting.Elements(s))
  {
  }

  /** `Day01::sort` leaves both columns sorted permutations of themselves. */
  lemma SortIdsSpec(s: seq<nat>)
    ensures Sorting.Sorted(SortIds(s), Le) && multiset(SortIds(s)) == multiset(s)
  {
    LeIsTotalOrder(s);
    Sorting.SortSorted(s, Le);
  }

  /**
   * The total distance depends only on which ids each column holds, not on
   * the order of the lines.
   */
  lemma TotalDistanceOrderFree(l1: seq<nat>, r1: seq<nat>, l2: seq<nat>, r2: seq<nat>)
    requires multiset(l1) == multiset(l2) && multiset(r1) == multiset(r2)
    ensures TotalDistance(l1, r1) == TotalDistance(l2, r2)
  {
    LeIsTotalOrder(l1);
    LeIsTotalOrder(r1);
    Sorting.SortDependsOnMultiset(l1, l2, Le);
    Sorting.SortDependsOnMultiset(r1, r2, Le);
  }

  /**
   * For columns of equal length the total distance is zero exactly when
   * both columns hold the same ids with the same multiplicities.
   */
  lemma TotalDistanceZeroIff(left: seq<nat>, right: seq<nat>)
    requires |left| == |right|
    ensures TotalDistance(left, right) == 0 <==> multiset(left) == multiset(right)
  {
    if TotalDistance(left, right) == 0 {
      ZeroDistanceSameIds(left, right);
    }
    if multiset(left) == multiset(right) {
      SameIdsZeroDistance(left, right);
    }
  }

  lemma ZeroDistanceSameIds(left: seq<nat>, right: seq<nat>)
    requires |left| == |right| && TotalDistance(left, right) == 0
    ensures multiset(left) == multiset(right)
  {
    var sl, sr := SortIds(left), SortIds(right);
    var d := Differences(sl, sr);
    SeqSumZero(d);
    forall i | 0 <= i < |sl|
      ensures sl[i] == sr[i]
    {
      assert d[i] == 0;
    }
    assert sl == sr;
    SortIdsSpec(left);
    SortIdsSpec(right);
  }

  lemma SameIdsZeroDistance(left: seq<nat>, right: seq<nat>)
    requires multiset(left) == multiset(right)
    ensures TotalDistance(left, right) == 0
  {
    LeIsTotalOrder(left);
    Sorting.SortDependsOnMultiset(left, right, Le);
    var s := SortIds(left);
    var d := Differences(s, s);
    SeqSumZero(d);
    assert forall i :: 0 <= i < |d| ==> d[i] == 0;
  }

  /** The part 1 state: both columns in line order until `Sort` runs. */
  class Day01 {
    var left: seq<nat>
    var right: seq<nat>

    /** `Day01::parse`: one push per line into each column. */
    constructor Parse(lines: seq<seq<nat>>)
      requires forall i :: 0 <= i < |lines| ==> |lines[i]| >= 2
      ensures left == Column(lines, 0) && right == Column(lines, 1)
    {
      var l: seq<nat> := [];
      var r: seq<nat> := [];
      for i := 0 to |lines|
        invariant l == Column(lines[..i], 0) && r == Column(lines[..i], 1)
      {
        ColumnSnoc(lines, i, 0);
        ColumnSnoc(lines, i, 1);
        l := l + [lines[i][0]];
        r := r + [lines[i][1]];
      }
      assert lines[..|lines|] == lines;
      left, right := l, r;
    }

    /** `Day01::sort`: both columns sorted in place. */
    method Sort()
      modifies this
      ensures left == SortIds(old(left)) && right == SortIds(old(right))
      ensures Sorting.Sorted(left, Le) && multiset(left) == multiset(old(left))
      ensures Sorting.Sorted(right, Le) && multiset(right) == multiset(old(right))
    {
      SortIdsSpec(right);
      SortIdsSpec(left);
      right := SortIds(right);
      left := SortIds(left);
    }

    /** `Day01::get_differences`. */
    function GetDifferences(): (r: seq<nat>)
      reads this
      ensures |r| == if |left| <= |right| then |left| else |right|
      ensures forall i :: 0 <= i < |r| ==> r[i] == AbsDiff(left[i], right[i])
    {
      Differences(left, right)
    }

    /** `Day01::solve`: sorts, then sums the pairwise distances. */
    method Solve() returns (total: int)
      modifies this
      ensures total == TotalDistance(old(left), old(right))
      ensures left == SortIds(old(left)) && right == SortIds(old(right))
    {
      Sort();
      total := SeqSum(GetDifferences());
    }
  }

  /** How often each value occurs in `s`: the `entry().and_modify().or_insert()` counts. */
  function CountMap(s: seq<nat>): map<nat, nat> {
    map v | v in multiset(s) :: multiset(s)[v]
  }

  /** Counting one more value bumps its entry, inserting 1 when absent. */
  /** `entry(x).and_modify(|e| *e += 1).or_insert(1)`. */
  function Bump(m: map<nat, nat>, x: nat): map<nat, nat> {
    m[x := if x in m then m[x] + 1 else 1]
  }

  lemma CountMapAppend(s: seq<nat>, x: nat)
    ensures CountMap(s + [x]) == Bump(CountMap(s), x)
  {
    var m, m' := CountMap(s), CountMap(s + [x]);
    assert multiset(s + [x]) == multiset(s) + multiset{x};
    var n := m[x := if x in m then m[x] + 1 else 1];
    assert forall v :: v in m' <==> v in n;
    assert forall v :: v in m' ==> m'[v] == n[v];
  }

  /** `right.get(l).unwrap_or(0)`. */
  function Lookup(m: map<nat, nat>, v: nat): nat { if v in m then m[v] else 0 }

  /** Number of occurrences of `v` in `s`, by recursion. */
  function Occurrences(s: seq<nat>, v: nat): nat {
    if s == [] then 0 else (if s[0] == v then 1 else 0) + Occurrences(s[1..], v)
  }

  /** Sum over `a` in `left` and `b` in `right` of `a` when `a == b`. */
  function PairScore(left: seq<nat>, right: seq<nat>): nat {
    if left == [] then 0 else Row(left[0], right) + PairScore(left[1..], right)
  }

  function Row(a: nat, right: seq<nat>): nat {
    if right == [] then 0 else (if a == right[0] then a else 0) + Row(a, right[1..])
  }

  lemma {:induction false} RowIsWeightedCount(a: nat, right: seq<nat>)
    ensures Row(a, right) == a * Occurrences(right, a)
  {
    if right != [] {
      RowIsWeightedCount(a, right[1..]);
    }
  }

  lemma {:induction false} OccurrencesIsMultiplicity(s: seq<nat>, v: nat)
    ensures Occurrences(s, v) == multiset(s)[v]
  {
    if s != [] {
      OccurrencesIsMultiplicity(s[1..], v);
      assert s == [s[0]] + s[1..];
    }
  }

  lemma {:induction false} PairScoreCons(left: seq<nat>, b: nat, right: seq<nat>)
    ensures PairScore(left, [b] + right) == Row(b, left) + PairScore(left, right)
  {
    if left != [] {
      assert ([b] + right)[1..] == right;
      PairScoreCons(left[1..], b, right);
    }
  }

  /** Swapping the columns leaves the pairwise score unchanged. */
  lemma {:induction false} PairScoreSymmetric(left: seq<nat>, right: seq<nat>)
    ensures PairScore(left, right) == PairScore(right, left)
  {
    if right != [] {
      assert right == [right[0]] + right[1..];
      PairScoreCons(left, right[0], right[1..]);
      PairScoreSymmetric(left, right[1..]);
    } else {
      PairScoreEmpty(left);
    }
  }

  lemma {:induction false} PairScoreEmpty(left: seq<nat>)
    ensures PairScore(left, []) == 0
  {
    if left != [] {
      PairScoreEmpty(left[1..]);
    }
  }

  /** `Day01b::get_differences` on given columns, terms in line order. */
  function Similarities(left: seq<nat>, counts: map<nat, nat>): (r: seq<nat>)
    ensures |r| == |left|
    ensures forall i :: 0 <= i < |left| ==> r[i] == left[i] * Lookup(counts, left[i])
  {
    if left == [] then [] else [left[0] * Lookup(counts, left[0])] + Similarities(left[1..], counts)
  }

  lemma {:induction false} SimilaritySum(left: seq<nat>, right: seq<nat>)
    ensures SeqSum(Similarities(left, CountMap(right))) == PairScore(left, right)
  {
    if left != [] {
      var s := Similarities(left, CountMap(right));
      SimilaritySum(left[1..], right);
      SeqSumFront(s);
      assert s[1..] == Similarities(left[1..], CountMap(right));
      RowIsWeightedCount(left[0], right);
      OccurrencesIsMultiplicity(right, left[0]);
    }
  }

  lemma {:induction false} SeqSumFront(s: seq<int>)
    requires s != []
    ensures SeqSum(s) == s[0] + SeqSum(s[1..])
    decreases |s|
  {
    if |s| > 1 {
      SeqSumFront(s[..|s| - 1]);
      assert s[..|s| - 1][1..] == s[1..][..|s| - 2];
    } else {
      assert s[1..] == [];
      assert s[..0] == [];
    }
  }

  /**
   * The count kept for `v` is the number of lines whose second number is
   * `v`, and 0 (no entry) when there is none.
   */
  lemma CountMapCounts(lines: seq<seq<nat>>, v: nat)
    requires forall i :: 0 <= i < |lines| ==> |lines[i]| >= 2
    ensures Lookup(CountMap(Column(lines, 1)), v) == Occurrences(Column(lines, 1), v)
    ensures v in CountMap(Column(lines, 1)) <==> exists i :: 0 <= i < |lines| && lines[i][1] == v
  {
    var c := Column(lines, 1);
    OccurrencesIsMultiplicity(c, v);
    if v in multiset(c) {
      var i :| 0 <= i < |c| && c[i] == v;
    }
  }

  /** The part 2 state: the left column and the counts of the right one. */
  class Day01b {
    var left: seq<nat>
    var right: map<nat, nat>

    /** `Day01b::parse`: pushes the first number, counts the second. */
    constructor Parse(lines: seq<seq<nat>>)
      requires forall i :: 0 <= i < |lines| ==> |lines[i]| >= 2
      ensures left == Column(lines, 0) && right == CountMap(Column(lines, 1))
    {
      var l: seq<nat> := [];
      var counts: map<nat, nat> := map[];
      for i := 0 to |lines|
        invariant l == Column(lines[..i], 0) && counts == CountMap(Column(lines[..i], 1))
      {
        ColumnSnoc(lines, i, 0);
        ColumnSnoc(lines, i, 1);
        var x := lines[i][1];
        CountMapAppend(Column(lines[..i], 1), x);
        l := l + [lines[i][0]];
        counts := Bump(counts, x);
      }
      assert lines[..|lines|] == lines;
      left, right := l, counts;
    }

    /** `Day01b::get_differences`. */
    function GetDifferences(): (r: seq<nat>)
      reads this
      ensures |r| == |left|
      ensures forall i :: 0 <= i < |left| ==> r[i] == left[i] * Lookup(right, left[i])
    {
      Similarities(left, right)
    }

    /** `Day01b::solve`. */
    function Solve(): int
      reads this
    {
      SeqSum(GetDifferences())
    }
  }

  /**
   * After `Day01b::parse`, `solve` is the sum of `a` over every pair of a
   * left id `a` and an equal right id, which is symmetric in the columns.
   */
  lemma SolveIsPairScore(d: Day01b, lines: seq<seq<nat>>)
    requires forall i :: 0 <= i < |lines| ==> |lines[i]| >= 2
    requires d.left == Column(lines, 0) && d.right == CountMap(Column(lines, 1))
    ensures d.Solve() == PairScore(Column(lines, 0), Column(lines, 1))
    ensures d.Solve() == PairScore(Column(lines, 1), Column(lines, 0))
  {
    SimilaritySum(Column(lines, 0), Column(lines, 1));
    PairScoreSymmetric(Column(lines, 0), Column(lines, 1));
  }
}
