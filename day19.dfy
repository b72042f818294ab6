/**
 * Day 19, linen layout (day19/src/main.rs): towel patterns are grouped by
 * their first letter, and `lookup` counts in how many ways a design can be
 * laid out as a sequence of patterns. Part one counts the designs that can
 * be laid out at all, part two adds up the number of ways.
 */
module Day19 {
  /** Every pattern has a first letter (the parser only yields non-empty words). */
  predicate NonEmpty(patterns: seq<string>) {
    forall i :: 0 <= i < |patterns| ==> |patterns[i]| >= 1
  }

  /** The patterns starting with `c`, in input order, duplicates kept. */
  function StartingWith(patterns: seq<string>, c: char): (r: seq<string>)
    ensures forall p :: p in r ==> |p| >= 1
  {
    if patterns == [] then []
    else
      var p := patterns[0];
      var rest := StartingWith(patterns[1..], c);
      if |p| >= 1 && p[0] == c then [p] + rest else rest
  }

  /** Each pattern is listed under `c` exactly as often as it occurs, if it starts with `c`. */
  lemma {:induction false} StartingWithCounts(patterns: seq<string>, c: char)
    ensures forall p ::
      multiset(StartingWith(patterns, c))[p] == (if |p| >= 1 && p[0] == c then multiset(patterns)[p] else 0)
  {
    if patterns != [] {
      StartingWithCounts(patterns[1..], c);
      assert patterns == [patterns[0]] + patterns[1..];
    }
  }

  /** In particular, the patterns listed under `c` are those of the input that start with `c`. */
  lemma StartingWithMembers(patterns: seq<string>, c: char)
    ensures forall p :: p in StartingWith(patterns, c) <==> p in patterns && |p| >= 1 && p[0] == c
  {
    StartingWithCounts(patterns, c);
  }

  /** The letters some pattern starts with. */
  function Firsts(patterns: seq<string>): set<char> {
    set p | p in patterns && |p| >= 1 :: p[0]
  }

  /** The lookup table: for each first letter, the patterns starting with it. */
  function TableOf(patterns: seq<string>): map<char, seq<string>> {
    map c | c in Firsts(patterns) :: StartingWith(patterns, c)
  }

  /** What `lookup` needs of its table: every listed pattern is non-empty. */
  predicate WellFormed(table: map<char, seq<string>>) {
    forall c, p :: c in table && p in table[c] ==> |p| >= 1
  }

  lemma TableWellFormed(patterns: seq<string>)
    ensures WellFormed(TableOf(patterns))
  {
    forall c | c in TableOf(patterns) {
      StartingWithMembers(patterns, c);
    }
  }

  /** A letter no pattern starts with has no patterns to try. */
  lemma MissingKey(patterns: seq<string>, c: char)
    ensures c !in TableOf(patterns) ==> StartingWith(patterns, c) == []
  {
    StartingWithMembers(patterns, c);
    if StartingWith(patterns, c) != [] {
      var p := StartingWith(patterns, c)[0];
      assert p in patterns && |p| >= 1 && p[0] == c;
      assert c in Firsts(patterns);
    }

  }

  lemma {:induction false} StartingWithAppend(patterns: seq<string>, p: string, c: char)
    ensures StartingWith(patterns + [p], c)
      == StartingWith(patterns, c) + (if |p| >= 1 && p[0] == c then [p] else [])
  {
    if patterns == [] {
      assert [] + [p] == [p];
    } else {
      var q := patterns[0];
      var more := StartingWith(patterns[1..], c);
      var tail := if |p| >= 1 && p[0] == c then [p] else [];
      assert (patterns + [p])[1..] == patterns[1..] + [p];
      StartingWithAppend(patterns[1..], p, c);
      assert StartingWith(patterns[1..] + [p], c) == more + tail;
      if |q| >= 1 && q[0] == c {
        assert [q] + (more + tail) == [q] + more + tail;
      }
    }
  }

  lemma FirstsAppend(patterns: seq<string>, p: string)
    requires |p| >= 1
    ensures Firsts(patterns + [p]) == Firsts(patterns) + {p[0]}
  {
    assert p in patterns + [p];
    forall q | q in patterns + [p] && |q| >= 1
      ensures q[0] in Firsts(patterns) + {p[0]}
    {
      if q != p {
        assert q in patterns;
      }
    }
    forall q | q in patterns
      ensures q in patterns + [p]
    {
    }
  }

  /** Adding one pattern to the table appends it to its first letter's list. */
  lemma TableAppend(patterns: seq<string>, p: string)
    requires |p| >= 1
    ensures var t := TableOf(patterns);
      TableOf(patterns + [p]) == t[p[0] := (if p[0] in t then t[p[0]] else []) + [p]]
  {
    var t := TableOf(patterns);
    var u := t[p[0] := (if p[0] in t then t[p[0]] else []) + [p]];
    var v := TableOf(patterns + [p]);
    FirstsAppend(patterns, p);
    assert forall c :: c in v <==> c in u;
    forall c | c in v
      ensures v[c] == u[c]
    {
      StartingWithAppend(patterns, p, c);
      if c == p[0] && p[0] !in t {
        MissingKey(patterns, c);
      }
    }
  }

  /** The loop in `main` that fills `lookup_table`, one pattern at a time. */
  method BuildTable(patterns: seq<string>) returns (table: map<char, seq<string>>)
    requires NonEmpty(patterns)
    ensures table == TableOf(patterns)
  {
    table := map[];
    var i := 0;
    while i < |patterns|
      invariant 0 <= i <= |patterns|
      invariant table == TableOf(patterns[..i])
    {
      var pattern := patterns[i];
      var first := pattern[0];
      TableAppend(patterns[..i], pattern);
      assert patterns[..i + 1] == patterns[..i] + [pattern];
      ghost var next := TableOf(patterns[..i + 1]);
      if first in table {
        assert next == table[first := table[first] + [pattern]];
        table := table[first := table[first] + [pattern]];
      } else {
        assert next == table[first := [] + [pattern]];
        assert [] + [pattern] == [pattern];
        table := table[first := [pattern]];
      }
      assert table == TableOf(patterns[..i + 1]);
      i := i + 1;
    }
    assert patterns[..i] == patterns;
  }

  /** `lookup`: the number of ways to lay out `design` with the tabled patterns. */
  function Lookup(table: map<char, seq<string>>, design: string): nat
    requires WellFormed(table)
    decreases |design|, 1
  {
    if design == [] then 1
    else if design[0] in table then LookupSum(table, design, table[design[0]])
    else 0
  }

  /** The sum over `candidates` of the ways to continue after each one that is a prefix. */
  function LookupSum(table: map<char, seq<string>>, design: string, candidates: seq<string>): nat
    requires WellFormed(table)
    requires forall p :: p in candidates ==> |p| >= 1
    decreases |design|, 0, |candidates|
  {
    if candidates == [] then 0
    else
      var p := candidates[0];
      var here := if |p| <= |design| && p == design[..|p|] then Lookup(table, design[|p|..]) else 0;
      here + LookupSum(table, design, candidates[1..])
  }

  // ------------------------------------------------------------ reference: the decompositions

  /** The patterns `patterns[d[0]], patterns[d[1]], …` written one after the other. */
  function Concat(patterns: seq<string>, d: seq<nat>): string
    requires forall i :: 0 <= i < |d| ==> d[i] < |patterns|
  {
    if d == [] then [] else patterns[d[0]] + Concat(patterns, d[1..])
  }

  /** `d` lists pattern indices whose concatenation is `design`. */
  predicate IsLayout(patterns: seq<string>, d: seq<nat>, design: string) {
    (forall i :: 0 <= i < |d| ==> d[i] < |patterns|) && Concat(patterns, d) == design
  }

  /** Every layout of `design`, each once. */
  function Layouts(patterns: seq<string>, design: string): seq<seq<nat>>
    requires NonEmpty(patterns)
    decreases |design|, 1
  {
    if design == [] then [[]] else LayoutsFrom(patterns, design, 0)
  }

  /** The layouts of a non-empty `design` whose first pattern has index `k` or more. */
  function LayoutsFrom(patterns: seq<string>, design: string, k: nat): seq<seq<nat>>
    requires NonEmpty(patterns) && k <= |patterns|
    decreases |design|, 0, |patterns| - k
  {
    if k == |patterns| then []
    else
      var p := patterns[k];
      var rest := LayoutsFrom(patterns, design, k + 1);
      if |p| <= |design| && p == design[..|p|] then Prefixed(k, Layouts(patterns, design[|p|..])) + rest
      else rest
  }

  /** `[k] + d` for every `d` in `ds`. */
  function Prefixed(k: nat, ds: seq<seq<nat>>): (r: seq<seq<nat>>)
    ensures |r| == |ds|
    ensures forall i :: 0 <= i < |r| ==> r[i] == [k] + ds[i]
  {
    if ds == [] then [] else [[k] + ds[0]] + Prefixed(k, ds[1..])
  }

  predicate Distinct<T(==)>(xs: seq<T>) {
    forall i, j :: 0 <= i < j < |xs| ==> xs[i] != xs[j]
  }

  // ------------------------------------------------------------ lookup counts the layouts

  /** `lookup` with the table of `patterns` counts the layouts of `design`. */
  lemma {:induction false} LookupCountsLayouts(patterns: seq<string>, design: string)
    requires NonEmpty(patterns)
    ensures WellFormed(TableOf(patterns))
    ensures Lookup(TableOf(patterns), design) == |Layouts(patterns, design)|
    decreases |design|, 1
  {
    var table := TableOf(patterns);
    TableWellFormed(patterns);
    if design != [] {
      var c := design[0];
      if c !in table {
        MissingKey(patterns, c);
      }
      assert patterns[0..] == patterns;
      SumCountsLayouts(patterns, design, 0);
    }
  }

  lemma {:induction false} SumCountsLayouts(patterns: seq<string>, design: string, k: nat)
    requires NonEmpty(patterns) && k <= |patterns| && design != []
    ensures WellFormed(TableOf(patterns))
    ensures LookupSum(TableOf(patterns), design, StartingWith(patterns[k..], design[0]))
      == |LayoutsFrom(patterns, design, k)|
    decreases |design|, 0, |patterns| - k
  {
    var table := TableOf(patterns);
    TableWellFormed(patterns);
    StartingWithMembers(patterns[k..], design[0]);
    if k < |patterns| {
      var p := patterns[k];
      assert patterns[k..][1..] == patterns[k + 1..];
      SumCountsLayouts(patterns, design, k + 1);
      var later := StartingWith(patterns[k + 1..], design[0]);
      if p[0] == design[0] {
        assert StartingWith(patterns[k..], design[0]) == [p] + later;
        if |p| <= |design| && p == design[..|p|] {
          LookupCountsLayouts(patterns, design[|p|..]);
        }
      } else {
        assert StartingWith(patterns[k..], design[0]) == later;
        assert !(|p| <= |design| && p == design[..|p|]);
      }
    }
  }

  // ------------------------------------------------------------ the layouts are exactly the decompositions

  lemma {:induction false} ConcatCons(patterns: seq<string>, k: nat, d: seq<nat>)
    requires k < |patterns| && forall i :: 0 <= i < |d| ==> d[i] < |patterns|
    ensures Concat(patterns, [k] + d) == patterns[k] + Concat(patterns, d)
  {
    assert ([k] + d)[1..] == d;
  }

  /** Every listed layout is one. */
  lemma {:induction false} LayoutsSound(patterns: seq<string>, design: string)
    requires NonEmpty(patterns)
    ensures forall d :: d in Layouts(patterns, design) ==> IsLayout(patterns, d, design)
    decreases |design|, 1
  {
    if design != [] {
      LayoutsFromSound(patterns, design, 0);
    }
  }

  lemma {:induction false} LayoutsFromSound(patterns: seq<string>, design: string, k: nat)
    requires NonEmpty(patterns) && k <= |patterns| && design != []
    ensures forall d :: d in LayoutsFrom(patterns, design, k) ==> IsLayout(patterns, d, design)
    decreases |design|, 0, |patterns| - k
  {
    if k < |patterns| {
      var p := patterns[k];
      LayoutsFromSound(patterns, design, k + 1);
      if |p| <= |design| && p == design[..|p|] {
        var tail := design[|p|..];
        var ds := Layouts(patterns, tail);
        LayoutsSound(patterns, tail);
        forall d | d in Prefixed(k, ds)
          ensures IsLayout(patterns, d, design)
        {
          var i :| 0 <= i < |ds| && Prefixed(k, ds)[i] == d;
          assert IsLayout(patterns, ds[i], tail);
          ConcatCons(patterns, k, ds[i]);
          assert design == p + tail;
        }
      }
    }
  }

  /** Every decomposition is listed. */
  lemma {:induction false} LayoutsComplete(patterns: seq<string>, d: seq<nat>, design: string)
    requires NonEmpty(patterns) && IsLayout(patterns, d, design)
    ensures d in Layouts(patterns, design)
    decreases |design|, 1
  {
    if d != [] {
      assert |patterns[d[0]]| >= 1;
      LayoutsFromComplete(patterns, d, design, 0);
    }
  }

  lemma {:induction false} LayoutsFromComplete(patterns: seq<string>, d: seq<nat>, design: string, k: nat)
    requires NonEmpty(patterns) && design != [] && d != [] && k <= d[0]
    requires IsLayout(patterns, d, design)
    ensures k <= |patterns| && d in LayoutsFrom(patterns, design, k)
    decreases |design|, 0, |patterns| - k
  {
    var p := patterns[k];
    var tail := Concat(patterns, d[1..]);
    assert design == patterns[d[0]] + tail;
    if k == d[0] {
      assert p == design[..|p|] && design[|p|..] == tail;
      assert |p| >= 1;
      LayoutsComplete(patterns, d[1..], tail);
      var ds := Layouts(patterns, tail);
      var i :| 0 <= i < |ds| && ds[i] == d[1..];
      assert Prefixed(k, ds)[i] == d;
    } else {
      LayoutsFromComplete(patterns, d, design, k + 1);
    }
  }

  /** Every listed layout of `LayoutsFrom(…, k)` starts at index `k` or later. */
  lemma {:induction false} LayoutsFromHeads(patterns: seq<string>, design: string, k: nat)
    requires NonEmpty(patterns) && k <= |patterns| && design != []
    ensures forall d :: d in LayoutsFrom(patterns, design, k) ==> d != [] && d[0] >= k
    decreases |patterns| - k
  {
    if k < |patterns| {
      LayoutsFromHeads(patterns, design, k + 1);
    }
  }

  lemma DistinctJoin<T>(xs: seq<T>, ys: seq<T>)
    requires Distinct(xs) && Distinct(ys) && forall x :: x in xs ==> x !in ys
    ensures Distinct(xs + ys)
  {
    forall i, j | 0 <= i < j < |xs + ys|
      ensures (xs + ys)[i] != (xs + ys)[j]
    {
      if i < |xs| && j >= |xs| {
        assert (xs + ys)[i] in xs && (xs + ys)[j] in ys;
      }
    }
  }

  lemma PrefixedDistinct(k: nat, ds: seq<seq<nat>>)
    requires Distinct(ds)
    ensures Distinct(Prefixed(k, ds))
  {
    var r := Prefixed(k, ds);
    forall i, j | 0 <= i < j < |r|
      ensures r[i] != r[j]
    {
      assert r[i][1..] == ds[i] && r[j][1..] == ds[j];
    }
  }

  /** No layout is listed twice. */
  lemma {:induction false} LayoutsDistinct(patterns: seq<string>, design: string)
    requires NonEmpty(patterns)
    ensures Distinct(Layouts(patterns, design))
    decreases |design|, 1
  {
    if design != [] {
      LayoutsFromDistinct(patterns, design, 0);
    }
  }

  lemma {:induction false} LayoutsFromDistinct(patterns: seq<string>, design: string, k: nat)
    requires NonEmpty(patterns) && k <= |patterns| && design != []
    ensures Distinct(LayoutsFrom(patterns, design, k))
    decreases |design|, 0, |patterns| - k
  {
    if k < |patterns| {
      var p := patterns[k];
      LayoutsFromDistinct(patterns, design, k + 1);
      if |p| <= |design| && p == design[..|p|] {
        var ds := Layouts(patterns, design[|p|..]);
        var rest := LayoutsFrom(patterns, design, k + 1);
        LayoutsDistinct(patterns, design[|p|..]);
        PrefixedDistinct(k, ds);
        LayoutsFromHeads(patterns, design, k + 1);
        forall x | x in Prefixed(k, ds)
          ensures x !in rest
        {
          assert x[0] == k;
        }
        DistinctJoin(Prefixed(k, ds), rest);
      }
    }
  }

  /** A design can be laid out exactly when `lookup` finds at least one way. */
  lemma Possible(patterns: seq<string>, design: string)
    requires NonEmpty(patterns)
    ensures WellFormed(TableOf(patterns))
    ensures Lookup(TableOf(patterns), design) > 0 <==> exists d :: IsLayout(patterns, d, design)
  {
    LookupCountsLayouts(patterns, design);
    LayoutsSound(patterns, design);
    var ds := Layouts(patterns, design);
    if |ds| > 0 {
      assert ds[0] in ds;
    }
    forall d | IsLayout(patterns, d, design)
      ensures |ds| > 0
    {
      LayoutsComplete(patterns, d, design);
    }
  }

  // ------------------------------------------------------------ the two parts

  /** Part one: the designs `lookup` finds some way to lay out; at most one per design. */
  function Part1(table: map<char, seq<string>>, designs: seq<string>): (r: nat)
    requires WellFormed(table)
    ensures r <= |designs|
  {
    if designs == [] then 0
    else (if Lookup(table, designs[0]) > 0 then 1 else 0) + Part1(table, designs[1..])
  }

  /** Part two: the ways summed over all designs; zero exactly when no design can be laid out. */
  function Part2(table: map<char, seq<string>>, designs: seq<string>): (r: nat)
    requires WellFormed(table)
    ensures r == 0 <==> forall i :: 0 <= i < |designs| ==> Lookup(table, designs[i]) == 0
  {
    if designs == [] then 0
    else
      assert forall i :: 1 <= i < |designs| ==> designs[1..][i - 1] == designs[i];
      Lookup(table, designs[0]) + Part2(table, designs[1..])
  }

  lemma {:induction false} Part1AtMostPart2(table: map<char, seq<string>>, designs: seq<string>)
    requires WellFormed(table)
    ensures Part1(table, designs) <= Part2(table, designs)
    ensures Part1(table, designs) <= |designs|
  {
    if designs != [] {
      Part1AtMostPart2(table, designs[1..]);
    }
  }

  /** The number of designs that have a decomposition. */
  ghost function PossibleCount(patterns: seq<string>, designs: seq<string>): nat {
    if designs == [] then 0
    else (if exists d :: IsLayout(patterns, d, designs[0]) then 1 else 0) + PossibleCount(patterns, designs[1..])
  }

  /** Part one over `patterns` counts the designs that have a decomposition. */
  lemma {:induction false} Part1Counts(patterns: seq<string>, designs: seq<string>)
    requires NonEmpty(patterns)
    ensures WellFormed(TableOf(patterns))
    ensures Part1(TableOf(patterns), designs) == PossibleCount(patterns, designs)
  {
    TableWellFormed(patterns);
    if designs != [] {
      Part1Counts(patterns, designs[1..]);
      Possible(patterns, designs[0]);
    }
  }

  /** Part two over `patterns` adds up the number of decompositions of every design. */
  lemma {:induction false} Part2Counts(patterns: seq<string>, designs: seq<string>)
    requires NonEmpty(patterns)
    ensures WellFormed(TableOf(patterns))
    ensures Part2(TableOf(patterns), designs) == LayoutTotal(patterns, designs)
  {
    TableWellFormed(patterns);
    if designs != [] {
      Part2Counts(patterns, designs[1..]);
      LookupCountsLayouts(patterns, designs[0]);
    }
  }

  function LayoutTotal(patterns: seq<string>, designs: seq<string>): nat
    requires NonEmpty(patterns)
  {
    if designs == [] then 0 else |Layouts(patterns, designs[0])| + LayoutTotal(patterns, designs[1..])
  }
}
