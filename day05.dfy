/**
 * Day 5 (day05/src/main.rs): page-ordering rules `a|b` become a table of
 * pairwise orderings; an update counts for part 1 when sorting by that
 * table leaves it unchanged and for part 2 otherwise, each contributing a
 * middle page.
 */
module Day05 {
  import opened Wrappers
  import Sorting

  datatype Ordering = Less | Equal | Greater

  /** The rule table after inserting `rules` in order, as `From<Vec<(u64, u64)>>` builds it. */
  function RuleTable(rules: seq<(nat, nat)>): map<(nat, nat), Ordering> {
    if rules == [] then map[]
    else
      var (a, b) := rules[|rules| - 1];
      RuleTable(rules[..|rules| - 1])[(a, b) := Less][(b, a) := Greater]
  }

  class SpecialNumberOrdering {
    var order: map<(nat, nat), Ordering>

    /** `SpecialNumberOrdering::from`: two inserts per rule. */
    constructor From(rules: seq<(nat, nat)>)
      ensures order == RuleTable(rules)
    {
      var o: map<(nat, nat), Ordering> := map[];
      for i := 0 to |rules|
        invariant o == RuleTable(rules[..i])
      {
        assert rules[..i + 1][..i] == rules[..i];
        o := o[(rules[i].0, rules[i].1) := Less];
        o := o[(rules[i].1, rules[i].0) := Greater];
      }
      assert rules[..|rules|] == rules;
      order := o;
    }

    /** `SpecialNumberOrdering::cmp`. */
    function Cmp(lhs: nat, rhs: nat): Ordering
      reads this
    {
      CmpIn(order, lhs, rhs)
    }
  }

  /** `cmp` on a given table: the stored ordering, `Equal` when absent. */
  function CmpIn(order: map<(nat, nat), Ordering>, lhs: nat, rhs: nat): (r: Ordering)
    ensures (lhs, rhs) !in order ==> r == Equal
    ensures (lhs, rhs) in order ==> r == order[(lhs, rhs)]
  {
    if (lhs, rhs) in order then order[(lhs, rhs)] else Equal
  }

  /**
   * The last rule wins: after a rule `(a, b)`, `cmp(a, b)` is `Less` and
   * `cmp(b, a)` is `Greater` (for `a == b` the second insert wins), and the
   * table only holds rule pairs and their reverses, never `Equal`.
   */
  lemma RuleTableSpec(rules: seq<(nat, nat)>, a: nat, b: nat)
    ensures var t := RuleTable(rules + [(a, b)]);
      CmpIn(t, b, a) == Greater && (a != b ==> CmpIn(t, a, b) == Less)
    ensures forall k :: k in RuleTable(rules) ==> RuleTable(rules)[k] != Equal
    ensures forall x, y :: (x, y) in RuleTable(rules) <==> exists i :: 0 <= i < |rules| && (rules[i] == (x, y) || rules[i] == (y, x))
    ensures (forall i :: 0 <= i < |rules| ==> rules[i] != (a, b) && rules[i] != (b, a)) ==> CmpIn(RuleTable(rules), a, b) == Equal
  {
    assert (rules + [(a, b)])[..|rules|] == rules;
    RuleTableKeys(rules);
  }

  lemma {:induction false} RuleTableKeys(rules: seq<(nat, nat)>)
    ensures forall k :: k in RuleTable(rules) ==> RuleTable(rules)[k] != Equal
    ensures forall x, y :: (x, y) in RuleTable(rules) <==> exists i :: 0 <= i < |rules| && (rules[i] == (x, y) || rules[i] == (y, x))
  {
    if rules != [] {
      var p := rules[..|rules| - 1];
      RuleTableKeys(p);
      forall x, y ensures (x, y) in RuleTable(rules) <==> exists i :: 0 <= i < |rules| && (rules[i] == (x, y) || rules[i] == (y, x)) {
        if (x, y) in RuleTable(p) {
          var i :| 0 <= i < |p| && (p[i] == (x, y) || p[i] == (y, x));
          assert rules[i] == p[i];
        }
        if exists i :: 0 <= i < |rules| && (rules[i] == (x, y) || rules[i] == (y, x)) {
          var i :| 0 <= i < |rules| && (rules[i] == (x, y) || rules[i] == (y, x));
          if i < |p| {
            assert p[i] == rules[i];
          }
        }
      }
    }
  }

  /** `sort_by`'s comparator seen as "not after". */
  function NotAfter(order: map<(nat, nat), Ordering>): (nat, nat) -> bool {
    (x: nat, y: nat) => CmpIn(order, x, y) != Greater
  }

  /** `b.sort_by(|a, b| ord.cmp(*a, *b))` on a copy of the update. */
  function SortUpdate(order: map<(nat, nat), Ordering>, update: seq<nat>): (r: seq<nat>)
    ensures multiset(r) == multiset(update) && |r| == |update|
  {
    Sorting.Sort(update, NotAfter(order))
  }

  /** Part 1's closure: the middle page of an update sorting leaves unchanged. */
  function Part1Middle(order: map<(nat, nat), Ordering>, update: seq<nat>): Option<nat>
    requires |update| > 0
  {
    if SortUpdate(order, update) == update then Some(update[|update| / 2]) else None
  }

  /** Part 2's closure: the middle page of the sorted copy of an update sorting changes. */
  function Part2Middle(order: map<(nat, nat), Ordering>, update: seq<nat>): Option<nat>
    requires |update| > 0
  {
    var b := SortUpdate(order, update);
    if b == update then None else Some(b[|b| / 2])
  }

  /**
   * Each update contributes to exactly one part, and in both cases it is
   * the middle page of the sorted copy, which is a page of the update.
   */
  lemma PartsPartition(order: map<(nat, nat), Ordering>, update: seq<nat>)
    requires |update| > 0
    ensures Part1Middle(order, update).Some? != Part2Middle(order, update).Some?
    ensures var m := if Part1Middle(order, update).Some? then Part1Middle(order, update) else Part2Middle(order, update);
      m == Some(SortUpdate(order, update)[|update| / 2]) && m.value in multiset(update)
  {
    var b := SortUpdate(order, update);
    assert b[|update| / 2] in multiset(b);
  }

  /** The update is in rule order: no page is `Greater` than a later one. */
  ghost predicate InRuleOrder(order: map<(nat, nat), Ordering>, update: seq<nat>) {
    forall i, j :: 0 <= i < j < |update| ==> CmpIn(order, update[i], update[j]) != Greater
  }

  /** The rules order every two pages of the update consistently. */
  ghost predicate ConsistentOn(order: map<(nat, nat), Ordering>, update: seq<nat>) {
    Sorting.TotalOn(NotAfter(order), Sorting.Elements(update)) && Sorting.TransitiveOn(NotAfter(order), Sorting.Elements(update))
  }

  /**
   * An update in rule order is left unchanged and counts for part 1; when
   * the rules order its pages consistently, that is the only way to count
   * for part 1.
   */
  lemma Part1IffInOrder(order: map<(nat, nat), Ordering>, update: seq<nat>)
    requires |update| > 0
    ensures InRuleOrder(order, update) ==> Part1Middle(order, update) == Some(update[|update| / 2])
    ensures ConsistentOn(order, update) ==> (Part1Middle(order, update).Some? <==> InRuleOrder(order, update))
  {
    var le := NotAfter(order);
    if InRuleOrder(order, update) {
      assert Sorting.Sorted(update, le);
      Sorting.SortOfSorted(update, le);
    }
    if ConsistentOn(order, update) && Part1Middle(order, update).Some? {
      Sorting.SortSorted(update, le);
    }
  }

  /** The answer of either part: the contributions summed over the updates. */
  function PartSum(order: map<(nat, nat), Ordering>, updates: seq<seq<nat>>, part2: bool): int
    requires forall i :: 0 <= i < |updates| ==> |updates[i]| > 0
  {
    if updates == [] then 0
    else
      var u := updates[|updates| - 1];
      var c := if part2 then Part2Middle(order, u) else Part1Middle(order, u);
      PartSum(order, updates[..|updates| - 1], part2) + (if c.Some? then c.value else 0)
  }

  /** The middle page of every sorted copy. */
  function SortedMiddles(order: map<(nat, nat), Ordering>, updates: seq<seq<nat>>): int
    requires forall i :: 0 <= i < |updates| ==> |updates[i]| > 0
  {
    if updates == [] then 0
    else
      var u := updates[|updates| - 1];
      SortedMiddles(order, updates[..|updates| - 1]) + SortUpdate(order, u)[|u| / 2]
  }

  /** The two answers together add up the middle page of every sorted update. */
  lemma {:induction false} PartSumsAdd(order: map<(nat, nat), Ordering>, updates: seq<seq<nat>>)
    requires forall i :: 0 <= i < |updates| ==> |updates[i]| > 0
    ensures PartSum(order, updates, false) + PartSum(order, updates, true) == SortedMiddles(order, updates)
  {
    if updates != [] {
      PartSumsAdd(order, updates[..|updates| - 1]);
      PartsPartition(order, updates[|updates| - 1]);
    }
  }
}
