/**
 * Day 2 (day02/src/main.rs): a report is safe when its levels move in one
 * direction by 1 to 3 at every step; part 2 also accepts a report that
 * becomes safe after removing one level.
 */
module Day02 {
  import opened Wrappers

  datatype Direction = Increasing | Decreasing | NotSet

  function AbsDiff(a: int, b: int): nat { if a >= b then a - b else b - a }

  /** `compare_number_and_direction`: the direction of the step, or `Err`. */
  function Compare(prev: int, curr: int, dir: Direction): (r: Result<Direction, ()>)
    ensures r.Err? <==> !(1 <= AbsDiff(prev, curr) <= 3)
                        || (curr < prev && dir == Increasing)
                        || (curr > prev && dir == Decreasing)
    ensures r.Ok? ==> r.value != NotSet && (r.value == Decreasing <==> curr < prev)
  {
    if !(1 <= AbsDiff(prev, curr) <= 3) then Err(())
    else if curr < prev then (if dir == Increasing then Err(()) else Ok(Decreasing))
    else if curr == prev then Err(())
    else if dir == Decreasing then Err(())
    else Ok(Increasing)
  }

  /** Every step rises by 1 to 3. */
  ghost predicate AllIncreasing(r: seq<int>) {
    forall i :: 0 <= i < |r| - 1 ==> 1 <= r[i + 1] - r[i] <= 3
  }

  /** Every step falls by 1 to 3. */
  ghost predicate AllDecreasing(r: seq<int>) {
    forall i :: 0 <= i < |r| - 1 ==> 1 <= r[i] - r[i + 1] <= 3
  }

  /** A safe report: one direction throughout, each step of size 1 to 3. */
  ghost predicate Safe(r: seq<int>) {
    AllIncreasing(r) || AllDecreasing(r)
  }

  /** The report with level `i` removed, as `Vec::remove`. */
  function Remove(r: seq<int>, i: nat): (t: seq<int>)
    requires i < |r|
    ensures |t| == |r| - 1
    ensures forall k :: 0 <= k < |t| ==> t[k] == if k < i then r[k] else r[k + 1]
  {
    r[..i] + r[i + 1..]
  }

  /** `is_safe`: it indexes `report[0]`, so the report must not be empty. */
  method IsSafe(report: seq<int>) returns (safe: bool)
    requires |report| >= 1
    ensures safe <==> Safe(report)
  {
    var direction := NotSet;
    var previous := report[0];
    var i := 1;
    while i < |report|
      invariant 1 <= i <= |report|
      invariant previous == report[i - 1]
      invariant direction == NotSet <==> i == 1
      invariant direction == Increasing ==> AllIncreasing(report[..i])
      invariant direction == Decreasing ==> AllDecreasing(report[..i])
    {
      var current := report[i];
      match Compare(previous, current, direction) {
        case Ok(d) =>
          GoodStep(report, i, direction);
          direction := d;
          previous := current;
        case Err(_) =>
          BrokenStep(report, i, direction);
        return false;
      }
      i := i + 1;
    }
    assert report[..i] == report;
    return true;
  }

  /** An accepted step at `i` extends the direction of the earlier steps to the first `i + 1` levels. */
  lemma GoodStep(report: seq<int>, i: nat, dir: Direction)
    requires 1 <= i < |report|
    requires dir == NotSet ==> i == 1
    requires dir == Increasing ==> AllIncreasing(report[..i])
    requires dir == Decreasing ==> AllDecreasing(report[..i])
    requires Compare(report[i - 1], report[i], dir).Ok?
    ensures Compare(report[i - 1], report[i], dir).value == Increasing ==> AllIncreasing(report[..i + 1])
    ensures Compare(report[i - 1], report[i], dir).value == Decreasing ==> AllDecreasing(report[..i + 1])
  {
    var before, after := report[..i], report[..i + 1];
    assert after[i - 1] == report[i - 1] && after[i] == report[i];
    assert forall k :: 0 <= k < i ==> after[k] == before[k];
  }

  /**
   * A rejected step at `i` rules out both directions: either the step itself
   * is out of range, or it goes against the direction of the earlier steps.
   */
  lemma BrokenStep(report: seq<int>, i: nat, dir: Direction)
    requires 1 <= i < |report|
    requires dir == NotSet <==> i == 1
    requires dir == Increasing ==> AllIncreasing(report[..i])
    requires dir == Decreasing ==> AllDecreasing(report[..i])
    requires Compare(report[i - 1], report[i], dir).Err?
    ensures !Safe(report)
  {
    if dir != NotSet {
      assert report[..i][0] == report[0] && report[..i][1] == report[1];
    }
  }

  /** The part 2 filter: safe, or safe after removing one level. */
  ghost predicate Tolerable(r: seq<int>) {
    Safe(r) || exists i :: 0 <= i < |r| && Safe(Remove(r, i))
  }

  /** The closure handed to `filter_map` in `part2`. */
  method IsTolerable(report: seq<int>) returns (ok: bool)
    requires |report| >= 1
    ensures ok <==> Tolerable(report)
  {
    ok := IsSafe(report);
    if ok {
      return;
    }
    for i := 0 to |report|
      invariant forall k :: 0 <= k < i ==> !Safe(Remove(report, k))
    {
      var tmp := Remove(report, i);
      // `tmp` is non-empty: a one-level report is always safe.
      var s := IsSafe(tmp);
      if s {
        return true;
      }
    }
    return false;
  }

  /** A report of a single level is safe. */
  lemma SingleLevelSafe(x: int)
    ensures Safe([x])
  {
  }

  /** Removing the first or the last level of a safe report keeps it safe. */
  lemma SafeDropEnds(r: seq<int>)
    requires |r| >= 1 && Safe(r)
    ensures Safe(Remove(r, 0)) && Safe(Remove(r, |r| - 1))
  {
    var a, b := Remove(r, 0), Remove(r, |r| - 1);
    if AllIncreasing(r) {
      assert AllIncreasing(a) by {
        forall k | 0 <= k < |a| - 1 ensures 1 <= a[k + 1] - a[k] <= 3 { assert a[k] == r[k + 1] && a[k + 1] == r[k + 2]; }
      }
      assert AllIncreasing(b);
    } else {
      assert AllDecreasing(a) by {
        forall k | 0 <= k < |a| - 1 ensures 1 <= a[k] - a[k + 1] <= 3 { assert a[k] == r[k + 1] && a[k + 1] == r[k + 2]; }
      }
      assert AllDecreasing(b);
    }
  }

  /** Every safe report is counted by part 2 as well, and so is a safe one with a stray level added at the front. */
  lemma SafeIsTolerable(r: seq<int>, x: int)
    requires Safe(r)
    ensures Tolerable(r) && Tolerable([x] + r)
  {
    assert Remove([x] + r, 0) == r;
  }

  /** The test cases of `compare_number_and_direction`. */
  lemma CompareExamples()
    ensures Compare(1, 2, NotSet) == Ok(Increasing) && Compare(1, 2, Increasing) == Ok(Increasing)
    ensures Compare(1, 2, Decreasing).Err? && Compare(2, 1, Decreasing) == Ok(Decreasing)
    ensures Compare(2, 1, NotSet) == Ok(Decreasing)
    ensures Compare(2, 2, NotSet).Err? && Compare(2, 2, Increasing).Err? && Compare(2, 2, Decreasing).Err?
    ensures Compare(2, 7, Decreasing).Err? && Compare(7, 2, Decreasing).Err?
    ensures Compare(7, 6, NotSet) == Ok(Decreasing) && Compare(6, 4, Decreasing) == Ok(Decreasing)
    ensures Compare(4, 2, Decreasing) == Ok(Decreasing)
  {
  }

  /** The report test cases of `is_safe`. */
  lemma SafeExamples()
    ensures Safe([7, 6, 4, 2, 1]) && Safe([1, 3, 6, 7, 9]) && Safe([1, 2, 4, 5])
    ensures !Safe([1, 2, 7, 8, 9]) && !Safe([9, 7, 6, 2, 1]) && !Safe([1, 3, 2, 4, 5]) && !Safe([8, 6, 4, 4, 1])
  {
    var a, b, c, d := [1, 2, 7, 8, 9], [9, 7, 6, 2, 1], [1, 3, 2, 4, 5], [8, 6, 4, 4, 1];
    assert a[2] - a[1] == 5 && a[1] - a[0] == 1;
    assert b[2] - b[3] == 4 && b[0] - b[1] == 2;
    assert c[2] - c[1] == -1 && c[1] - c[0] == 2;
    assert d[3] - d[2] == 0;
  }
}
