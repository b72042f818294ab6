/**
 * Day 7 (day07/src/main.rs): can the numbers of an equation, combined left
 * to right with `*`, `+` (and in part 2 decimal concatenation), reach the
 * test value? Both searches try the operators in that order and return the
 * test value when one combination reaches it.
 */
module Day07 {
  import opened Wrappers
  import opened Decimal

  datatype Op = Mul | Plus | Concat

  /** `format!("{acc}{n}").parse()`. */
  function ConcatNumbers(acc: nat, n: nat): nat {
    FromDecimal(ToDecimal(acc) + ToDecimal(n))
  }

  /** Concatenation is `acc * 10^d + n`, where `d` is the number of digits of `n`. */
  lemma ConcatArithmetic(acc: nat, n: nat)
    ensures ConcatNumbers(acc, n) == acc * Pow10(|ToDecimal(n)|) + n
  {
    FromDecimalAppend(ToDecimal(acc), ToDecimal(n));
    DecimalRoundTrip(acc);
    DecimalRoundTrip(n);
  }

  // ---------------------------------------------------------- searches

  /** `part1`: `*` first, then `+`. A solution is always the test value itself. */
  function Part1(result: nat, nums: seq<nat>, acc: nat): (r: Option<nat>)
    ensures r.Some? ==> r == Some(result)
  {
    if nums == [] then (if acc == result then Some(result) else None)
    else
      var current := nums[0];
      var rest := nums[1..];
      match (Part1(result, rest, acc * current), Part1(result, rest, acc + current))
      case (None, None) => None
      case (None, Some(v)) => Some(v)
      case (Some(v), _) => Some(v)
  }

  /** `part2`: the first `Some` of `*`, `+` and concatenation. A solution is always the test value itself. */
  function Part2(result: nat, nums: seq<nat>, acc: nat): (r: Option<nat>)
    ensures r.Some? ==> r == Some(result)
  {
    if nums == [] then (if acc == result then Some(result) else None)
    else
      var current := nums[0];
      var rest := nums[1..];
      var candidates := [Part2(result, rest, acc * current), Part2(result, rest, acc + current),
                         Part2(result, rest, ConcatNumbers(acc, current))];
      FirstSome(candidates)
  }

  /** `.iter().filter_map(|x| *x).next()`. */
  function FirstSome(s: seq<Option<nat>>): (r: Option<nat>)
    ensures r.Some? <==> exists i :: 0 <= i < |s| && s[i].Some?
    ensures r.Some? ==> r in s
  {
    if s == [] then None else if s[0].Some? then s[0] else FirstSome(s[1..])
  }

  lemma FirstOfThree(m: Option<nat>, p: Option<nat>, k: Option<nat>)
    ensures FirstSome([m, p, k]) == if m.Some? then m else if p.Some? then p else k
  {
    assert [k][1..] == [];
    assert FirstSome([k]) == k;
    assert [p, k][1..] == [k];
    assert FirstSome([p, k]) == if p.Some? then p else k;
    assert [m, p, k][1..] == [p, k];
  }

  function Apply(op: Op, acc: nat, n: nat): nat {
    match op
    case Mul => acc * n
    case Plus => acc + n
    case Concat => ConcatNumbers(acc, n)
  }

  /** Combining `nums` left to right onto `acc` with one operator each. */
  function Eval(acc: nat, nums: seq<nat>, ops: seq<Op>): nat
    requires |ops| == |nums|
    decreases |nums|
  {
    if nums == [] then acc else Eval(Apply(ops[0], acc, nums[0]), nums[1..], ops[1..])
  }

  /** A sequence of operators allowed in part 1. */
  predicate NoConcat(ops: seq<Op>) { forall i :: 0 <= i < |ops| ==> ops[i] != Concat }

  ghost predicate Reachable1(result: nat, nums: seq<nat>, acc: nat) {
    exists ops :: |ops| == |nums| && NoConcat(ops) && Eval(acc, nums, ops) == result
  }

  ghost predicate Reachable2(result: nat, nums: seq<nat>, acc: nat) {
    exists ops :: |ops| == |nums| && Eval(acc, nums, ops) == result
  }

  /**
   * `part1` finds the test value exactly when some choice of `*` and `+`
   * reaches it, and it never returns anything else.
   */
  lemma {:induction false} Part1Spec(result: nat, nums: seq<nat>, acc: nat)
    ensures Part1(result, nums, acc).Some? <==> Reachable1(result, nums, acc)
    ensures Part1(result, nums, acc).Some? ==> Part1(result, nums, acc) == Some(result)
  {
    if nums == [] {
      if acc == result {
        assert Eval(acc, nums, []) == result;
      }
    } else {
      var c, rest := nums[0], nums[1..];
      Part1Spec(result, rest, acc * c);
      Part1Spec(result, rest, acc + c);
      if Reachable1(result, nums, acc) {
        var ops :| |ops| == |nums| && NoConcat(ops) && Eval(acc, nums, ops) == result;
        assert NoConcat(ops[1..]);
        if ops[0] == Mul {
          assert Reachable1(result, rest, acc * c);
        } else {
          assert Reachable1(result, rest, acc + c);
        }
      }
      if Reachable1(result, rest, acc * c) {
        var ops :| |ops| == |rest| && NoConcat(ops) && Eval(acc * c, rest, ops) == result;
        assert Eval(acc, nums, [Mul] + ops) == result;
        assert NoConcat([Mul] + ops);
      }
      if Reachable1(result, rest, acc + c) {
        var ops :| |ops| == |rest| && NoConcat(ops) && Eval(acc + c, rest, ops) == result;
        assert Eval(acc, nums, [Plus] + ops) == result;
        assert NoConcat([Plus] + ops);
      }
    }
  }

  /** One step of the part 2 reference: the first operator is one of the three. */
  lemma Reachable2Cons(result: nat, nums: seq<nat>, acc: nat)
    requires nums != []
    ensures Reachable2(result, nums, acc) <==>
      (|| Reachable2(result, nums[1..], acc * nums[0])
       || Reachable2(result, nums[1..], acc + nums[0])
       || Reachable2(result, nums[1..], ConcatNumbers(acc, nums[0])))
  {
    var c, rest := nums[0], nums[1..];
    if Reachable2(result, nums, acc) {
      var ops :| |ops| == |nums| && Eval(acc, nums, ops) == result;
      assert Eval(Apply(ops[0], acc, c), rest, ops[1..]) == result;
      assert Reachable2(result, rest, Apply(ops[0], acc, c));
    }
    forall op: Op | Reachable2(result, rest, Apply(op, acc, c))
      ensures Reachable2(result, nums, acc)
    {
      var ops :| |ops| == |rest| && Eval(Apply(op, acc, c), rest, ops) == result;
      assert Eval(acc, nums, [op] + ops) == result;
    }
    assert Apply(Mul, acc, c) == acc * c;
    assert Apply(Plus, acc, c) == acc + c;
    assert Apply(Concat, acc, c) == ConcatNumbers(acc, c);
  }

  /** `part2` is the same search with concatenation added. */
  lemma {:induction false} Part2Spec(result: nat, nums: seq<nat>, acc: nat)
    ensures Part2(result, nums, acc).Some? <==> Reachable2(result, nums, acc)
    ensures Part2(result, nums, acc).Some? ==> Part2(result, nums, acc) == Some(result)
  {
    if nums == [] {
      if acc == result {
        assert Eval(acc, nums, []) == result;
      }
    } else {
      var c, rest := nums[0], nums[1..];
      Part2Spec(result, rest, acc * c);
      Part2Spec(result, rest, acc + c);
      Part2Spec(result, rest, ConcatNumbers(acc, c));
      Reachable2Cons(result, nums, acc);
      var m, p, k := Part2(result, rest, acc * c), Part2(result, rest, acc + c), Part2(result, rest, ConcatNumbers(acc, c));
      FirstOfThree(m, p, k);
      assert Part2(result, nums, acc) == FirstSome([m, p, k]);
    }
  }

  /** Every equation part 1 can solve, part 2 can solve as well. */
  lemma Part1ImpliesPart2(result: nat, nums: seq<nat>, acc: nat)
    ensures Part1(result, nums, acc).Some? ==> Part2(result, nums, acc) == Some(result)
  {
    Part1Spec(result, nums, acc);
    Part2Spec(result, nums, acc);
  }

  /** What `main` adds up for one equation: `acc` is seeded with `nums[0]`. */
  function Calibration(result: nat, nums: seq<nat>, part2: bool): nat
    requires |nums| > 0
  {
    var r := if part2 then Part2(result, nums[1..], nums[0]) else Part1(result, nums[1..], nums[0]);
    if r.Some? then r.value else 0
  }

  /** `190: 10 19` and `3267: 81 40 27` solve with `*` and `+`, `83: 17 5` does not, and `156: 15 6` needs concatenation. */
  lemma Examples()
    ensures Calibration(190, [10, 19], false) == 190
    ensures Calibration(3267, [81, 40, 27], false) == 3267
    ensures Calibration(83, [17, 5], false) == 0
    ensures Calibration(156, [15, 6], true) == 156 && Calibration(156, [15, 6], false) == 0
  {
    assert Part1(3267, [27], 3240) == Some(3267);
    assert Part1(3267, [40, 27], 81) == Some(3267);
    ConcatArithmetic(15, 6);
    assert ToDecimal(6) == "6";
    assert ConcatNumbers(15, 6) == 156;
    assert Part2(156, [], 156) == Some(156);
    assert Part2(156, [6], 15) == FirstSome([None, None, Some(156)]);
  }
}
