/**
 * day11/src/main.rs: a row of engraved stones blinks. On each blink a 0
 * becomes 1, a number with an even count of decimal digits splits into its
 * left and right halves, and any other number is multiplied by 2024. The
 * order of the stones never matters, so `blink` keeps a count per engraved
 * number and, after the requested number of blinks, adds the counts up.
 */
module Day11 {
  import opened Decimal
  import opened Sums

  /** `n.ilog10()` for a positive `n`. */
  function ILog10(n: nat): nat
    requires n > 0
  {
    if n < 10 then 0 else 1 + ILog10(n / 10)
  }

  /** `len`: `checked_ilog10` is `None` only for 0, which is taken as one digit. */
  function Len(n: nat): nat {
    (if n == 0 then 0 else ILog10(n)) + 1
  }

  /**
   * `len(n)` is the number of decimal digits of `n` as printed, and `n` lies
   * between `10^(len-1)` (or 0) and `10^len`.
   */
  lemma {:induction false} LenSpec(n: nat)
    ensures Len(n) == |ToDecimal(n)|
    ensures n < Pow10(Len(n))
    ensures n > 0 ==> Pow10(Len(n) - 1) <= n
  {
    if n >= 10 {
      LenSpec(n / 10);
    }
  }

  /** A number between `10^(k-1)` and `10^k` has `k` digits. */
  lemma {:induction false} LenBetween(n: nat, k: nat)
    requires k >= 1 && Pow10(k - 1) <= n < Pow10(k)
    ensures Len(n) == k
  {
    if k > 1 {
      assert n >= 10;
      LenBetween(n / 10, k - 1);
    }
  }

  lemma {:induction false} Pow10Add(a: nat, b: nat)
    ensures Pow10(a + b) == Pow10(a) * Pow10(b)
  {
    if a > 0 {
      Pow10Add(a - 1, b);
    }
  }

  /** `step`: the stones one stone turns into on a blink. */
  function Step(x: nat): seq<nat> {
    var d := Len(x);
    if x == 0 then [1]
    else if d % 2 == 0 then [x / Pow10(d / 2), x % Pow10(d / 2)]
    else [x * 2024]
  }

  /**
   * A blink yields two stones exactly for a non-zero number with an even
   * digit count, and one stone otherwise: 1 for 0, `x * 2024` for the rest.
   */
  lemma StepShape(x: nat)
    ensures 1 <= |Step(x)| <= 2
    ensures |Step(x)| == 2 <==> x != 0 && Len(x) % 2 == 0
    ensures x == 0 ==> Step(x) == [1]
    ensures x != 0 && Len(x) % 2 == 1 ==> Step(x) == [x * 2024]
  {
  }

  /**
   * A split cuts the digits in two halves: the left stone has exactly half
   * the digits, the right stone fewer than `10^(half)`, and putting the
   * halves back side by side gives the original number.
   */
  lemma SplitHalves(x: nat)
    requires x != 0 && Len(x) % 2 == 0
    ensures var h := Len(x) / 2;
      Step(x)[0] * Pow10(h) + Step(x)[1] == x
      && Len(Step(x)[0]) == h && Step(x)[1] < Pow10(h)
  {
    var d := Len(x);
    var h := d / 2;
    var p := Pow10(h);
    LenSpec(x);
    Pow10Add(h, h);
    Pow10Add(h - 1, h);
    assert d == h + h && d - 1 == (h - 1) + h;
    DivBounds(x, p, Pow10(h - 1), p);
    LenBetween(x / p, h);
  }

  /** Bounds on `x` between multiples of `p` bound the quotient `x / p`. */
  lemma DivBounds(x: nat, p: nat, lo: nat, hi: nat)
    requires p > 0 && lo * p <= x < hi * p
    ensures lo <= x / p < hi
    ensures (x / p) * p + x % p == x && x % p < p
  {
    var q := x / p;
    var r := x % p;
    assert x == q * p + r;
    if q >= hi {
      MulMono(hi, q, p);
      assert false;
    }
    if q < lo {
      MulMono(q + 1, lo, p);
      assert false;
    }
  }

  lemma MulMono(a: nat, b: nat, p: nat)
    requires a <= b
    ensures a * p <= b * p
  {
  }

  // ------------------------------------------------------------ count maps

  /** How many stones labelled `y` a list of stones holds. */
  function Occ(s: seq<nat>, y: nat): nat {
    if s == [] then 0 else Occ(s[..|s| - 1], y) + (if s[|s| - 1] == y then 1 else 0)
  }

  /** The count of `x` in `m`, 0 when absent. */
  function CountOf(m: map<nat, nat>): nat -> int {
    x => if x in m then m[x] else 0
  }

  /** What the stones labelled `x` contribute to the count of `y` after one blink. */
  function Contrib(m: map<nat, nat>, y: nat): nat -> int {
    x => if x in m then m[x] * Occ(Step(x), y) else 0
  }

  /** How many stones the stones labelled `x` turn into on one blink. */
  function Offspring(m: map<nat, nat>): nat -> int {
    x => if x in m then m[x] * |Step(x)| else 0
  }

  /** `stone_counts.values().sum()`, order-independently. */
  ghost function Total(m: map<nat, nat>): nat {
    SetSumNonNegative(m.Keys, CountOf(m));
    SetSum(m.Keys, CountOf(m))
  }

  /** The labels the stones of `done` turn into. */
  ghost function Image(done: set<nat>): set<nat> {
    set x, y | x in done && y in Step(x) :: y
  }

  /** The counts after the stones labelled in `done` have blinked. */
  ghost function Partial(m: map<nat, nat>, done: set<nat>): map<nat, nat> {
    map y | y in Image(done) :: SetSumNonNegative(done, Contrib(m, y)); SetSum(done, Contrib(m, y)) as nat
  }

  /** The count map after one blink: each count summed over the stones it came from. */
  ghost function Blinked(m: map<nat, nat>): map<nat, nat> {
    Partial(m, m.Keys)
  }

  /** The count map after `n` blinks. */
  ghost function BlinkTimes(m: map<nat, nat>, n: nat): map<nat, nat> {
    if n == 0 then m else Blinked(BlinkTimes(m, n - 1))
  }

  /** `acc.entry(y).and_modify(|e| *e += c).or_insert(c)`. */
  function Bump(acc: map<nat, nat>, y: nat, c: nat): map<nat, nat> {
    acc[y := (if y in acc then acc[y] else 0) + c]
  }

  /** The fold of `(y, c)` for every `y` in `ys`, left to right. */
  function BumpAll(acc: map<nat, nat>, ys: seq<nat>, c: nat): map<nat, nat> {
    if ys == [] then acc else Bump(BumpAll(acc, ys[..|ys| - 1], c), ys[|ys| - 1], c)
  }

  /** Folding `ys` in adds `c` for every occurrence, and creates exactly the missing labels. */
  lemma BumpAllSpec(acc: map<nat, nat>, ys: seq<nat>, c: nat)
    ensures BumpAll(acc, ys, c).Keys == acc.Keys + set y | y in ys
    ensures forall y :: y in BumpAll(acc, ys, c) ==>
      BumpAll(acc, ys, c)[y] == (if y in acc then acc[y] else 0) + c * Occ(ys, y)
  {
    BumpAllKeys(acc, ys, c);
    forall y | y in BumpAll(acc, ys, c)
      ensures BumpAll(acc, ys, c)[y] == (if y in acc then acc[y] else 0) + c * Occ(ys, y)
    {
      BumpAllValue(acc, ys, c, y);
    }
  }

  lemma {:induction false} BumpAllKeys(acc: map<nat, nat>, ys: seq<nat>, c: nat)
    ensures BumpAll(acc, ys, c).Keys == acc.Keys + set y | y in ys
  {
    if ys != [] {
      var init := ys[..|ys| - 1];
      BumpAllKeys(acc, init, c);
      assert ys == init + [ys[|ys| - 1]];
      assert (set y | y in ys) == (set y | y in init) + {ys[|ys| - 1]};
    }
  }

  lemma {:induction false} BumpAllValue(acc: map<nat, nat>, ys: seq<nat>, c: nat, y: nat)
    ensures y in BumpAll(acc, ys, c) ==>
      BumpAll(acc, ys, c)[y] == (if y in acc then acc[y] else 0) + c * Occ(ys, y)
  {
    if ys != [] {
      var init := ys[..|ys| - 1];
      var last := ys[|ys| - 1];
      var prev := BumpAll(acc, init, c);
      var k := Occ(init, y);
      BumpAllKeys(acc, init, c);
      BumpAllValue(acc, init, c, y);
      OccPositive(init, y);
      var before := if y in prev then prev[y] else 0;
      BeforeValue(acc, prev, y, c, k, before);
      if y == last {
        MulSucc(c, k);
        assert Occ(ys, y) == k + 1;
      } else {
        assert Occ(ys, y) == k;
      }
    }
  }

  /** The count of `y` before the last fold step, whether or not `y` had a label yet. */
  lemma BeforeValue(acc: map<nat, nat>, prev: map<nat, nat>, y: nat, c: nat, k: nat, before: nat)
    requires y in prev ==> prev[y] == (if y in acc then acc[y] else 0) + c * k
    requires y !in prev ==> y !in acc && k == 0
    requires before == if y in prev then prev[y] else 0
    ensures before == (if y in acc then acc[y] else 0) + c * k
  {
    if y !in prev {
      MulZero(c);
    }
  }

  lemma MulZero(c: nat)
    ensures c * 0 == 0
  {
  }

  lemma MulSucc(c: nat, k: nat)
    ensures c * (k + 1) == c * k + c
  {
  }

  /** A label occurs a positive number of times exactly when it is in the list. */
  lemma {:induction false} OccPositive(s: seq<nat>, y: nat)
    ensures Occ(s, y) > 0 <==> y in s
  {
    if s != [] {
      OccPositive(s[..|s| - 1], y);
      assert s == s[..|s| - 1] + [s[|s| - 1]];
    }
  }

  /** Bumping one label adds `c` to the total. */
  lemma BumpTotal(acc: map<nat, nat>, y: nat, c: nat)
    ensures Total(Bump(acc, y, c)) == Total(acc) + c
  {
    var acc' := Bump(acc, y, c);
    var f, g := CountOf(acc'), CountOf(acc);
    var rest := acc.Keys - {y};
    assert Total(acc') == SetSum(acc'.Keys, f) && Total(acc) == SetSum(acc.Keys, g);
    assert acc'.Keys - {y} == rest;
    assert forall x :: x in rest ==> f(x) == g(x);
    SetSumCongruent(rest, f, g);
    SetSumRemove(acc'.Keys, f, y);
    assert f(y) == g(y) + c;
    if y in acc {
      SetSumRemove(acc.Keys, g, y);
    } else {
      assert rest == acc.Keys;
    }
  }

  lemma {:induction false} BumpAllTotal(acc: map<nat, nat>, ys: seq<nat>, c: nat)
    ensures Total(BumpAll(acc, ys, c)) == Total(acc) + c * |ys|
  {
    if ys != [] {
      MulSucc(c, |ys| - 1);
      BumpAllTotal(acc, ys[..|ys| - 1], c);
      BumpTotal(BumpAll(acc, ys[..|ys| - 1], c), ys[|ys| - 1], c);
    }
  }

  /** A label's blinked count is its sum of contributions, which is 0 for a label nobody turns into. */
  lemma PartialAt(m: map<nat, nat>, done: set<nat>, y: nat)
    ensures y in Partial(m, done) <==> exists x :: x in done && y in Step(x)
    ensures y in Partial(m, done) ==> Partial(m, done)[y] == SetSum(done, Contrib(m, y))
    ensures y !in Partial(m, done) ==> SetSum(done, Contrib(m, y)) == 0
  {
    if y !in Partial(m, done) {
      NoContribution(m, done, y);
    }
  }

  /** A label that no stone of `done` turns into gets nothing from them. */
  lemma NoContribution(m: map<nat, nat>, done: set<nat>, y: nat)
    requires forall x :: x in done ==> y !in Step(x)
    ensures SetSum(done, Contrib(m, y)) == 0
  {
    forall x | x in done ensures Contrib(m, y)(x) == 0 {
      OccPositive(Step(x), y);
    }
    SetSumZero(done, Contrib(m, y));
  }

  /** Folding the offspring of one more label `x` turns `Partial(m, done)` into `Partial(m, done + {x})`. */
  lemma PartialStep(m: map<nat, nat>, done: set<nat>, x: nat)
    requires x in m && x !in done
    ensures BumpAll(Partial(m, done), Step(x), m[x]) == Partial(m, done + {x})
  {
    var r := BumpAll(Partial(m, done), Step(x), m[x]);
    var q := Partial(m, done + {x});
    PartialStepKeys(m, done, x);
    PartialStepValues(m, done, x);
    assert forall y :: y in r ==> r[y] == q[y];
  }

  lemma PartialStepKeys(m: map<nat, nat>, done: set<nat>, x: nat)
    requires x in m && x !in done
    ensures BumpAll(Partial(m, done), Step(x), m[x]).Keys == Partial(m, done + {x}).Keys
  {
    BumpAllSpec(Partial(m, done), Step(x), m[x]);
    forall y ensures y in Partial(m, done + {x}) <==> y in Partial(m, done) || y in Step(x) {
      PartialStepKey(m, done, x, y);
    }
  }

  lemma PartialStepValues(m: map<nat, nat>, done: set<nat>, x: nat)
    requires x in m && x !in done
    ensures forall y :: y in BumpAll(Partial(m, done), Step(x), m[x]) && y in Partial(m, done + {x}) ==>
      BumpAll(Partial(m, done), Step(x), m[x])[y] == Partial(m, done + {x})[y]
  {
    BumpAllSpec(Partial(m, done), Step(x), m[x]);
    forall y | y in Partial(m, done + {x}) {
      PartialStepValue(m, done, x, y);
    }
  }

  lemma PartialStepKey(m: map<nat, nat>, done: set<nat>, x: nat, y: nat)
    ensures y in Partial(m, done + {x}) <==> y in Partial(m, done) || y in Step(x)
  {
    PartialAt(m, done, y);
    PartialAt(m, done + {x}, y);
  }

  lemma PartialStepValue(m: map<nat, nat>, done: set<nat>, x: nat, y: nat)
    requires x in m && x !in done && y in Partial(m, done + {x})
    ensures Partial(m, done + {x})[y] == (if y in Partial(m, done) then Partial(m, done)[y] else 0) + m[x] * Occ(Step(x), y)
  {
    PartialAt(m, done, y);
    PartialAt(m, done + {x}, y);
    SetSumAdd(done, Contrib(m, y), x);
    assert Contrib(m, y)(x) == m[x] * Occ(Step(x), y);
  }

  /**
   * One iteration of `blink`'s loop: the `flat_map`/`fold` that rebuilds the
   * count map. The new counts are the blinked counts, and their total is the
   * number of stones the old ones turn into.
   */
  method BlinkOnce(m: map<nat, nat>) returns (acc: map<nat, nat>)
    ensures acc == Blinked(m)
    ensures Total(acc) == SetSum(m.Keys, Offspring(m))
  {
    acc := map[];
    var todo := m.Keys;
    ghost var done: set<nat> := {};
    NothingBlinked(m);
    while todo != {}
      invariant done !! todo && done + todo == m.Keys
      invariant acc == Partial(m, done)
      invariant Total(acc) == SetSum(done, Offspring(m))
      decreases |todo|
    {
      var x :| x in todo;
      BlinkOneLabel(m, done, x);
      acc := AddOffspring(acc, Step(x), m[x]);
      ShiftElement(done, todo, x);
      done := done + {x};
      todo := todo - {x};
    }
    Exhausted(done, todo, m.Keys);
  }

  /** Before any label is folded in, the map is empty and so is its total. */
  lemma NothingBlinked(m: map<nat, nat>)
    ensures Partial(m, {}) == map[]
    ensures Total(map[]) == SetSum({}, Offspring(m)) == 0
  {
    SetSumNonNegative({}, CountOf(map[]));
  }

  /** Folding in the offspring of one more label keeps both loop invariants of `BlinkOnce`. */
  lemma BlinkOneLabel(m: map<nat, nat>, done: set<nat>, x: nat)
    requires x in m && x !in done
    ensures BumpAll(Partial(m, done), Step(x), m[x]) == Partial(m, done + {x})
    ensures Total(Partial(m, done)) == SetSum(done, Offspring(m)) ==>
      Total(BumpAll(Partial(m, done), Step(x), m[x])) == SetSum(done + {x}, Offspring(m))
  {
    PartialStep(m, done, x);
    BumpAllTotal(Partial(m, done), Step(x), m[x]);
    SetSumAdd(done, Offspring(m), x);
  }

  /** `step(num).iter().map(|x| (*x, count))` folded into `acc`. */
  method AddOffspring(acc0: map<nat, nat>, ys: seq<nat>, c: nat) returns (acc: map<nat, nat>)
    ensures acc == BumpAll(acc0, ys, c)
  {
    acc := acc0;
    for k := 0 to |ys|
      invariant acc == BumpAll(acc0, ys[..k], c)
    {
      assert ys[..k + 1][..k] == ys[..k];
      acc := Bump(acc, ys[k], c);
    }
    assert ys[..|ys|] == ys;
  }

  /** `stone_counts.values().sum()`. */
  method SumValues(m: map<nat, nat>) returns (r: nat)
    ensures r == SetSum(m.Keys, CountOf(m))
  {
    r := 0;
    var todo := m.Keys;
    while todo != {}
      invariant Summing(m, todo, r)
      decreases |todo|
    {
      var x :| x in todo;
      AddCount(m, todo, x, r);
      r := r + m[x];
      todo := todo - {x};
    }
    SumDone(m, todo, r);
  }

  lemma SumDone(m: map<nat, nat>, todo: set<nat>, r: int)
    requires Summing(m, todo, r) && todo == {}
    ensures r == SetSum(m.Keys, CountOf(m))
  {
    assert m.Keys - todo == m.Keys;
  }

  lemma TotalIsSum(m: map<nat, nat>, r: int)
    requires r == SetSum(m.Keys, CountOf(m))
    ensures r == Total(m)
  {
  }

  /** The keys still to add are `todo`, and `r` is the sum of the others. */
  ghost predicate Summing(m: map<nat, nat>, todo: set<nat>, r: int) {
    todo <= m.Keys && r == SetSum(m.Keys - todo, CountOf(m))
  }

  /** One step of the sum of the counts. */
  lemma AddCount(m: map<nat, nat>, todo: set<nat>, x: nat, r: int)
    requires Summing(m, todo, r) && x in todo
    ensures Summing(m, todo - {x}, r + m[x]) && |todo - {x}| < |todo|
  {
    assert m.Keys - (todo - {x}) == (m.Keys - todo) + {x};
    SetSumAdd(m.Keys - todo, CountOf(m), x);
  }

  /** `blink(count, stone_counts)`: the number of stones after `count` blinks. */
  method Blink(count: nat, stoneCounts: map<nat, nat>) returns (r: nat)
    ensures r == Total(BlinkTimes(stoneCounts, count))
  {
    var stones := stoneCounts;
    for i := 0 to count
      invariant stones == BlinkTimes(stoneCounts, i)
    {
      stones := BlinkOnce(stones);
    }
    r := SumValues(stones);
    TotalIsSum(stones, r);
  }

  /** With no blink at all, `blink` returns the number of stones it was given. */
  lemma BlinkZero(m: map<nat, nat>)
    ensures BlinkTimes(m, 0) == m
    ensures Total(BlinkTimes(m, 0)) == SetSum(m.Keys, CountOf(m))
  {
  }

  /** Sample values: `len` of 0, 9, 10 and 1000, and each rule of `step` once. */
  lemma Examples()
    ensures Len(0) == 1 && Len(9) == 1 && Len(10) == 2 && Len(1000) == 4
    ensures Step(0) == [1] && Step(1) == [2024] && Step(1000) == [10, 0] && Step(99) == [9, 9]
  {
    assert Len(1000) == 4;
    assert Pow10(2) == 100;
  }
}
