/**
 * Day 22: the monkeys' secret numbers. A secret evolves by a 24-bit
 * xorshift step; a buyer's price is the last decimal digit of the secret,
 * and a buyer sells at the first time the last four price changes match
 * the chosen pattern.
 */
module Day22 {
  import opened Wrappers
  import opened Bits

  /** The secrets are pruned to 24 bits. */
  const Modulus: nat := 16777216

  /** Shifts act on `u64`: bits shifted past bit 63 are lost. */
  const WordSize: nat := 18446744073709551616

  lemma ModulusIsPow2()
    ensures Modulus == Pow2(24) && Pow2(6) == 64 && Pow2(11) == 2048
  {
    assert Pow2(6) == 64;
    assert Pow2(11) == 2048;
    assert Pow2(24) == 2048 * 8192;
  }

  /** Mix in the secret times 64, prune; mix in the secret divided by 32, prune; mix in the secret times 2048, prune. */
  function NextSecret(s: nat): (r: nat)
    ensures r < Modulus
  {
    var a := Xor(s, (s * 64) % WordSize) % Modulus;
    var b := Xor(a, a / 32) % Modulus;
    Xor(b, (b * 2048) % WordSize) % Modulus
  }

  /** Each evolved secret is a 24-bit number, and the middle pruning never removes anything. */
  lemma NextSecretSpec(s: nat)
    ensures NextSecret(s) < Modulus
    ensures var a := Xor(s, (s * 64) % WordSize) % Modulus;
      Xor(a, a / 32) < Modulus
  {
    ModulusIsPow2();
    var a := Xor(s, (s * 64) % WordSize) % Modulus;
    XorBound(a, a / 32, 24);
  }

  /** The first mixing step, pruned, reads only the low 24 bits of the secret. */
  lemma FirstMixLow24(s: nat)
    ensures Xor(s, (s * 64) % WordSize) % Modulus == Xor(s % Modulus, (s % Modulus * 64) % WordSize) % Modulus
  {
    ModulusIsPow2();
    var t := s % Modulus;
    var u, v := (s * 64) % WordSize, (t * 64) % WordSize;
    XorMod(s, u, 24);
    XorMod(t, v, 24);
    ShiftLow24(s);
    DivModUnique(t, Modulus, 0, t);
    assert Xor(s, u) % Modulus == Xor(t, v % Modulus);
    assert Xor(t, v) % Modulus == Xor(t, v % Modulus);
  }

  /** The shifted secret, pruned, depends only on the low 24 bits of the secret. */
  lemma ShiftLow24(s: nat)
    ensures ((s * 64) % WordSize) % Modulus == ((s % Modulus * 64) % WordSize) % Modulus
  {
    var t := s % Modulus;
    assert WordSize == Modulus * 1099511627776;
    ModOfMultipleMod(s * 64, Modulus, 1099511627776);
    ModOfMultipleMod(t * 64, Modulus, 1099511627776);
    MulMod(s, 64, Modulus);
  }

  /**
   * Only the low 24 bits of a secret decide the next one, so the bits lost
   * when the `u64` shift overflows never matter.
   */
  lemma NextSecretLow24(s: nat)
    ensures NextSecret(s) == NextSecret(s % Modulus)
  {
    FirstMixLow24(s);
  }

  /** The `k`-th secret after `s`. */
  function Secret(s: nat, k: nat): nat {
    if k == 0 then s else NextSecret(Secret(s, k - 1))
  }

  /** Every secret after the first is a 24-bit number. */
  lemma SecretBound(s: nat, k: nat)
    requires k >= 1
    ensures Secret(s, k) < Modulus
  {
    NextSecretSpec(Secret(s, k - 1));
  }

  /** A buyer's price at step `k`: the last digit of the secret. */
  function Price(s: nat, k: nat): nat {
    Secret(s, k) % 10
  }

  /** The change in price from step `k - 1` to step `k`. */
  function Change(s: nat, k: nat): int
    requires k >= 1
  {
    Price(s, k) - Price(s, k - 1)
  }

  /** `Seed`: a secret that evolves in place; its iterator yields the evolved secret and never ends. */
  class Seed {
    var value: nat

    constructor (value: nat)
      ensures this.value == value
    {
      this.value := value;
    }

    /** `Seed::next`. */
    method Next() returns (item: Option<nat>)
      modifies this
      ensures value == NextSecret(old(value)) && item == Some(value)
    {
      var r := Xor(value, (value * 64) % WordSize);
      r := r % Modulus;
      r := Xor(r, r / 32);
      r := r % Modulus;
      r := Xor(r, (r * 2048) % WordSize);
      r := r % Modulus;
      value := r;
      item := Some(r);
    }

    /** `Iterator::nth`: advance `n + 1` times and yield the last secret. */
    method Nth(n: nat) returns (item: Option<nat>)
      modifies this
      ensures value == Secret(old(value), n + 1) && item == Some(value)
    {
      ghost var start := value;
      item := Next();
      var i := 0;
      while i < n
        invariant i <= n
        invariant value == Secret(start, i + 1) && item == Some(value)
      {
        item := Next();
        i := i + 1;
      }
    }
  }

  /** What the first part adds up: the 2000th evolved secret of every buyer. */
  function Part1Total(seeds: seq<nat>): nat {
    if seeds == [] then 0 else Part1Total(seeds[..|seeds| - 1]) + Secret(seeds[|seeds| - 1], 2000)
  }

  /** The first part, one buyer after the other. */
  method Part1(seeds: seq<nat>) returns (total: nat)
    ensures total == Part1Total(seeds)
  {
    total := 0;
    for i := 0 to |seeds|
      invariant total == Part1Total(seeds[..i])
    {
      var seed := new Seed(seeds[i]);
      var item := seed.Nth(1999);
      assert seeds[..i + 1][..i] == seeds[..i];
      total := total + item.value;
    }
    assert seeds[..|seeds|] == seeds;
  }

  /** One item of the difference iterator: a price change and the price reached. */
  type Item = (int, nat)

  /**
   * The first `n` items of a buyer's difference iterator whose previous
   * digit starts out as `last`: item `i` is the price at step `i + 1` and
   * its change from the price before it, the very first change being taken
   * from `last`.
   */
  function Items(s: nat, last: nat, n: nat): (r: seq<Item>)
    ensures |r| == n
  {
    seq(n, i requires 0 <= i < n => (Price(s, i + 1) - (if i == 0 then last else Price(s, i)), Price(s, i + 1)))
  }

  /** The intended items: every change is the change of the price at that step. */
  function Changes(s: nat, n: nat): (r: seq<Item>)
    ensures |r| == n
  {
    seq(n, i requires 0 <= i < n => (Change(s, i + 1), Price(s, i + 1)))
  }

  /** Starting from the initial price, the items are exactly the price changes; each lies in -9..=9 and each price in 0..=9. */
  lemma ItemsFromInitialPrice(s: nat, n: nat)
    ensures Items(s, Price(s, 0), n) == Changes(s, n)
    ensures forall i :: 0 <= i < n ==> -9 <= Changes(s, n)[i].0 <= 9 && Changes(s, n)[i].1 <= 9
  {
  }

  /** `Differences`: a seed one step ahead and the last digit seen. */
  class Differences {
    var data: nat
    var lastDigit: nat

    /** The state after `k` items of buyer `s`, the previous digit being `last`. */
    ghost predicate At(s: nat, k: nat, last: nat)
      reads this
    {
      data == Secret(s, k + 1) && lastDigit == last
    }

    /**
     * `Differences::new` as written: the seed is advanced before its digit
     * is read, so the previous digit starts as the first evolved price.
     */
    constructor New(s: nat)
      ensures At(s, 0, Price(s, 1))
    {
      var seed := new Seed(s);
      var next := seed.Next();
      data := next.value;
      lastDigit := seed.value % 10;
    }

    /** `Differences::new` reading the digit before advancing: the previous digit is the initial price. */
    constructor Start(s: nat)
      ensures At(s, 0, Price(s, 0))
    {
      var seed := new Seed(s);
      var digit := seed.value % 10;
      var next := seed.Next();
      data := next.value;
      lastDigit := digit;
    }

    /** `Differences::next`: the change from the last digit to the current one, and the current digit. */
    method Next() returns (item: Item)
      modifies this
      ensures item == (old(data) % 10 - old(lastDigit), old(data) % 10)
      ensures data == NextSecret(old(data)) && lastDigit == old(data) % 10
    {
      var current := data % 10;
      var result := current - lastDigit;
      lastDigit := current;
      var seed := new Seed(data);
      var next := seed.Next();
      data := next.value;
      item := (result, lastDigit);
    }

    /** `take(n)`: the first `n` items of a fresh iterator. */
    method Take(n: nat, ghost s: nat, ghost last: nat) returns (items: seq<Item>)
      requires At(s, 0, last)
      modifies this
      ensures items == Items(s, last, n)
      ensures n > 0 ==> At(s, n, Price(s, n))
    {
      items := [];
      for i := 0 to n
        invariant |items| == i
        invariant i == 0 ==> At(s, 0, last)
        invariant i > 0 ==> At(s, i, Price(s, i))
        invariant forall j :: 0 <= j < i ==> items[j] == Items(s, last, n)[j]
      {
        var item := Next();
        items := items + [item];
      }
    }
  }

  /** The as-written iterator always starts with a change of 0, whatever the prices; later items agree with the intended ones. */
  lemma AsWrittenFirstChange(s: nat, n: nat)
    requires n >= 1
    ensures Items(s, Price(s, 1), n)[0] == (0, Price(s, 1))
    ensures forall i :: 1 <= i < n ==> Items(s, Price(s, 1), n)[i] == Changes(s, n)[i]
  {
  }

  /** The secret after 1: 1 ^ 64 is 65, 65 ^ 2 is 67, 67 ^ 137216 is 137283. */
  lemma NextSecretOfOne()
    ensures NextSecret(1) == 137283
  {
    MixOne();
    MixTwo();
    MixThree(67);
  }

  lemma MixOne()
    ensures Xor(1, (1 * 64) % WordSize) % Modulus == 65
  {
    ModulusIsPow2();
    assert Shl(1, 6) == 64;
    XorDisjoint(1, 1, 6);
  }

  lemma MixTwo()
    ensures Xor(65, 65 / 32) % Modulus == 67
  {
    XorUnfold(32, 1, 16);
    XorUnfold(65, 2, 33);
  }

  lemma MixThree(b: nat)
    requires b == 67
    ensures Xor(b, (b * 2048) % WordSize) % Modulus == 137283
  {
    ModulusIsPow2();
    assert Shl(b, 11) == 137216 == (b * 2048) % WordSize;
    XorDisjoint(b, b, 11);
  }

  /** For the buyer with secret 1 the first price change is 2, not 0. */
  lemma AsWrittenDiffers()
    ensures Secret(1, 1) == 137283
    ensures Changes(1, 1)[0].0 == 2 && Items(1, Price(1, 1), 1)[0].0 == 0
  {
    NextSecretOfOne();
    assert Secret(1, 1) == 137283;
    assert Price(1, 0) == 1 && Price(1, 1) == 3;
    assert Change(1, 1) == 2;
  }

  /** The pattern of four consecutive changes ending at item `j + 3`. */
  function Key(items: seq<Item>, j: nat): (int, int, int, int)
    requires j + 3 < |items|
  {
    (items[j].0, items[j + 1].0, items[j + 2].0, items[j + 3].0)
  }

  /** `j` is the first window with pattern `key`. */
  ghost predicate FirstAt(items: seq<Item>, key: (int, int, int, int), j: nat) {
    j + 3 < |items| && Key(items, j) == key && forall i :: 0 <= i < j ==> Key(items, i) != key
  }

  /**
   * The `tuple_windows` fold with `or_insert`: the map holds exactly the
   * patterns that occur, each with the price at the end of its first
   * occurrence.
   */
  method FirstWindows(items: seq<Item>) returns (m: map<(int, int, int, int), nat>)
    ensures forall key :: key in m <==> exists j: nat :: FirstAt(items, key, j)
    ensures forall key, j: nat :: key in m && FirstAt(items, key, j) ==> m[key] == items[j + 3].1
  {
    m := map[];
    if |items| < 4 {
      return;
    }
    for i := 0 to |items| - 3
      invariant forall key :: key in m <==> exists j: nat :: j < i && FirstAt(items, key, j)
      invariant forall key, j: nat :: key in m && j < i && FirstAt(items, key, j) ==> m[key] == items[j + 3].1
      invariant forall j :: 0 <= j < i ==> Key(items, j) in m
    {
      var key := Key(items, i);
      if key !in m {
        assert FirstAt(items, key, i);
        m := m[key := items[i + 3].1];
      } else {
        forall j: nat | FirstAt(items, key, j)
          ensures j < i
        {
          var f: nat :| f < i && FirstAt(items, key, f);
          assert Key(items, f) == key;
        }
      }
    }
  }

  /** How many price changes a buyer offers. */
  const Horizon: nat := 2000

  /**
   * `part2` as written: the iterator comes from `Differences::new`, so the
   * patterns are those of the as-written items, whose first change is 0.
   */
  method Part2(seed: nat) returns (m: map<(int, int, int, int), nat>)
    ensures forall key :: key in m <==> exists j: nat :: FirstAt(Items(seed, Price(seed, 1), Horizon), key, j)
    ensures forall key, j: nat :: key in m && FirstAt(Items(seed, Price(seed, 1), Horizon), key, j) ==> m[key] == Price(seed, j + 4)
  {
    var d := new Differences.New(seed);
    var items := d.Take(Horizon, seed, Price(seed, 1));
    m := FirstWindows(items);
  }

  /**
   * `part2` with the iterator started from the initial price: the first
   * price of every pattern among a buyer's first 2000 true price changes.
   */
  method Part2Intended(seed: nat) returns (m: map<(int, int, int, int), nat>)
    ensures forall key :: key in m <==> exists j: nat :: FirstAt(Changes(seed, Horizon), key, j)
    ensures forall key, j: nat :: key in m && FirstAt(Changes(seed, Horizon), key, j) ==> m[key] == Price(seed, j + 4)
  {
    var d := new Differences.Start(seed);
    var items := d.Take(Horizon, seed, Price(seed, 0));
    ItemsFromInitialPrice(seed, Horizon);
    m := FirstWindows(items);
  }

  /**
   * The two versions file every window but the first under the same
   * pattern: only the window ending at the fourth change can differ.
   */
  lemma WindowsAgreeAfterFirst(s: nat, n: nat, j: nat)
    requires 1 <= j && j + 3 < n
    ensures Key(Items(s, Price(s, 1), n), j) == Key(Changes(s, n), j)
  {
    AsWrittenFirstChange(s, n);
  }
}
