/**
 * Day 17, the reverse search of day17/src/part2.rs: find a value of
 * register A for which the program prints itself. The search relies on the
 * decompiled program, which prints one digit per octal digit of A through a
 * closed formula; it matches the program from its last number backwards,
 * multiplying A by 8 for each further digit matched and counting A up by one
 * where the digits do not match.
 *
 * The `u64` arithmetic is explicit: `a >> (3 * x)` panics once `3 * x`
 * reaches 64, `a <<= 3` drops the bits shifted out, and `a += 1` panics at
 * `u64::MAX`. The search need not end, so it runs on a budget of rounds.
 */
module Day17Part2 {
  import opened Wrappers
  import opened Bits
  import P = Day17Program
  import M = Day17Main

  /** The formula for the digit printed while A is `s`: `((s & 7) ^ 3) ^ (s >> ((s & 7) ^ 5))`, masked by 7. */
  function DigitOf(s: nat): nat {
    Xor(Xor(s % 8, 3), P.Shr(s, Xor(s % 8, 5))) % 8
  }

  /** Digit `x` of the formula for `a`; `None` where `a >> (3 * x)` overflows. */
  function Digit(a: nat, x: nat): Option<nat> {
    if 3 * x >= 64 then None else Some(DigitOf(P.Shr(a, 3 * x)))
  }

  /** `(0..n).map(...).collect()`: the first `n` digits, `None` if one of them panics. */
  function Digits(a: nat, n: nat): (r: Option<seq<nat>>)
    ensures r.Some? <==> n == 0 || 3 * (n - 1) < 64
    ensures r.Some? ==> |r.value| == n
  {
    if n == 0 then Some([])
    else
      var front := Digits(a, n - 1);
      var last := Digit(a, n - 1);
      if front.None? || last.None? then None else Some(front.value + [last.value])
  }

  /** How the search ends. */
  datatype Search = Found(a: nat) | SearchPanicked | GaveUp

  /** `a <<= 3` on `u64`. */
  function Shl3(a: nat): (r: nat)
    ensures P.IsU64(r)
  {
    (a * 8) % P.U64Limit
  }

  /** The search from `a` with `digits` digits matched, on a budget of `fuel` rounds. */
  function SearchFrom(code: seq<nat>, a: nat, digits: nat, fuel: nat): Search
    requires 1 <= digits <= |code|
    decreases fuel
  {
    if fuel == 0 then GaveUp
    else
      var result := Digits(a, digits);
      if result.None? then SearchPanicked
      else if result.value == code[|code| - digits..] then
        if digits == |code| then Found(a)
        else SearchFrom(code, Shl3(a), digits + 1, fuel - 1)
      else if a + 1 >= P.U64Limit then SearchPanicked
      else SearchFrom(code, a + 1, digits, fuel - 1)
  }

  /** One round of the search, case by case. */
  lemma SearchStep(code: seq<nat>, a: nat, digits: nat, fuel: nat)
    requires 1 <= digits <= |code| && fuel > 0
    ensures Digits(a, digits).None? ==> SearchFrom(code, a, digits, fuel) == SearchPanicked
    ensures Digits(a, digits).Some? && Digits(a, digits).value == code[|code| - digits..] ==>
      SearchFrom(code, a, digits, fuel) == if digits == |code| then Found(a) else SearchFrom(code, Shl3(a), digits + 1, fuel - 1)
    ensures Digits(a, digits).Some? && Digits(a, digits).value != code[|code| - digits..] ==>
      SearchFrom(code, a, digits, fuel) == if a + 1 >= P.U64Limit then SearchPanicked else SearchFrom(code, a + 1, digits, fuel - 1)
  {
  }

  /** `part2`, on a budget of `fuel` rounds. */
  method Part2(code: seq<nat>, fuel: nat) returns (outcome: Search)
    requires |code| >= 1
    ensures outcome == SearchFrom(code, 0, 1, fuel)
  {
    var a: nat := 0;
    var digitsFound: nat := 1;
    var left := fuel;
    while left > 0
      invariant 1 <= digitsFound <= |code|
      invariant SearchFrom(code, a, digitsFound, left) == SearchFrom(code, 0, 1, fuel)
    {
      SearchStep(code, a, digitsFound, left);
      var result := Digits(a, digitsFound);
      if result.None? {
        return SearchPanicked;
      }
      if result.value == code[|code| - digitsFound..] {
        if digitsFound == |code| {
          return Found(a);
        }
        a := Shl3(a);
        digitsFound := digitsFound + 1;
      } else {
        if a + 1 >= P.U64Limit {
          return SearchPanicked;
        }
        a := a + 1;
      }
      left := left - 1;
    }
    return GaveUp;
  }

  /** What the search finds produces the whole program through the formula. */
  lemma {:induction false} SearchFound(code: seq<nat>, a: nat, digits: nat, fuel: nat)
    requires 1 <= digits <= |code|
    ensures SearchFrom(code, a, digits, fuel).Found? ==>
      Digits(SearchFrom(code, a, digits, fuel).a, |code|) == Some(code)
    decreases fuel
  {
    if fuel > 0 {
      SearchStep(code, a, digits, fuel);
      var result := Digits(a, digits);
      if result.Some? && result.value == code[|code| - digits..] {
        if digits < |code| {
          SearchFound(code, Shl3(a), digits + 1, fuel - 1);
        } else {
          assert code[|code| - digits..] == code;
        }
      } else if result.Some? && a + 1 < P.U64Limit {
        SearchFound(code, a + 1, digits, fuel - 1);
      }
    }
  }

  // ------------------------------------------------------------ agreement with the `i128` formula

  lemma XorBelow8(m: nat, k: nat)
    requires m < 8 && k < 8
    ensures Xor(m, k) < 8
  {
    assert Pow2(3) == 8;
    XorBound(m, k, 3);
  }

  /** On a non-negative `a` the formula of day17/src/main.rs gives the same digit. */
  lemma DigitAgrees(a: nat, x: nat)
    requires 3 * x < 64
    ensures M.Digit(a, x) == Some(Digit(a, x).value)
  {
    var s := P.Shr(a, 3 * x);
    M.AShrNonNegative(a, 3 * x);
    XorBelow8(s % 8, 5);
  }

  lemma {:induction false} DigitsAgree(a: nat, n: nat)
    requires Digits(a, n).Some?
    ensures M.Digits(a, n) == Some(Digits(a, n).value)
  {
    if n > 0 {
      DigitsAgree(a, n - 1);
      DigitAgrees(a, n - 1);
    }
  }

  // ------------------------------------------------------------ `part2_emulator`

  /** The run of `code` from `reg` halts within `fuel` instructions, printing `out`. */
  predicate Prints(code: seq<nat>, reg: P.Register, fuel: nat, out: seq<nat>) {
    var r := P.Exec(code, reg, 0, [], fuel);
    r.Halted? && r.output == out
  }

  /**
   * The loop of `part2_emulator` from A = `a` with `digits` digits matched,
   * B and C holding what the previous run left in them, on a budget of
   * `fuel` rounds of at most `runFuel` instructions each. A run that panics
   * makes the search panic; one that runs out of budget gives up.
   */
  function EmuSearchFrom(code: seq<nat>, a: nat, digits: nat, b: nat, c: nat, fuel: nat, runFuel: nat): Search
    requires 1 <= digits <= |code|
    decreases fuel
  {
    if fuel == 0 then GaveUp
    else
      match P.Exec(code, P.Register(a, b, c), 0, [], runFuel)
      case Panicked(_) => SearchPanicked
      case OutOfFuel => GaveUp
      case Halted(reg, out) =>
        if out == code[|code| - digits..] then
          if digits == |code| then Found(a)
          else EmuSearchFrom(code, Shl3(a), digits + 1, reg.b, reg.c, fuel - 1, runFuel)
        else if a + 1 >= P.U64Limit then SearchPanicked
        else EmuSearchFrom(code, a + 1, digits, reg.b, reg.c, fuel - 1, runFuel)
  }

  /** The A that the emulated search finds makes the program print itself, for the B and C of that run. */
  lemma {:induction false} EmuSearchFound(code: seq<nat>, a: nat, digits: nat, b: nat, c: nat, fuel: nat, runFuel: nat)
    requires 1 <= digits <= |code|
    ensures var r := EmuSearchFrom(code, a, digits, b, c, fuel, runFuel);
      r.Found? ==> exists b': nat, c': nat :: Prints(code, P.Register(r.a, b', c'), runFuel, code)
    decreases fuel
  {
    if fuel > 0 {
      var run := P.Exec(code, P.Register(a, b, c), 0, [], runFuel);
      if run.Halted? {
        if run.output == code[|code| - digits..] {
          if digits == |code| {
            assert code[|code| - digits..] == code;
            assert Prints(code, P.Register(a, b, c), runFuel, code);
          } else {
            EmuSearchFound(code, Shl3(a), digits + 1, run.reg.b, run.reg.c, fuel - 1, runFuel);
          }
        } else if a + 1 < P.U64Limit {
          EmuSearchFound(code, a + 1, digits, run.reg.b, run.reg.c, fuel - 1, runFuel);
        }
      }
    }
  }

  /**
   * `part2_emulator`: the same search, with the program run from A = `a`
   * in place of the formula. Registers B and C keep what the previous run
   * left in them. Every run has a budget of `runFuel` instructions.
   */
  method Part2Emulator(prog: P.Program, fuel: nat, runFuel: nat) returns (outcome: Search)
    requires |prog.code| >= 1
    modifies prog
    ensures prog.code == old(prog.code)
    ensures outcome == EmuSearchFrom(old(prog.code), 0, 1, old(prog.reg.b), old(prog.reg.c), fuel, runFuel)
    ensures outcome.Found? ==> exists b: nat, c: nat :: Prints(prog.code, P.Register(outcome.a, b, c), runFuel, prog.code)
  {
    var code := prog.Code();
    ghost var spec := EmuSearchFrom(code, 0, 1, prog.reg.b, prog.reg.c, fuel, runFuel);
    EmuSearchFound(code, 0, 1, prog.reg.b, prog.reg.c, fuel, runFuel);
    var a: nat := 0;
    var digitsFound: nat := 1;
    var left := fuel;
    while left > 0
      invariant prog.code == code == old(prog.code)
      invariant 1 <= digitsFound <= |code|
      invariant EmuSearchFrom(code, a, digitsFound, prog.reg.b, prog.reg.c, left, runFuel) == spec
    {
      prog.SetA(a);
      ghost var start := prog.reg;
      assert start == P.Register(a, start.b, start.c);
      var run := prog.Run(runFuel);
      if run.Panicked? {
        return SearchPanicked;
      }
      if run.OutOfFuel? {
        return GaveUp;
      }
      var result := run.output;
      if result == code[|code| - digitsFound..] {
        if digitsFound == |code| {
          return Found(a);
        }
        a := Shl3(a);
        digitsFound := digitsFound + 1;
      } else {
        if a + 1 >= P.U64Limit {
          return SearchPanicked;
        }
        a := a + 1;
      }
      left := left - 1;
    }
    return GaveUp;
  }

  // ------------------------------------------------------------ the decompiled program

  /** The program the formula decompiles. */
  const Decompiled: seq<nat> := [2, 4, 1, 5, 7, 5, 1, 6, 0, 3, 4, 1, 5, 5, 3, 0]

  lemma FiveXorSix()
    ensures Xor(5, 6) == 3
  {
    XorUnfold(1, 1, 0);
    XorUnfold(2, 3, 0);
    XorUnfold(5, 6, 1);
  }

  /** `(m ^ 5) ^ 6 == m ^ 3`. */
  lemma XorFiveSix(m: nat)
    ensures Xor(Xor(m, 5), 6) == Xor(m, 3)
  {
    XorAssociates(m, 5, 6);
    FiveXorSix();
  }

  /** The registers after one pass of the decompiled program from A = `s`. */
  function PassRegister(s: nat): P.Register {
    var c := P.Shr(s, Xor(s % 8, 5));
    P.Register(P.Shr(s, 3), Xor(Xor(Xor(s % 8, 5), 6), c), c)
  }

  /** The first four instructions of a pass: B and C take their values from A. */
  lemma PassFirstHalf(s: nat, b: nat, c: nat, out: seq<nat>, fuel: nat)
    requires fuel >= 4
    ensures var k := Xor(s % 8, 5);
      P.Exec(Decompiled, P.Register(s, b, c), 0, out, fuel)
      == P.Exec(Decompiled, P.Register(s, Xor(k, 6), P.Shr(s, k)), 8, out, fuel - 4)
  {
    var code := Decompiled;
    var m := s % 8;
    var k := Xor(m, 5);
    XorBelow8(m, 5);
    var r0 := P.Register(s, b, c);
    var r1 := P.Register(s, m, c);
    var r2 := P.Register(s, k, c);
    var r3 := P.Register(s, k, P.Shr(s, k));
    var r4 := P.Register(s, Xor(k, 6), P.Shr(s, k));
    assert out + [] == out;
    assert P.Step(code, r0, 0) == P.Continue(r1, 2, []);
    assert P.Exec(code, r0, 0, out, fuel) == P.Exec(code, r1, 2, out, fuel - 1);
    assert P.Step(code, r1, 2) == P.Continue(r2, 4, []);
    assert P.Exec(code, r1, 2, out, fuel - 1) == P.Exec(code, r2, 4, out, fuel - 2);
    assert P.Step(code, r2, 4) == P.Continue(r3, 6, []);
    assert P.Exec(code, r2, 4, out, fuel - 2) == P.Exec(code, r3, 6, out, fuel - 3);
    assert P.Step(code, r3, 6) == P.Continue(r4, 8, []);
  }

  /** The last four instructions of a pass: A shifts, the digit is printed, and the loop repeats while A is not 0. */
  lemma PassSecondHalf(s: nat, out: seq<nat>, fuel: nat)
    requires fuel >= 4
    ensures var k := Xor(s % 8, 5);
      var before := P.Register(s, Xor(k, 6), P.Shr(s, k));
      var after := PassRegister(s);
      var printed := out + [after.b % 8];
      P.Exec(Decompiled, before, 8, out, fuel)
      == if after.a == 0 then P.Halted(after, printed) else P.Exec(Decompiled, after, 0, printed, fuel - 4)
  {
    var k := Xor(s % 8, 5);
    var r6 := PassRegister(s);
    PassShift(s, out, fuel);
    PassOutput(r6, out, fuel - 2);
  }

  /** `adv 3` then `bxc`: A drops three bits and B takes C into account. */
  lemma PassShift(s: nat, out: seq<nat>, fuel: nat)
    requires fuel >= 2
    ensures var k := Xor(s % 8, 5);
      P.Exec(Decompiled, P.Register(s, Xor(k, 6), P.Shr(s, k)), 8, out, fuel)
      == P.Exec(Decompiled, PassRegister(s), 12, out, fuel - 2)
  {
    var code := Decompiled;
    var k := Xor(s % 8, 5);
    var r4 := P.Register(s, Xor(k, 6), P.Shr(s, k));
    var r5 := P.Register(P.Shr(s, 3), Xor(k, 6), P.Shr(s, k));
    var r6 := PassRegister(s);
    assert out + [] == out;
    assert P.Step(code, r4, 8) == P.Continue(r5, 10, []);
    assert P.Exec(code, r4, 8, out, fuel) == P.Exec(code, r5, 10, out, fuel - 1);
    assert P.Step(code, r5, 10) == P.Continue(r6, 12, []);
  }

  /** `out b` then `jnz 0`: the digit is printed and the loop repeats while A is not 0. */
  lemma PassOutput(r: P.Register, out: seq<nat>, fuel: nat)
    requires fuel >= 2
    ensures P.Exec(Decompiled, r, 12, out, fuel)
      == if r.a == 0 then P.Halted(r, out + [r.b % 8]) else P.Exec(Decompiled, r, 0, out + [r.b % 8], fuel - 2)
  {
    var code := Decompiled;
    var printed := out + [r.b % 8];
    assert printed + [] == printed;
    assert P.Step(code, r, 12) == P.Continue(r, 14, [r.b % 8]);
    assert P.Exec(code, r, 12, out, fuel) == P.Exec(code, r, 14, printed, fuel - 1);
    if r.a != 0 {
      assert P.Step(code, r, 14) == P.Continue(r, 0, []);
    } else {
      assert P.Step(code, r, 14) == P.Continue(r, 16, []);
      assert P.Exec(code, r, 14, printed, fuel - 1) == P.Exec(code, r, 16, printed, fuel - 2);
    }
  }

  /** One pass: eight instructions print the formula digit and shift A by three bits. */
  lemma DecompiledPass(s: nat, b: nat, c: nat, out: seq<nat>, fuel: nat)
    requires fuel >= 8
    ensures P.Shr(s, 3) == 0 ==>
      P.Exec(Decompiled, P.Register(s, b, c), 0, out, fuel) == P.Halted(PassRegister(s), out + [DigitOf(s)])
    ensures P.Shr(s, 3) != 0 ==>
      P.Exec(Decompiled, P.Register(s, b, c), 0, out, fuel)
      == P.Exec(Decompiled, PassRegister(s), 0, out + [DigitOf(s)], fuel - 8)
  {
    PassFirstHalf(s, b, c, out, fuel);
    PassSecondHalf(s, out, fuel - 4);
    XorFiveSix(s % 8);
  }

  /** `a >> 3 == a / 8`. */
  lemma ShrThree(a: nat)
    ensures P.Shr(a, 3) == a / 8
  {
    assert P.Shr(a, 3) == P.Shr(a / 2, 2);
    assert P.Shr(a / 2, 2) == P.Shr(a / 2 / 2, 1);
    assert P.Shr(a / 2 / 2, 1) == P.Shr(a / 2 / 2 / 2, 0);
    var q := a / 2 / 2 / 2;
    var low := a % 2 + 2 * ((a / 2) % 2) + 4 * ((a / 2 / 2) % 2);
    assert a == 8 * q + low && 0 <= low < 8;
  }

  /** What the decompiled program prints from A = `a`: one formula digit per octal digit. */
  function Printed(a: nat): seq<nat>
    decreases a
  {
    [DigitOf(a)] + (if a / 8 == 0 then [] else Printed(a / 8))
  }

  /** A single octal digit prints one number. */
  lemma PrintedLast(a: nat, out: seq<nat>)
    requires a / 8 == 0
    ensures out + Printed(a) == out + [DigitOf(a)]
  {
    assert Printed(a) == [DigitOf(a)];
  }

  /** More octal digits print the first digit, then what `a / 8` prints. */
  lemma PrintedMore(a: nat, out: seq<nat>)
    requires a / 8 != 0
    ensures |Printed(a)| == 1 + |Printed(a / 8)|
    ensures out + Printed(a) == out + [DigitOf(a)] + Printed(a / 8)
  {
    var rest := Printed(a / 8);
    assert Printed(a) == [DigitOf(a)] + rest;
    assert out + [DigitOf(a)] + rest == out + ([DigitOf(a)] + rest);
  }

  /** The decompiled program prints `Printed(a)` in eight instructions per digit and leaves A = 0. */
  lemma {:induction false} DecompiledRun(a: nat, b: nat, c: nat, out: seq<nat>, fuel: nat)
    requires fuel >= 8 * |Printed(a)|
    ensures var r := P.Exec(Decompiled, P.Register(a, b, c), 0, out, fuel);
      r.Halted? && r.reg.a == 0 && r.output == out + Printed(a)
    decreases a
  {
    DecompiledPass(a, b, c, out, fuel);
    ShrThree(a);
    var h := a / 8;
    if h == 0 {
      PrintedLast(a, out);
    } else {
      PrintedMore(a, out);
      var r := PassRegister(a);
      DecompiledRun(h, r.b, r.c, out + [DigitOf(a)], fuel - 8);
    }
  }

  /** `x >> (j + k) == (x >> j) >> k`. */
  lemma {:induction false} ShrAdd(x: nat, j: nat, k: nat)
    ensures P.Shr(x, j + k) == P.Shr(P.Shr(x, j), k)
    decreases j
  {
    if j > 0 {
      ShrAdd(x / 2, j - 1, k);
    }
  }

  /** Digits of `a` after the first are the digits of `a >> 3`. */
  lemma {:induction false} DigitsShift(a: nat, n: nat)
    requires 3 * n < 64
    ensures Digits(a, n + 1) == Some([DigitOf(a)] + Digits(P.Shr(a, 3), n).value)
  {
    var h := P.Shr(a, 3);
    if n > 0 {
      DigitsShift(a, n - 1);
      ShrAdd(a, 3, 3 * (n - 1));
      var front := Digits(h, n - 1).value;
      var last := DigitOf(P.Shr(h, 3 * (n - 1)));
      assert Digits(h, n) == Some(front + [last]);
      assert Digits(a, n) == Some([DigitOf(a)] + front);
      assert Digit(a, n) == Some(last);
      assert Digits(a, n + 1) == Some([DigitOf(a)] + front + [last]);
      assert [DigitOf(a)] + front + [last] == [DigitOf(a)] + (front + [last]);
    } else {
      assert Digits(a, 0) == Some([]) && Digit(a, 0) == Some(DigitOf(a));
      assert [] + [DigitOf(a)] == [DigitOf(a)] + [];
    }
  }

  /** What the program prints is the formula's digits, as many as A has octal digits. */
  lemma {:induction false} PrintedIsDigits(a: nat)
    requires 3 * |Printed(a)| <= 66
    ensures Digits(a, |Printed(a)|) == Some(Printed(a))
    decreases a
  {
    ShrThree(a);
    var h := a / 8;
    assert [] + Printed(a) == Printed(a);
    if h == 0 {
      assert Printed(a) == [DigitOf(a)];
      DigitsShift(a, 0);
    } else {
      PrintedMore(a, []);
      PrintedIsDigits(h);
      DigitsShift(a, |Printed(h)|);
      assert [] + [DigitOf(a)] + Printed(h) == [DigitOf(a)] + Printed(h);
    }
  }

  /**
   * When the search's answer has as many octal digits as the decompiled
   * program has numbers, running the program from it prints the program.
   */
  lemma FoundPrintsItself(a: nat, b: nat, c: nat)
    requires Digits(a, |Decompiled|) == Some(Decompiled) && |Printed(a)| == |Decompiled|
    ensures Prints(Decompiled, P.Register(a, b, c), 8 * |Decompiled|, Decompiled)
  {
    PrintedIsDigits(a);
    DecompiledRun(a, b, c, [], 8 * |Decompiled|);
    assert [] + Printed(a) == Printed(a);
  }
}
