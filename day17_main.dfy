/**
 * Day 17, the first version of the computer in day17/src/main.rs: the same
 * eight instructions, but registers and program hold `i128` values, shifts
 * are written as division by `1 << rhs`, and `& 7` is `% 8`.
 *
 * Signed arithmetic is written out: Rust's `/` and `%` truncate toward zero,
 * `^` acts on two's complement, `1 << 127` is `i128::MIN`, a shift amount
 * outside `0..128` panics, and `operand as usize` keeps the low 64 bits.
 * The loop runs while `ip < len`, so an `ip` on the last
 * number reads past the end of the program and panics.
 */
module Day17Main {
  import opened Wrappers
  import opened Bits
  import opened Decimal
  import P = Day17Program

  const I128Min: int := -0x8000_0000_0000_0000_0000_0000_0000_0000
  const I128Max: int := 0x7fff_ffff_ffff_ffff_ffff_ffff_ffff_ffff
  const UsizeLimit: nat := 0x1_0000_0000_0000_0000

  predicate IsI128(x: int) { I128Min <= x <= I128Max }

  lemma Pow2Is127()
    ensures Pow2(127) == I128Max + 1
  {
    P.Pow2Is64();
    assert Pow2(64) == 2 * Pow2(63);
    Pow2Add(64, 63);
  }

  /** `x % 8` with Rust's sign rule: the remainder takes the sign of `x`. */
  function Rem8(x: int): (r: int)
    ensures -8 < r < 8 && (x >= 0 ==> r == x % 8)
  {
    if x >= 0 then x % 8 else -((-x) % 8)
  }

  /** `x ^ y` on two's complement integers, through `!x == -1 - x`. */
  function IXor(x: int, y: int): int {
    if x >= 0 && y >= 0 then Xor(x, y)
    else if x < 0 && y < 0 then Xor(-1 - x, -1 - y)
    else if x < 0 then -1 - Xor(-1 - x, y)
    else -1 - Xor(x, -1 - y)
  }

  /** The exclusive or of two `i128` values is an `i128` value. */
  lemma IXorI128(x: int, y: int)
    requires IsI128(x) && IsI128(y)
    ensures IsI128(IXor(x, y))
  {
    Pow2Is127();
    if x >= 0 && y >= 0 {
      XorBound(x, y, 127);
    } else if x < 0 && y < 0 {
      XorBound(-1 - x, -1 - y, 127);
    } else if x < 0 {
      XorBound(-1 - x, y, 127);
    } else {
      XorBound(x, -1 - y, 127);
    }
  }

  /**
   * `x / (1 << rhs)` for a shift amount in `0..128`: a truncating division
   * by `2^rhs`, except that `1 << 127` is `i128::MIN`, which only
   * `i128::MIN` itself divides into a non-zero quotient.
   */
  function DivShl(x: int, rhs: nat): (r: int)
    requires rhs < 128
    ensures IsI128(x) ==> IsI128(r)
    ensures x >= 0 && rhs < 127 ==> r == P.Shr(x, rhs)
  {
    if rhs == 127 then (if x == I128Min then 1 else 0)
    else if x >= 0 then P.Shr(x, rhs)
    else 0 - P.Shr(-x, rhs)
  }

  /** `Instruction::try_from(i128)`. */
  function InstructionFrom(value: int): (r: Result<P.Instruction, string>)
    ensures r.Err? <==> value < 0 || value > 7
    ensures value >= 0 ==> r == P.InstructionFrom(value)
  {
    if value < 0 then Err("encountered -" + ToDecimal(-value)) else P.InstructionFrom(value)
  }

  datatype Register = Register(a: int, b: int, c: int)

  predicate ValidRegister(r: Register) { IsI128(r.a) && IsI128(r.b) && IsI128(r.c) }

  predicate ValidCode(code: seq<int>) { forall i :: 0 <= i < |code| ==> IsI128(code[i]) }

  /** `decode_combo`: negative operands and 7 and above are `unreachable!()`, here `None`. */
  function DecodeCombo(reg: Register, operand: int): (r: Option<int>)
    ensures r.None? <==> operand < 0 || operand >= 7
    ensures ValidRegister(reg) && r.Some? ==> IsI128(r.value)
  {
    if operand < 0 then None
    else if operand <= 3 then Some(operand)
    else if operand == 4 then Some(reg.a)
    else if operand == 5 then Some(reg.b)
    else if operand == 6 then Some(reg.c)
    else None
  }

  /** How a run of this version can panic. */
  datatype Panic = BadOpcode(message: string) | MissingOperand | BadCombo | ShiftOverflow

  datatype Effect = Continue(reg: Register, ip: nat, emitted: seq<int>) | Stop(panic: Panic)

  /** A division by `1 << rhs`, panicking when the shift amount is outside `0..128`. */
  function DivStep(x: int, combo: Option<int>): Result<int, Panic> {
    if combo.None? then Err(BadCombo)
    else if combo.value < 0 || combo.value >= 128 then Err(ShiftOverflow)
    else Ok(DivShl(x, combo.value))
  }

  /** The instruction at `ip`, as the body of the loop of this `run` executes it. */
  function Step(code: seq<int>, reg: Register, ip: nat): Effect
    requires ip < |code|
  {
    var opcode := InstructionFrom(code[ip]);
    if opcode.Err? then Stop(BadOpcode(opcode.error))
    else if ip + 1 >= |code| then Stop(MissingOperand)
    else
      var operand := code[ip + 1];
      var combo := DecodeCombo(reg, operand);
      match opcode.value
      case Adv =>
        var q := DivStep(reg.a, combo);
        if q.Err? then Stop(q.error) else Continue(reg.(a := q.value), ip + 2, [])
      case Bxl => Continue(reg.(b := IXor(reg.b, operand)), ip + 2, [])
      case Bst =>
        if combo.None? then Stop(BadCombo) else Continue(reg.(b := Rem8(combo.value)), ip + 2, [])
      case Jnz =>
        if reg.a != 0 then Continue(reg, operand % UsizeLimit, []) else Continue(reg, ip + 2, [])
      case Bxc => Continue(reg.(b := IXor(reg.b, reg.c)), ip + 2, [])
      case Out =>
        if combo.None? then Stop(BadCombo) else Continue(reg, ip + 2, [Rem8(combo.value)])
      case Bdv =>
        var q := DivStep(reg.a, combo);
        if q.Err? then Stop(q.error) else Continue(reg.(b := q.value), ip + 2, [])
      case Cdv =>
        var q := DivStep(reg.a, combo);
        if q.Err? then Stop(q.error) else Continue(reg.(c := q.value), ip + 2, [])
  }

  datatype Outcome = Halted(reg: Register, output: seq<int>) | Panicked(panic: Panic) | OutOfFuel

  /** The run from `ip` on a budget of `fuel` instructions; it halts once `ip` reaches the length. */
  function Exec(code: seq<int>, reg: Register, ip: nat, output: seq<int>, fuel: nat): Outcome
    decreases fuel
  {
    if ip >= |code| then Halted(reg, output)
    else if fuel == 0 then OutOfFuel
    else match Step(code, reg, ip)
      case Stop(p) => Panicked(p)
      case Continue(r, next, e) => Exec(code, r, next, output + e, fuel - 1)
  }

  class Program {
    var reg: Register
    var code: seq<int>

    constructor(reg: Register, code: seq<int>)
      ensures this.reg == reg && this.code == code
    {
      this.reg := reg;
      this.code := code;
    }

    /** `run` of this version, on a budget of `fuel` instructions. */
    method Run(fuel: nat) returns (outcome: Outcome)
      modifies this
      ensures code == old(code)
      ensures outcome == Exec(old(code), old(reg), 0, [], fuel)
      ensures outcome.Halted? ==> reg == outcome.reg
    {
      var result: seq<int> := [];
      var ip: nat := 0;
      var left := fuel;
      while ip < |code|
        invariant code == old(code)
        invariant Exec(code, reg, ip, result, left) == Exec(old(code), old(reg), 0, [], fuel)
        decreases left
      {
        if left == 0 {
          return OutOfFuel;
        }
        ghost var start, printed := reg, result;
        var opcode := InstructionFrom(code[ip]);
        if opcode.Err? {
          return Panicked(BadOpcode(opcode.error));
        }
        if ip + 1 >= |code| {
          return Panicked(MissingOperand);
        }
        var operand := code[ip + 1];
        var combo := DecodeCombo(reg, operand);
        match opcode.value {
          case Adv =>
            var q := DivStep(reg.a, combo);
            if q.Err? {
              return Panicked(q.error);
            }
            reg := reg.(a := q.value);
          case Bxl =>
            reg := reg.(b := IXor(reg.b, operand));
          case Bst =>
            if combo.None? {
              return Panicked(BadCombo);
            }
            reg := reg.(b := Rem8(combo.value));
          case Jnz =>
            if reg.a != 0 {
              assert Step(code, start, ip) == Continue(reg, operand % UsizeLimit, []);
              assert printed + [] == result;
              ip := operand % UsizeLimit;
              left := left - 1;
              continue;
            }
          case Bxc =>
            reg := reg.(b := IXor(reg.b, reg.c));
          case Out =>
            if combo.None? {
              return Panicked(BadCombo);
            }
            result := result + [Rem8(combo.value)];
          case Bdv =>
            var q := DivStep(reg.a, combo);
            if q.Err? {
              return Panicked(q.error);
            }
            reg := reg.(b := q.value);
          case Cdv =>
            var q := DivStep(reg.a, combo);
            if q.Err? {
              return Panicked(q.error);
            }
            reg := reg.(c := q.value);
        }
        assert Step(code, start, ip) == Continue(reg, ip + 2, result[|printed|..]);
        assert printed + result[|printed|..] == result;
        ip := ip + 2;
        left := left - 1;
      }
      outcome := Halted(reg, result);
    }
  }

  // ------------------------------------------------------------ properties of runs

  /** One instruction keeps the registers `i128` and prints at most one value in `-7..=7`. */
  lemma StepSpec(code: seq<int>, reg: Register, ip: nat)
    requires ip < |code| && ValidCode(code) && ValidRegister(reg)
    ensures Step(code, reg, ip).Continue? ==>
      var e := Step(code, reg, ip);
      ValidRegister(e.reg) && |e.emitted| <= 1 && forall k :: 0 <= k < |e.emitted| ==> -8 < e.emitted[k] < 8
  {
    var opcode := InstructionFrom(code[ip]);
    if opcode.Ok? && ip + 1 < |code| {
      match opcode.value
      case Bxl => IXorI128(reg.b, code[ip + 1]);
      case Bxc => IXorI128(reg.b, reg.c);
      case _ =>
    }
  }

  predicate Printable(s: seq<int>) { forall k :: 0 <= k < |s| ==> -8 < s[k] < 8 }

  /** The registers stay `i128` and every printed value lies in `-7..=7`. */
  lemma {:induction false} ExecSpec(code: seq<int>, reg: Register, ip: nat, output: seq<int>, fuel: nat)
    requires ValidCode(code) && ValidRegister(reg) && Printable(output)
    ensures Exec(code, reg, ip, output, fuel).Halted? ==>
      var h := Exec(code, reg, ip, output, fuel);
      ValidRegister(h.reg) && Printable(h.output)
    decreases fuel
  {
    if ip < |code| && fuel > 0 {
      StepSpec(code, reg, ip);
      var e := Step(code, reg, ip);
      if e.Continue? {
        ExecSpec(code, e.reg, e.ip, output + e.emitted, fuel - 1);
      }
    }
  }

  /** Reaching the last number of the program is a panic, not a halt. */
  lemma LastNumberPanics(code: seq<int>, reg: Register, output: seq<int>, fuel: nat)
    requires |code| > 0 && fuel > 0 && 0 <= code[|code| - 1] <= 7
    ensures Exec(code, reg, |code| - 1, output, fuel) == Panicked(MissingOperand)
  {
  }

  // ------------------------------------------------------------ agreement with the `u64` version

  function Lift(reg: P.Register): Register {
    Register(reg.a, reg.b, reg.c)
  }

  /** Every `jnz` at an even position jumps to an even position. */
  predicate EvenJumps(code: seq<nat>) {
    forall i :: 0 <= i < |code| - 1 && i % 2 == 0 && code[i] == 3 ==> code[i + 1] % 2 == 0
  }

  /** On non-negative values the two versions execute an instruction alike. */
  lemma StepAgrees(code: seq<nat>, reg: P.Register, ip: nat)
    requires |code| % 2 == 0 && ip % 2 == 0 && ip + 1 < |code| && P.ValidCode(code) && EvenJumps(code)
    requires P.Step(code, reg, ip).Continue?
    ensures var e := P.Step(code, reg, ip);
      e.ip % 2 == 0 && Step(code, Lift(reg), ip) == Continue(Lift(e.reg), e.ip, e.emitted)
  {
    var opcode := P.InstructionFrom(code[ip]);
    var operand := code[ip + 1];
    match opcode.value
    case Jnz =>
      assert operand % UsizeLimit == operand;
    case Adv =>
    case Bdv =>
    case Cdv =>
    case _ =>
  }

  /**
   * An even-length program whose jumps land on even positions, run on `u64`
   * values, ends as the `u64` version ends whenever that one halts.
   */
  lemma {:induction false} ExecAgrees(code: seq<nat>, reg: P.Register, ip: nat, output: seq<nat>, fuel: nat)
    requires |code| % 2 == 0 && ip % 2 == 0 && P.ValidCode(code) && EvenJumps(code)
    requires P.Exec(code, reg, ip, output, fuel).Halted?
    ensures var h := P.Exec(code, reg, ip, output, fuel);
      Exec(code, Lift(reg), ip, output, fuel) == Halted(Lift(h.reg), h.output)
    decreases fuel
  {
    if ip + 1 < |code| {
      StepAgrees(code, reg, ip);
      var e := P.Step(code, reg, ip);
      ExecAgrees(code, e.reg, e.ip, output + e.emitted, fuel - 1);
    }
  }

  // ------------------------------------------------------------ the unit tests

  lemma ExampleBst()
    ensures Exec([2, 6], Register(0, 0, 9), 0, [], 1) == Halted(Register(0, 1, 9), [])
  {
    P.ExampleBst();
    ExecAgrees([2, 6], P.Register(0, 0, 9), 0, [], 1);
  }

  lemma ExampleOut()
    ensures Exec([5, 0, 5, 1, 5, 4], Register(10, 0, 0), 0, [], 3) == Halted(Register(10, 0, 0), [0, 1, 2])
  {
    P.ExampleOut();
    ExecAgrees([5, 0, 5, 1, 5, 4], P.Register(10, 0, 0), 0, [], 3);
  }

  lemma HalvingLoopShape()
    ensures |P.HalvingLoop| % 2 == 0 && P.ValidCode(P.HalvingLoop) && EvenJumps(P.HalvingLoop)
  {
    P.Pow2Is64();
  }

  lemma ExampleHalving()
    ensures Exec(P.HalvingLoop, Register(2024, 0, 0), 0, [], 33) == Halted(Register(0, 0, 0), [4, 2, 5, 6, 7, 7, 7, 7, 3, 1, 0])
  {
    P.ExampleHalving();
    HalvingLoopShape();
    ExecAgrees(P.HalvingLoop, P.Register(2024, 0, 0), 0, [], 33);
  }

  lemma ExampleBxl()
    ensures Exec([1, 7], Register(0, 29, 0), 0, [], 1) == Halted(Register(0, 26, 0), [])
  {
    P.ExampleBxl();
    ExecAgrees([1, 7], P.Register(0, 29, 0), 0, [], 1);
  }

  lemma ExampleBxc()
    ensures Exec([4, 0], Register(0, 2024, 43690), 0, [], 1) == Halted(Register(0, 44354, 43690), [])
  {
    P.ExampleBxc();
    ExecAgrees([4, 0], P.Register(0, 2024, 43690), 0, [], 1);
  }

  // ------------------------------------------------------------ the reverse search of `part2`

  /** `a >> k` on a signed value: floor division by `2^k`. */
  function AShr(a: int, k: nat): int
    decreases k
  {
    if k == 0 then a else AShr(a / 2, k - 1)
  }

  lemma {:induction false} AShrNonNegative(a: int, k: nat)
    requires a >= 0
    ensures AShr(a, k) == P.Shr(a, k)
  {
    if k > 0 {
      AShrNonNegative(a / 2, k - 1);
    }
  }

  /** `a <<= 3` on `i128`: the bits shifted past the sign bit are lost. */
  function Shl3(a: int): (r: int)
    ensures IsI128(r)
  {
    (a * 8 - I128Min) % 0x1_0000_0000_0000_0000_0000_0000_0000_0000 + I128Min
  }

  /**
   * The decompiled digit formula `(((a % 8) ^ 3) ^ (a / (1 << ((a % 8) ^ 5)))) % 8`
   * for `a >> (3 * x)`; `None` where a shift amount leaves `0..128`.
   */
  function Digit(a: int, x: nat): Option<int> {
    if 3 * x >= 128 then None
    else
      var s := AShr(a, 3 * x);
      var m := Rem8(s);
      var k := IXor(m, 5);
      if k < 0 || k >= 128 then None
      else Some(Rem8(IXor(IXor(m, 3), DivShl(s, k))))
  }

  /** `(0..n).map(...).collect()`: the first `n` digits, `None` if one of them panics. */
  function Digits(a: int, n: nat): (r: Option<seq<int>>)
    ensures r.Some? ==> |r.value| == n
  {
    if n == 0 then Some([])
    else
      var front := Digits(a, n - 1);
      var last := Digit(a, n - 1);
      if front.None? || last.None? then None else Some(front.value + [last.value])
  }

  /** How the search ends. */
  datatype Search = Found(a: int) | SearchPanicked | GaveUp

  /**
   * The search from `a` with `digits` digits matched so far, on a budget of
   * `fuel` rounds; `a += 1` panics at `i128::MAX`.
   */
  function SearchFrom(code: seq<int>, a: int, digits: nat, fuel: nat): Search
    requires 1 <= digits <= |code|
    decreases fuel
  {
    if fuel == 0 then GaveUp
    else
      var result := Digits(a, digits);
      if result.None? then SearchPanicked
      else if result.value == code[|code| - digits..] then
        if result.value == code then Found(a)
        else SearchFrom(code, Shl3(a), digits + 1, fuel - 1)
      else if a == I128Max then SearchPanicked
      else SearchFrom(code, a + 1, digits, fuel - 1)
  }

  /** `part2` of this version, on a budget of `fuel` rounds. */
  method Part2(code: seq<int>, fuel: nat) returns (outcome: Search)
    requires |code| >= 1
    ensures outcome == SearchFrom(code, 0, 1, fuel)
  {
    var a: int := 0;
    var digitsFound: nat := 1;
    var left := fuel;
    while left > 0
      invariant 1 <= digitsFound <= |code|
      invariant SearchFrom(code, a, digitsFound, left) == SearchFrom(code, 0, 1, fuel)
    {
      var result := Digits(a, digitsFound);
      if result.None? {
        return SearchPanicked;
      }
      if result.value == code[|code| - digitsFound..] {
        if result.value == code {
          return Found(a);
        }
        a := Shl3(a);
        digitsFound := digitsFound + 1;
      } else {
        if a == I128Max {
          return SearchPanicked;
        }
        a := a + 1;
      }
      left := left - 1;
    }
    return GaveUp;
  }

  /** What the search finds produces the whole program through the formula. */
  lemma {:induction false} SearchFound(code: seq<int>, a: int, digits: nat, fuel: nat)
    requires 1 <= digits <= |code|
    ensures SearchFrom(code, a, digits, fuel).Found? ==>
      Digits(SearchFrom(code, a, digits, fuel).a, |code|) == Some(code)
    decreases fuel
  {
    if fuel > 0 {
      var result := Digits(a, digits);
      if result.Some? && result.value == code[|code| - digits..] {
        if result.value != code {
          SearchFound(code, Shl3(a), digits + 1, fuel - 1);
        }
      } else if result.Some? && a != I128Max {
        SearchFound(code, a + 1, digits, fuel - 1);
      }
    }
  }
}
