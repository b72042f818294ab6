/**
 * Day 17, the three-bit computer of day17/src/program.rs: registers A, B and
 * C hold `u64` values, the program is a list of `u64` numbers read in pairs
 * of opcode and operand, and `run` executes it from `ip` 0,
 * collecting what `out` prints.
 *
 * The source's loop need not terminate (a `jnz` can jump back forever), so
 * the model runs it on a budget of `fuel` instructions and reports
 * `OutOfFuel` when the budget is spent. Every way the source panics is an
 * outcome of its own: an opcode that `try_into` rejects, the combo operand
 * 7, and a right shift by 64 or more, which overflows in a debug build.
 */
module Day17Program {
  import opened Wrappers
  import opened Bits
  import opened Decimal

  const U64Limit: nat := 0x1_0000_0000_0000_0000

  predicate IsU64(x: int) { 0 <= x < U64Limit }

  lemma Pow2Is64()
    ensures Pow2(64) == U64Limit
  {
    assert Pow2(8) == 256;
    assert Pow2(16) == 256 * 256 by { Pow2Add(8, 8); }
    assert Pow2(32) == 65536 * 65536 by { Pow2Add(16, 16); }
    Pow2Add(32, 32);
  }

  datatype Instruction = Adv | Bxl | Bst | Jnz | Bxc | Out | Bdv | Cdv

  /** `Instruction::try_from(u64)`. */
  function InstructionFrom(value: nat): (r: Result<Instruction, string>)
    ensures r.Err? <==> value > 7
  {
    match value
    case 0 => Ok(Adv)
    case 1 => Ok(Bxl)
    case 2 => Ok(Bst)
    case 3 => Ok(Jnz)
    case 4 => Ok(Bxc)
    case 5 => Ok(Out)
    case 6 => Ok(Bdv)
    case 7 => Ok(Cdv)
    case _ => Err("encountered " + ToDecimal(value))
  }

  /** The number each instruction is written as. */
  function Opcode(i: Instruction): nat {
    match i
    case Adv => 0
    case Bxl => 1
    case Bst => 2
    case Jnz => 3
    case Bxc => 4
    case Out => 5
    case Bdv => 6
    case Cdv => 7
  }

  /** Decoding inverts the encoding, and every accepted number is an encoding. */
  lemma InstructionRoundTrip(i: Instruction, value: nat)
    ensures InstructionFrom(Opcode(i)) == Ok(i)
    ensures InstructionFrom(value).Ok? ==> Opcode(InstructionFrom(value).value) == value
  {
  }

  datatype Register = Register(a: nat, b: nat, c: nat)

  predicate ValidRegister(r: Register) { IsU64(r.a) && IsU64(r.b) && IsU64(r.c) }

  predicate ValidCode(code: seq<nat>) { forall i :: 0 <= i < |code| ==> IsU64(code[i]) }

  /**
   * `decode_combo`: operands 0 to 3 stand for themselves, 4, 5 and 6 for
   * registers A, B and C; 7 and above are `unreachable!()`, here `None`.
   */
  function DecodeCombo(reg: Register, operand: nat): (r: Option<nat>)
    ensures r.None? <==> operand >= 7
    ensures ValidRegister(reg) && r.Some? ==> IsU64(r.value)
  {
    if operand <= 3 then Some(operand)
    else if operand == 4 then Some(reg.a)
    else if operand == 5 then Some(reg.b)
    else if operand == 6 then Some(reg.c)
    else None
  }

  /** `x >> k` on an unsigned value. */
  function Shr(x: nat, k: nat): (r: nat)
    ensures r <= x
  {
    if k == 0 then x else Shr(x / 2, k - 1)
  }

  /** How a run can panic. */
  datatype Panic = BadOpcode(message: string) | BadCombo | ShiftOverflow

  /** What executing one instruction does: new registers, `ip` and output, or a panic. */
  datatype Effect = Continue(reg: Register, ip: nat, emitted: seq<nat>) | Stop(panic: Panic)

  /**
   * The instruction at `ip`, as the body of the loop of `run` executes it.
   * `x >> k` on `u64` is `x / 2^k`, `x & 7` is `x % 8` and `x ^ y` is `Xor`.
   */
  function Step(code: seq<nat>, reg: Register, ip: nat): Effect
    requires ip + 1 < |code|
  {
    var opcode := InstructionFrom(code[ip]);
    var operand := code[ip + 1];
    var combo := DecodeCombo(reg, operand);
    if opcode.Err? then Stop(BadOpcode(opcode.error))
    else match opcode.value
      case Adv =>
        if combo.None? then Stop(BadCombo)
        else if combo.value >= 64 then Stop(ShiftOverflow)
        else Continue(reg.(a := Shr(reg.a, combo.value)), ip + 2, [])
      case Bxl => Continue(reg.(b := Xor(reg.b, operand)), ip + 2, [])
      case Bst =>
        if combo.None? then Stop(BadCombo)
        else Continue(reg.(b := combo.value % 8), ip + 2, [])
      case Jnz =>
        if reg.a != 0 then Continue(reg, operand, []) else Continue(reg, ip + 2, [])
      case Bxc => Continue(reg.(b := Xor(reg.b, reg.c)), ip + 2, [])
      case Out =>
        if combo.None? then Stop(BadCombo)
        else Continue(reg, ip + 2, [combo.value % 8])
      case Bdv =>
        if combo.None? then Stop(BadCombo)
        else if combo.value >= 64 then Stop(ShiftOverflow)
        else Continue(reg.(b := Shr(reg.a, combo.value)), ip + 2, [])
      case Cdv =>
        if combo.None? then Stop(BadCombo)
        else if combo.value >= 64 then Stop(ShiftOverflow)
        else Continue(reg.(c := Shr(reg.a, combo.value)), ip + 2, [])
  }

  /** The end of a run. */
  datatype Outcome = Halted(reg: Register, output: seq<nat>) | Panicked(panic: Panic) | OutOfFuel

  /**
   * The run from `ip` with `output` printed so far and
   * `fuel` instructions left: it halts once `ip + 1` reaches the length of
   * the program.
   */
  function Exec(code: seq<nat>, reg: Register, ip: nat, output: seq<nat>, fuel: nat): Outcome
    decreases fuel
  {
    if ip + 1 >= |code| then Halted(reg, output)
    else if fuel == 0 then OutOfFuel
    else match Step(code, reg, ip)
      case Stop(p) => Panicked(p)
      case Continue(r, next, e) => Exec(code, r, next, output + e, fuel - 1)
  }

  class Program {
    var reg: Register
    var code: seq<nat>

    constructor(reg: Register, code: seq<nat>)
      ensures this.reg == reg && this.code == code
    {
      this.reg := reg;
      this.code := code;
    }

    /**
     * `run`, on a budget of `fuel` instructions: the outcome is the one `Exec`
     * describes, and a run that halts leaves its final registers behind.
     */
    method Run(fuel: nat) returns (outcome: Outcome)
      modifies this
      ensures code == old(code)
      ensures outcome == Exec(old(code), old(reg), 0, [], fuel)
      ensures outcome.Halted? ==> reg == outcome.reg
    {
      var result: seq<nat> := [];
      var ip: nat := 0;
      var left := fuel;
      while ip + 1 < |code|
        invariant code == old(code)
        invariant Exec(code, reg, ip, result, left) == Exec(old(code), old(reg), 0, [], fuel)
        decreases left
      {
        if left == 0 {
          return OutOfFuel;
        }
        ghost var start, printed := reg, result;
        var opcode := InstructionFrom(code[ip]);
        if opcode.Err? {
          return Panicked(BadOpcode(opcode.error));
        }
        var operand := code[ip + 1];
        var combo := DecodeCombo(reg, operand);
        match opcode.value {
          case Adv =>
            if combo.None? {
              return Panicked(BadCombo);
            }
            if combo.value >= 64 {
              return Panicked(ShiftOverflow);
            }
            reg := reg.(a := Shr(reg.a, combo.value));
          case Bxl =>
            reg := reg.(b := Xor(reg.b, operand));
          case Bst =>
            if combo.None? {
              return Panicked(BadCombo);
            }
            reg := reg.(b := combo.value % 8);
          case Jnz =>
            if reg.a != 0 {
              assert Step(code, start, ip) == Continue(reg, operand, []);
              assert printed + [] == result;
              ip := operand;
              left := left - 1;
              continue;
            }
          case Bxc =>
            reg := reg.(b := Xor(reg.b, reg.c));
          case Out =>
            if combo.None? {
              return Panicked(BadCombo);
            }
            result := result + [combo.value % 8];
          case Bdv =>
            if combo.None? {
              return Panicked(BadCombo);
            }
            if combo.value >= 64 {
              return Panicked(ShiftOverflow);
            }
            reg := reg.(b := Shr(reg.a, combo.value));
          case Cdv =>
            if combo.None? {
              return Panicked(BadCombo);
            }
            if combo.value >= 64 {
              return Panicked(ShiftOverflow);
            }
            reg := reg.(c := Shr(reg.a, combo.value));
        }
        assert Step(code, start, ip) == Continue(reg, ip + 2, result[|printed|..]);
        assert printed + result[|printed|..] == result;
        ip := ip + 2;
        left := left - 1;
      }
      outcome := Halted(reg, result);
    }

    /** `set_a`: register A takes the new value, nothing else changes. */
    method SetA(a: nat)
      modifies this
      ensures reg == old(reg).(a := a) && code == old(code)
    {
      reg := reg.(a := a);
    }

    /** `code`: a copy of the program. */
    function Code(): seq<nat>
      reads this
    {
      code
    }
  }

  // ------------------------------------------------------------ properties of runs

  predicate Octal(s: seq<nat>) { forall i :: 0 <= i < |s| ==> s[i] < 8 }

  /** One instruction prints at most one value, below 8, and keeps the registers `u64`. */
  lemma StepSpec(code: seq<nat>, reg: Register, ip: nat)
    requires ip + 1 < |code| && ValidCode(code) && ValidRegister(reg)
    ensures Step(code, reg, ip).Continue? ==>
      var e := Step(code, reg, ip);
      ValidRegister(e.reg) && Octal(e.emitted) && |e.emitted| <= 1
  {
    var opcode := InstructionFrom(code[ip]);
    if opcode.Ok? {
      match opcode.value
      case Bxl =>
        Pow2Is64();
        XorBound(reg.b, code[ip + 1], 64);
      case Bxc =>
        Pow2Is64();
        XorBound(reg.b, reg.c, 64);
      case _ =>
    }
  }

  /** Everything `out` prints lies in `0..=7`, and the registers stay `u64`. */
  lemma {:induction false} ExecSpec(code: seq<nat>, reg: Register, ip: nat, output: seq<nat>, fuel: nat)
    requires ValidCode(code) && ValidRegister(reg) && Octal(output)
    ensures Exec(code, reg, ip, output, fuel).Halted? ==>
      var h := Exec(code, reg, ip, output, fuel);
      ValidRegister(h.reg) && Octal(h.output) && |output| <= |h.output|
    decreases fuel
  {
    if ip + 1 < |code| && fuel > 0 {
      StepSpec(code, reg, ip);
      var e := Step(code, reg, ip);
      if e.Continue? {
        ExecSpec(code, e.reg, e.ip, output + e.emitted, fuel - 1);
      }
    }
  }

  /** A run that ends within some budget ends the same way with any larger one. */
  lemma {:induction false} FuelMonotone(code: seq<nat>, reg: Register, ip: nat, output: seq<nat>, fuel: nat, more: nat)
    requires fuel <= more && Exec(code, reg, ip, output, fuel) != OutOfFuel
    ensures Exec(code, reg, ip, output, more) == Exec(code, reg, ip, output, fuel)
    decreases fuel
  {
    if ip + 1 < |code| {
      var e := Step(code, reg, ip);
      if e.Continue? {
        FuelMonotone(code, e.reg, e.ip, output + e.emitted, fuel - 1, more - 1);
      }
    }
  }

  /** An `ip` on the last number of the program halts the run without reading it. */
  lemma TrailingNumberIgnored(code: seq<nat>, reg: Register, output: seq<nat>, fuel: nat)
    requires |code| > 0
    ensures Exec(code, reg, |code| - 1, output, fuel) == Halted(reg, output)
  {
  }

  // ------------------------------------------------------------ output

  /** `result_to_string`: the values in decimal, joined with `,`. */
  function ResultToString(result: seq<nat>): string {
    if result == [] then ""
    else if |result| == 1 then ToDecimal(result[0])
    else ToDecimal(result[0]) + "," + ResultToString(result[1..])
  }

  /** Cutting a string at every `,`. */
  function SplitComma(s: string): (r: seq<string>)
    ensures |r| >= 1
  {
    if s == [] then [""]
    else if s[0] == ',' then [""] + SplitComma(s[1..])
    else var rest := SplitComma(s[1..]); [[s[0]] + rest[0]] + rest[1..]
  }

  lemma {:induction false} SplitNoComma(d: string, t: string)
    requires forall i :: 0 <= i < |d| ==> IsDigit(d[i])
    ensures SplitComma(d) == [d]
    ensures SplitComma(d + "," + t) == [d] + SplitComma(t)
  {
    if d != [] {
      SplitNoComma(d[1..], t);
      assert (d + "," + t)[1..] == d[1..] + "," + t;
      assert [d[0]] + d[1..] == d;
    } else {
      assert d + "," + t == [','] + t;
    }
  }

  /** Cutting the joined string at the commas gives back the printed values. */
  lemma {:induction false} ResultRoundTrip(result: seq<nat>)
    requires result != []
    ensures var parts := SplitComma(ResultToString(result));
      |parts| == |result|
      && forall i :: 0 <= i < |result| ==>
           (forall k :: 0 <= k < |parts[i]| ==> IsDigit(parts[i][k])) && FromDecimal(parts[i]) == result[i]
  {
    var d := ToDecimal(result[0]);
    DecimalRoundTrip(result[0]);
    if |result| == 1 {
      SplitNoComma(d, "");
    } else {
      ResultRoundTrip(result[1..]);
      SplitNoComma(d, ResultToString(result[1..]));
    }
  }

  // ------------------------------------------------------------ the unit tests

  /** With C = 9, the program 2,6 sets B to 1. */
  lemma ExampleBst()
    ensures Exec([2, 6], Register(0, 0, 9), 0, [], 1) == Halted(Register(0, 1, 9), [])
  {
  }

  /** With A = 10, the program 5,0,5,1,5,4 prints 0,1,2. */
  lemma ExampleOut()
    ensures Exec([5, 0, 5, 1, 5, 4], Register(10, 0, 0), 0, [], 3) == Halted(Register(10, 0, 0), [0, 1, 2])
  {
  }

  /** The output 0,1,2 is joined as the text "0,1,2". */
  lemma ExampleOutText()
    ensures ResultToString([0, 1, 2]) == "0,1,2"
  {
  }

  /** With B = 29, the program 1,7 sets B to 26. */
  lemma ExampleBxl()
    ensures Exec([1, 7], Register(0, 29, 0), 0, [], 1) == Halted(Register(0, 26, 0), [])
  {
    XorUnfold(7, 1, 3);
    XorUnfold(14, 3, 6);
    XorUnfold(29, 7, 13);
  }

  /** With B = 2024 and C = 43690, the program 4,0 sets B to 44354. */
  lemma ExampleBxc()
    ensures Exec([4, 0], Register(0, 2024, 43690), 0, [], 1) == Halted(Register(0, 44354, 43690), [])
  {
    XorExample();
  }

  /** The exclusive or of 2024 and 43690, bit by bit. */
  lemma XorExample()
    ensures Xor(2024, 43690) == 44354
  {
    XorUnfold(1, 42, 21);
    XorUnfold(3, 85, 43);
    XorUnfold(7, 170, 86);
    XorUnfold(15, 341, 173);
    XorUnfold(31, 682, 346);
    XorUnfold(63, 1365, 693);
    XorUnfold(126, 2730, 1386);
    XorUnfold(253, 5461, 2772);
    XorUnfold(506, 10922, 5544);
    XorUnfold(1012, 21845, 11088);
    XorUnfold(2024, 43690, 22177);
  }

  /** The program 0,1,5,4,3,0: halve A, print it modulo 8, and loop while A is not 0. */
  const HalvingLoop: seq<nat> := [0, 1, 5, 4, 3, 0]

  /** What the halving loop prints, starting from A = `a`. */
  function Halving(a: nat): seq<nat>
    decreases a
  {
    var h := a / 2;
    [h % 8] + (if h == 0 then [] else Halving(h))
  }

  /** One pass through the halving loop. */
  lemma HalvingPass(a: nat, b: nat, c: nat, out: seq<nat>, fuel: nat)
    requires fuel >= 3
    ensures a / 2 == 0 ==> Exec(HalvingLoop, Register(a, b, c), 0, out, fuel) == Halted(Register(0, b, c), out + [0])
    ensures a / 2 != 0 ==>
      Exec(HalvingLoop, Register(a, b, c), 0, out, fuel) == Exec(HalvingLoop, Register(a / 2, b, c), 0, out + [a / 2 % 8], fuel - 3)
  {
    var code := HalvingLoop;
    var h := a / 2;
    var printed := out + [h % 8];
    assert Shr(a, 1) == h;
    assert Step(code, Register(a, b, c), 0) == Continue(Register(h, b, c), 2, []);
    assert out + [] == out && printed + [] == printed;
    assert Exec(code, Register(a, b, c), 0, out, fuel) == Exec(code, Register(h, b, c), 2, out, fuel - 1);
    assert Exec(code, Register(h, b, c), 2, out, fuel - 1) == Exec(code, Register(h, b, c), 4, printed, fuel - 2);
    if h != 0 {
      assert Exec(code, Register(h, b, c), 4, printed, fuel - 2) == Exec(code, Register(h, b, c), 0, printed, fuel - 3);
    } else {
      assert Exec(code, Register(h, b, c), 4, printed, fuel - 2) == Exec(code, Register(h, b, c), 6, printed, fuel - 3);
    }
  }

  lemma HalvingCons(a: nat, out: seq<nat>)
    ensures a / 2 == 0 ==> out + Halving(a) == out + [0]
    ensures a / 2 != 0 ==>
      |Halving(a)| == 1 + |Halving(a / 2)| && out + Halving(a) == out + [a / 2 % 8] + Halving(a / 2)
  {
    assert a / 2 != 0 ==> out + [a / 2 % 8] + Halving(a / 2) == out + ([a / 2 % 8] + Halving(a / 2));
  }

  /** Three instructions per printed value; the run ends with A = 0. */
  lemma {:induction false} HalvingRun(a: nat, b: nat, c: nat, out: seq<nat>, fuel: nat)
    requires fuel >= 3 * |Halving(a)|
    ensures Exec(HalvingLoop, Register(a, b, c), 0, out, fuel) == Halted(Register(0, b, c), out + Halving(a))
    decreases a
  {
    HalvingPass(a, b, c, out, fuel);
    HalvingCons(a, out);
    if a / 2 != 0 {
      HalvingRun(a / 2, b, c, out + [a / 2 % 8], fuel - 3);
    }
  }

  /** One value printed in front of the rest. */
  lemma HalvingStep(a: nat, rest: seq<nat>)
    requires a / 2 != 0 && Halving(a / 2) == rest
    ensures Halving(a) == [a / 2 % 8] + rest
  {
  }

  lemma HalvingFrom126()
    ensures Halving(126) == [7, 7, 7, 7, 3, 1, 0]
  {
    assert Halving(1) == [0];
    HalvingStep(3, [0]);
    HalvingStep(7, [1, 0]);
    HalvingStep(15, [3, 1, 0]);
    HalvingStep(31, [7, 3, 1, 0]);
    HalvingStep(63, [7, 7, 3, 1, 0]);
    HalvingStep(126, [7, 7, 7, 3, 1, 0]);
  }

  lemma HalvingFrom253()
    ensures Halving(253) == [6, 7, 7, 7, 7, 3, 1, 0]
  {
    HalvingFrom126();
    HalvingStep(253, [7, 7, 7, 7, 3, 1, 0]);
  }

  lemma HalvingFrom506()
    ensures Halving(506) == [5, 6, 7, 7, 7, 7, 3, 1, 0]
  {
    HalvingFrom253();
    HalvingStep(506, [6, 7, 7, 7, 7, 3, 1, 0]);
  }

  lemma HalvingFrom1012()
    ensures Halving(1012) == [2, 5, 6, 7, 7, 7, 7, 3, 1, 0]
  {
    HalvingFrom506();
    HalvingStep(1012, [5, 6, 7, 7, 7, 7, 3, 1, 0]);
  }

  lemma HalvingFrom2024()
    ensures Halving(2024) == [4, 2, 5, 6, 7, 7, 7, 7, 3, 1, 0]
  {
    HalvingFrom1012();
    HalvingStep(2024, [2, 5, 6, 7, 7, 7, 7, 3, 1, 0]);
  }

  /** With A = 2024, the program 0,1,5,4,3,0 prints 4,2,5,6,7,7,7,7,3,1,0 and leaves A = 0. */
  lemma ExampleHalving()
    ensures Exec(HalvingLoop, Register(2024, 0, 0), 0, [], 33) == Halted(Register(0, 0, 0), [4, 2, 5, 6, 7, 7, 7, 7, 3, 1, 0])
  {
    HalvingFrom2024();
    HalvingRun(2024, 0, 0, [], 33);
  }
}
