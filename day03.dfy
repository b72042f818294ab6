/**
 * Day 3, part 2 (day03/src/part2.rs): a program of `mul`, `do()` and
 * `don't()` instructions. Running it adds up the products of the
 * multiplications met while enabled. The instructions arrive already parsed.
 */
module Day03 {
  import opened Sums

  datatype Instruction = Multiply(a: int, b: int) | Disable | Enable

  datatype State = Enabled | Disabled

  /** The state and the running sum of `run`'s loop. */
  datatype Machine = Machine(state: State, result: int)

  /**
   * One iteration of `run`'s loop: a multiplication keeps the state and
   * changes nothing while disabled; a toggle adds nothing.
   */
  function Step(m: Machine, ins: Instruction): (r: Machine)
    ensures ins.Multiply? ==> r.state == m.state
    ensures ins.Multiply? && m.state == Disabled ==> r == m
    ensures !ins.Multiply? ==> r.result == m.result
  {
    match ins
    case Multiply(a, b) => if m.state == Enabled then Machine(m.state, m.result + a * b) else m
    case Disable => Machine(Disabled, m.result)
    case Enable => Machine(Enabled, m.result)
  }

  /** Every instruction is a multiplication. */
  predicate NoToggles(data: seq<Instruction>) {
    forall i :: 0 <= i < |data| ==> data[i].Multiply?
  }

  /**
   * `run`'s loop over a sequence of instructions. Without toggles the state
   * never changes, and a disabled machine then stays as it is.
   */
  function Exec(m: Machine, data: seq<Instruction>): (r: Machine)
    ensures NoToggles(data) ==> r.state == m.state
    ensures NoToggles(data) && m.state == Disabled ==> r == m
  {
    if data == [] then m else Step(Exec(m, data[..|data| - 1]), data[|data| - 1])
  }

  /** The state in force after `prefix`: that of its last toggle, else `start`. */
  function StateAfter(start: State, prefix: seq<Instruction>): State
  {
    if prefix == [] then start
    else match prefix[|prefix| - 1]
      case Enable => Enabled
      case Disable => Disabled
      case Multiply(_, _) => StateAfter(start, prefix[..|prefix| - 1])
  }

  /** What instruction `i` adds: its product if it is a multiplication run while enabled. */
  function Contributions(start: State, data: seq<Instruction>): (r: seq<int>)
    ensures |r| == |data|
    ensures forall i :: 0 <= i < |data| ==>
      r[i] == if data[i].Multiply? && StateAfter(start, data[..i]) == Enabled then data[i].a * data[i].b else 0
  {
    if data == [] then []
    else
      var p := data[..|data| - 1];
      assert forall i :: 0 <= i < |p| ==> p[..i] == data[..i];
      var x := data[|data| - 1];
      Contributions(start, p) + [if x.Multiply? && StateAfter(start, p) == Enabled then x.a * x.b else 0]
  }

  /**
   * `run` computes the sum of the products of the multiplications executed
   * while enabled, and ends in the state of the last toggle.
   */
  lemma {:induction false} ExecSpec(start: State, data: seq<Instruction>)
    ensures Exec(Machine(start, 0), data).result == SeqSum(Contributions(start, data))
    ensures Exec(Machine(start, 0), data).state == StateAfter(start, data)
  {
    if data != [] {
      var p, x := data[..|data| - 1], data[|data| - 1];
      ExecSpec(start, p);
      assert Exec(Machine(start, 0), data) == Step(Exec(Machine(start, 0), p), x);
      var c := Contributions(start, data);
      assert c == Contributions(start, p) + [c[|data| - 1]];
      SeqSumAppend(Contributions(start, p), c[|data| - 1]);
    }
  }

  /** Toggles add nothing and set the state; they only change later multiplications. */
  lemma ToggleAddsNothing(m: Machine)
    ensures Step(m, Disable) == Machine(Disabled, m.result)
    ensures Step(m, Enable) == Machine(Enabled, m.result)
    ensures Step(Machine(Disabled, m.result), Multiply(3, 5)) == Machine(Disabled, m.result)
  {
  }

  /** Running one more instruction of a prefix is one more `Step`. */
  lemma ExecPrefix(m: Machine, data: seq<Instruction>, i: nat)
    requires i < |data|
    ensures Exec(m, data[..i + 1]) == Step(Exec(m, data[..i]), data[i])
  {
    assert data[..i + 1][..i] == data[..i];
  }

  class Program {
    var state: State
    var data: seq<Instruction>

    /** `From<Vec<Instruction>>`: a fresh program starts enabled. */
    constructor FromInstructions(value: seq<Instruction>)
      ensures state == Enabled && data == value
    {
      state := Enabled;
      data := value;
    }

    /** `Program::new`: no instructions, enabled. */
    constructor New()
      ensures state == Enabled && data == []
    {
      state := Enabled;
      data := [];
    }

    /** `Program::run`, starting from whatever state the program is in. */
    method Run() returns (result: int)
      modifies this
      ensures data == old(data)
      ensures result == Exec(Machine(old(state), 0), data).result
      ensures state == Exec(Machine(old(state), 0), data).state
      ensures result == SeqSum(Contributions(old(state), data)) && state == StateAfter(old(state), data)
    {
      ExecSpec(state, data);
      ghost var start := state;
      result := 0;
      for i := 0 to |data|
        invariant data == old(data)
        invariant Machine(state, result) == Exec(Machine(start, 0), data[..i])
      {
        ExecPrefix(Machine(start, 0), data, i);
        result := Execute(data[i], result);
      }
      assert data[..|data|] == data;
    }

    /** The body of the loop of `run`: one instruction against the current state. */
    method Execute(instruction: Instruction, result0: int) returns (result: int)
      modifies this
      ensures data == old(data)
      ensures Machine(state, result) == Step(Machine(old(state), result0), instruction)
    {
      result := result0;
      match instruction
      case Multiply(a, b) =>
        if state == Enabled {
          result := result + a * b;
        }
      case Disable => state := Disabled;
      case Enable => state := Enabled;
    }
  }

  /** The demo program `xmul(2,4)&mul[3,7]!^don't()_mul(5,5)+mul(32,64](mul(11,8)undo()?mul(8,5))`. */
  lemma DemoIs48()
    ensures Exec(Machine(Enabled, 0), [Multiply(2, 4), Disable, Multiply(5, 5), Multiply(11, 8), Enable, Multiply(8, 5)])
         == Machine(Enabled, 48)
  {
    var d := [Multiply(2, 4), Disable, Multiply(5, 5), Multiply(11, 8), Enable, Multiply(8, 5)];
    var m := Machine(Enabled, 0);
    assert d[..0] == [] && d[..1][..0] == [];
    assert Exec(m, d[..1]) == Machine(Enabled, 8);
    assert d[..2][..1] == d[..1];
    assert Exec(m, d[..2]) == Machine(Disabled, 8);
    assert d[..3][..2] == d[..2];
    assert Exec(m, d[..3]) == Machine(Disabled, 8);
    assert d[..4][..3] == d[..3];
    assert Exec(m, d[..4]) == Machine(Disabled, 8);
    assert d[..5][..4] == d[..4];
    assert Exec(m, d[..5]) == Machine(Enabled, 8);
    assert d[..5] == d[..|d| - 1];
  }
}
