/**
 * Day 24: a network of boolean gates. Input wires start with given values;
 * each gate drives its output wire from two input wires once both are
 * known. The gates are swept in order until every wire is known, and the
 * wires whose names start with `z`, sorted by name, spell the answer in
 * binary, lowest bit first.
 */
module Day24 {
  import opened Wrappers
  import Sorting
  import opened Bits
  import Sums

  datatype GateType = And | Or | Xor

  datatype Gate = Gate(typ: GateType, lhs: string, rhs: string, out: string)

  datatype BinarySystem = BinarySystem(inputs: map<string, bool>, gates: seq<Gate>)

  /** What `simulate` returns: the number on the z wires, or what the program does instead. */
  datatype Outcome =
    | Value(n: nat)
      /** Some wire can never be driven: the program loops forever. */
    | Diverges
      /** More than 64 z wires: `bit << pow` overflows `usize` and panics. */
    | Overflow

  function Eval(typ: GateType, a: bool, b: bool): bool {
    match typ
    case And => a && b
    case Or => a || b
    case Xor => a != b
  }

  /** The state of every wire: `None` while unknown. */
  type Wires = map<string, Option<bool>>

  function GateWires(g: Gate): set<string> {
    {g.lhs, g.rhs, g.out}
  }

  /** Every wire some gate names. */
  function AllWires(gates: seq<Gate>): set<string> {
    if gates == [] then {} else AllWires(gates[..|gates| - 1]) + GateWires(gates[|gates| - 1])
  }

  /** Every gate's wires are among all the wires. */
  lemma {:induction false} AllWiresHas(gates: seq<Gate>)
    ensures forall i :: 0 <= i < |gates| ==> GateWires(gates[i]) <= AllWires(gates)
  {
    if gates != [] {
      var n := |gates| - 1;
      var front := gates[..n];
      AllWiresHas(front);
      assert forall i :: 0 <= i < n ==> front[i] == gates[i];
    }
  }

  /** Every wire among them belongs to some gate. */
  lemma {:induction false} AllWiresFrom(gates: seq<Gate>, w: string)
    requires w in AllWires(gates)
    ensures exists i :: 0 <= i < |gates| && w in GateWires(gates[i])
  {
    var n := |gates| - 1;
    var front := gates[..n];
    if w !in GateWires(gates[n]) {
      AllWiresFrom(front, w);
      var i :| 0 <= i < n && w in GateWires(front[i]);
      assert front[i] == gates[i];
    }
  }

  /** The starting state: input wires at their values, every other wire a gate names unknown. */
  function Initial(system: BinarySystem): Wires {
    map w | w in AllWires(system.gates) + system.inputs.Keys ::
      if w in system.inputs then Some(system.inputs[w]) else None
  }

  function Known(m: Wires): set<string> {
    set w | w in m && m[w].Some?
  }

  predicate Complete(m: Wires) {
    forall w :: w in m ==> m[w].Some?
  }

  /** The map names every wire of every gate. */
  predicate Covers(m: Wires, gates: seq<Gate>) {
    forall i :: 0 <= i < |gates| ==> GateWires(gates[i]) <= m.Keys
  }

  /** One gate's turn in a sweep: it drives its output only when both inputs are known. */
  function Fire(m: Wires, g: Gate): (r: Wires)
    requires GateWires(g) <= m.Keys
    ensures r.Keys == m.Keys
  {
    if m[g.lhs].None? || m[g.rhs].None? then m
    else m[g.out := Some(Eval(g.typ, m[g.lhs].value, m[g.rhs].value))]
  }

  /** A gate leaves the wires in place, adds its output to the known wires when it fires, and forgets nothing. */
  lemma FireKnown(m: Wires, g: Gate)
    requires GateWires(g) <= m.Keys
    ensures Fire(m, g).Keys == m.Keys
    ensures Known(Fire(m, g)) == Known(m) + (if g.lhs in Known(m) && g.rhs in Known(m) then {g.out} else {})
  {
  }

  /** One pass of the `for gate in self.gates` loop, gates in order. */
  function Sweep(m: Wires, gates: seq<Gate>): (r: Wires)
    requires Covers(m, gates)
    ensures r.Keys == m.Keys
  {
    if gates == [] then m
    else
      var n := |gates| - 1;
      var before := Sweep(m, gates[..n]);
      FireKnown(before, gates[n]);
      Fire(before, gates[n])
  }

  lemma CoversPrefix(m: Wires, gates: seq<Gate>, n: nat)
    requires Covers(m, gates) && n <= |gates|
    ensures Covers(m, gates[..n])
  {
    assert forall i :: 0 <= i < n ==> gates[..n][i] == gates[i];
  }

  /** A sweep never forgets a wire it knew. */
  lemma {:induction false} SweepGrows(m: Wires, gates: seq<Gate>)
    requires Covers(m, gates)
    ensures Known(m) <= Known(Sweep(m, gates))
  {
    if gates != [] {
      var n := |gates| - 1;
      CoversPrefix(m, gates, n);
      SweepGrows(m, gates[..n]);
      FireKnown(Sweep(m, gates[..n]), gates[n]);
    }
  }

  /**
   * Which wires a sweep makes known depends only on which wires were known
   * before it, not on their values.
   */
  lemma {:induction false} SweepKnownDepends(m1: Wires, m2: Wires, gates: seq<Gate>)
    requires Covers(m1, gates) && m2.Keys == m1.Keys && Known(m1) == Known(m2)
    ensures Known(Sweep(m1, gates)) == Known(Sweep(m2, gates))
  {
    if gates != [] {
      var n := |gates| - 1;
      CoversPrefix(m1, gates, n);
      SweepKnownDepends(m1, m2, gates[..n]);
      FireKnown(Sweep(m1, gates[..n]), gates[n]);
      FireKnown(Sweep(m2, gates[..n]), gates[n]);
    }
  }

  /** `k` sweeps in a row. */
  function Sweeps(m: Wires, gates: seq<Gate>, k: nat): (r: Wires)
    requires Covers(m, gates)
    ensures r.Keys == m.Keys
  {
    if k == 0 then m else Sweep(Sweeps(m, gates, k - 1), gates)
  }

  /** Once a sweep learns nothing new, no later sweep does: the `while` loop never ends. */
  lemma {:induction false} StuckForever(m: Wires, gates: seq<Gate>, k: nat)
    requires Covers(m, gates) && Known(Sweep(m, gates)) == Known(m)
    ensures Known(Sweeps(m, gates, k)) == Known(m)
  {
    if k > 0 {
      StuckForever(m, gates, k - 1);
      SweepKnownDepends(Sweeps(m, gates, k - 1), m, gates);
    }
  }

  lemma FewerUnknown(m: Wires, n: Wires)
    requires n.Keys == m.Keys && Known(m) < Known(n)
    ensures |n.Keys - Known(n)| < |m.Keys - Known(m)|
  {
    assert Known(n) - Known(m) != {};
    var x :| x in Known(n) - Known(m);
    var u := m.Keys - Known(m);
    assert x in u;
    Sums.SubsetCard(n.Keys - Known(n), u - {x});
  }

  /** The `while` loop: sweep until every wire is known; `None` when it would run forever. */
  function Settle(m: Wires, gates: seq<Gate>): (r: Option<Wires>)
    requires Covers(m, gates)
    ensures r.Some? ==> Complete(r.value) && r.value.Keys == m.Keys
    decreases |m.Keys - Known(m)|
  {
    if Complete(m) then Some(m)
    else
      var n := Sweep(m, gates);
      SweepGrows(m, gates);
      if Known(n) == Known(m) then None
      else
        FewerUnknown(m, n);
        Settle(n, gates)
  }

  /** No number of sweeps ever knows every wire. */
  ghost predicate NeverComplete(m: Wires, gates: seq<Gate>)
    requires Covers(m, gates)
  {
    forall k: nat :: !Complete(Sweeps(m, gates, k))
  }

  /** `Settle` gives up exactly when the source's loop runs forever: some wire stays unknown after any number of sweeps. */
  lemma {:induction false} SettleDiverges(m: Wires, gates: seq<Gate>)
    requires Covers(m, gates)
    ensures Settle(m, gates).None? <==> NeverComplete(m, gates)
    ensures Settle(m, gates).Some? ==> exists k: nat :: Settle(m, gates).value == Sweeps(m, gates, k)
    decreases |m.Keys - Known(m)|
  {
    var n := Sweep(m, gates);
    SweepGrows(m, gates);
    if Complete(m) {
      assert Sweeps(m, gates, 0) == m;
    } else if Known(n) == Known(m) {
      StuckNeverComplete(m, gates);
    } else {
      FewerUnknown(m, n);
      assert Settle(m, gates) == Settle(n, gates);
      SettleDiverges(n, gates);
      NeverCompleteShift(m, gates);
      if Settle(n, gates).Some? {
        ReachedShift(m, gates, Settle(n, gates).value);
      }
    }
  }

  lemma StuckNeverComplete(m: Wires, gates: seq<Gate>)
    requires Covers(m, gates) && !Complete(m) && Known(Sweep(m, gates)) == Known(m)
    ensures NeverComplete(m, gates)
  {
    forall k: nat
      ensures !Complete(Sweeps(m, gates, k))
    {
      StuckForever(m, gates, k);
      var x :| x in m && m[x].None?;
      assert x !in Known(Sweeps(m, gates, k));
    }
  }

  lemma NeverCompleteShift(m: Wires, gates: seq<Gate>)
    requires Covers(m, gates) && !Complete(m)
    ensures NeverComplete(m, gates) <==> NeverComplete(Sweep(m, gates), gates)
  {
    var n := Sweep(m, gates);
    SweepsShift(m, gates);
    if NeverComplete(m, gates) {
      forall k: nat
        ensures !Complete(Sweeps(n, gates, k))
      {
        assert Sweeps(m, gates, k + 1) == Sweeps(n, gates, k);
      }
    }
    if NeverComplete(n, gates) {
      forall k: nat
        ensures !Complete(Sweeps(m, gates, k))
      {
        if k > 0 {
          assert Sweeps(m, gates, k) == Sweeps(n, gates, k - 1);
        }
      }
    }
  }

  lemma ReachedShift(m: Wires, gates: seq<Gate>, r: Wires)
    requires Covers(m, gates) && exists k: nat :: r == Sweeps(Sweep(m, gates), gates, k)
    ensures exists k: nat :: r == Sweeps(m, gates, k)
  {
    var k: nat :| r == Sweeps(Sweep(m, gates), gates, k);
    SweepsShiftAt(m, gates, k);
  }

  /** Sweeping `k + 1` times is sweeping once and then `k` times. */
  lemma SweepsShift(m: Wires, gates: seq<Gate>)
    requires Covers(m, gates)
    ensures forall k: nat :: Sweeps(m, gates, k + 1) == Sweeps(Sweep(m, gates), gates, k)
  {
    forall k: nat
      ensures Sweeps(m, gates, k + 1) == Sweeps(Sweep(m, gates), gates, k)
    {
      SweepsShiftAt(m, gates, k);
    }
  }

  lemma {:induction false} SweepsShiftAt(m: Wires, gates: seq<Gate>, k: nat)
    requires Covers(m, gates)
    ensures Sweeps(m, gates, k + 1) == Sweeps(Sweep(m, gates), gates, k)
  {
    if k > 0 {
      SweepsShiftAt(m, gates, k - 1);
    }
  }

  // ---------------------------------------------------------------------------
  // The z wires, sorted by name.
  // ---------------------------------------------------------------------------

  /** Lexicographic order on names, as `Ord` on `String` compares them. */
  predicate NameLe(a: string, b: string) {
    if a == [] then true
    else if b == [] then false
    else if a[0] != b[0] then a[0] < b[0]
    else NameLe(a[1..], b[1..])
  }

  lemma {:induction false} NameLeTotal(a: string, b: string)
    ensures NameLe(a, b) || NameLe(b, a)
  {
    if a != [] && b != [] && a[0] == b[0] {
      NameLeTotal(a[1..], b[1..]);
    }
  }

  lemma {:induction false} NameLeTransitive(a: string, b: string, c: string)
    requires NameLe(a, b) && NameLe(b, c)
    ensures NameLe(a, c)
  {
    if a != [] && b != [] && c != [] && a[0] == b[0] && b[0] == c[0] {
      NameLeTransitive(a[1..], b[1..], c[1..]);
    }
  }

  lemma {:induction false} NameLeAntisymmetric(a: string, b: string)
    requires NameLe(a, b) && NameLe(b, a)
    ensures a == b
  {
    if a != [] && b != [] {
      NameLeAntisymmetric(a[1..], b[1..]);
      assert a == [a[0]] + a[1..] && b == [b[0]] + b[1..];
    }
  }

  /** `NameLe` is a total order on any set of names. */
  lemma NameOrder(dom: set<string>)
    ensures Sorting.TotalOn(NameLe, dom) && Sorting.TransitiveOn(NameLe, dom) && Sorting.AntisymmetricOn(NameLe, dom)
  {
    forall a, b | a in dom && b in dom
      ensures NameLe(a, b) || NameLe(b, a)
    {
      NameLeTotal(a, b);
    }
    forall a, b, c | a in dom && b in dom && c in dom && NameLe(a, b) && NameLe(b, c)
      ensures NameLe(a, c)
    {
      NameLeTransitive(a, b, c);
    }
    forall a, b | a in dom && b in dom && NameLe(a, b) && NameLe(b, a)
      ensures a == b
    {
      NameLeAntisymmetric(a, b);
    }
  }

  predicate IsZ(w: string) {
    |w| >= 1 && w[0] == 'z'
  }

  function ZWires(m: Wires): set<string> {
    set w | w in m && IsZ(w)
  }

  /** Some listing of a set, each element once. */
  ghost function Listing(s: set<string>): (r: seq<string>)
    ensures multiset(r) == multiset(s)
    decreases |s|
  {
    if s == {} then []
    else
      var x :| x in s;
      assert multiset(s) == multiset(s - {x}) + multiset{x};
      [x] + Listing(s - {x})
  }

  /** The z wires in name order. */
  ghost function ZOrder(m: Wires): seq<string> {
    Sorting.Sort(Listing(ZWires(m)), NameLe)
  }

  /** The z wires in name order are each z wire exactly once, sorted. */
  lemma ZOrderSpec(m: Wires)
    ensures Sorting.Sorted(ZOrder(m), NameLe)
    ensures multiset(ZOrder(m)) == multiset(ZWires(m))
  {
    var l := Listing(ZWires(m));
    Sorting.ElementsOfPermutation(l, l);
    forall x | x in Sorting.Elements(l)
      ensures x in ZWires(m)
    {
      assert x in multiset(l);
    }
    NameOrder(Sorting.Elements(l));
    Sorting.SortSorted(l, NameLe);
  }

  function BitValue(b: bool): nat {
    if b then 1 else 0
  }

  /** `Σ bit(z_k) · 2^k` over the first wires of `zs`. */
  function ZValue(m: Wires, zs: seq<string>): nat
    requires forall i :: 0 <= i < |zs| ==> zs[i] in m && m[zs[i]].Some?
  {
    if zs == [] then 0
    else
      var n := |zs| - 1;
      ZValue(m, zs[..n]) + BitValue(m[zs[n]].value) * Pow2(n)
  }

  /** The number spelled by `k` wires is below `2^k`. */
  lemma {:induction false} ZValueBound(m: Wires, zs: seq<string>)
    requires forall i :: 0 <= i < |zs| ==> zs[i] in m && m[zs[i]].Some?
    ensures ZValue(m, zs) < Pow2(|zs|)
  {
    if zs != [] {
      var n := |zs| - 1;
      ZValueBound(m, zs[..n]);
    }
  }

  /** Bit `k` of the number is the value of the `k`-th z wire: the sum is the binary reading of the wires. */
  lemma {:induction false} ZValueBit(m: Wires, zs: seq<string>, k: nat)
    requires forall i :: 0 <= i < |zs| ==> zs[i] in m && m[zs[i]].Some?
    requires k < |zs|
    ensures (ZValue(m, zs) / Pow2(k)) % 2 == BitValue(m[zs[k]].value)
  {
    var n := |zs| - 1;
    var front := zs[..n];
    var low := ZValue(m, front);
    var b := BitValue(m[zs[n]].value);
    if k == n {
      ZValueBound(m, front);
      DivModUnique(ZValue(m, zs), Pow2(n), b, low);
    } else {
      ZValueBit(m, front, k);
      assert front[k] == zs[k];
      HighBitsKeepLow(low, b, k, n);
    }
  }

  /** Adding a multiple of `2^n` leaves every bit below `n` alone. */
  lemma HighBitsKeepLow(low: nat, b: nat, k: nat, n: nat)
    requires k < n
    ensures ((low + b * Pow2(n)) / Pow2(k)) % 2 == (low / Pow2(k)) % 2
  {
    Pow2Split(k, n);
    EvenMultipleKeepsBit(low, b, Pow2(k), Pow2(n - k - 1), Pow2(n));
  }

  lemma Pow2Split(k: nat, n: nat)
    requires k < n
    ensures Pow2(n) == Pow2(k) * (2 * Pow2(n - k - 1))
  {
    Pow2Add(k, n - k);
  }

  lemma EvenMultipleKeepsBit(low: nat, b: nat, p: nat, h: nat, big: nat)
    requires p > 0 && big == p * (2 * h)
    ensures ((low + b * big) / p) % 2 == (low / p) % 2
  {
    var d: nat := b * h;
    assert b * big == (2 * d) * p by {
      MulRearrange(b, p, 2 * h);
    }
    DivAddMultiple(low, p, 2 * d);
  }

  lemma MulRearrange(b: nat, p: nat, g: nat)
    ensures b * (p * g) == (b * g) * p
  {
  }

  lemma DivAddMultiple(v: nat, p: nat, c: nat)
    requires p > 0
    ensures (v + c * p) / p == v / p + c
  {
    var q: nat := v / p;
    var r: nat := v % p;
    assert (q + c) * p == q * p + c * p;
    DivModUnique(v + c * p, p, q + c, r);
  }

  /** What `simulate` returns. */
  ghost function Simulated(system: BinarySystem): Outcome {
    InitialCovers(system);
    match Settle(Initial(system), system.gates)
    case None => Diverges
    case Some(m) =>
      var zs := ZOrder(m);
      ZOrderSpec(m);
      ZOrderWires(m);
      if |zs| > 64 then Overflow else Value(ZValue(m, zs))
  }

  lemma ZOrderWires(m: Wires)
    ensures forall i :: 0 <= i < |ZOrder(m)| ==> ZOrder(m)[i] in ZWires(m)
  {
    ZOrderSpec(m);
    forall i | 0 <= i < |ZOrder(m)|
      ensures ZOrder(m)[i] in ZWires(m)
    {
      assert ZOrder(m)[i] in multiset(ZOrder(m));
    }
  }

  /**
   * The starting state names exactly the input wires and the wires of the
   * gates, and knows exactly the inputs, at their given values.
   */
  lemma InitialSpec(system: BinarySystem, w: string)
    ensures w in Initial(system) <==>
      w in system.inputs || exists i :: 0 <= i < |system.gates| && w in GateWires(system.gates[i])
    ensures w in Initial(system) ==> (Initial(system)[w].Some? <==> w in system.inputs)
    ensures w in system.inputs ==> Initial(system)[w] == Some(system.inputs[w])
  {
    AllWiresHas(system.gates);
    if w in AllWires(system.gates) {
      AllWiresFrom(system.gates, w);
    }
  }

  /**
   * When the network settles with at most 64 z wires, `simulate` gives a
   * number that fits in 64 bits (so `result += bit << pow` never
   * overflows) and whose bits are the z wires in name order.
   */
  lemma SettledValue(system: BinarySystem, m: Wires)
    requires Covers(Initial(system), system.gates)
    requires Settle(Initial(system), system.gates) == Some(m) && |ZOrder(m)| <= 64
    ensures Simulated(system).Value? && Simulated(system).n < Pow2(64)
    ensures forall k :: 0 <= k < |ZOrder(m)| ==> ZOrder(m)[k] in m
    ensures forall k :: 0 <= k < |ZOrder(m)| ==>
      (Simulated(system).n / Pow2(k)) % 2 == BitValue(m[ZOrder(m)[k]].value)
  {
    ZOrderWires(m);
    var zs := ZOrder(m);
    ZValueBound(m, zs);
    Pow2Monotone(|zs|, 64);
    forall k | 0 <= k < |zs|
      ensures (Simulated(system).n / Pow2(k)) % 2 == BitValue(m[zs[k]].value)
    {
      ZValueBit(m, zs, k);
    }
  }

  lemma InitialCovers(system: BinarySystem)
    ensures Covers(Initial(system), system.gates)
  {
    AllWiresHas(system.gates);
  }

  // ---------------------------------------------------------------------------
  // `simulate`, step by step.
  // ---------------------------------------------------------------------------

  /** Every wire the gates name, each unknown: the first `collect` of `simulate`. */
  method GateOutputs(gates: seq<Gate>) returns (outputs: Wires)
    ensures outputs.Keys == AllWires(gates)
    ensures forall w :: w in outputs ==> outputs[w] == None
  {
    outputs := map[];
    for i := 0 to |gates|
      invariant outputs.Keys == AllWires(gates[..i])
      invariant forall w :: w in outputs ==> outputs[w] == None
    {
      var g := gates[i];
      assert gates[..i + 1][..i] == gates[..i];
      outputs := outputs[g.lhs := None][g.rhs := None][g.out := None];
    }
    assert gates[..|gates|] == gates;
  }

  /** The starting state: the gate wires, then every input set to its value, present or not. */
  method InitialOutputs(system: BinarySystem) returns (outputs: Wires)
    ensures outputs == Initial(system)
  {
    var gateWires := GateOutputs(system.gates);
    outputs := SetInputs(gateWires, system.inputs);
    InitialIs(system, outputs);
  }

  /** The `entry(k).and_modify(..).or_insert(..)` loop: every input wire set to its value. */
  method SetInputs(base: Wires, inputs: map<string, bool>) returns (outputs: Wires)
    ensures outputs.Keys == base.Keys + inputs.Keys
    ensures forall w :: w in outputs ==> outputs[w] == if w in inputs then Some(inputs[w]) else base[w]
  {
    outputs := base;
    var rest := inputs.Keys;
    while rest != {}
      invariant SetExcept(outputs, base, inputs, rest)
      decreases |rest|
    {
      var k :| k in rest;
      SetOne(outputs, base, inputs, rest, k);
      outputs := outputs[k := Some(inputs[k])];
      rest := rest - {k};
    }
    SetAll(outputs, base, inputs);
  }

  /** Every input wire but those in `rest` is set; the other wires are as in `base`. */
  ghost predicate SetExcept(outputs: Wires, base: Wires, inputs: map<string, bool>, rest: set<string>) {
    && rest <= inputs.Keys
    && outputs.Keys == base.Keys + (inputs.Keys - rest)
    && forall w :: w in outputs ==>
      outputs[w] == if w in inputs && w !in rest then Some(inputs[w]) else base[w]
  }

  lemma SetAll(outputs: Wires, base: Wires, inputs: map<string, bool>)
    requires SetExcept(outputs, base, inputs, {})
    ensures outputs.Keys == base.Keys + inputs.Keys
    ensures forall w :: w in outputs ==> outputs[w] == if w in inputs then Some(inputs[w]) else base[w]
  {
  }

  lemma SetOne(outputs: Wires, base: Wires, inputs: map<string, bool>, rest: set<string>, k: string)
    requires SetExcept(outputs, base, inputs, rest) && k in rest
    ensures SetExcept(outputs[k := Some(inputs[k])], base, inputs, rest - {k})
  {
  }

  lemma InitialIs(system: BinarySystem, outputs: Wires)
    requires outputs.Keys == AllWires(system.gates) + system.inputs.Keys
    requires forall w :: w in outputs ==> outputs[w] == if w in system.inputs then Some(system.inputs[w]) else None
    ensures outputs == Initial(system)
  {
    var init := Initial(system);
    assert outputs.Keys == init.Keys;
    assert forall w :: w in outputs ==> outputs[w] == init[w];
  }

  /** One pass of the `for gate in self.gates` loop. */
  method SweepOnce(outputs: Wires, gates: seq<Gate>) returns (next: Wires)
    requires Covers(outputs, gates)
    ensures next == Sweep(outputs, gates)
  {
    next := outputs;
    for i := 0 to |gates|
      invariant Covers(outputs, gates[..i])
      invariant next == Sweep(outputs, gates[..i])
    {
      var g := gates[i];
      assert gates[..i + 1][..i] == gates[..i];
      if next[g.lhs].None? || next[g.rhs].None? {
        continue;
      }
      var lhs := next[g.lhs].value;
      var rhs := next[g.rhs].value;
      match g.typ
      case And => next := next[g.out := Some(lhs && rhs)];
      case Or => next := next[g.out := Some(lhs || rhs)];
      case Xor => next := next[g.out := Some(lhs != rhs)];
    }
    assert gates[..|gates|] == gates;
  }

  /** The z wires of the settled state in name order: `filter`, `collect` and `sort`. */
  method SortedZ(m: Wires) returns (z: seq<string>)
    ensures z == ZOrder(m)
  {
    var zs: seq<string> := [];
    var rest := m.Keys;
    while rest != {}
      invariant rest <= m.Keys
      invariant multiset(zs) == multiset(ZWires(m) - rest)
      decreases |rest|
    {
      var k :| k in rest;
      ZStep(m, rest, k);
      if IsZ(k) {
        zs := zs + [k];
      }
      rest := rest - {k};
    }
    assert ZWires(m) - {} == ZWires(m);
    z := Sorting.Sort(zs, NameLe);
    NameOrder(Sorting.Elements(zs));
    Sorting.SortDependsOnMultiset(zs, Listing(ZWires(m)), NameLe);
  }

  lemma ZStep(m: Wires, rest: set<string>, k: string)
    requires k in rest && rest <= m.Keys
    ensures IsZ(k) ==> multiset(ZWires(m) - (rest - {k})) == multiset(ZWires(m) - rest) + multiset{k}
    ensures !IsZ(k) ==> ZWires(m) - (rest - {k}) == ZWires(m) - rest
  {
    if IsZ(k) {
      assert ZWires(m) - (rest - {k}) == (ZWires(m) - rest) + {k};
    }
  }

  /**
   * `simulate`: settle the network, then add up the z wires. Where the
   * source's `while` loop would run forever the method reports `Diverges`,
   * and where `bit << pow` would overflow it reports `Overflow`.
   */
  method Simulate(system: BinarySystem) returns (r: Outcome)
    ensures r == Simulated(system)
  {
    InitialCovers(system);
    var start := InitialOutputs(system);
    var settled := SettleLoop(start, system.gates);
    if settled.None? {
      return Diverges;
    }
    var outputs := settled.value;
    var z := SortedZ(outputs);
    ZOrderWires(outputs);
    if |z| > 64 {
      // `bit << pow` panics once `pow` reaches 64.
      return Overflow;
    }
    var result := SumBits(outputs, z);
    r := Value(result);
  }

  /**
   * The `while outputs.iter().any(..)` loop. The source has no way out
   * when a sweep learns nothing; here that case ends the loop with `None`.
   */
  method SettleLoop(start: Wires, gates: seq<Gate>) returns (r: Option<Wires>)
    requires Covers(start, gates)
    ensures r == Settle(start, gates)
  {
    var outputs := start;
    while !Complete(outputs)
      invariant Covers(outputs, gates)
      invariant Settle(outputs, gates) == Settle(start, gates)
      decreases |outputs.Keys - Known(outputs)|
    {
      var next := SweepOnce(outputs, gates);
      SweepGrows(outputs, gates);
      if Known(next) == Known(outputs) {
        return None;
      }
      FewerUnknown(outputs, next);
      outputs := next;
    }
    return Some(outputs);
  }

  /** The `for (pow, k) in z.into_iter().enumerate()` loop: `result += bit << pow`. */
  method SumBits(m: Wires, z: seq<string>) returns (result: nat)
    requires forall i :: 0 <= i < |z| ==> z[i] in m && m[z[i]].Some?
    ensures result == ZValue(m, z)
  {
    result := 0;
    for pow := 0 to |z|
      invariant result == ZValue(m, z[..pow])
    {
      var bit := if m[z[pow]].value then 1 else 0;
      ZValueSnoc(m, z, pow);
      result := result + bit * Pow2(pow);
    }
    assert z[..|z|] == z;
  }

  lemma ZValueSnoc(m: Wires, z: seq<string>, pow: nat)
    requires pow < |z| && forall i :: 0 <= i < |z| ==> z[i] in m && m[z[i]].Some?
    ensures ZValue(m, z[..pow + 1]) == ZValue(m, z[..pow]) + BitValue(m[z[pow]].value) * Pow2(pow)
  {
    assert z[..pow + 1][..pow] == z[..pow];
  }
}
