/**
 * Day 21, keypad conundrum (day21/src/main.rs): a chain of robots types a
 * door code. The numeric keypad and the directional keypad are small graphs
 * of buttons; `try_move_to` names the arrow that moves between two adjacent
 * buttons. The door code's numeric value is `get_num`; `get_input_sequence`
 * lists the shortest arrow sequences for the first robot, and `compute_len`
 * is the cost recursion through the further robots over a table of
 * precomputed moves. The tables themselves come from a library path search
 * and are inputs of this model.
 */
module Day21 {
  import opened Wrappers
  import GP = GridPoint
  import Decimal

  /** A button of the directional keypad. */
  datatype DirectionalButton = Up | Down | Left | Right | Activate

  /** A button of the numeric keypad on the door. */
  datatype KeypadButton =
    Zero | One | Two | Three | Four | Five | Six | Seven | Eight | Nine | Activate

  // ---------------------------------------------------------------------------
  // The layout of the two pads, as the puzzle draws them:
  //
  //     7 8 9
  //     4 5 6          ^ A
  //     1 2 3        < v >
  //       0 A
  //
  // This is a reference for the hand-written neighbour and move tables below.
  // ---------------------------------------------------------------------------

  /** Where a numeric button sits (row, column). */
  function KeyPos(b: KeypadButton): GP.Point {
    match b
    case Seven => GP.Point(0, 0)
    case Eight => GP.Point(0, 1)
    case Nine => GP.Point(0, 2)
    case Four => GP.Point(1, 0)
    case Five => GP.Point(1, 1)
    case Six => GP.Point(1, 2)
    case One => GP.Point(2, 0)
    case Two => GP.Point(2, 1)
    case Three => GP.Point(2, 2)
    case Zero => GP.Point(3, 1)
    case Activate => GP.Point(3, 2)
  }

  /** The numeric button at a position, if any: the inverse of `KeyPos`. */
  function KeyAt(p: GP.Point): (r: Option<KeypadButton>)
    ensures r.Some? ==> KeyPos(r.value) == p
  {
    match (p.row, p.col)
    case (0, 0) => Some(Seven)
    case (0, 1) => Some(Eight)
    case (0, 2) => Some(Nine)
    case (1, 0) => Some(Four)
    case (1, 1) => Some(Five)
    case (1, 2) => Some(Six)
    case (2, 0) => Some(One)
    case (2, 1) => Some(Two)
    case (2, 2) => Some(Three)
    case (3, 1) => Some(Zero)
    case (3, 2) => Some(KeypadButton.Activate)
    case _ => None
  }

  lemma KeyAtPos(b: KeypadButton)
    ensures KeyAt(KeyPos(b)) == Some(b)
  {
  }

  /** Where a directional button sits (row, column). */
  function DirPos(b: DirectionalButton): GP.Point {
    match b
    case Up => GP.Point(0, 1)
    case Activate => GP.Point(0, 2)
    case Left => GP.Point(1, 0)
    case Down => GP.Point(1, 1)
    case Right => GP.Point(1, 2)
  }

  /** The directional button at a position, if any: the inverse of `DirPos`. */
  function DirAt(p: GP.Point): (r: Option<DirectionalButton>)
    ensures r.Some? ==> DirPos(r.value) == p
  {
    match (p.row, p.col)
    case (0, 1) => Some(Up)
    case (0, 2) => Some(DirectionalButton.Activate)
    case (1, 0) => Some(Left)
    case (1, 1) => Some(Down)
    case (1, 2) => Some(Right)
    case _ => None
  }

  lemma DirAtPos(b: DirectionalButton)
    ensures DirAt(DirPos(b)) == Some(b)
  {
  }

  predicate IsArrow(d: DirectionalButton) { d != DirectionalButton.Activate }

  /** The step an arrow makes, as a (row, column) offset. */
  function Delta(d: DirectionalButton): GP.Offset
    requires IsArrow(d)
  {
    match d
    case Up => (-1, 0)
    case Down => (1, 0)
    case Left => (0, -1)
    case Right => (0, 1)
  }

  /** One step in the direction of an arrow; `None` when it would leave the first row or column. */
  function Step(p: GP.Point, d: DirectionalButton): Option<GP.Point>
    requires IsArrow(d)
  {
    var o := Delta(d);
    if p.row + o.0 < 0 || p.col + o.1 < 0 then None else Some(GP.Point(p.row + o.0, p.col + o.1))
  }

  /** The arrow that undoes another one. */
  function Opposite(d: DirectionalButton): (r: DirectionalButton)
    requires IsArrow(d)
    ensures IsArrow(r) && Delta(r) == (-Delta(d).0, -Delta(d).1)
  {
    match d
    case Up => Down
    case Down => Up
    case Left => Right
    case Right => Left
  }

  // ---------------------------------------------------------------------------
  // The neighbour tables and `try_move_to`.
  // ---------------------------------------------------------------------------

  /** The buttons next to a directional button, in the order the source lists them. */
  function DirectionalAdjacent(button: DirectionalButton): seq<DirectionalButton> {
    match button
    case Up => [DirectionalButton.Activate, Down]
    case Down => [Left, Up, Right]
    case Left => [Down]
    case Right => [Down, DirectionalButton.Activate]
    case Activate => [Up, Right]
  }

  /** Every listed edge costs one move. */
  function WithUnitCost<T>(buttons: seq<T>): (r: seq<(T, nat)>)
    ensures |r| == |buttons|
    ensures forall i :: 0 <= i < |r| ==> r[i] == (buttons[i], 1)
  {
    if buttons == [] then [] else [(buttons[0], 1)] + WithUnitCost(buttons[1..])
  }

  /** `directional_pad_neighbours`: the adjacent buttons, each at cost 1. */
  function DirectionalPadNeighbours(button: DirectionalButton): seq<(DirectionalButton, nat)> {
    WithUnitCost(DirectionalAdjacent(button))
  }

  /** The buttons next to a numeric button, in the order the source lists them. */
  function KeypadAdjacent(button: KeypadButton): seq<KeypadButton> {
    match button
    case Zero => [KeypadButton.Activate, Two]
    case One => [Four, Two]
    case Two => [One, Five, Three, Zero]
    case Three => [Two, Six, KeypadButton.Activate]
    case Four => [Seven, Five, One]
    case Five => [Four, Eight, Six, Two]
    case Six => [Five, Nine, Three]
    case Seven => [Eight, Four]
    case Eight => [Seven, Nine, Five]
    case Nine => [Eight, Six]
    case Activate => [Zero, Three]
  }

  /** `keypad_neighbours`: the adjacent buttons, each at cost 1. */
  function KeypadNeighbours(button: KeypadButton): seq<(KeypadButton, nat)> {
    WithUnitCost(KeypadAdjacent(button))
  }

  /** The directional neighbour table lists exactly the buttons one step away on the pad. */
  lemma DirectionalAdjacentGeometry(a: DirectionalButton, b: DirectionalButton)
    ensures b in DirectionalAdjacent(a) <==> GP.Manhattan(DirPos(a), DirPos(b)) == 1
  {
  }

  /** The numeric neighbour table lists exactly the buttons one step away on the pad. */
  lemma KeypadAdjacentGeometry(a: KeypadButton, b: KeypadButton)
    ensures b in KeypadAdjacent(a) <==> GP.Manhattan(KeyPos(a), KeyPos(b)) == 1
  {
  }

  /** `DirectionalButton::try_move_to`: the arrow leading from `a` to the adjacent `b`. */
  function DirectionalMove(a: DirectionalButton, b: DirectionalButton): (r: Option<DirectionalButton>)
    ensures r.Some? <==> b in DirectionalAdjacent(a)
    ensures r.Some? ==> IsArrow(r.value) && Step(DirPos(a), r.value) == Some(DirPos(b))
  {
    match (a, b)
    case (Up, Down) => Some(Down)
    case (Up, Activate) => Some(Right)
    case (Down, Up) => Some(Up)
    case (Down, Left) => Some(Left)
    case (Down, Right) => Some(Right)
    case (Left, Down) => Some(Right)
    case (Right, Down) => Some(Left)
    case (Right, Activate) => Some(Up)
    case (Activate, Up) => Some(Left)
    case (Activate, Right) => Some(Down)
    case (_, _) => None
  }

  /** `KeypadButton::try_move_to`: the arrow leading from `a` to the adjacent `b`. */
  function KeypadMove(a: KeypadButton, b: KeypadButton): (r: Option<DirectionalButton>)
    ensures r.Some? <==> b in KeypadAdjacent(a)
  {
    match (a, b)
    case (Zero, Two) => Some(Up)
    case (Zero, Activate) => Some(Right)
    case (One, Two) => Some(Right)
    case (One, Four) => Some(Up)
    case (Two, Zero) => Some(Down)
    case (Two, One) => Some(Left)
    case (Two, Three) => Some(Right)
    case (Two, Five) => Some(Up)
    case (Three, Two) => Some(Left)
    case (Three, Six) => Some(Up)
    case (Three, Activate) => Some(Down)
    case (Four, One) => Some(Down)
    case (Four, Five) => Some(Right)
    case (Four, Seven) => Some(Up)
    case (Five, Two) => Some(Down)
    case (Five, Four) => Some(Left)
    case (Five, Six) => Some(Right)
    case (Five, Eight) => Some(Up)
    case (Six, Three) => Some(Down)
    case (Six, Five) => Some(Left)
    case (Six, Nine) => Some(Up)
    case (Seven, Four) => Some(Down)
    case (Seven, Eight) => Some(Right)
    case (Eight, Five) => Some(Down)
    case (Eight, Seven) => Some(Left)
    case (Eight, Nine) => Some(Right)
    case (Nine, Six) => Some(Down)
    case (Nine, Eight) => Some(Left)
    case (Activate, Zero) => Some(Left)
    case (Activate, Three) => Some(Up)
    case (_, _) => None
  }

  /** Different arrows make different steps. */
  lemma DeltaInjective(d: DirectionalButton, e: DirectionalButton)
    requires IsArrow(d) && IsArrow(e) && Delta(d) == Delta(e)
    ensures d == e
  {
  }

  /** Two steps from the same point that reach the same point are the same step. */
  lemma SameStep(p: GP.Point, d: DirectionalButton, e: DirectionalButton)
    requires IsArrow(d) && IsArrow(e)
    requires Step(p, d).Some? && Step(p, d) == Step(p, e)
    ensures d == e
  {
    DeltaInjective(d, e);
  }

  /** The arrow `KeypadMove` names is the step from `a` to `b` on the numeric pad. */
  lemma KeypadMoveGeometry(a: KeypadButton, b: KeypadButton)
    ensures KeypadMove(a, b).Some? ==>
      IsArrow(KeypadMove(a, b).value) && Step(KeyPos(a), KeypadMove(a, b).value) == Some(KeyPos(b))
  {
    match a
    case Zero =>
    case One =>
    case Two =>
    case Three =>
    case Four =>
    case Five =>
    case Six =>
    case Seven =>
    case Eight =>
    case Nine =>
    case Activate =>
  }

  /** The opposite arrow steps back. */
  lemma StepBack(p: GP.Point, q: GP.Point, d: DirectionalButton)
    requires IsArrow(d) && Step(p, d) == Some(q)
    ensures Step(q, Opposite(d)) == Some(p)
  {
  }

  /** Adjacency on the directional pad is symmetric. */
  lemma DirectionalSymmetric(a: DirectionalButton, b: DirectionalButton)
    ensures b in DirectionalAdjacent(a) <==> a in DirectionalAdjacent(b)
  {
    DirectionalAdjacentGeometry(a, b);
    DirectionalAdjacentGeometry(b, a);
  }

  /** On the directional pad the way back is the opposite arrow. */
  lemma DirectionalOpposite(a: DirectionalButton, b: DirectionalButton, d: DirectionalButton)
    requires DirectionalMove(a, b) == Some(d)
    ensures IsArrow(d) && DirectionalMove(b, a) == Some(Opposite(d))
  {
    DirectionalSymmetric(a, b);
    var back := DirectionalMove(b, a).value;
    StepBack(DirPos(a), DirPos(b), d);
    SameStep(DirPos(b), back, Opposite(d));
  }

  /** Adjacency on the numeric pad is symmetric. */
  lemma KeypadSymmetric(a: KeypadButton, b: KeypadButton)
    ensures b in KeypadAdjacent(a) <==> a in KeypadAdjacent(b)
  {
    KeypadAdjacentGeometry(a, b);
    KeypadAdjacentGeometry(b, a);
  }

  /** On the numeric pad the way back is the opposite arrow. */
  lemma KeypadOpposite(a: KeypadButton, b: KeypadButton, d: DirectionalButton)
    requires KeypadMove(a, b) == Some(d)
    ensures IsArrow(d) && KeypadMove(b, a) == Some(Opposite(d))
  {
    KeypadSymmetric(a, b);
    KeypadMoveGeometry(a, b);
    KeypadMoveGeometry(b, a);
    var back := KeypadMove(b, a).value;
    StepBack(KeyPos(a), KeyPos(b), d);
    SameStep(KeyPos(b), back, Opposite(d));
  }

  // ---------------------------------------------------------------------------
  // Door codes: `KeypadButton::try_from`, `parse` and `get_num`.
  // ---------------------------------------------------------------------------

  /** The character a numeric button is written as. */
  function Symbol(b: KeypadButton): char {
    match b
    case Zero => '0'
    case One => '1'
    case Two => '2'
    case Three => '3'
    case Four => '4'
    case Five => '5'
    case Six => '6'
    case Seven => '7'
    case Eight => '8'
    case Nine => '9'
    case Activate => 'A'
  }

  /** `KeypadButton::try_from(char)`: the ten digits and 'A'; anything else is an error naming it. */
  function ButtonOf(c: char): Result<KeypadButton, string> {
    match c
    case '0' => Ok(Zero)
    case '1' => Ok(One)
    case '2' => Ok(Two)
    case '3' => Ok(Three)
    case '4' => Ok(Four)
    case '5' => Ok(Five)
    case '6' => Ok(Six)
    case '7' => Ok(Seven)
    case '8' => Ok(Eight)
    case '9' => Ok(Nine)
    case 'A' => Ok(KeypadButton.Activate)
    case _ => Err("encountered " + [c])
  }

  /**
   * Exactly the ten digits and 'A' are accepted, each as the button written
   * that way; the error names the character.
   */
  lemma ButtonOfSpec(c: char)
    ensures ButtonOf(c).Ok? <==> c in "0123456789A"
    ensures ButtonOf(c).Ok? ==> Symbol(ButtonOf(c).value) == c
    ensures ButtonOf(c).Err? ==> ButtonOf(c).error == "encountered " + [c]
  {
  }

  /** Writing a button and reading it back gives the button. */
  lemma SymbolRoundTrip(b: KeypadButton)
    ensures ButtonOf(Symbol(b)) == Ok(b)
  {
  }

  /** A line the source's `parse` accepts: its `expect` panics on any other character. */
  predicate ValidCode(input: string) {
    forall i :: 0 <= i < |input| ==> ButtonOf(input[i]).Ok?
  }

  /** `parse`: one button per character; `None` where the source panics. */
  function Parse(input: string): (r: Option<seq<KeypadButton>>)
    ensures r.Some? ==> |r.value| == |input|
  {
    if input == [] then Some([])
    else
      var head, rest := ButtonOf(input[0]), Parse(input[1..]);
      if head.Ok? && rest.Some? then Some([head.value] + rest.value) else None
  }

  /**
   * Parsing succeeds exactly on valid lines, and then each button is the one
   * its character names, written as that character.
   */
  lemma {:induction false} ParseSpec(input: string)
    ensures Parse(input).Some? <==> ValidCode(input)
    ensures Parse(input).Some? ==> forall i :: 0 <= i < |input| ==>
      Parse(input).value[i] == ButtonOf(input[i]).value && Symbol(Parse(input).value[i]) == input[i]
  {
    if input != [] {
      ParseSpec(input[1..]);
      ButtonOfSpec(input[0]);
      assert ValidCode(input) <==> ButtonOf(input[0]).Ok? && ValidCode(input[1..]) by {
        assert forall i :: 1 <= i < |input| ==> input[i] == input[1..][i - 1];
      }
    }
  }

  lemma ParseExamples()
    ensures Parse("029A") == Some([Zero, Two, Nine, KeypadButton.Activate])
    ensures Parse("029B") == None
  {
    assert "A"[1..] == "" && [KeypadButton.Activate] + [] == [KeypadButton.Activate];
    assert Parse("A") == Some([KeypadButton.Activate]);
    assert "9A"[1..] == "A" && [Nine] + [KeypadButton.Activate] == [Nine, KeypadButton.Activate];
    assert Parse("9A") == Some([Nine, KeypadButton.Activate]);
    assert "29A"[1..] == "9A" && [Two] + [Nine, KeypadButton.Activate] == [Two, Nine, KeypadButton.Activate];
    assert Parse("29A") == Some([Two, Nine, KeypadButton.Activate]);
    assert "029A"[1..] == "29A";
    assert [Zero] + [Two, Nine, KeypadButton.Activate] == [Zero, Two, Nine, KeypadButton.Activate];
    assert "029B"[1..] == "29B" && "29B"[1..] == "9B" && "9B"[1..] == "B";
    assert Parse("B") == None;
    assert Parse("9B") == None;
    assert Parse("29B") == None;
  }

  /** The digit a button stands for, as the match in `get_num` gives it; `Activate` stands for none. */
  function Digit(b: KeypadButton): (r: Option<nat>)
    ensures r.None? <==> b == KeypadButton.Activate
    ensures r.Some? ==> r.value == Decimal.DigitValue(Symbol(b))
  {
    match b
    case Zero => Some(0)
    case One => Some(1)
    case Two => Some(2)
    case Three => Some(3)
    case Four => Some(4)
    case Five => Some(5)
    case Six => Some(6)
    case Seven => Some(7)
    case Eight => Some(8)
    case Nine => Some(9)
    case Activate => None
  }

  /** The digits of a code as text: the digit buttons in order, `Activate` dropped. */
  function DigitText(code: seq<KeypadButton>): (t: string)
    ensures forall i :: 0 <= i < |t| ==> Decimal.IsDigit(t[i])
  {
    if code == [] then []
    else (if code[0] == KeypadButton.Activate then [] else [Symbol(code[0])]) + DigitText(code[1..])
  }

  /** The numeric part of a code: its digits read as a decimal number. */
  function CodeValue(code: seq<KeypadButton>): nat {
    Decimal.FromDecimal(DigitText(code))
  }

  /** The numeric part of 029A is 29. */
  lemma CodeValue029A()
    ensures CodeValue([Zero, Two, Nine, KeypadButton.Activate]) == 29
  {
    assert DigitText([Nine, KeypadButton.Activate]) == "9";
    assert DigitText([Two, Nine, KeypadButton.Activate]) == "29";
    assert DigitText([Zero, Two, Nine, KeypadButton.Activate]) == "029";
    assert Decimal.FromDecimal("0") == 0;
    assert Decimal.FromDecimal("02") == 2;
    assert Decimal.FromDecimal("029") == 29;
  }

  /** The numeric part of 980A is 980. */
  lemma CodeValue980A()
    ensures CodeValue([Nine, Eight, Zero, KeypadButton.Activate]) == 980
  {
    assert DigitText([Zero, KeypadButton.Activate]) == "0";
    assert DigitText([Eight, Zero, KeypadButton.Activate]) == "80";
    assert DigitText([Nine, Eight, Zero, KeypadButton.Activate]) == "980";
    assert Decimal.FromDecimal("9") == 9;
    assert Decimal.FromDecimal("98") == 98;
    assert Decimal.FromDecimal("980") == 980;
  }

  /** Reading one more button from the right: a digit moves in front of the digits read so far. */
  lemma CodeValueStep(code: seq<KeypadButton>, i: nat)
    requires i < |code|
    ensures code[i] == KeypadButton.Activate ==> DigitText(code[i..]) == DigitText(code[i + 1..])
    ensures code[i] != KeypadButton.Activate ==>
      |DigitText(code[i..])| == |DigitText(code[i + 1..])| + 1 &&
      CodeValue(code[i..]) == Digit(code[i]).value * Decimal.Pow10(|DigitText(code[i + 1..])|) + CodeValue(code[i + 1..])
  {
    assert code[i..][1..] == code[i + 1..];
    if code[i] != KeypadButton.Activate {
      var c := [Symbol(code[i])];
      Decimal.FromDecimalAppend(c, DigitText(code[i + 1..]));
      assert c[..0] == [];
    }
  }

  /** `get_num`: walks the code from its last button, adding each digit times its place value. */
  method GetNum(code: seq<KeypadButton>) returns (result: nat)
    ensures result == CodeValue(code)
  {
    var x: nat := 1;
    result := 0;
    var i := |code|;
    while i > 0
      invariant 0 <= i <= |code|
      invariant result == CodeValue(code[i..])
      invariant x == Decimal.Pow10(|DigitText(code[i..])|)
    {
      i := i - 1;
      CodeValueStep(code, i);
      match Digit(code[i])
      case Some(n) =>
        result := result + n * x;
        x := x * 10;
      case None =>
    }
  }

  // ---------------------------------------------------------------------------
  // The first robot: what its arrow presses type on the numeric pad.
  // ---------------------------------------------------------------------------

  /** Where the arm over the numeric pad goes on an arrow; `None` over the gap or off the pad. */
  function KeyStep(k: KeypadButton, d: DirectionalButton): Option<KeypadButton>
    requires IsArrow(d)
  {
    var q := Step(KeyPos(k), d);
    if q.None? then None else KeyAt(q.value)
  }

  /** An arrow step reaches a point one step away. */
  lemma UnitStep(p: GP.Point, q: GP.Point, d: DirectionalButton)
    requires IsArrow(d) && Step(p, d) == Some(q)
    ensures GP.Manhattan(p, q) == 1
  {
  }

  /** Stepping the arm agrees with `try_move_to`: the arrow takes `a` to `b` exactly when `try_move_to` names it. */
  lemma KeyStepIsMove(a: KeypadButton, b: KeypadButton, d: DirectionalButton)
    requires IsArrow(d)
    ensures KeyStep(a, d) == Some(b) <==> KeypadMove(a, b) == Some(d)
  {
    KeypadMoveGeometry(a, b);
    if KeypadMove(a, b) == Some(d) {
      KeyAtPos(b);
    }
    if KeyStep(a, d) == Some(b) {
      var p := Step(KeyPos(a), d).value;
      assert KeyAt(p) == Some(b);
      UnitStep(KeyPos(a), p, d);
      KeypadAdjacentGeometry(a, b);
      SameStep(KeyPos(a), d, KeypadMove(a, b).value);
    }
  }

  /** A run of the arm over the numeric pad: the buttons pressed and where it ends. */
  type Outcome = Option<(seq<KeypadButton>, KeypadButton)>

  /**
   * Driving the numeric pad's arm by directional presses, starting over `k`:
   * an arrow moves it, `Activate` presses the button under it; `None` when
   * it would leave the pad.
   */
  function Typed(k: KeypadButton, presses: seq<DirectionalButton>): Outcome
    decreases |presses|
  {
    if presses == [] then Some(([], k))
    else if presses[0] == DirectionalButton.Activate then
      Pressed(k, Typed(k, presses[1..]))
    else
      match KeyStep(k, presses[0])
      case None => None
      case Some(n) => Typed(n, presses[1..])
  }

  /** `k` pressed in front of a run. */
  function Pressed(k: KeypadButton, run: Outcome): Outcome {
    match run
    case None => None
    case Some(rest) => Some(([k] + rest.0, rest.1))
  }

  /** Continue a run by more presses from where it ended. */
  function Then(first: Outcome, more: seq<DirectionalButton>): Outcome {
    match first
    case None => None
    case Some(r) =>
      match Typed(r.1, more)
      case None => None
      case Some(t) => Some((r.0 + t.0, t.1))
  }

  /** Pressing `p` and then `q` is running `p` and continuing with `q`. */
  lemma {:induction false} TypedAppend(k: KeypadButton, p: seq<DirectionalButton>, q: seq<DirectionalButton>)
    ensures Typed(k, p + q) == Then(Typed(k, p), q)
    decreases |p|
  {
    if p == [] {
      assert p + q == q;
      match Typed(k, q)
      case None =>
      case Some(t) => assert [] + t.0 == t.0;
    } else {
      var pq := p + q;
      assert pq[1..] == p[1..] + q && pq[0] == p[0];
      if p[0] == DirectionalButton.Activate {
        TypedAppend(k, p[1..], q);
        PressAppend(k, p, q);
      } else {
        match KeyStep(k, p[0])
        case None =>
        case Some(n) => TypedAppend(n, p[1..], q);
      }
    }
  }

  /** The `Activate` case of `TypedAppend`, given the claim for the rest of `p`. */
  lemma PressAppend(k: KeypadButton, p: seq<DirectionalButton>, q: seq<DirectionalButton>)
    requires p != [] && p[0] == DirectionalButton.Activate
    requires (p + q)[1..] == p[1..] + q && (p + q)[0] == p[0]
    requires Typed(k, p[1..] + q) == Then(Typed(k, p[1..]), q)
    ensures Typed(k, p + q) == Then(Typed(k, p), q)
  {
    ThenPressed(k, Typed(k, p[1..]), q);
  }

  /** Pressing `k` first and continuing afterwards is continuing and pressing `k` first. */
  lemma ThenPressed(k: KeypadButton, run: Outcome, q: seq<DirectionalButton>)
    ensures Then(Pressed(k, run), q) == Pressed(k, Then(run, q))
  {
    match run
    case None =>
    case Some(r) =>
      match Typed(r.1, q)
      case None =>
      case Some(t) => assert [k] + (r.0 + t.0) == ([k] + r.0) + t.0;
  }

  /** A numeric move table: for each pair of buttons, the arrow paths between them. */
  type KeypadTable = map<(KeypadButton, KeypadButton), seq<seq<DirectionalButton>>>

  /**
   * What the path search promises of a numeric move table: every path it
   * lists for `(a, b)` is made of arrows that lead the arm from `a` to `b`
   * over buttons of the pad.
   */
  ghost predicate Walks(table: KeypadTable) {
    forall move, p :: move in table && p in table[move] ==> Typed(move.0, p) == Some(([], move.1))
  }

  /** The button the arm rests on before the `i`-th target: `Activate` at first. */
  function Before(inputs: seq<KeypadButton>, i: nat): KeypadButton
    requires i <= |inputs|
  {
    if i == 0 then KeypadButton.Activate else inputs[i - 1]
  }

  /** The table lists every move the code needs; the source's `expect` panics otherwise. */
  predicate Covers(table: KeypadTable, inputs: seq<KeypadButton>) {
    forall i :: 0 <= i < |inputs| ==> (Before(inputs, i), inputs[i]) in table
  }

  /** ... and lists at least one path for each of them, as the path search always does. */
  predicate HasPaths(table: KeypadTable, inputs: seq<KeypadButton>)
    requires Covers(table, inputs)
  {
    forall i :: 0 <= i < |inputs| ==> |table[(Before(inputs, i), inputs[i])]| >= 1
  }

  lemma CoversPrefix(table: KeypadTable, inputs: seq<KeypadButton>, n: nat)
    requires Covers(table, inputs) && n <= |inputs|
    ensures Covers(table, inputs[..n])
    ensures forall i :: 0 <= i <= n ==> Before(inputs[..n], i) == Before(inputs, i)
  {
    assert forall i :: 0 <= i <= n ==> Before(inputs[..n], i) == Before(inputs, i);
  }

  /** Every path in `paths` followed by every option in `options` and then `Activate`, with `paths` outermost. */
  function Extend(paths: seq<seq<DirectionalButton>>, options: seq<seq<DirectionalButton>>): seq<seq<DirectionalButton>> {
    if paths == [] then []
    else
      seq(|options|, j requires 0 <= j < |options| => paths[0] + options[j] + [DirectionalButton.Activate])
      + Extend(paths[1..], options)
  }

  /** The `cartesian_product` step builds exactly the combinations of an earlier path and an option. */
  lemma {:induction false} ExtendMembers(paths: seq<seq<DirectionalButton>>, options: seq<seq<DirectionalButton>>, c: seq<DirectionalButton>)
    ensures c in Extend(paths, options) <==>
      exists p, o :: p in paths && o in options && c == p + o + [DirectionalButton.Activate]
  {
    if paths != [] {
      ExtendMembers(paths[1..], options, c);
      var row := seq(|options|, j requires 0 <= j < |options| => paths[0] + options[j] + [DirectionalButton.Activate]);
      assert Extend(paths, options) == row + Extend(paths[1..], options);
      if c in row {
        var j :| 0 <= j < |options| && row[j] == c;
        assert paths[0] in paths && options[j] in options;
      }
      if exists p, o :: p in paths && o in options && c == p + o + [DirectionalButton.Activate] {
        var p, o :| p in paths && o in options && c == p + o + [DirectionalButton.Activate];
        if p == paths[0] {
          var j :| 0 <= j < |options| && options[j] == o;
          assert row[j] == c;
        } else {
          assert p in paths[1..];
        }
      }
    }
  }

  /** There are as many combinations as the product of the two counts. */
  lemma {:induction false} ExtendSize(paths: seq<seq<DirectionalButton>>, options: seq<seq<DirectionalButton>>)
    ensures |Extend(paths, options)| == |paths| * |options|
  {
    if paths != [] {
      ExtendSize(paths[1..], options);
      assert |paths| * |options| == |options| + (|paths| - 1) * |options|;
    }
  }

  /** A single path extended by each option. */
  lemma ExtendSingle(p: seq<DirectionalButton>, options: seq<seq<DirectionalButton>>)
    ensures Extend([p], options)
      == seq(|options|, j requires 0 <= j < |options| => p + options[j] + [DirectionalButton.Activate])
  {
    assert [p][1..] == [];
  }

  /** Each path extended by a single option. */
  lemma {:induction false} ExtendByOne(paths: seq<seq<DirectionalButton>>, o: seq<DirectionalButton>)
    ensures Extend(paths, [o])
      == seq(|paths|, i requires 0 <= i < |paths| => paths[i] + o + [DirectionalButton.Activate])
  {
    if paths != [] {
      ExtendByOne(paths[1..], o);
    }
  }

  /**
   * The sequences `get_input_sequence` builds before keeping the shortest:
   * for each target in turn, one listed path from the button before it,
   * followed by `Activate`; earlier choices vary slowest.
   */
  function Candidates(table: KeypadTable, inputs: seq<KeypadButton>): seq<seq<DirectionalButton>>
    requires Covers(table, inputs)
    decreases |inputs|
  {
    if inputs == [] then [[]]
    else
      var n := |inputs| - 1;
      CoversPrefix(table, inputs, n);
      Extend(Candidates(table, inputs[..n]), table[(Before(inputs, n), inputs[n])])
  }

  /** One more target: the candidates so far, extended by the paths to it. */
  lemma CandidatesPrefixStep(table: KeypadTable, inputs: seq<KeypadButton>, n: nat)
    requires Covers(table, inputs) && n < |inputs|
    ensures Covers(table, inputs[..n]) && Covers(table, inputs[..n + 1])
    ensures Candidates(table, inputs[..n + 1])
      == Extend(Candidates(table, inputs[..n]), table[(Before(inputs, n), inputs[n])])
  {
    CoversPrefix(table, inputs, n);
    CoversPrefix(table, inputs, n + 1);
    assert inputs[..n + 1][..n] == inputs[..n];
  }

  /** Given a table of genuine walks, every candidate types exactly the code and leaves the arm on its last button. */
  lemma {:induction false} CandidatesType(table: KeypadTable, inputs: seq<KeypadButton>, c: seq<DirectionalButton>)
    requires Walks(table) && Covers(table, inputs)
    requires c in Candidates(table, inputs)
    ensures Typed(KeypadButton.Activate, c) == Some((inputs, Before(inputs, |inputs|)))
    decreases |inputs|
  {
    if inputs == [] {
      assert c == [];
    } else {
      var n := |inputs| - 1;
      var prefix := inputs[..n];
      CoversPrefix(table, inputs, n);
      var from, target := Before(inputs, n), inputs[n];
      var options := table[(from, target)];
      var earlier := Candidates(table, prefix);
      assert c in Extend(earlier, options);
      ExtendMembers(earlier, options, c);
      var p, o :| p in earlier && o in options && c == p + o + [DirectionalButton.Activate];
      CandidatesType(table, prefix, p);
      WalkIn(table, from, target, o);
      TypeNext(inputs, p, o);
    }
  }

  /** A path the table lists for a move walks that move. */
  lemma WalkIn(table: KeypadTable, from: KeypadButton, target: KeypadButton, o: seq<DirectionalButton>)
    requires Walks(table) && (from, target) in table && o in table[(from, target)]
    ensures Typed(from, o) == Some(([], target))
  {
  }

  /** A run typing all but the last target, then a walk to the last one and `Activate`, types the whole code. */
  lemma TypeNext(inputs: seq<KeypadButton>, p: seq<DirectionalButton>, o: seq<DirectionalButton>)
    requires |inputs| > 0
    requires Typed(KeypadButton.Activate, p) == Some((inputs[..|inputs| - 1], Before(inputs[..|inputs| - 1], |inputs| - 1)))
    requires Typed(Before(inputs, |inputs| - 1), o) == Some(([], inputs[|inputs| - 1]))
    ensures Typed(KeypadButton.Activate, p + o + [DirectionalButton.Activate]) == Some((inputs, Before(inputs, |inputs|)))
  {
    LastInput(inputs);
    WalkThenPress(KeypadButton.Activate, p, inputs[..|inputs| - 1], Before(inputs, |inputs| - 1), o, inputs[|inputs| - 1]);
  }

  /** The code is its prefix and its last target, after which the arm rests on that target. */
  lemma LastInput(inputs: seq<KeypadButton>)
    requires |inputs| > 0
    ensures inputs[..|inputs| - 1] + [inputs[|inputs| - 1]] == inputs
    ensures Before(inputs, |inputs|) == inputs[|inputs| - 1]
    ensures Before(inputs[..|inputs| - 1], |inputs| - 1) == Before(inputs, |inputs| - 1)
  {
  }

  /** A run that ends over `from`, then a walk to `target`, then `Activate`: `target` is typed next. */
  lemma WalkThenPress(k: KeypadButton, p: seq<DirectionalButton>, typed: seq<KeypadButton>,
                      from: KeypadButton, o: seq<DirectionalButton>, target: KeypadButton)
    requires Typed(k, p) == Some((typed, from)) && Typed(from, o) == Some(([], target))
    ensures Typed(k, p + o + [DirectionalButton.Activate]) == Some((typed + [target], target))
  {
    assert Typed(target, [DirectionalButton.Activate]) == Some(([target], target)) by {
      assert [DirectionalButton.Activate][1..] == [];
      assert [target] + [] == [target];
    }
    TypedAppend(k, p, o);
    TypedAppend(k, p + o, [DirectionalButton.Activate]);
    assert typed + [] == typed;
  }

  /** With at least one path per move there is at least one candidate. */
  lemma {:induction false} CandidatesNonEmpty(table: KeypadTable, inputs: seq<KeypadButton>)
    requires Covers(table, inputs) && HasPaths(table, inputs)
    ensures |Candidates(table, inputs)| >= 1
    decreases |inputs|
  {
    if inputs != [] {
      var n := |inputs| - 1;
      CoversPrefix(table, inputs, n);
      CandidatesNonEmpty(table, inputs[..n]);
      ExtendSize(Candidates(table, inputs[..n]), table[(Before(inputs, n), inputs[n])]);
    }
  }

  function Min(x: nat, y: nat): nat { if x <= y then x else y }

  /** The shortest length among some paths. */
  function MinLength(paths: seq<seq<DirectionalButton>>): nat
    requires |paths| >= 1
  {
    if |paths| == 1 then |paths[0]| else Min(|paths[0]|, MinLength(paths[1..]))
  }

  lemma {:induction false} MinLengthSpec(paths: seq<seq<DirectionalButton>>)
    requires |paths| >= 1
    ensures forall p :: p in paths ==> MinLength(paths) <= |p|
    ensures exists p :: p in paths && MinLength(paths) == |p|
  {
    if |paths| > 1 {
      MinLengthSpec(paths[1..]);
      assert forall p :: p in paths ==> p == paths[0] || p in paths[1..];
      if |paths[0]| <= MinLength(paths[1..]) {
        assert paths[0] in paths;
      } else {
        var q :| q in paths[1..] && MinLength(paths[1..]) == |q|;
        assert q in paths;
      }
    }
  }

  /** The paths of length `n`, in their original order. */
  function Keep(paths: seq<seq<DirectionalButton>>, n: nat): (r: seq<seq<DirectionalButton>>)
    ensures forall p :: p in r <==> p in paths && |p| == n
  {
    if paths == [] then []
    else (if |paths[0]| == n then [paths[0]] else []) + Keep(paths[1..], n)
  }

  /** `min_set_by` on the length: the paths of minimal length, in their original order. */
  function Shortest(paths: seq<seq<DirectionalButton>>): seq<seq<DirectionalButton>> {
    if paths == [] then [] else Keep(paths, MinLength(paths))
  }

  /** Exactly the paths no other path is shorter than are kept, and some are kept whenever there are any. */
  lemma ShortestSpec(paths: seq<seq<DirectionalButton>>)
    ensures forall p :: p in Shortest(paths) <==> p in paths && forall q :: q in paths ==> |p| <= |q|
    ensures |paths| >= 1 ==> |Shortest(paths)| >= 1
  {
    if paths != [] {
      MinLengthSpec(paths);
      var q :| q in paths && MinLength(paths) == |q|;
      assert q in Shortest(paths);
    }
  }

  /** `get_input_sequence`: extends the paths target by target, then keeps the shortest. */
  method GetInputSequence(inputs: seq<KeypadButton>, table: KeypadTable) returns (sequences: seq<seq<DirectionalButton>>)
    requires Covers(table, inputs)
    ensures sequences == Shortest(Candidates(table, inputs))
  {
    var current := KeypadButton.Activate;
    var paths: seq<seq<DirectionalButton>> := [[]];
    var i := 0;
    while i < |inputs|
      invariant 0 <= i <= |inputs|
      invariant current == Before(inputs, i)
      invariant Covers(table, inputs[..i]) && paths == Candidates(table, inputs[..i])
    {
      CandidatesPrefixStep(table, inputs, i);
      paths := Extend(paths, table[(current, inputs[i])]);
      current := inputs[i];
      i := i + 1;
    }
    assert inputs[..i] == inputs;
    sequences := Shortest(paths);
  }

  // ---------------------------------------------------------------------------
  // The further robots: `compute_len` and `solve`.
  // ---------------------------------------------------------------------------

  /** A directional move table: for each pair of buttons, the press sequences (ending in `Activate`) between them. */
  type DirectionalTable = map<(DirectionalButton, DirectionalButton), seq<seq<DirectionalButton>>>

  /** What `compute_len` needs of its table: some sequence for every pair of buttons. */
  predicate Complete(table: DirectionalTable) {
    forall a: DirectionalButton, b: DirectionalButton :: (a, b) in table && |table[(a, b)]| >= 1
  }

  /** The button before the `i`-th press of a sequence: `Activate` at first. */
  function DirBefore(s: seq<DirectionalButton>, i: nat): DirectionalButton
    requires i <= |s|
  {
    if i == 0 then DirectionalButton.Activate else s[i - 1]
  }

  /**
   * The presses needed at the top of a chain of `depth` robots to move the
   * bottom arm from `a` to `b` and press it: at depth 1 the first listed
   * sequence, deeper the cheapest listed sequence typed one level up.
   */
  function Cost(table: DirectionalTable, a: DirectionalButton, b: DirectionalButton, depth: nat): nat
    requires Complete(table) && depth >= 1
    decreases depth, 1, 0
  {
    if depth == 1 then |table[(a, b)][0]| else MinCost(table, table[(a, b)], depth - 1)
  }

  /** The cost of typing `s` through `depth` robots, each press starting where the previous one ended. */
  function SeqCost(table: DirectionalTable, s: seq<DirectionalButton>, depth: nat): nat
    requires Complete(table) && depth >= 1
    decreases depth, 2, |s|
  {
    if s == [] then 0
    else SeqCost(table, s[..|s| - 1], depth) + Cost(table, DirBefore(s, |s| - 1), s[|s| - 1], depth)
  }

  /** The cheapest of some sequences. */
  function MinCost(table: DirectionalTable, seqs: seq<seq<DirectionalButton>>, depth: nat): nat
    requires Complete(table) && depth >= 1 && |seqs| >= 1
    decreases depth, 3, |seqs|
  {
    if |seqs| == 1 then SeqCost(table, seqs[0], depth)
    else Min(MinCost(table, seqs[..|seqs| - 1], depth), SeqCost(table, seqs[|seqs| - 1], depth))
  }

  /** `MinCost` is a minimum: no sequence is cheaper, and some sequence costs exactly that. */
  lemma {:induction false} MinCostSpec(table: DirectionalTable, seqs: seq<seq<DirectionalButton>>, depth: nat)
    requires Complete(table) && depth >= 1 && |seqs| >= 1
    ensures forall s :: s in seqs ==> MinCost(table, seqs, depth) <= SeqCost(table, s, depth)
    ensures exists s :: s in seqs && MinCost(table, seqs, depth) == SeqCost(table, s, depth)
    decreases |seqs|
  {
    if |seqs| > 1 {
      var front := seqs[..|seqs| - 1];
      MinCostSpec(table, front, depth);
      assert forall s :: s in seqs ==> s in front || s == seqs[|seqs| - 1];
      var last := seqs[|seqs| - 1];
      assert MinCost(table, seqs, depth) == Min(MinCost(table, front, depth), SeqCost(table, last, depth));
      if MinCost(table, front, depth) <= SeqCost(table, last, depth) {
        var s :| s in front && MinCost(table, front, depth) == SeqCost(table, s, depth);
        assert s in seqs;
      } else {
        assert last in seqs;
      }
    } else {
      assert seqs[0] in seqs;
    }
  }

  /** Beyond the first robot, moving from `a` to `b` costs as much as the cheapest listed sequence one level up. */
  lemma CostIsMinimum(table: DirectionalTable, a: DirectionalButton, b: DirectionalButton, depth: nat)
    requires Complete(table) && depth >= 2
    ensures forall s :: s in table[(a, b)] ==> Cost(table, a, b, depth) <= SeqCost(table, s, depth - 1)
    ensures exists s :: s in table[(a, b)] && Cost(table, a, b, depth) == SeqCost(table, s, depth - 1)
  {
    MinCostSpec(table, table[(a, b)], depth - 1);
  }

  /** Every listed sequence ends by pressing, as the precomputed sequences do. */
  ghost predicate Pressing(table: DirectionalTable) {
    forall a, b, s :: (a, b) in table && s in table[(a, b)] ==>
      |s| >= 1 && s[|s| - 1] == DirectionalButton.Activate
  }

  /** Every move costs at least one press at the top. */
  lemma {:induction false} CostPositive(table: DirectionalTable, a: DirectionalButton, b: DirectionalButton, depth: nat)
    requires Complete(table) && Pressing(table) && depth >= 1
    ensures Cost(table, a, b, depth) >= 1
    decreases depth, 1
  {
    if depth == 1 {
      assert table[(a, b)][0] in table[(a, b)];
    } else {
      CostIsMinimum(table, a, b, depth);
      var s :| s in table[(a, b)] && Cost(table, a, b, depth) == SeqCost(table, s, depth - 1);
      SeqCostAtLeast(table, s, depth - 1);
    }
  }

  /** Typing a sequence through further robots takes at least one press per button of it. */
  lemma {:induction false} SeqCostAtLeast(table: DirectionalTable, s: seq<DirectionalButton>, depth: nat)
    requires Complete(table) && Pressing(table) && depth >= 1
    ensures SeqCost(table, s, depth) >= |s|
    decreases depth, 2, |s|
  {
    if s != [] {
      SeqCostAtLeast(table, s[..|s| - 1], depth);
      CostPositive(table, DirBefore(s, |s| - 1), s[|s| - 1], depth);
    }
  }

  /** `compute_len`: the cheapest listed sequence, each costed press by press one level up. */
  method ComputeLen(table: DirectionalTable, a: DirectionalButton, b: DirectionalButton, depth: nat) returns (optimal: nat)
    requires Complete(table) && depth >= 1
    ensures optimal == Cost(table, a, b, depth)
    decreases depth, 1
  {
    if depth == 1 {
      return |table[(a, b)][0]|;
    }
    optimal := Cheapest(table, table[(a, b)], depth - 1);
  }

  /** The `optimal` loop of `compute_len` and `solve`: the cheapest of some sequences. */
  method Cheapest(table: DirectionalTable, seqs: seq<seq<DirectionalButton>>, depth: nat) returns (optimal: nat)
    requires Complete(table) && depth >= 1 && |seqs| >= 1
    ensures optimal == MinCost(table, seqs, depth)
    decreases depth, 3
  {
    optimal := 0;
    for i := 0 to |seqs|
      invariant i >= 1 ==> optimal == MinCost(table, seqs[..i], depth)
    {
      var length := SequenceLen(table, seqs[i], depth);
      assert seqs[..i + 1][..i] == seqs[..i];
      optimal := if i == 0 then length else Min(optimal, length);
    }
    assert seqs[..|seqs|] == seqs;
  }

  /** The inner loop of `compute_len` and `solve`: the costs of consecutive pairs of `[Activate] + s`, added up. */
  method SequenceLen(table: DirectionalTable, s: seq<DirectionalButton>, depth: nat) returns (length: nat)
    requires Complete(table) && depth >= 1
    ensures length == SeqCost(table, s, depth)
    decreases depth, 2
  {
    length := 0;
    var previous := DirectionalButton.Activate;
    for j := 0 to |s|
      invariant previous == DirBefore(s, j)
      invariant length == SeqCost(table, s[..j], depth)
    {
      var step := ComputeLen(table, previous, s[j], depth);
      assert s[..j + 1][..j] == s[..j];
      assert DirBefore(s[..j + 1], j) == DirBefore(s, j);
      length := length + step;
      previous := s[j];
    }
    assert s[..|s|] == s;
  }

  /** With at least one path per move, some shortest candidate is kept. */
  lemma ShortestCandidates(keypad: KeypadTable, inputs: seq<KeypadButton>)
    requires Covers(keypad, inputs) && HasPaths(keypad, inputs)
    ensures |Shortest(Candidates(keypad, inputs))| >= 1
  {
    CandidatesNonEmpty(keypad, inputs);
    ShortestSpec(Candidates(keypad, inputs));
  }

  /** The fewest presses at the top over all shortest first-robot sequences for a code. */
  function Fewest(keypad: KeypadTable, dirs: DirectionalTable, inputs: seq<KeypadButton>, count: nat): nat
    requires Covers(keypad, inputs) && HasPaths(keypad, inputs) && Complete(dirs) && count >= 1
  {
    ShortestCandidates(keypad, inputs);
    MinCost(dirs, Shortest(Candidates(keypad, inputs)), count)
  }

  /** A code's complexity: its numeric part times the presses needed to type it. */
  function Complexity(value: nat, presses: nat): nat {
    value * presses
  }

  /** `solve`: the code's numeric part times the fewest top presses through `count` directional robots. */
  method Solve(inputs: seq<KeypadButton>, count: nat, keypad: KeypadTable, dirs: DirectionalTable) returns (complexity: nat)
    requires Covers(keypad, inputs) && HasPaths(keypad, inputs) && Complete(dirs) && count >= 1
    ensures complexity == Complexity(CodeValue(inputs), Fewest(keypad, dirs, inputs, count))
  {
    var num := GetNum(inputs);
    var firstBot := GetInputSequence(inputs, keypad);
    ShortestCandidates(keypad, inputs);
    var optimal := Cheapest(dirs, firstBot, count);
    complexity := Complexity(num, optimal);
  }

  /** The fewest presses are those of some shortest candidate, and no shortest candidate needs fewer. */
  lemma FewestSpec(keypad: KeypadTable, dirs: DirectionalTable, inputs: seq<KeypadButton>, count: nat)
    requires Covers(keypad, inputs) && HasPaths(keypad, inputs) && Complete(dirs) && count >= 1
    ensures forall c :: c in Shortest(Candidates(keypad, inputs)) ==>
      Fewest(keypad, dirs, inputs, count) <= SeqCost(dirs, c, count)
    ensures exists c :: c in Shortest(Candidates(keypad, inputs)) &&
                        Fewest(keypad, dirs, inputs, count) == SeqCost(dirs, c, count)
  {
    CandidatesNonEmpty(keypad, inputs);
    ShortestSpec(Candidates(keypad, inputs));
    MinCostSpec(dirs, Shortest(Candidates(keypad, inputs)), count);
  }

  // ---------------------------------------------------------------------------
  // The worked example of the door code 029A.
  // ---------------------------------------------------------------------------

  /** How a directional button is displayed. */
  function Arrow(d: DirectionalButton): char {
    match d
    case Up => '^'
    case Down => 'v'
    case Left => '<'
    case Right => '>'
    case Activate => 'A'
  }

  /** How a press sequence is displayed: one character per button. */
  function Rendered(s: seq<DirectionalButton>): (t: string)
    ensures |t| == |s| && forall i :: 0 <= i < |s| ==> t[i] == Arrow(s[i])
  {
    seq(|s|, i requires 0 <= i < |s| => Arrow(s[i]))
  }

  /** The shortest paths between the buttons of 029A, as the path search finds them. */
  function Table029A(): KeypadTable {
    map[(KeypadButton.Activate, Zero) := [[Left]],
        (Zero, Two) := [[Up]],
        (Two, Nine) := [[Right, Up, Up], [Up, Right, Up], [Up, Up, Right]],
        (Nine, KeypadButton.Activate) := [[Down, Down, Down]]]
  }

  /** One arrow, then a walk: a longer walk. */
  lemma WalkStep(k: KeypadButton, d: DirectionalButton, rest: seq<DirectionalButton>, n: KeypadButton, end: KeypadButton)
    requires IsArrow(d) && KeyStep(k, d) == Some(n) && Typed(n, rest) == Some(([], end))
    ensures Typed(k, [d] + rest) == Some(([], end))
  {
    assert ([d] + rest)[1..] == rest;
  }

  /** 2, 3, 6, 9. */
  lemma Walk2369()
    ensures Typed(Two, [Right, Up, Up]) == Some(([], Nine))
  {
    assert Typed(Nine, []) == Some(([], Nine));
    WalkStep(Six, Up, [], Nine, Nine);
    WalkStep(Three, Up, [Up], Six, Nine);
    WalkStep(Two, Right, [Up, Up], Three, Nine);
  }

  /** 2, 5, 6, 9. */
  lemma Walk2569()
    ensures Typed(Two, [Up, Right, Up]) == Some(([], Nine))
  {
    assert Typed(Nine, []) == Some(([], Nine));
    WalkStep(Six, Up, [], Nine, Nine);
    WalkStep(Five, Right, [Up], Six, Nine);
    WalkStep(Two, Up, [Right, Up], Five, Nine);
  }

  /** 2, 5, 8, 9. */
  lemma Walk2589()
    ensures Typed(Two, [Up, Up, Right]) == Some(([], Nine))
  {
    assert Typed(Nine, []) == Some(([], Nine));
    WalkStep(Eight, Right, [], Nine, Nine);
    WalkStep(Five, Up, [Right], Eight, Nine);
    WalkStep(Two, Up, [Up, Right], Five, Nine);
  }

  /** The other paths of the example table lead between their buttons. */
  lemma WalksOthers029A()
    ensures Typed(KeypadButton.Activate, [Left]) == Some(([], Zero))
    ensures Typed(Zero, [Up]) == Some(([], Two))
    ensures Typed(Nine, [Down, Down, Down]) == Some(([], KeypadButton.Activate))
  {
    var a := KeypadButton.Activate;
    assert Typed(Zero, []) == Some(([], Zero)) && Typed(Two, []) == Some(([], Two));
    assert Typed(a, []) == Some(([], a));
    WalkStep(a, Left, [], Zero, Zero);
    WalkStep(Zero, Up, [], Two, Two);
    WalkStep(Three, Down, [], a, a);
    WalkStep(Six, Down, [Down], Three, a);
    WalkStep(Nine, Down, [Down, Down], Six, a);
  }

  /** A path of the example table leads between its buttons. */
  lemma Walk029A(a: KeypadButton, b: KeypadButton, p: seq<DirectionalButton>)
    requires (a, b) in Table029A() && p in Table029A()[(a, b)]
    ensures Typed(a, p) == Some(([], b))
  {
    var t := Table029A();
    if (a, b) == (Two, Nine) {
      var paths := t[(a, b)];
      assert paths == [[Right, Up, Up], [Up, Right, Up], [Up, Up, Right]];
      assert p == paths[0] || p == paths[1] || p == paths[2];
      Walk2369();
      Walk2569();
      Walk2589();
    } else {
      WalksOthers029A();
      if (a, b) == (KeypadButton.Activate, Zero) {
        assert p == [Left];
      } else if (a, b) == (Zero, Two) {
        assert p == [Up];
      } else {
        assert (a, b) == (Nine, KeypadButton.Activate);
        assert p == [Down, Down, Down];
      }
    }
  }

  /** Each path of the example table leads between its buttons. */
  lemma Table029AWalks()
    ensures Walks(Table029A())
  {
    forall a, b, p | (a, b) in Table029A() && p in Table029A()[(a, b)]
      ensures Typed(a, p) == Some(([], b))
    {
      Walk029A(a, b, p);
    }
  }

  /** The door code 029A. */
  function Code029A(): seq<KeypadButton> {
    [Zero, Two, Nine, KeypadButton.Activate]
  }

  /** The shortest first-robot sequences for 029A. */
  function Found029A(): seq<seq<DirectionalButton>> {
    var act := DirectionalButton.Activate;
    [[Left, act, Up, act, Right, Up, Up, act, Down, Down, Down, act],
     [Left, act, Up, act, Up, Right, Up, act, Down, Down, Down, act],
     [Left, act, Up, act, Up, Up, Right, act, Down, Down, Down, act]]
  }

  lemma Covers029A()
    ensures Covers(Table029A(), Code029A())
  {
  }

  lemma Candidates029AFirst()
    ensures Covers(Table029A(), Code029A()[..2])
    ensures Candidates(Table029A(), Code029A()[..2]) == [[Left, DirectionalButton.Activate, Up, DirectionalButton.Activate]]
  {
    var t, code, act := Table029A(), Code029A(), DirectionalButton.Activate;
    Covers029A();
    CandidatesPrefixStep(t, code, 0);
    CandidatesPrefixStep(t, code, 1);
    assert code[..0] == [];
    ExtendSingle([], [[Left]]);
    assert [] + [Left] + [act] == [Left, act];
    assert Candidates(t, code[..1]) == [[Left, act]];
    assert Before(code, 1) == Zero && t[(Zero, Two)] == [[Up]];
    ExtendSingle([Left, act], [[Up]]);
    assert [Left, act] + [Up] + [act] == [Left, act, Up, act];
  }

  lemma Candidates029AThird()
    ensures Covers(Table029A(), Code029A()[..3])
    ensures Candidates(Table029A(), Code029A()[..3]) ==
      [[Left, DirectionalButton.Activate, Up, DirectionalButton.Activate, Right, Up, Up, DirectionalButton.Activate],
       [Left, DirectionalButton.Activate, Up, DirectionalButton.Activate, Up, Right, Up, DirectionalButton.Activate],
       [Left, DirectionalButton.Activate, Up, DirectionalButton.Activate, Up, Up, Right, DirectionalButton.Activate]]
  {
    var t, code, act := Table029A(), Code029A(), DirectionalButton.Activate;
    Covers029A();
    Candidates029AFirst();
    CandidatesPrefixStep(t, code, 2);
    var c2 := [Left, act, Up, act];
    assert Before(code, 2) == Two && t[(Two, Nine)] == [[Right, Up, Up], [Up, Right, Up], [Up, Up, Right]];
    ExtendSingle(c2, [[Right, Up, Up], [Up, Right, Up], [Up, Up, Right]]);
    assert c2 + [Right, Up, Up] + [act] == [Left, act, Up, act, Right, Up, Up, act];
    assert c2 + [Up, Right, Up] + [act] == [Left, act, Up, act, Up, Right, Up, act];
    assert c2 + [Up, Up, Right] + [act] == [Left, act, Up, act, Up, Up, Right, act];
  }

  /** The candidates for 029A, built target by target. */
  lemma Candidates029A()
    ensures Covers(Table029A(), Code029A())
    ensures Candidates(Table029A(), Code029A()) == Found029A()
  {
    var t, code, act := Table029A(), Code029A(), DirectionalButton.Activate;
    Covers029A();
    Candidates029AThird();
    CandidatesPrefixStep(t, code, 3);
    assert code[..4] == code;
    assert Before(code, 3) == Nine && t[(Nine, KeypadButton.Activate)] == [[Down, Down, Down]];
    var a := [Left, act, Up, act, Right, Up, Up, act];
    var b := [Left, act, Up, act, Up, Right, Up, act];
    var c := [Left, act, Up, act, Up, Up, Right, act];
    ExtendByOne([a, b, c], [Down, Down, Down]);
    var found := Found029A();
    assert a + [Down, Down, Down] + [act] == found[0];
    assert b + [Down, Down, Down] + [act] == found[1];
    assert c + [Down, Down, Down] + [act] == found[2];
  }

  /** Paths that all have the same length are all kept. */
  lemma {:induction false} ShortestEqualLengths(paths: seq<seq<DirectionalButton>>, n: nat)
    requires forall i :: 0 <= i < |paths| ==> |paths[i]| == n
    ensures paths != [] ==> MinLength(paths) == n
    ensures Keep(paths, n) == paths
  {
    if paths != [] {
      ShortestEqualLengths(paths[1..], n);
    }
  }

  /** All three candidates for 029A are equally short, so all are kept. */
  lemma Shortest029A()
    ensures Shortest(Found029A()) == Found029A()
  {
    var found := Found029A();
    assert |found[0]| == 12 && |found[1]| == 12 && |found[2]| == 12;
    ShortestEqualLengths(found, 12);
  }

  /** How the three candidates for 029A are displayed. */
  lemma Rendered029A()
    ensures Rendered(Found029A()[0]) == "<A^A>^^AvvvA"
    ensures Rendered(Found029A()[1]) == "<A^A^>^AvvvA"
    ensures Rendered(Found029A()[2]) == "<A^A^^>AvvvA"
  {
  }

  /**
   * For 029A the first robot's shortest sequences are "<A^A>^^AvvvA",
   * "<A^A^>^AvvvA" and "<A^A^^>AvvvA", and each of them types 029A.
   */
  lemma Example029A()
    ensures Covers(Table029A(), Code029A())
    ensures var found := Shortest(Candidates(Table029A(), Code029A()));
      |found| == 3 &&
      Rendered(found[0]) == "<A^A>^^AvvvA" &&
      Rendered(found[1]) == "<A^A^>^AvvvA" &&
      Rendered(found[2]) == "<A^A^^>AvvvA"
    ensures forall c :: c in Shortest(Candidates(Table029A(), Code029A())) ==>
      Typed(KeypadButton.Activate, c) == Some((Code029A(), KeypadButton.Activate))
  {
    var t, code := Table029A(), Code029A();
    Candidates029A();
    Shortest029A();
    Rendered029A();
    Table029AWalks();
    forall c | c in Shortest(Candidates(t, code))
      ensures Typed(KeypadButton.Activate, c) == Some((code, KeypadButton.Activate))
    {
      CandidatesType(t, code, c);
    }
  }
}
