/**
 * day14/src/main.rs: robots walking on a 101 x 103 torus. Each robot moves
 * by its velocity once per second and wraps around the field edges; the
 * safety factor multiplies the numbers of robots in the four quadrants,
 * and the picture is found at the first second where no two robots share
 * a position.
 */
module Day14 {
  import opened Wrappers
  import opened Sums

  const FieldHeight: int := 103
  const FieldWidth: int := 101
  const Seconds: nat := 100

  /** `IVec2`. */
  datatype Vec2 = Vec2(x: int, y: int)

  datatype Robot = Robot(position: Vec2, velocity: Vec2)

  datatype Quadrant = UpperLeft | UpperRight | LowerLeft | LowerRight

  predicate IsI32(n: int) {
    -0x8000_0000 <= n < 0x8000_0000
  }

  /**
   * The `i32` arithmetic of `move_robot` does not overflow: the step count
   * survives `as i32`, and every product and sum stays in range.
   */
  predicate NoOverflow(p: Vec2, v: Vec2, steps: nat) {
    && IsI32(p.x) && IsI32(p.y) && IsI32(v.x) && IsI32(v.y) && IsI32(steps)
    && IsI32(steps * v.x) && IsI32(steps * v.y)
    && IsI32(p.x + steps * v.x) && IsI32(p.y + steps * v.y)
  }

  /** Inside the field. */
  predicate OnField(p: Vec2) {
    0 <= p.x < FieldWidth && 0 <= p.y < FieldHeight
  }

  /**
   * `move_robot`: the position after `steps` seconds, reduced by Euclidean
   * remainder (Dafny's `%` is `rem_euclid` for a positive modulus). The
   * result lies on the field and is congruent to the unwrapped position.
   */
  function MoveRobot(p: Vec2, v: Vec2, steps: nat): (r: Vec2)
    requires NoOverflow(p, v, steps)
    ensures OnField(r)
    ensures (p.x + steps * v.x - r.x) % FieldWidth == 0
    ensures (p.y + steps * v.y - r.y) % FieldHeight == 0
  {
    Vec2((p.x + steps * v.x) % FieldWidth, (p.y + steps * v.y) % FieldHeight)
  }

  /** Reducing before adding more does not change the remainder. */
  lemma ModAfterAdd(a: int, b: int, m: int)
    requires m == FieldWidth || m == FieldHeight
    ensures (a % m + b) % m == (a + b) % m
  {
    var q, r := a / m, a % m;
    var q2, r2 := (r + b) / m, (r + b) % m;
    if m == FieldWidth {
      assert a == q * 101 + r && r + b == q2 * 101 + r2;
      ModUnique(a + b, 101, q + q2, r2);
    } else {
      assert a == q * 103 + r && r + b == q2 * 103 + r2;
      ModUnique(a + b, 103, q + q2, r2);
    }
  }

  /** The Euclidean remainder is the only one between 0 and the modulus. */
  lemma ModUnique(v: int, m: int, q: int, r: int)
    requires m == FieldWidth || m == FieldHeight
    requires v == q * m + r && 0 <= r < m
    ensures v % m == r
  {
    var q0 := v / m;
    if m == FieldWidth {
      assert v == q0 * 101 + v % 101;
      assert (q - q0) * 101 == v % 101 - r;
    } else {
      assert v == q0 * 103 + v % 103;
      assert (q - q0) * 103 == v % 103 - r;
    }
  }

  /** Moving `s` seconds and then `t` more is moving `s + t` seconds. */
  lemma MoveCompose(p: Vec2, v: Vec2, s: nat, t: nat)
    requires NoOverflow(p, v, s) && NoOverflow(p, v, s + t)
    requires NoOverflow(MoveRobot(p, v, s), v, t)
    ensures MoveRobot(MoveRobot(p, v, s), v, t) == MoveRobot(p, v, s + t)
  {
    ComposeAxis(p.x, v.x, s, t, FieldWidth);
    ComposeAxis(p.y, v.y, s, t, FieldHeight);
  }

  /** One coordinate of `MoveCompose`. */
  lemma ComposeAxis(a: int, v: int, s: nat, t: nat, m: int)
    requires m == FieldWidth || m == FieldHeight
    ensures ((a + s * v) % m + t * v) % m == (a + (s + t) * v) % m
  {
    var sv, tv := s * v, t * v;
    assert (s + t) * v == sv + tv;
    ModAfterAdd(a + sv, tv, m);
  }

  /** A robot on the field stays put after zero seconds. */
  lemma MoveZero(p: Vec2, v: Vec2)
    requires OnField(p) && IsI32(v.x) && IsI32(v.y)
    ensures MoveRobot(p, v, 0) == p
  {
  }

  /** `Robot::get_quadrant`, with `mid_x = 101 / 2` and `mid_y = 103 / 2`. */
  function GetQuadrant(r: Robot): Option<Quadrant> {
    var midX, midY := FieldWidth / 2, FieldHeight / 2;
    var p := r.position;
    if p.x < midX && p.y < midY then Some(UpperLeft)
    else if p.x > midX && p.y < midY then Some(UpperRight)
    else if p.x < midX && p.y > midY then Some(LowerLeft)
    else if p.x > midX && p.y > midY then Some(LowerRight)
    else None
  }

  /**
   * A robot is in no quadrant exactly when it stands on the middle column
   * (x = 50) or the middle row (y = 51); otherwise its quadrant is decided
   * by strict comparisons with them.
   */
  lemma QuadrantSpec(r: Robot)
    ensures GetQuadrant(r).None? <==> r.position.x == 50 || r.position.y == 51
    ensures GetQuadrant(r) == Some(UpperLeft) <==> r.position.x < 50 && r.position.y < 51
    ensures GetQuadrant(r) == Some(UpperRight) <==> r.position.x > 50 && r.position.y < 51
    ensures GetQuadrant(r) == Some(LowerLeft) <==> r.position.x < 50 && r.position.y > 51
    ensures GetQuadrant(r) == Some(LowerRight) <==> r.position.x > 50 && r.position.y > 51
  {
  }

  /** The number of robots in quadrant `q`. */
  function InQuadrant(robots: seq<Robot>, q: Quadrant): nat {
    if robots == [] then 0
    else InQuadrant(robots[..|robots| - 1], q) + (if GetQuadrant(robots[|robots| - 1]) == Some(q) then 1 else 0)
  }

  /** The number of robots on the middle row or column. */
  function OnMidline(robots: seq<Robot>): nat {
    if robots == [] then 0
    else OnMidline(robots[..|robots| - 1]) + (if GetQuadrant(robots[|robots| - 1]).None? then 1 else 0)
  }

  type Tally = (nat, nat, nat, nat)

  /** One step of the `get_safety_factor` fold. */
  function Tick(acc: Tally, r: Robot): Tally {
    match GetQuadrant(r)
    case None => acc
    case Some(UpperLeft) => (acc.0 + 1, acc.1, acc.2, acc.3)
    case Some(UpperRight) => (acc.0, acc.1 + 1, acc.2, acc.3)
    case Some(LowerLeft) => (acc.0, acc.1, acc.2 + 1, acc.3)
    case Some(LowerRight) => (acc.0, acc.1, acc.2, acc.3 + 1)
  }

  /** `robots.iter().fold((0, 0, 0, 0), ..)`. */
  function Fold(robots: seq<Robot>): Tally {
    if robots == [] then (0, 0, 0, 0) else Tick(Fold(robots[..|robots| - 1]), robots[|robots| - 1])
  }

  /**
   * The fold counts the robots of each quadrant, and together with the
   * robots on the midlines it accounts for every robot.
   */
  lemma {:induction false} FoldSpec(robots: seq<Robot>)
    ensures Fold(robots) == (InQuadrant(robots, UpperLeft), InQuadrant(robots, UpperRight),
                             InQuadrant(robots, LowerLeft), InQuadrant(robots, LowerRight))
    ensures Fold(robots).0 + Fold(robots).1 + Fold(robots).2 + Fold(robots).3 + OnMidline(robots) == |robots|
  {
    if robots != [] {
      FoldSpec(robots[..|robots| - 1]);
    }
  }

  /** `get_safety_factor`: the product of the four quadrant counts. */
  function SafetyFactor(robots: seq<Robot>): nat {
    var q := Fold(robots);
    q.0 * q.1 * q.2 * q.3
  }

  lemma SafetyFactorSpec(robots: seq<Robot>)
    ensures SafetyFactor(robots) == InQuadrant(robots, UpperLeft) * InQuadrant(robots, UpperRight)
                                  * InQuadrant(robots, LowerLeft) * InQuadrant(robots, LowerRight)
    ensures SafetyFactor(robots) == 0 <==> exists q :: InQuadrant(robots, q) == 0
  {
    FoldSpec(robots);
    var a, b, c, d := InQuadrant(robots, UpperLeft), InQuadrant(robots, UpperRight),
                      InQuadrant(robots, LowerLeft), InQuadrant(robots, LowerRight);
    if a != 0 && b != 0 && c != 0 && d != 0 {
      PositiveProduct(a, b, c, d);
      forall q ensures InQuadrant(robots, q) != 0 {
        match q
        case UpperLeft =>
        case UpperRight =>
        case LowerLeft =>
        case LowerRight =>
      }
    } else if a == 0 {
      assert InQuadrant(robots, UpperLeft) == 0;
    } else if b == 0 {
      assert InQuadrant(robots, UpperRight) == 0;
    } else if c == 0 {
      assert InQuadrant(robots, LowerLeft) == 0;
    } else {
      assert InQuadrant(robots, LowerRight) == 0;
    }
  }

  lemma PositiveProduct(a: nat, b: nat, c: nat, d: nat)
    requires a > 0 && b > 0 && c > 0 && d > 0
    ensures a * b * c * d > 0
  {
    assert a * b > 0;
    assert a * b * c > 0;
  }

  /** Every robot after `steps` seconds; the sequential form of the `par_iter` map. */
  function MoveAll(robots: seq<Robot>, steps: nat): (r: seq<Robot>)
    requires forall i :: 0 <= i < |robots| ==> NoOverflow(robots[i].position, robots[i].velocity, steps)
    ensures |r| == |robots|
    ensures forall i :: 0 <= i < |r| ==> OnField(r[i].position) && r[i].velocity == robots[i].velocity
  {
    if robots == [] then []
    else
      var r := robots[|robots| - 1];
      MoveAll(robots[..|robots| - 1], steps) + [Robot(MoveRobot(r.position, r.velocity, steps), r.velocity)]
  }

  /** `part1`: the safety factor after 100 seconds. */
  function Part1(robots: seq<Robot>): nat
    requires forall i :: 0 <= i < |robots| ==> NoOverflow(robots[i].position, robots[i].velocity, Seconds)
  {
    SafetyFactor(MoveAll(robots, Seconds))
  }

  // ------------------------------------------------------------ counter

  /** The number of robots at `pos`. */
  function Count(robots: seq<Robot>, pos: Vec2): nat {
    if robots == [] then 0
    else Count(robots[..|robots| - 1], pos) + (if robots[|robots| - 1].position == pos then 1 else 0)
  }

  /** The positions occupied by some robot. */
  function Positions(robots: seq<Robot>): set<Vec2> {
    if robots == [] then {} else Positions(robots[..|robots| - 1]) + {robots[|robots| - 1].position}
  }

  lemma {:induction false} CountPositive(robots: seq<Robot>, pos: Vec2)
    ensures Count(robots, pos) > 0 <==> pos in Positions(robots)
  {
    if robots != [] {
      CountPositive(robots[..|robots| - 1], pos);
    }
  }

  /**
   * `counter`: for each occupied position, the number of robots there.
   * Its keys are exactly the occupied positions.
   */
  method Counter(input: seq<Robot>) returns (h: map<Vec2, nat>)
    ensures h.Keys == Positions(input)
    ensures forall pos :: pos in h ==> h[pos] == Count(input, pos)
  {
    h := map[];
    for i := 0 to |input|
      invariant h.Keys == Positions(input[..i])
      invariant forall pos :: pos in h ==> h[pos] == Count(input[..i], pos)
    {
      assert input[..i + 1][..i] == input[..i];
      var pos := input[i].position;
      h := h[pos := if pos in h then h[pos] + 1 else 1];
      CountPositive(input[..i], pos);
    }
    assert input[..|input|] == input;
  }

  function CountAt(robots: seq<Robot>): Vec2 -> int {
    pos => Count(robots, pos)
  }

  /** The counts of `counter` add up to the number of robots. */
  lemma {:induction false} CounterTotal(robots: seq<Robot>)
    ensures SetSum(Positions(robots), CountAt(robots)) == |robots|
  {
    if robots != [] {
      var init := robots[..|robots| - 1];
      var x := robots[|robots| - 1].position;
      CounterTotal(init);
      CountPositive(init, x);
      assert CountAt(robots)(x) == CountAt(init)(x) + 1;
      assert forall p :: p != x ==> CountAt(robots)(p) == CountAt(init)(p);
      if x in Positions(init) {
        var s := Positions(init);
        assert Positions(robots) == s;
        SetSumRemove(s, CountAt(robots), x);
        SetSumRemove(s, CountAt(init), x);
        SetSumCongruent(s - {x}, CountAt(robots), CountAt(init));
      } else {
        SetSumAdd(Positions(init), CountAt(robots), x);
        SetSumCongruent(Positions(init), CountAt(robots), CountAt(init));
      }
    }
  }

  // ------------------------------------------------------------ part 2

  /** No two robots share a position. */
  predicate Distinct(robots: seq<Robot>) {
    forall i, j :: 0 <= i < j < |robots| ==> robots[i].position != robots[j].position
  }

  /** There are as many occupied positions as robots exactly when no two robots share one. */
  lemma {:induction false} PositionsDistinct(robots: seq<Robot>)
    ensures |Positions(robots)| <= |robots|
    ensures |Positions(robots)| == |robots| <==> Distinct(robots)
  {
    if robots != [] {
      var init := robots[..|robots| - 1];
      var x := robots[|robots| - 1].position;
      PositionsDistinct(init);
      CountPositive(init, x);
      assert forall i :: 0 <= i < |init| ==> init[i] == robots[i];
      if x in Positions(init) {
        assert Positions(robots) == Positions(init);
        assert !Distinct(robots) by {
          var k := InitIndex(init, x);
          assert robots[k].position == robots[|robots| - 1].position;
        }
      } else {
        forall i | 0 <= i < |init| ensures init[i].position != x {
          PositionsIndex(init, i);
        }
      }
    }
  }

  lemma {:induction false} PositionsIndex(robots: seq<Robot>, i: nat)
    requires i < |robots|
    ensures robots[i].position in Positions(robots)
  {
    if i < |robots| - 1 {
      PositionsIndex(robots[..|robots| - 1], i);
    }
  }

  lemma {:induction false} InitIndex(robots: seq<Robot>, x: Vec2) returns (k: nat)
    requires x in Positions(robots)
    ensures k < |robots| && robots[k].position == x
  {
    if robots[|robots| - 1].position == x {
      k := |robots| - 1;
    } else {
      k := InitIndex(robots[..|robots| - 1], x);
    }
  }

  /**
   * The predicate searched for by `part2`: after `steps` seconds the counter
   * has one key per robot, that is, no two robots share a position.
   */
  method AllApart(robots: seq<Robot>, steps: nat) returns (found: bool)
    requires forall i :: 0 <= i < |robots| ==> NoOverflow(robots[i].position, robots[i].velocity, steps)
    ensures found <==> Distinct(MoveAll(robots, steps))
  {
    var moved := MoveAll(robots, steps);
    var c := Counter(moved);
    found := |moved| == |c|;
    PositionsDistinct(moved);
  }
}
