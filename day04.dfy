/**
 * Day 4 (day04/src/types.rs, part1.rs, part2.rs): a word search. Part 1
 * counts the rays of four cells spelling XMAS from an `X` in one of eight
 * directions; part 2 counts the `A` cells at the centre of two crossing
 * diagonal MAS words.
 */
module Day04 {
  /** `Position`: signed line and column (`isize`). */
  datatype Position = Position(line: int, letter: int)

  datatype LetterOption = X | M | A | S | Invalid(c: char)

  /** `Position + Position`. */
  function AddPos(p: Position, q: Position): (r: Position)
    ensures r.line - p.line == q.line && r.letter - p.letter == q.letter
  {
    Position(p.line + q.line, p.letter + q.letter)
  }

  /** `Position::new` and `From<(isize, isize)>` build the same struct. */
  function NewPos(line: int, letter: int): Position { Position(line, letter) }

  function FromTuple(t: (int, int)): Position { Position(t.0, t.1) }

  lemma ConstructorsAgree(l: int, c: int)
    ensures NewPos(l, c) == FromTuple((l, c)) && NewPos(l, c).line == l && NewPos(l, c).letter == c
  {
  }

  /** `LetterOption::from(char)`. */
  function FromChar(c: char): (r: LetterOption)
    ensures r == X <==> c == 'X'
    ensures r == M <==> c == 'M'
    ensures r == A <==> c == 'A'
    ensures r == S <==> c == 'S'
    ensures r.Invalid? <==> c !in {'X', 'M', 'A', 'S'}
    ensures r.Invalid? ==> r.c == c
  {
    match c
    case 'X' => X
    case 'M' => M
    case 'A' => A
    case 'S' => S
    case _ => Invalid(c)
  }

  /** The letters of the puzzle, one row per input line. */
  function ParseGrid(lines: seq<string>): (g: seq<seq<LetterOption>>)
    ensures |g| == |lines|
    ensures forall i :: 0 <= i < |g| ==> |g[i]| == |lines[i]| && forall j :: 0 <= j < |g[i]| ==> g[i][j] == FromChar(lines[i][j])
  {
    seq(|lines|, i requires 0 <= i < |lines| => seq(|lines[i]|, j requires 0 <= j < |lines[i]| => FromChar(lines[i][j])))
  }

  ghost predicate Rectangular(g: seq<seq<LetterOption>>) {
    |g| > 0 && |g[0]| > 0 && forall i :: 0 <= i < |g| ==> |g[i]| == |g[0]|
  }

  /** `max_idx`: the position of the last letter read, bottom right of a rectangular grid. */
  function MaxIdx(g: seq<seq<LetterOption>>): Position
    requires Rectangular(g)
  {
    Position(|g| - 1, |g[|g| - 1]| - 1)
  }

  /** The bounds test of `get_word_options`' filter, for one position. */
  predicate InGrid(p: Position, max: Position) {
    0 <= p.letter <= max.letter && 0 <= p.line <= max.line
  }

  /** The bounds test of `get_word_options`' filter. */
  predicate WithinMax(w: seq<Position>, max: Position) {
    forall i :: 0 <= i < |w| ==> InGrid(w[i], max)
  }

  /** `w` is one of the rays moved to `pos`. */
  ghost predicate Translated(pos: Position, w: seq<Position>, rays: seq<seq<Position>>) {
    exists k :: 0 <= k < |rays| && w == Translate(pos, rays[k])
  }

  /** `.map(|p| pos + *p)` over one list of offsets. */
  function Translate(pos: Position, offsets: seq<Position>): (r: seq<Position>)
    ensures |r| == |offsets| && forall i :: 0 <= i < |r| ==> r[i] == AddPos(pos, offsets[i])
  {
    if offsets == [] then [] else [AddPos(pos, offsets[0])] + Translate(pos, offsets[1..])
  }

  /** `get_word_options` of either part: translate each ray, keep those inside the grid. */
  function WordOptions(pos: Position, max: Position, rays: seq<seq<Position>>): (r: seq<seq<Position>>)
    ensures |r| <= |rays|
    ensures forall w :: w in r ==> WithinMax(w, max) && Translated(pos, w, rays)
  {
    if rays == [] then []
    else
      var w := Translate(pos, rays[0]);
      var rest := WordOptions(pos, max, rays[1..]);
      assert forall v :: v in rest ==> Translated(pos, v, rays) by {
        forall v | v in rest ensures Translated(pos, v, rays) {
          var k :| 0 <= k < |rays[1..]| && v == Translate(pos, rays[1..][k]);
          assert v == Translate(pos, rays[k + 1]);
        }
      }
      assert Translated(pos, w, rays) by { assert w == Translate(pos, rays[0]); }
      (if WithinMax(w, max) then [w] else []) + rest
  }

  /** The letter at a position inside a rectangular grid. */
  function LetterAt(g: seq<seq<LetterOption>>, p: Position): LetterOption
    requires Rectangular(g) && InGrid(p, MaxIdx(g))
  {
    g[p.line][p.letter]
  }

  /** `word.iter().map(|p| letter_map[p])`. */
  function ReadWord(g: seq<seq<LetterOption>>, w: seq<Position>): (r: seq<LetterOption>)
    requires Rectangular(g) && WithinMax(w, MaxIdx(g))
    ensures |r| == |w|
    ensures forall i :: 0 <= i < |w| ==> r[i] == LetterAt(g, w[i])
  {
    if w == [] then [] else [LetterAt(g, w[0])] + ReadWord(g, w[1..])
  }

  /** How many of the words read `target`: the `filter(is_valid)` and the count. */
  function CountValid(g: seq<seq<LetterOption>>, words: seq<seq<Position>>, target: seq<LetterOption>): (r: nat)
    requires Rectangular(g) && forall w :: w in words ==> WithinMax(w, MaxIdx(g))
    ensures r <= |words|
    ensures r == 0 <==> forall i :: 0 <= i < |words| ==> ReadWord(g, words[i]) != target
  {
    if words == [] then 0
    else (if ReadWord(g, words[0]) == target then 1 else 0) + CountValid(g, words[1..], target)
  }

  /** The matches at `pos` for one list of rays. */
  function Matches(g: seq<seq<LetterOption>>, pos: Position, rays: seq<seq<Position>>, target: seq<LetterOption>): (r: nat)
    requires Rectangular(g)
    ensures r <= |rays|
  {
    CountValid(g, WordOptions(pos, MaxIdx(g), rays), target)
  }

  /** Reference reading: the ray at `pos` lies in the grid and spells `target`. */
  ghost predicate Spells(g: seq<seq<LetterOption>>, pos: Position, offsets: seq<Position>, target: seq<LetterOption>)
    requires Rectangular(g)
  {
    |offsets| == |target| &&
    forall i :: 0 <= i < |offsets| ==>
      InGrid(AddPos(pos, offsets[i]), MaxIdx(g)) && LetterAt(g, AddPos(pos, offsets[i])) == target[i]
  }

  /** The number of rays that spell `target` from `pos`. */
  ghost function CountSpelling(g: seq<seq<LetterOption>>, pos: Position, rays: seq<seq<Position>>, target: seq<LetterOption>): nat
    requires Rectangular(g)
  {
    if rays == [] then 0 else (if Spells(g, pos, rays[0], target) then 1 else 0) + CountSpelling(g, pos, rays[1..], target)
  }

  /**
   * Translating, filtering by the bounds, reading and comparing counts
   * exactly the rays that spell the word inside the grid.
   */
  lemma {:induction false} MatchesCountSpelling(g: seq<seq<LetterOption>>, pos: Position, rays: seq<seq<Position>>, target: seq<LetterOption>)
    requires Rectangular(g)
    ensures Matches(g, pos, rays, target) == CountSpelling(g, pos, rays, target)
  {
    if rays != [] {
      var max := MaxIdx(g);
      var w := Translate(pos, rays[0]);
      MatchesCountSpelling(g, pos, rays[1..], target);
      var opts := WordOptions(pos, max, rays);
      if WithinMax(w, max) {
        assert opts[1..] == WordOptions(pos, max, rays[1..]);
        assert opts[0] == w;
        if ReadWord(g, w) == target {
          assert Spells(g, pos, rays[0], target);
        }
      } else {
        assert opts == WordOptions(pos, max, rays[1..]);
        assert !Spells(g, pos, rays[0], target);
      }
    }
  }

  // ---------------------------------------------------------------- part 1

  const XMAS: seq<LetterOption> := [X, M, A, S]

  /** The eight rays of part 1's `get_word_options`, in the order written there. */
  const XmasRays: seq<seq<Position>> := [
    [Position(0, 0), Position(0, 1), Position(0, 2), Position(0, 3)],
    [Position(0, 0), Position(0, -1), Position(0, -2), Position(0, -3)],
    [Position(0, 0), Position(1, 0), Position(2, 0), Position(3, 0)],
    [Position(0, 0), Position(-1, 0), Position(-2, 0), Position(-3, 0)],
    [Position(0, 0), Position(-1, -1), Position(-2, -2), Position(-3, -3)],
    [Position(0, 0), Position(-1, 1), Position(-2, 2), Position(-3, 3)],
    [Position(0, 0), Position(1, 1), Position(2, 2), Position(3, 3)],
    [Position(0, 0), Position(1, -1), Position(2, -2), Position(3, -3)]
  ]

  /** The unit step of each ray. */
  const Directions: seq<Position> := [
    Position(0, 1), Position(0, -1), Position(1, 0), Position(-1, 0),
    Position(-1, -1), Position(-1, 1), Position(1, 1), Position(1, -1)
  ]

  /** Part 1's `is_valid`. */
  function IsValidXmas(word: seq<LetterOption>): (r: bool)
    ensures r <==> |word| == 4 && word[0] == X && word[1] == M && word[2] == A && word[3] == S
  {
    word == XMAS
  }

  /**
   * Each ray starts at `pos` and steps by one of eight distinct unit
   * vectors; so at most 8 candidates of 4 positions come back, each a
   * straight ray from `pos` inside the grid.
   */
  lemma XmasRaysAreRays()
    ensures |XmasRays| == |Directions| == 8
    ensures forall k :: 0 <= k < 8 ==> |XmasRays[k]| == 4
    ensures forall k, i :: 0 <= k < 8 && 0 <= i < 4 ==>
      XmasRays[k][i] == Position(i * Directions[k].line, i * Directions[k].letter)
    ensures forall k, l :: 0 <= k < l < 8 ==> Directions[k] != Directions[l]
    ensures forall k :: 0 <= k < 8 ==> -1 <= Directions[k].line <= 1 && -1 <= Directions[k].letter <= 1 && Directions[k] != Position(0, 0)
  {
    forall k, i | 0 <= k < 8 && 0 <= i < 4
      ensures XmasRays[k][i] == Position(i * Directions[k].line, i * Directions[k].letter)
    {
      assert i == 0 || i == 1 || i == 2 || i == 3;
    }
  }

  /** At most 8 candidates come back, each of 4 positions starting at `pos`. */
  lemma XmasOptionsShape(pos: Position, max: Position)
    ensures |WordOptions(pos, max, XmasRays)| <= 8
    ensures forall w :: w in WordOptions(pos, max, XmasRays) ==> |w| == 4 && w[0] == pos
  {
    forall w | w in WordOptions(pos, max, XmasRays) ensures |w| == 4 && w[0] == pos {
      var k :| 0 <= k < |XmasRays| && w == Translate(pos, XmasRays[k]);
      XmasRayFrom(pos, k);
    }
  }

  lemma XmasRayFrom(pos: Position, k: nat)
    requires k < |XmasRays|
    ensures |Translate(pos, XmasRays[k])| == 4 && Translate(pos, XmasRays[k])[0] == pos
  {
    assert |XmasRays[k]| == 4 && XmasRays[k][0] == Position(0, 0);
  }

  /** The part 1 score of one cell: `X` cells only. */
  function XmasScore(g: seq<seq<LetterOption>>, pos: Position): (r: nat)
    requires Rectangular(g) && InGrid(pos, MaxIdx(g))
    ensures r <= 8
    ensures r > 0 ==> LetterAt(g, pos) == X
  {
    if LetterAt(g, pos) == X then Matches(g, pos, XmasRays, XMAS) else 0
  }

  lemma {:induction false} NoSpellingWithoutStart(g: seq<seq<LetterOption>>, pos: Position, rays: seq<seq<Position>>, target: seq<LetterOption>)
    requires Rectangular(g) && InGrid(pos, MaxIdx(g)) && |target| > 0
    requires forall k :: 0 <= k < |rays| ==> |rays[k]| > 0 && rays[k][0] == Position(0, 0)
    requires LetterAt(g, pos) != target[0]
    ensures CountSpelling(g, pos, rays, target) == 0
  {
    if rays != [] {
      assert AddPos(pos, rays[0][0]) == pos;
      NoSpellingWithoutStart(g, pos, rays[1..], target);
    }
  }

  /**
   * The part 1 score of a cell is the number of the 8 rays that spell XMAS
   * from it; keeping only `X` cells as starts loses nothing.
   */
  lemma XmasScoreSpec(g: seq<seq<LetterOption>>, pos: Position)
    requires Rectangular(g) && InGrid(pos, MaxIdx(g))
    ensures XmasScore(g, pos) == CountSpelling(g, pos, XmasRays, XMAS)
    ensures XmasScore(g, pos) == Matches(g, pos, XmasRays, XMAS)
    ensures XmasScore(g, pos) <= 8
  {
    MatchesCountSpelling(g, pos, XmasRays, XMAS);
    CountSpellingBound(g, pos, XmasRays, XMAS);
    if LetterAt(g, pos) != X {
      NoSpellingWithoutStart(g, pos, XmasRays, XMAS);
    }
  }

  lemma {:induction false} CountSpellingBound(g: seq<seq<LetterOption>>, pos: Position, rays: seq<seq<Position>>, target: seq<LetterOption>)
    requires Rectangular(g)
    ensures CountSpelling(g, pos, rays, target) <= |rays|
  {
    if rays != [] {
      CountSpellingBound(g, pos, rays[1..], target);
    }
  }

  // ---------------------------------------------------------------- part 2

  const MAS: seq<LetterOption> := [M, A, S]

  /** The four diagonal triples of part 2's `get_word_options`. */
  const MasRays: seq<seq<Position>> := [
    [Position(-1, -1), Position(0, 0), Position(1, 1)],
    [Position(1, 1), Position(0, 0), Position(-1, -1)],
    [Position(1, -1), Position(0, 0), Position(-1, 1)],
    [Position(-1, 1), Position(0, 0), Position(1, -1)]
  ]

  /** Part 2's `is_valid`. */
  function IsValidMas(word: seq<LetterOption>): (r: bool)
    ensures r <==> |word| == 3 && word[0] == M && word[1] == A && word[2] == S
  {
    word == MAS
  }

  /** The part 2 score of one cell: 1 for an `A` with exactly two matches. */
  function XMasScore(g: seq<seq<LetterOption>>, pos: Position): (r: nat)
    requires Rectangular(g) && InGrid(pos, MaxIdx(g))
    ensures r <= 1
    ensures r == 1 ==> LetterAt(g, pos) == A
  {
    if LetterAt(g, pos) == A && Matches(g, pos, MasRays, MAS) == 2 then 1 else 0
  }

  /** One of `x`, `y` is `M` and the other `S`. */
  predicate MSPair(x: LetterOption, y: LetterOption) {
    (x == M && y == S) || (x == S && y == M)
  }

  /** `w` is a diagonal triple with `pos` in the middle. */
  predicate DiagonalAround(pos: Position, w: seq<Position>) {
    |w| == 3 && w[1] == pos && w[0].line - pos.line == pos.line - w[2].line && w[0].letter - pos.letter == pos.letter - w[2].letter
    && (w[0].line - pos.line == 1 || w[0].line - pos.line == -1) && (w[0].letter - pos.letter == 1 || w[0].letter - pos.letter == -1)
  }

  /** Every part 2 candidate is a diagonal triple with `pos` in the middle. */
  lemma MasRaysShape(pos: Position, max: Position)
    ensures forall w: seq<Position> :: w in WordOptions(pos, max, MasRays) ==> DiagonalAround(pos, w)
    ensures MasRays[1] == [MasRays[0][2], MasRays[0][1], MasRays[0][0]]
    ensures MasRays[3] == [MasRays[2][2], MasRays[2][1], MasRays[2][0]]
  {
    forall w: seq<Position> | w in WordOptions(pos, max, MasRays)
      ensures DiagonalAround(pos, w)
    {
      var k :| 0 <= k < |MasRays| && w == Translate(pos, MasRays[k]);
      MasRayAround(pos, k);
    }
  }

  lemma MasRayAround(pos: Position, k: nat)
    requires k < |MasRays|
    ensures DiagonalAround(pos, Translate(pos, MasRays[k]))
  {
    var w := Translate(pos, MasRays[k]);
    assert w[0] == AddPos(pos, MasRays[k][0]) && w[1] == AddPos(pos, MasRays[k][1]) && w[2] == AddPos(pos, MasRays[k][2]);
  }

  /**
   * A cell counts for part 2 exactly when it holds `A`, its four diagonal
   * neighbours lie in the grid, and each diagonal has an `M` at one end and
   * an `S` at the other. Since candidates 1 and 2, and 3 and 4, are
   * reversals of each other, at most two can match.
   */
  lemma CountSpellingFour(g: seq<seq<LetterOption>>, pos: Position, rays: seq<seq<Position>>, target: seq<LetterOption>)
    requires Rectangular(g) && |rays| == 4
    ensures CountSpelling(g, pos, rays, target)
         == (if Spells(g, pos, rays[0], target) then 1 else 0) + (if Spells(g, pos, rays[1], target) then 1 else 0)
          + (if Spells(g, pos, rays[2], target) then 1 else 0) + (if Spells(g, pos, rays[3], target) then 1 else 0)
  {
    var r1, r2, r3 := rays[1..], rays[2..], rays[3..];
    assert r1[0] == rays[1] && r1[1..] == r2;
    assert r2[0] == rays[2] && r2[1..] == r3;
    assert r3[0] == rays[3] && r3[1..] == [];
    assert CountSpelling(g, pos, r3, target) == if Spells(g, pos, rays[3], target) then 1 else 0;
    assert CountSpelling(g, pos, r2, target) == (if Spells(g, pos, rays[2], target) then 1 else 0) + CountSpelling(g, pos, r3, target);
    assert CountSpelling(g, pos, r1, target) == (if Spells(g, pos, rays[1], target) then 1 else 0) + CountSpelling(g, pos, r2, target);
  }

  /** A triple centred on `pos` spells MAS when its ends read M and S around an A. */
  lemma SpellsMas(g: seq<seq<LetterOption>>, pos: Position, o: seq<Position>)
    requires Rectangular(g) && InGrid(pos, MaxIdx(g))
    requires |o| == 3 && o[1] == Position(0, 0)
    ensures Spells(g, pos, o, MAS) <==>
      InGrid(AddPos(pos, o[0]), MaxIdx(g)) && InGrid(AddPos(pos, o[2]), MaxIdx(g)) && LetterAt(g, pos) == A
      && LetterAt(g, AddPos(pos, o[0])) == M && LetterAt(g, AddPos(pos, o[2])) == S
  {
    assert AddPos(pos, o[1]) == pos;
  }

  lemma XMasScoreSpec(g: seq<seq<LetterOption>>, pos: Position)
    requires Rectangular(g) && InGrid(pos, MaxIdx(g))
    ensures Matches(g, pos, MasRays, MAS) <= 2
    ensures XMasScore(g, pos) == 1 <==>
      var max, nw, se, sw, ne := MaxIdx(g), AddPos(pos, Position(-1, -1)), AddPos(pos, Position(1, 1)),
                                 AddPos(pos, Position(1, -1)), AddPos(pos, Position(-1, 1));
      LetterAt(g, pos) == A && InGrid(nw, max) && InGrid(se, max) && InGrid(sw, max) && InGrid(ne, max) &&
      MSPair(LetterAt(g, nw), LetterAt(g, se)) && MSPair(LetterAt(g, sw), LetterAt(g, ne))
  {
    MatchesCountSpelling(g, pos, MasRays, MAS);
    var max := MaxIdx(g);
    var nw, se, sw, ne := AddPos(pos, Position(-1, -1)), AddPos(pos, Position(1, 1)), AddPos(pos, Position(1, -1)), AddPos(pos, Position(-1, 1));
    var c0 := Spells(g, pos, MasRays[0], MAS);
    var c1 := Spells(g, pos, MasRays[1], MAS);
    var c2 := Spells(g, pos, MasRays[2], MAS);
    var c3 := Spells(g, pos, MasRays[3], MAS);
    CountSpellingFour(g, pos, MasRays, MAS);
    SpellsMas(g, pos, MasRays[0]);
    SpellsMas(g, pos, MasRays[1]);
    SpellsMas(g, pos, MasRays[2]);
    SpellsMas(g, pos, MasRays[3]);
  }

  /**
   * The answer of either part: the scores of all cells added up, row by row
   * (the order of `parsed`).
   */
  function Total(g: seq<seq<LetterOption>>, part2: bool, line: nat, letter: nat): (r: nat)
    requires Rectangular(g) && line <= |g| && letter <= |g[0]|
    requires line == |g| ==> letter == 0
    ensures !part2 ==> r <= 8 * ((|g| - line) * |g[0]| - letter)
    decreases |g| - line, |g[0]| - letter
  {
    if line == |g| then 0
    else if letter == |g[0]| then
      assert (|g| - line) * |g[0]| == (|g| - line - 1) * |g[0]| + |g[0]|;
      Total(g, part2, line + 1, 0)
    else
      var pos := Position(line, letter);
      (if part2 then XMasScore(g, pos) else XmasScore(g, pos)) + Total(g, part2, line, letter + 1)
  }

  /** Part 2 counts each cell at most once, so its answer is at most the cell count. */
  lemma {:induction false} Part2Bound(g: seq<seq<LetterOption>>, line: nat, letter: nat)
    requires Rectangular(g) && line <= |g| && letter <= |g[0]|
    requires line == |g| ==> letter == 0
    ensures Total(g, true, line, letter) <= (|g| - line) * |g[0]| - letter
    decreases |g| - line, |g[0]| - letter
  {
    if line == |g| {
    } else if letter == |g[0]| {
      Part2Bound(g, line + 1, 0);
      var rest, w := |g| - line, |g[0]|;
      assert rest * w == (rest - 1) * w + w;
    } else {
      Part2Bound(g, line, letter + 1);
    }
  }
}
