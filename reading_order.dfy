/**
 * Scanning the lines of a puzzle input in reading order, as the grid parsers
 * of day16/src/main.rs and day20/src/main.rs do: the position a parser
 * records for a marker character is that of its last occurrence.
 */
module ReadingOrder {
  import opened Wrappers
  import GP = GridPoint

  /** Line `p.row` holds `ch` at column `p.col`. */
  predicate Has(lines: seq<string>, p: GP.Point, ch: char) {
    p.row < |lines| && p.col < |lines[p.row]| && lines[p.row][p.col] == ch
  }

  /** `p` comes strictly before `(i, j)` in reading order. */
  predicate Before(p: GP.Point, i: nat, j: nat) {
    p.row < i || (p.row == i && p.col < j)
  }

  /** `(i, j)` is a place the scan of `parse` reaches: inside a line, at its end, or past the last line. */
  predicate Position(lines: seq<string>, i: nat, j: nat) {
    (i < |lines| && j <= |lines[i]|) || (i == |lines| && j == 0)
  }

  /** The last `ch` before `(i, j)` in reading order. */
  function Last(lines: seq<string>, ch: char, i: nat, j: nat): Option<GP.Point>
    requires Position(lines, i, j)
    decreases i, j
  {
    if j > 0 then
      if lines[i][j - 1] == ch then Some(GP.Point(i, j - 1)) else Last(lines, ch, i, j - 1)
    else if i == 0 then None
    else Last(lines, ch, i - 1, |lines[i - 1]|)
  }

  /**
   * `Last` is the latest `ch` before `(i, j)`: it holds `ch`, comes before
   * `(i, j)`, and no other `ch` lies between the two; it is `None` exactly
   * when there is no `ch` before `(i, j)`.
   */
  lemma {:induction false} LastSpec(lines: seq<string>, ch: char, i: nat, j: nat, q: GP.Point)
    requires Position(lines, i, j)
    ensures Last(lines, ch, i, j).None? ==> !(Before(q, i, j) && Has(lines, q, ch))
    ensures Last(lines, ch, i, j).Some? ==>
      var p := Last(lines, ch, i, j).value;
      && Before(p, i, j) && Has(lines, p, ch)
      && (Before(q, i, j) && Has(lines, q, ch) ==> q == p || Before(q, p.row, p.col))
    decreases i, j
  {
    if j > 0 {
      if lines[i][j - 1] != ch {
        LastSpec(lines, ch, i, j - 1, q);
      }
    } else if i > 0 {
      LastSpec(lines, ch, i - 1, |lines[i - 1]|, q);
    }
  }

  /** The position `parse` records: the last one seen, or `(0, 0)` when none was. */
  function Recorded(seen: Option<GP.Point>): GP.Point {
    if seen.Some? then seen.value else GP.Point(0, 0)
  }
}
