/**
 * Day 25 (day25/src/main.rs): schematics of locks and keys. Each schematic
 * is seven lines of five cells: a lock has a full top row and an empty
 * bottom row, a key the reverse, and the five inner rows give one height
 * per column. A key fits a lock when no column overlaps. The schematics
 * arrive already split into their lines.
 */
module Day25 {
  import opened Wrappers

  /** Columns per schematic, and inner rows that carry the heights. */
  const Width: nat := 5
  const Depth: nat := 5

  /** `[u8; 5]`: one height per column. */
  type Heights = s: seq<nat> | |s| == 5 witness [0, 0, 0, 0, 0]

  datatype Key = Key(data: Heights)

  datatype Lock = Lock(data: Heights)

  datatype ParseType = KeyType | LockType

  // ---------------------------------------------------------------------------
  // Fitting.
  // ---------------------------------------------------------------------------

  /** `zip(..).all(|(k, l)| k + l <= 5)` over the columns. */
  function ColumnsFit(k: seq<nat>, l: seq<nat>): (r: bool)
    requires |k| == |l|
    ensures r <==> forall i :: 0 <= i < |k| ==> k[i] + l[i] <= Depth
  {
    if k == [] then true
    else k[0] + l[0] <= Depth && ColumnsFit(k[1..], l[1..])
  }

  /** `Key::fits_in`: no column of the key and the lock overlaps. */
  function FitsIn(key: Key, lock: Lock): (r: bool)
    ensures r <==> forall i :: 0 <= i < Width ==> key.data[i] + lock.data[i] <= Depth
  {
    ColumnsFit(key.data, lock.data)
  }

  // ---------------------------------------------------------------------------
  // `parse_height`: the inner rows, column by column.
  // ---------------------------------------------------------------------------

  /** `alt((value(1, tag("#")), value(0, tag("."))))`. */
  function Cell(c: char): (r: Option<nat>)
    ensures r.Some? <==> c == '#' || c == '.'
    ensures r == Some(1) <==> c == '#'
    ensures r.Some? ==> r.value <= 1
  {
    if c == '#' then Some(1) else if c == '.' then Some(0) else None
  }

  /** Every cell of a line, or `None` at the first that is neither `#` nor `.`. */
  function Cells(line: string): (r: Option<seq<nat>>)
    ensures r.Some? <==> forall i :: 0 <= i < |line| ==> Cell(line[i]).Some?
    ensures r.Some? ==> |r.value| == |line| && forall i :: 0 <= i < |line| ==> Some(r.value[i]) == Cell(line[i])
  {
    if line == [] then Some([])
    else if Cell(line[0]).None? then None
    else
      var rest := Cells(line[1..]);
      if rest.None? then
        assert Cell(line[1 + FirstBad(line[1..])]).None?;
        None
      else Some([Cell(line[0]).value] + rest.value)
  }

  /** The position of a cell that is neither `#` nor `.`. */
  function FirstBad(line: string): (i: nat)
    requires exists i :: 0 <= i < |line| && Cell(line[i]).None?
    ensures i < |line| && Cell(line[i]).None?
  {
    if Cell(line[0]).None? then 0
    else
      assert exists i :: 0 <= i < |line[1..]| && Cell(line[1..][i]).None? by {
        var i :| 0 <= i < |line| && Cell(line[i]).None?;
        assert line[1..][i - 1] == line[i];
      }
      1 + FirstBad(line[1..])
  }

  /** A row of the schematic: five cells, then the line ends. */
  predicate GoodRow(line: string) {
    |line| == Width && forall i :: 0 <= i < |line| ==> line[i] == '#' || line[i] == '.'
  }

  /** A well-formed block of inner rows. */
  predicate GoodRows(lines: seq<string>) {
    |lines| == Depth && forall j :: 0 <= j < |lines| ==> GoodRow(lines[j])
  }

  /** The cells of every inner row: `count(terminated(count(cell, 5), line_ending), 5)`. */
  function Rows(lines: seq<string>): (r: Option<seq<seq<nat>>>)
    ensures r.Some? <==> GoodRows(lines)
    ensures r.Some? ==> |r.value| == |lines|
    ensures r.Some? ==> forall j, i :: 0 <= j < |lines| && 0 <= i < Width ==>
      |r.value[j]| == Width && Some(r.value[j][i]) == Cell(lines[j][i])
  {
    if |lines| != Depth || exists j :: 0 <= j < |lines| && !GoodRow(lines[j]) then None
    else Some(seq(|lines|, j requires 0 <= j < |lines| => Cells(lines[j]).value))
  }

  /** Column `c` summed over some rows: the running value of `height_info[c]`. */
  function ColumnSum(rows: seq<seq<nat>>, c: nat): nat
    requires forall j :: 0 <= j < |rows| ==> c < |rows[j]|
  {
    if rows == [] then 0 else ColumnSum(rows[..|rows| - 1], c) + rows[|rows| - 1][c]
  }

  /** The number of `#` cells in column `c` of some lines. */
  function HashCount(lines: seq<string>, c: nat): nat
    requires forall j :: 0 <= j < |lines| ==> c < |lines[j]|
  {
    if lines == [] then 0
    else HashCount(lines[..|lines| - 1], c) + (if lines[|lines| - 1][c] == '#' then 1 else 0)
  }

  /** What `parse_height` produces from the five inner lines. */
  function HeightsOf(lines: seq<string>): Option<Heights> {
    match Rows(lines)
    case None => None
    case Some(rows) => Some(seq(Width, c requires 0 <= c < Width => ColumnSum(rows, c)))
  }

  /** Summing the parsed cells of a column counts its `#` cells. */
  lemma {:induction false} ColumnSumCounts(lines: seq<string>, rows: seq<seq<nat>>, c: nat)
    requires |rows| == |lines| && c < Width
    requires forall j :: 0 <= j < |lines| ==> |lines[j]| > c && |rows[j]| > c && Some(rows[j][c]) == Cell(lines[j][c])
    ensures ColumnSum(rows, c) == HashCount(lines, c)
  {
    if lines != [] {
      var n := |lines| - 1;
      ColumnSumCounts(lines[..n], rows[..n], c);
    }
  }

  /** At most one `#` per line. */
  lemma {:induction false} HashCountBound(lines: seq<string>, c: nat)
    requires forall j :: 0 <= j < |lines| ==> c < |lines[j]|
    ensures HashCount(lines, c) <= |lines|
  {
    if lines != [] {
      HashCountBound(lines[..|lines| - 1], c);
    }
  }

  /**
   * `parse_height` fails exactly on malformed inner rows; otherwise each
   * height is the number of `#` cells in its column, so it lies in `0..=5`.
   */
  lemma HeightsOfSpec(lines: seq<string>)
    ensures HeightsOf(lines).Some? <==> GoodRows(lines)
    ensures HeightsOf(lines).Some? ==> forall c :: 0 <= c < Width ==>
      HeightsOf(lines).value[c] == HashCount(lines, c) <= Depth
  {
    if GoodRows(lines) {
      var rows := Rows(lines).value;
      forall c | 0 <= c < Width
        ensures HeightsOf(lines).value[c] == HashCount(lines, c) <= Depth
      {
        ColumnSumCounts(lines, rows, c);
        HashCountBound(lines, c);
      }
    }
  }

  lemma ColumnSumSnoc(rows: seq<seq<nat>>, j: nat, c: nat)
    requires j < |rows| && forall i :: 0 <= i < |rows| ==> c < |rows[i]|
    ensures ColumnSum(rows[..j + 1], c) == ColumnSum(rows[..j], c) + rows[j][c]
  {
    assert rows[..j + 1][..j] == rows[..j];
  }

  /** `parse_height`: add each inner row, cell by cell, into `height_info`. */
  method ParseHeight(lines: seq<string>) returns (r: Option<Heights>)
    ensures r == HeightsOf(lines)
  {
    var parsed := Rows(lines);
    if parsed.None? {
      return None;
    }
    var rows := parsed.value;
    var heightInfo := new nat[Width];
    for c := 0 to Width
      invariant forall i :: 0 <= i < c ==> heightInfo[i] == 0
    {
      heightInfo[c] := 0;
    }
    for j := 0 to |rows|
      invariant forall i :: 0 <= i < Width ==> heightInfo[i] == ColumnSum(rows[..j], i)
    {
      var v := rows[j];
      for idx := 0 to |v|
        invariant forall i :: 0 <= i < Width ==>
          heightInfo[i] == if i < idx then ColumnSum(rows[..j + 1], i) else ColumnSum(rows[..j], i)
      {
        ColumnSumSnoc(rows, j, idx);
        heightInfo[idx] := heightInfo[idx] + v[idx];
      }
    }
    assert rows[..|rows|] == rows;
    var h: Heights := heightInfo[..];
    assert h == HeightsOf(lines).value;
    r := Some(h);
  }

  // ---------------------------------------------------------------------------
  // `parse_key`, `parse_lock` and the split into two lists.
  // ---------------------------------------------------------------------------

  const Empty: string := "....."
  const Full: string := "#####"

  /**
   * `alt((parse_key, parse_lock))` on the seven lines of one schematic: a
   * key is framed by an empty top and a full bottom row, a lock the other
   * way round.
   */
  function Schematic(lines: seq<string>): (r: Option<(ParseType, Heights)>)
    ensures r.Some? ==> |lines| == Depth + 2 && HeightsOf(lines[1..Depth + 1]) == Some(r.value.1)
    ensures r.Some? && r.value.0 == KeyType <==>
      |lines| == Depth + 2 && lines[0] == Empty && lines[Depth + 1] == Full && GoodRows(lines[1..Depth + 1])
    ensures r.Some? && r.value.0 == LockType <==>
      |lines| == Depth + 2 && lines[0] == Full && lines[Depth + 1] == Empty && GoodRows(lines[1..Depth + 1])
  {
    if |lines| != Depth + 2 then None
    else
      HeightsOfSpec(lines[1..Depth + 1]);
      match HeightsOf(lines[1..Depth + 1])
      case None => None
      case Some(h) =>
        if lines[0] == Empty && lines[Depth + 1] == Full then Some((KeyType, h))
        else if lines[0] == Full && lines[Depth + 1] == Empty then Some((LockType, h))
        else None
  }

  /** The keys among the parsed schematics, in input order. */
  function KeysOf(x: seq<(ParseType, Heights)>): seq<Key> {
    if x == [] then []
    else KeysOf(x[..|x| - 1]) + (if x[|x| - 1].0 == KeyType then [Key(x[|x| - 1].1)] else [])
  }

  /** The locks among the parsed schematics, in input order. */
  function LocksOf(x: seq<(ParseType, Heights)>): seq<Lock> {
    if x == [] then []
    else LocksOf(x[..|x| - 1]) + (if x[|x| - 1].0 == LockType then [Lock(x[|x| - 1].1)] else [])
  }

  /** The `for (typ, data) in x` loop of `parse`: each schematic pushed onto its own list. */
  method Classify(x: seq<(ParseType, Heights)>) returns (keys: seq<Key>, locks: seq<Lock>)
    ensures keys == KeysOf(x) && locks == LocksOf(x)
  {
    keys, locks := [], [];
    for i := 0 to |x|
      invariant keys == KeysOf(x[..i]) && locks == LocksOf(x[..i])
    {
      assert x[..i + 1][..i] == x[..i];
      var (typ, data) := x[i];
      match typ
      case KeyType => keys := keys + [Key(data)];
      case LockType => locks := locks + [Lock(data)];
    }
    assert x[..|x|] == x;
  }

  function KeyData(keys: seq<Key>): seq<Heights> {
    if keys == [] then [] else KeyData(keys[..|keys| - 1]) + [keys[|keys| - 1].data]
  }

  function LockData(locks: seq<Lock>): seq<Heights> {
    if locks == [] then [] else LockData(locks[..|locks| - 1]) + [locks[|locks| - 1].data]
  }

  function AllData(x: seq<(ParseType, Heights)>): seq<Heights> {
    if x == [] then [] else AllData(x[..|x| - 1]) + [x[|x| - 1].1]
  }

  /** Every schematic lands in exactly one of the two lists. */
  lemma {:induction false} ClassifyCounts(x: seq<(ParseType, Heights)>)
    ensures |KeysOf(x)| + |LocksOf(x)| == |x|
  {
    if x != [] {
      ClassifyCounts(x[..|x| - 1]);
    }
  }

  /** Between them the two lists hold each schematic's heights once. */
  lemma {:induction false} ClassifyPartitions(x: seq<(ParseType, Heights)>)
    ensures multiset(KeyData(KeysOf(x))) + multiset(LockData(LocksOf(x))) == multiset(AllData(x))
  {
    if x != [] {
      var n := |x| - 1;
      var front := x[..n];
      ClassifyPartitions(front);
      var last := multiset{x[n].1};
      assert AllData(x) == AllData(front) + [x[n].1];
      assert multiset(AllData(x)) == multiset(AllData(front)) + last;
      if x[n].0 == KeyType {
        assert KeysOf(x) == KeysOf(front) + [Key(x[n].1)];
        assert LocksOf(x) == LocksOf(front);
        KeyDataSnoc(KeysOf(front), Key(x[n].1));
        assert multiset(KeyData(KeysOf(x))) == multiset(KeyData(KeysOf(front))) + last;
      } else {
        assert LocksOf(x) == LocksOf(front) + [Lock(x[n].1)];
        assert KeysOf(x) == KeysOf(front);
        LockDataSnoc(LocksOf(front), Lock(x[n].1));
        assert multiset(LockData(LocksOf(x))) == multiset(LockData(LocksOf(front))) + last;
      }
    }
  }

  lemma KeyDataSnoc(keys: seq<Key>, k: Key)
    ensures KeyData(keys + [k]) == KeyData(keys) + [k.data]
  {
    assert (keys + [k])[..|keys|] == keys;
  }

  lemma LockDataSnoc(locks: seq<Lock>, l: Lock)
    ensures LockData(locks + [l]) == LockData(locks) + [l.data]
  {
    assert (locks + [l])[..|locks|] == locks;
  }

  /** Splitting keeps input order: the lists of a concatenation are the concatenations of the lists. */
  lemma {:induction false} ClassifyAppend(x: seq<(ParseType, Heights)>, y: seq<(ParseType, Heights)>)
    ensures KeysOf(x + y) == KeysOf(x) + KeysOf(y)
    ensures LocksOf(x + y) == LocksOf(x) + LocksOf(y)
    decreases |y|
  {
    if y == [] {
      assert x + y == x;
    } else {
      var n := |y| - 1;
      ClassifyAppend(x, y[..n]);
      AppendLast(x, y);
      var xy := x + y;
      assert KeysOf(xy) == KeysOf(x + y[..n]) + (if y[n].0 == KeyType then [Key(y[n].1)] else []);
      assert LocksOf(xy) == LocksOf(x + y[..n]) + (if y[n].0 == LockType then [Lock(y[n].1)] else []);
    }
  }

  /** The last of a non-empty `y` is the last of `x + y`, and what comes before it is `x` and the rest of `y`. */
  lemma AppendLast(x: seq<(ParseType, Heights)>, y: seq<(ParseType, Heights)>)
    requires |y| > 0
    ensures (x + y)[..|x + y| - 1] == x + y[..|y| - 1] && (x + y)[|x + y| - 1] == y[|y| - 1]
  {
  }

  // ---------------------------------------------------------------------------
  // The answer.
  // ---------------------------------------------------------------------------

  /** The locks one key fits. */
  function FitsFor(key: Key, locks: seq<Lock>): nat {
    if locks == [] then 0
    else FitsFor(key, locks[..|locks| - 1]) + (if FitsIn(key, locks[|locks| - 1]) then 1 else 0)
  }

  /** `cartesian_product(..).filter(fits_in).count()`, keys in the outer loop. */
  function FitCount(keys: seq<Key>, locks: seq<Lock>): nat {
    if keys == [] then 0 else FitCount(keys[..|keys| - 1], locks) + FitsFor(keys[|keys| - 1], locks)
  }

  /** The keys one lock takes. */
  function FitsOf(keys: seq<Key>, lock: Lock): nat {
    if keys == [] then 0
    else FitsOf(keys[..|keys| - 1], lock) + (if FitsIn(keys[|keys| - 1], lock) then 1 else 0)
  }

  /** The same count with the locks in the outer loop. */
  function FitCountByLock(locks: seq<Lock>, keys: seq<Key>): nat {
    if locks == [] then 0 else FitCountByLock(locks[..|locks| - 1], keys) + FitsOf(keys, locks[|locks| - 1])
  }

  lemma {:induction false} FitCountByLockSnocKey(locks: seq<Lock>, keys: seq<Key>, key: Key)
    ensures FitCountByLock(locks, keys + [key]) == FitCountByLock(locks, keys) + FitsFor(key, locks)
  {
    if locks != [] {
      var n := |locks| - 1;
      FitCountByLockSnocKey(locks[..n], keys, key);
      assert (keys + [key])[..|keys|] == keys;
    }
  }

  /**
   * Which side of the pairing runs in the outer loop does not matter: the
   * swapped local names in `main` count the same (key, lock) pairs.
   */
  lemma {:induction false} FitCountSymmetric(keys: seq<Key>, locks: seq<Lock>)
    ensures FitCount(keys, locks) == FitCountByLock(locks, keys)
  {
    if keys == [] {
      FitCountByLockNoKeys(locks);
    } else {
      var n := |keys| - 1;
      FitCountSymmetric(keys[..n], locks);
      FitCountByLockSnocKey(locks, keys[..n], keys[n]);
      assert keys[..n] + [keys[n]] == keys;
    }
  }

  lemma {:induction false} FitCountByLockNoKeys(locks: seq<Lock>)
    ensures FitCountByLock(locks, []) == 0
  {
    if locks != [] {
      FitCountByLockNoKeys(locks[..|locks| - 1]);
    }
  }

  /** No more pairs fit than there are pairs. */
  lemma {:induction false} FitCountBound(keys: seq<Key>, locks: seq<Lock>)
    ensures FitCount(keys, locks) <= |keys| * |locks|
  {
    if keys != [] {
      var n := |keys| - 1;
      FitCountBound(keys[..n], locks);
      FitsForBound(keys[n], locks);
      assert |keys| * |locks| == n * |locks| + |locks|;
    }
  }

  lemma {:induction false} FitsForBound(key: Key, locks: seq<Lock>)
    ensures FitsFor(key, locks) <= |locks|
  {
    if locks != [] {
      FitsForBound(key, locks[..|locks| - 1]);
    }
  }

  /** Parse every schematic; `None` as soon as one is malformed. */
  function ParseAll(schematics: seq<seq<string>>): (r: Option<seq<(ParseType, Heights)>>)
    ensures r.Some? <==> forall i :: 0 <= i < |schematics| ==> Schematic(schematics[i]).Some?
    ensures r.Some? ==> |r.value| == |schematics|
    ensures r.Some? ==> forall i :: 0 <= i < |schematics| ==> Schematic(schematics[i]) == Some(r.value[i])
  {
    if schematics == [] then Some([])
    else
      var n := |schematics| - 1;
      var front := ParseAll(schematics[..n]);
      if front.None? then
        var i :| 0 <= i < n && Schematic(schematics[..n][i]).None?;
        assert schematics[..n][i] == schematics[i];
        None
      else if Schematic(schematics[n]).None? then None
      else
        assert forall i :: 0 <= i < n ==> schematics[..n][i] == schematics[i];
        Some(front.value + [Schematic(schematics[n]).value])
  }

  /** `main`: parse, split, and count the (key, lock) pairs that fit; there is an answer exactly when every schematic parses. */
  function Part1(schematics: seq<seq<string>>): (r: Option<nat>)
    ensures r.Some? <==> forall i :: 0 <= i < |schematics| ==> Schematic(schematics[i]).Some?
  {
    match ParseAll(schematics)
    case None => None
    case Some(x) => Some(FitCount(KeysOf(x), LocksOf(x)))
  }

  /** The answer never exceeds the number of (key, lock) pairs. */
  lemma Part1Bound(schematics: seq<seq<string>>)
    requires Part1(schematics).Some?
    ensures var x := ParseAll(schematics).value;
      Part1(schematics).value <= |KeysOf(x)| * |LocksOf(x)|
  {
    var x := ParseAll(schematics).value;
    FitCountBound(KeysOf(x), LocksOf(x));
  }
}
