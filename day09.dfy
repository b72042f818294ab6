/**
 * Day 9 (day09/src/main.rs): a disk map of alternating file and free-space
 * lengths is expanded into blocks, compacted block by block (part 1) or
 * file by file (part 2), and scored with a positional checksum.
 */
module Day09 {
  import opened Wrappers
  import opened Decimal

  datatype BlockType = Free | File(id: nat)

  /** `BlockInfo`: the first and last index of a file and its extent `1 + end - start`. */
  datatype BlockInfo = BlockInfo(start: nat, end: nat, size: nat)

  // ------------------------------------------------------------ parsing

  function Repeat(b: BlockType, n: nat): (r: seq<BlockType>)
    ensures |r| == n && forall i :: 0 <= i < n ==> r[i] == b
  {
    if n == 0 then [] else Repeat(b, n - 1) + [b]
  }

  /** The block type of the `idx`-th digit: files at even positions, numbered in order. */
  function BlockFor(idx: nat): BlockType {
    if idx % 2 == 0 then File(idx / 2) else Free
  }

  /** The blocks of the first `n` digits of the disk map. */
  function Expand(ds: seq<nat>, n: nat): seq<BlockType>
    requires n <= |ds|
  {
    if n == 0 then [] else Expand(ds, n - 1) + Repeat(BlockFor(n - 1), ds[n - 1])
  }

  function DigitSum(ds: seq<nat>, n: nat): nat
    requires n <= |ds|
  {
    if n == 0 then 0 else DigitSum(ds, n - 1) + ds[n - 1]
  }

  /** The layout is as long as the digits add up to. */
  lemma {:induction false} ExpandLength(ds: seq<nat>, n: nat)
    requires n <= |ds|
    ensures |Expand(ds, n)| == DigitSum(ds, n)
  {
    if n > 0 {
      ExpandLength(ds, n - 1);
    }
  }

  /** File `k` occupies as many blocks as the digit at position `2k`; nothing else is a file. */
  lemma {:induction false} ExpandFileCount(ds: seq<nat>, n: nat, k: nat)
    requires n <= |ds|
    ensures multiset(Expand(ds, n))[File(k)] == if 2 * k < n then ds[2 * k] else 0
  {
    if n > 0 {
      var before, after := multiset(Expand(ds, n - 1))[File(k)], multiset(Expand(ds, n))[File(k)];
      ExpandFileCount(ds, n - 1, k);
      ExpandStepCount(ds, n, k);
      assert before == if 2 * k < n - 1 then ds[2 * k] else 0;
      assert after == before + if n - 1 == 2 * k then ds[n - 1] else 0;
      DigitCountStep(ds, n, k, before, after);
    }
  }

  /** One more digit adds its blocks to file `k`'s count exactly when it is file `k`'s digit. */
  lemma ExpandStepCount(ds: seq<nat>, n: nat, k: nat)
    requires 0 < n <= |ds|
    ensures multiset(Expand(ds, n))[File(k)] == multiset(Expand(ds, n - 1))[File(k)] + if n - 1 == 2 * k then ds[n - 1] else 0
  {
    var a, b := Expand(ds, n - 1), Repeat(BlockFor(n - 1), ds[n - 1]);
    assert Expand(ds, n) == a + b;
    CountConcat(a, b, File(k));
    RepeatBlockCount(n - 1, ds[n - 1], k);
  }

  /** The count of file `k` after `n - 1` digits and after `n`, as integers. */
  lemma DigitCountStep(ds: seq<nat>, n: nat, k: nat, before: nat, after: nat)
    requires 0 < n <= |ds|
    requires before == if 2 * k < n - 1 then ds[2 * k] else 0
    requires after == before + if n - 1 == 2 * k then ds[n - 1] else 0
    ensures after == if 2 * k < n then ds[2 * k] else 0
  {
  }

  /** Appending the blocks of digit `idx` adds them to file `k`'s count exactly when they are file `k`'s. */
  lemma CountAfterDigit(a: seq<BlockType>, idx: nat, m: nat, k: nat, ca: nat)
    requires multiset(a)[File(k)] == ca
    ensures multiset(a + Repeat(BlockFor(idx), m))[File(k)] == ca + if idx == 2 * k then m else 0
  {
    RepeatBlockCount(idx, m, k);
    CountConcat(a, Repeat(BlockFor(idx), m), File(k));
  }

  /** The blocks of one digit hold file `k` as often as the digit says if the digit is file `k`'s, else never. */
  lemma RepeatBlockCount(idx: nat, m: nat, k: nat)
    ensures multiset(Repeat(BlockFor(idx), m))[File(k)] == if idx == 2 * k then m else 0
  {
    RepeatCount(BlockFor(idx), m, File(k));
    BlockForFile(idx, k);
  }

  lemma CountConcat(a: seq<BlockType>, b: seq<BlockType>, x: BlockType)
    ensures multiset(a + b)[x] == multiset(a)[x] + multiset(b)[x]
  {
    assert multiset(a + b) == multiset(a) + multiset(b);
  }

  lemma BlockForFile(idx: nat, k: nat)
    ensures BlockFor(idx) == File(k) <==> idx == 2 * k
  {
  }

  lemma {:induction false} RepeatCount(b: BlockType, n: nat, x: BlockType)
    ensures multiset(Repeat(b, n))[x] == if b == x then n else 0
  {
    if n > 0 {
      RepeatCount(b, n - 1, x);
    }
  }

  function Digits(s: string): (ds: seq<nat>)
    requires forall i :: 0 <= i < |s| ==> IsDigit(s[i])
    ensures |ds| == |s| && forall i :: 0 <= i < |s| ==> ds[i] == s[i] as int - '0' as int
  {
    if s == [] then [] else assert IsDigit(s[0]); [(s[0] as int - '0' as int) as nat] + Digits(s[1..])
  }

  // --------------------------------------------------------- queries

  predicate Present(s: seq<BlockType>, id: nat) { File(id) in s }

  /** Every file id below `n` has at least one block. */
  predicate AllPresent(s: seq<BlockType>, n: nat) {
    forall id :: 0 <= id < n ==> Present(s, id)
  }

  predicate HasFile(s: seq<BlockType>) { exists i :: 0 <= i < |s| && s[i].File? }

  /** Only free blocks follow index `i`. */
  predicate FreeAfter(s: seq<BlockType>, i: nat) {
    forall j :: i < j < |s| ==> s[j] == Free
  }

  /** The index of the right-most file block. */
  function LastFileIndex(s: seq<BlockType>): (i: nat)
    requires HasFile(s)
    ensures i < |s| && s[i].File? && FreeAfter(s, i)
  {
    if s[|s| - 1].File? then |s| - 1
    else
      assert HasFile(s[..|s| - 1]) by {
        var i :| 0 <= i < |s| && s[i].File?;
        assert s[..|s| - 1][i].File?;
      }
      LastFileIndex(s[..|s| - 1])
  }

  /** The id of the right-most file block (the reverse `filter_map` of `compact_part2`). */
  function LastFileId(s: seq<BlockType>): (id: nat)
    requires HasFile(s)
    ensures exists i :: 0 <= i < |s| && s[i] == File(id) && FreeAfter(s, i)
  {
    var i := LastFileIndex(s);
    s[i].id
  }

  predicate FreeWindow(s: seq<BlockType>, start: nat, length: nat) {
    start + length <= |s| && forall i :: start <= i < start + length ==> s[i] == Free
  }

  /** `find_free_block`: the least start of `length` consecutive free blocks, searched from `from`. */
  function FindFreeBlock(s: seq<BlockType>, length: nat, from: nat := 0): (r: Option<nat>)
    requires length > 0
    ensures r.Some? ==> from <= r.value && r.value + length <= |s|
    decreases |s| - from
  {
    if from + length > |s| then None
    else if forall i :: from <= i < from + length ==> s[i] == Free then Some(from)
    else FindFreeBlock(s, length, from + 1)
  }

  /** `find_free_block` finds a free window, and no free window starts before it. */
  lemma {:induction false} FindFreeBlockSpec(s: seq<BlockType>, length: nat, from: nat := 0)
    requires length > 0
    ensures var r := FindFreeBlock(s, length, from);
      && (r.Some? ==> FreeWindow(s, r.value, length))
      && (forall w :: from <= w && (r.None? || w < r.value) ==> !FreeWindow(s, w, length))
    decreases |s| - from
  {
    if from + length <= |s| && !(forall i :: from <= i < from + length ==> s[i] == Free) {
      FindFreeBlockSpec(s, length, from + 1);
    }
  }

  /** The index of the first `x` in `s`. */
  function FirstIndex(s: seq<BlockType>, x: BlockType): (i: nat)
    requires x in s
    ensures i < |s| && s[i] == x
  {
    if s[0] == x then 0 else 1 + FirstIndex(s[1..], x)
  }

  lemma {:induction false} FirstIndexIsFirst(s: seq<BlockType>, x: BlockType)
    requires x in s
    ensures forall j :: 0 <= j < FirstIndex(s, x) ==> s[j] != x
  {
    if s[0] != x {
      FirstIndexIsFirst(s[1..], x);
    }
  }

  /** The index of the last `x` in `s`. */
  function LastIndex(s: seq<BlockType>, x: BlockType): (i: nat)
    requires x in s
    ensures i < |s| && s[i] == x
  {
    if s[|s| - 1] == x then |s| - 1 else LastIndex(s[..|s| - 1], x)
  }

  lemma {:induction false} LastIndexIsLast(s: seq<BlockType>, x: BlockType)
    requires x in s
    ensures forall j :: LastIndex(s, x) < j < |s| ==> s[j] != x
  {
    if s[|s| - 1] != x {
      LastIndexIsLast(s[..|s| - 1], x);
    }
  }

  /** `BlockInfo::new`; `1 + end - start` needs `start <= end + 1`. */
  function NewBlockInfo(start: nat, end: nat): (b: BlockInfo)
    requires start <= end + 1
    ensures b.start == start && b.end == end && b.size == end - start + 1
  {
    BlockInfo(start, end, 1 + end - start)
  }

  /** `find_next_block_to_move`: from the first to the last block of file `id`, which must exist. */
  function FindNextBlockToMove(s: seq<BlockType>, id: nat): (b: BlockInfo)
    requires Present(s, id)
    ensures b.start <= b.end < |s| && b.size == b.end - b.start + 1 && b.size >= 1
    ensures s[b.start] == File(id) && s[b.end] == File(id)
  {
    FirstIndexIsFirst(s, File(id));
    NewBlockInfo(FirstIndex(s, File(id)), LastIndex(s, File(id)))
  }

  /** Every block of file `id` lies between the two ends `find_next_block_to_move` reports. */
  lemma FindNextBlockSpan(s: seq<BlockType>, id: nat)
    requires Present(s, id)
    ensures var b := FindNextBlockToMove(s, id);
      forall j :: 0 <= j < |s| && s[j] == File(id) ==> b.start <= j <= b.end
  {
    FirstIndexIsFirst(s, File(id));
    LastIndexIsLast(s, File(id));
  }

  // ------------------------------------------------------- the checksum

  function Weight(idx: nat, b: BlockType): nat {
    match b
    case Free => 0
    case File(id) => idx * id
  }

  /** `checksum`: the sum of `idx * id` over the file blocks. */
  function Checksum(s: seq<BlockType>): nat {
    if s == [] then 0 else Checksum(s[..|s| - 1]) + Weight(|s| - 1, s[|s| - 1])
  }

  /** Replacing one block changes the checksum by the difference of the two weights. */
  lemma {:induction false} ChecksumUpdate(s: seq<BlockType>, i: nat, x: BlockType)
    requires i < |s|
    ensures Checksum(s[i := x]) + Weight(i, s[i]) == Checksum(s) + Weight(i, x)
  {
    var n := |s| - 1;
    if i < n {
      ChecksumUpdate(s[..n], i, x);
      assert s[i := x][..n] == s[..n][i := x];
    } else {
      assert s[i := x][..n] == s[..n];
    }
  }

  /** Moving file block `id` from `j` into a free block at `i < j` lowers the checksum by `(j - i) * id`. */
  lemma MoveLeftLowersChecksum(s: seq<BlockType>, i: nat, j: nat, id: nat)
    requires i < j < |s| && s[i] == Free && s[j] == File(id)
    ensures Checksum(Swap(s, i, j)) + (j - i) * id == Checksum(s)
  {
    ChecksumUpdate(s, i, File(id));
    ChecksumUpdate(s[i := File(id)], j, Free);
    assert j * id == i * id + (j - i) * id;
  }

  // -------------------------------------------------------- compaction

  function Swap(s: seq<BlockType>, i: nat, j: nat): (r: seq<BlockType>)
    requires i < |s| && j < |s|
    ensures |r| == |s|
  {
    s[i := s[j]][j := s[i]]
  }

  lemma SwapMultiset(s: seq<BlockType>, i: nat, j: nat)
    requires i < |s| && j < |s|
    ensures multiset(Swap(s, i, j)) == multiset(s)
  {
  }

  /** No free block precedes a file block. */
  predicate FilesFirst(s: seq<BlockType>) {
    forall i, j :: 0 <= i < j < |s| && s[i] == Free ==> s[j] == Free
  }

  /**
   * The `while` loop of `compact_part1` from indices `left` and `right`: skip
   * file blocks on the left, free blocks on the right, and otherwise swap the
   * free block at `left` with the file block at `right`.
   */
  function Compact1From(s: seq<BlockType>, left: nat, right: nat): seq<BlockType>
    requires left <= right < |s|
    decreases right - left, if s[left] == Free then 1 else 0
  {
    if left == right then s
    else if s[left] != Free then Compact1From(s, left + 1, right)
    else if s[right] == Free then Compact1From(s, left, right - 1)
    else Compact1From(Swap(s, left, right), left, right)
  }

  /** `compact_part1` on a whole layout, which must not be empty (`len() - 1` underflows). */
  function Compact1(s: seq<BlockType>): seq<BlockType>
    requires |s| > 0
  {
    Compact1From(s, 0, |s| - 1)
  }

  /** The loop permutes the blocks. */
  lemma {:induction false} Compact1FromMultiset(s: seq<BlockType>, left: nat, right: nat)
    requires left <= right < |s|
    ensures |Compact1From(s, left, right)| == |s|
    ensures multiset(Compact1From(s, left, right)) == multiset(s)
    decreases right - left, if s[left] == Free then 1 else 0
  {
    if left == right {
    } else if s[left] != Free {
      Compact1FromMultiset(s, left + 1, right);
    } else if s[right] == Free {
      Compact1FromMultiset(s, left, right - 1);
    } else {
      SwapMultiset(s, left, right);
      Compact1FromMultiset(Swap(s, left, right), left, right);
    }
  }

  /**
   * Started with only file blocks before `left` and only free blocks after
   * `right`, the loop ends with no free block before a file block.
   */
  lemma {:induction false} Compact1FromFilesFirst(s: seq<BlockType>, left: nat, right: nat)
    requires left <= right < |s|
    requires forall i :: 0 <= i < left ==> s[i] != Free
    requires forall i :: right < i < |s| ==> s[i] == Free
    ensures FilesFirst(Compact1From(s, left, right))
    decreases right - left, if s[left] == Free then 1 else 0
  {
    if left == right {
    } else if s[left] != Free {
      Compact1FromFilesFirst(s, left + 1, right);
    } else if s[right] == Free {
      Compact1FromFilesFirst(s, left, right - 1);
    } else {
      var t := Swap(s, left, right);
      assert forall i :: 0 <= i < left ==> t[i] == s[i];
      assert forall i :: right < i < |s| ==> t[i] == s[i];
      Compact1FromFilesFirst(t, left, right);
    }
  }

  /** `compact_part1` permutes the blocks and leaves every free block after every file block. */
  lemma Compact1Spec(s: seq<BlockType>)
    requires |s| > 0
    ensures |Compact1(s)| == |s| && multiset(Compact1(s)) == multiset(s)
    ensures FilesFirst(Compact1(s))
  {
    Compact1FromMultiset(s, 0, |s| - 1);
    Compact1FromFilesFirst(s, 0, |s| - 1);
  }

  /** On `0.12`, the right-most file block fills the gap, giving `021.` and checksum 4. */
  lemma Compact1Example()
    ensures Compact1([File(0), Free, File(1), File(2)]) == [File(0), File(2), File(1), Free]
    ensures Checksum(Compact1([File(0), Free, File(1), File(2)])) == 4
  {
    var s := [File(0), Free, File(1), File(2)];
    var t := Swap(s, 1, 3);
    assert t == [File(0), File(2), File(1), Free];
    assert Compact1From(t, 2, 3) == t;
    assert Compact1From(t, 1, 3) == t;
    assert Compact1From(s, 1, 3) == t;
    assert Compact1From(s, 0, 3) == t;
    assert Checksum([File(0)]) == 0 by { assert [File(0)][..0] == []; }
    assert Checksum([File(0), File(2)]) == 2 by { assert [File(0), File(2)][..1] == [File(0)]; }
    assert t[..3] == [File(0), File(2), File(1)];
    assert [File(0), File(2), File(1)][..2] == [File(0), File(2)];
  }

  /** The `for` loop of `compact_part2`: `k` swaps, `left` counting up and `right` down. */
  function SwapSteps(s: seq<BlockType>, left: nat, right: int, k: nat): seq<BlockType>
    requires left + k <= |s| && k <= right + 1 && right < |s|
    decreases k
  {
    if k == 0 then s else SwapSteps(Swap(s, left, right), left + 1, right - 1, k - 1)
  }

  /** The swaps permute the blocks. */
  lemma {:induction false} SwapStepsMultiset(s: seq<BlockType>, left: nat, right: int, k: nat)
    requires left + k <= |s| && k <= right + 1 && right < |s|
    ensures |SwapSteps(s, left, right, k)| == |s|
    ensures multiset(SwapSteps(s, left, right, k)) == multiset(s)
    decreases k
  {
    if k != 0 {
      SwapMultiset(s, left, right);
      SwapStepsMultiset(Swap(s, left, right), left + 1, right - 1, k - 1);
    }
  }

  /** When the two ranges are disjoint, the swaps exchange them block for block in reverse. */
  lemma {:induction false} SwapStepsSpec(s: seq<BlockType>, left: nat, right: int, k: nat)
    requires left + k <= right - k + 1 && right < |s|
    ensures |SwapSteps(s, left, right, k)| == |s|
    ensures forall i {:trigger SwapSteps(s, left, right, k)[i]} :: 0 <= i < |s| ==>
      SwapSteps(s, left, right, k)[i] ==
        if left <= i < left + k then s[right - (i - left)]
        else if right - k < i <= right then s[left + (right - i)]
        else s[i]
    decreases k
  {
    if k > 0 {
      var t := Swap(s, left, right);
      SwapStepsSpec(t, left + 1, right - 1, k - 1);
      forall i {:trigger SwapSteps(s, left, right, k)[i]} | 0 <= i < |s|
        ensures SwapSteps(s, left, right, k)[i] ==
          if left <= i < left + k then s[right - (i - left)]
          else if right - k < i <= right then s[left + (right - i)]
          else s[i]
      {
        SwapStepsAt(s, left, right, k, i);
      }
    }
  }

  /** One index of the inductive step of `SwapStepsSpec`. */
  lemma SwapStepsAt(s: seq<BlockType>, left: nat, right: int, k: nat, i: nat)
    requires 0 < k && left + k <= right - k + 1 && right < |s| && i < |s|
    requires |SwapSteps(Swap(s, left, right), left + 1, right - 1, k - 1)| == |s|
    requires var t := Swap(s, left, right);
      SwapSteps(t, left + 1, right - 1, k - 1)[i] ==
        if left + 1 <= i < left + k then t[right - 1 - (i - (left + 1))]
        else if right - 1 - (k - 1) < i <= right - 1 then t[left + 1 + (right - 1 - i)]
        else t[i]
    ensures |SwapSteps(s, left, right, k)| == |s|
    ensures SwapSteps(s, left, right, k)[i] ==
      if left <= i < left + k then s[right - (i - left)]
      else if right - k < i <= right then s[left + (right - i)]
      else s[i]
  {
    assert SwapSteps(s, left, right, k) == SwapSteps(Swap(s, left, right), left + 1, right - 1, k - 1);
  }

  /** One iteration of `compact_part2`: file `id` moves to the leftmost fitting window before it. */
  function MoveFile(s: seq<BlockType>, id: nat): seq<BlockType>
    requires Present(s, id)
  {
    var b := FindNextBlockToMove(s, id);
    match FindFreeBlock(s, b.size)
    case None => s
    case Some(w) => if w >= b.start then s else SwapStepsMultiset(s, w, b.end, b.size); SwapSteps(s, w, b.end, b.size)
  }

  /** A move is a permutation of the blocks, so every file stays present. */
  lemma MoveFileMultiset(s: seq<BlockType>, id: nat)
    requires Present(s, id)
    ensures multiset(MoveFile(s, id)) == multiset(s)
  {
    var b := FindNextBlockToMove(s, id);
    match FindFreeBlock(s, b.size) {
      case None =>
      case Some(w) =>
        if w < b.start {
          SwapStepsMultiset(s, w, b.end, b.size);
        }
    }
  }

  /** ... so every file stays present. */
  lemma MoveFilePresent(s: seq<BlockType>, id: nat, n: nat)
    requires Present(s, id) && AllPresent(s, n)
    ensures AllPresent(MoveFile(s, id), n)
  {
    var r := MoveFile(s, id);
    MoveFileMultiset(s, id);
    forall k | 0 <= k < n ensures Present(r, k) {
      assert Present(s, k);
      assert File(k) in multiset(s);
      assert File(k) in multiset(r);
    }
  }

  /** The files `n - 1` down to `0` moved in turn. */
  function Compact2(s: seq<BlockType>, n: nat): seq<BlockType>
    requires AllPresent(s, n)
    decreases n
  {
    if n == 0 then s
    else
      MoveFilePresent(s, n - 1, n - 1);
      Compact2(MoveFile(s, n - 1), n - 1)
  }

  lemma Compact2Step(s: seq<BlockType>, n: nat)
    requires AllPresent(s, n + 1)
    ensures AllPresent(MoveFile(s, n), n)
    ensures Compact2(MoveFile(s, n), n) == Compact2(s, n + 1)
  {
    MoveFilePresent(s, n, n);
  }

  /** File `id`'s blocks form one run. */
  predicate Contiguous(s: seq<BlockType>, id: nat) {
    forall i, j, k :: 0 <= i <= k <= j < |s| && s[i] == File(id) && s[j] == File(id) ==> s[k] == File(id)
  }

  /**
   * A move takes a whole contiguous file into a free window strictly left of
   * it and frees its old blocks; every other block keeps its place. When it
   * does not move, the layout is unchanged.
   */
  lemma MoveFileSpec(s: seq<BlockType>, id: nat)
    requires Present(s, id) && Contiguous(s, id)
    ensures |MoveFile(s, id)| == |s|
    ensures var b := FindNextBlockToMove(s, id);
      var r := MoveFile(s, id);
      match FindFreeBlock(s, b.size)
      case Some(w) =>
        if w < b.start then
          && w + b.size <= b.start
          && (forall i :: w <= i < w + b.size ==> r[i] == File(id))
          && (forall i :: b.start <= i <= b.end ==> r[i] == Free)
          && (forall i :: 0 <= i < |s| && !(w <= i < w + b.size) && !(b.start <= i <= b.end) ==> r[i] == s[i])
        else r == s
      case None => r == s
  {
    var b := FindNextBlockToMove(s, id);
    FindFreeBlockSpec(s, b.size);
    match FindFreeBlock(s, b.size)
    case Some(w) =>
      if w < b.start {
        MoveIntoWindow(s, id, w, b);
      }
    case None =>
  }

  lemma MoveIntoWindow(s: seq<BlockType>, id: nat, w: nat, b: BlockInfo)
    requires Contiguous(s, id) && FreeWindow(s, w, b.size) && w < b.start
    requires b.start <= b.end < |s| && b.size == b.end - b.start + 1
    requires s[b.start] == File(id) && s[b.end] == File(id)
    ensures w + b.size <= b.start
    ensures |SwapSteps(s, w, b.end, b.size)| == |s|
    ensures var r := SwapSteps(s, w, b.end, b.size);
      && (forall i :: w <= i < w + b.size ==> r[i] == File(id))
      && (forall i :: b.start <= i <= b.end ==> r[i] == Free)
      && (forall i :: 0 <= i < |s| && !(w <= i < w + b.size) && !(b.start <= i <= b.end) ==> r[i] == s[i])
  {
    assert s[b.start] != Free;
    SwapStepsSpec(s, w, b.end, b.size);
    var r := SwapSteps(s, w, b.end, b.size);
    forall i | w <= i < w + b.size ensures r[i] == File(id) {
      assert r[i] == s[b.end - (i - w)];
    }
    forall i | b.start <= i <= b.end ensures r[i] == Free {
      assert r[i] == s[w + (b.end - i)];
    }
    forall i | 0 <= i < |s| && !(w <= i < w + b.size) && !(b.start <= i <= b.end) ensures r[i] == s[i] {
      assert !(b.end - b.size < i <= b.end);
    }
  }

  /** `DiskLayout`: the blocks of the disk, compacted in place. */
  class DiskLayout {
    var layout: array<BlockType>

    /** `from_str`: expand every digit of the disk map into that many blocks. */
    constructor FromStr(s: string)
      requires forall i :: 0 <= i < |s| ==> IsDigit(s[i])
      ensures layout[..] == Expand(Digits(s), |s|) && fresh(layout)
    {
      var v := Digits(s);
      var blocks: seq<BlockType> := [];
      var foundFiles: nat := 0;
      for idx := 0 to |v|
        invariant blocks == Expand(v, idx)
        invariant foundFiles == (idx + 1) / 2
      {
        var b;
        if idx % 2 == 0 {
          b := File(foundFiles);
          foundFiles := foundFiles + 1;
        } else {
          b := Free;
        }
        assert b == BlockFor(idx);
        blocks := blocks + Repeat(b, v[idx]);
      }
      var a := new BlockType[|blocks|](i requires 0 <= i < |blocks| => blocks[i]);
      assert a[..] == blocks;
      layout := a;
    }

    /** `compact_part1`: move the right-most file block into the left-most free block until they meet. */
    method CompactPart1()
      requires layout.Length > 0
      modifies layout
      ensures layout[..] == Compact1(old(layout[..]))
    {
      var leftPointer := 0;
      var rightPointer := layout.Length - 1;
      while leftPointer < rightPointer
        invariant 0 <= leftPointer <= rightPointer < layout.Length
        invariant Compact1From(layout[..], leftPointer, rightPointer) == Compact1(old(layout[..]))
        decreases rightPointer - leftPointer, if layout[leftPointer] == Free then 1 else 0
      {
        if layout[leftPointer] != Free {
          leftPointer := leftPointer + 1;
          continue;
        }
        if layout[rightPointer] == Free {
          rightPointer := rightPointer - 1;
          continue;
        }
        SwapCells(leftPointer, rightPointer);
      }
    }

    /** `Vec::swap`. */
    method SwapCells(i: nat, j: nat)
      requires i < layout.Length && j < layout.Length
      modifies layout
      ensures layout[..] == Swap(old(layout[..]), i, j)
      ensures multiset(layout[..]) == multiset(old(layout[..]))
      ensures layout[i] == old(layout[j]) && layout[j] == old(layout[i])
      ensures forall k :: 0 <= k < layout.Length && k != i && k != j ==> layout[k] == old(layout[k])
    {
      layout[i], layout[j] := layout[j], layout[i];
      SwapMultiset(old(layout[..]), i, j);
    }

    /** The block-for-block exchange of `compact_part2`'s `for` loop. */
    method SwapBlocks(left: nat, right: nat, size: nat)
      requires left + size <= layout.Length && size <= right + 1 && right < layout.Length
      modifies layout
      ensures layout[..] == SwapSteps(old(layout[..]), left, right, size)
    {
      var leftPointer := left;
      var rightPointer := right as int;
      for k := 0 to size
        invariant leftPointer == left + k && rightPointer == right - k
        invariant SwapSteps(layout[..], leftPointer, rightPointer, size - k) == SwapSteps(old(layout[..]), left, right, size)
      {
        SwapCells(leftPointer, rightPointer);
        leftPointer := leftPointer + 1;
        rightPointer := rightPointer - 1;
      }
    }

    /** One round of `compact_part2`'s loop; `return` plays the part of its `continue`. */
    method MoveNextFile(id: nat)
      requires Present(layout[..], id)
      modifies layout
      ensures layout[..] == MoveFile(old(layout[..]), id)
    {
      var currentBlock := FindNextBlockToMove(layout[..], id);
      var found := FindFreeBlock(layout[..], currentBlock.size);
      if found.Some? {
        var freeSpace := found.value;
        if freeSpace >= currentBlock.start {
          return;
        }
        SwapBlocks(freeSpace, currentBlock.end, currentBlock.size);
      }
    }

    /** `compact_part2`: every file from the highest id down to 0 is moved once, if it can be. */
    method CompactPart2()
      requires HasFile(layout[..])
      requires AllPresent(layout[..], LastFileId(layout[..]) + 1)
      modifies layout
      ensures layout[..] == Compact2(old(layout[..]), LastFileId(old(layout[..])) + 1)
      ensures multiset(layout[..]) == multiset(old(layout[..]))
    {
      var lastFoundId: nat := LastFileId(layout[..]);
      ghost var goal := Compact2(layout[..], lastFoundId + 1);
      lastFoundId := lastFoundId + 1;
      while lastFoundId > 0
        invariant AllPresent(layout[..], lastFoundId)
        invariant Compact2(layout[..], lastFoundId) == goal
        invariant multiset(layout[..]) == multiset(old(layout[..]))
      {
        var id: nat := lastFoundId - 1;
        lastFoundId := id;
        ghost var before := layout[..];
        MoveNextFile(id);
        Compact2Step(before, id);
        MoveFileMultiset(before, id);
      }
    }
  }

  /** The example disk map `12345`: `0..111....22222`. */
  lemma ExpandExample()
    ensures Expand([1, 2, 3, 4, 5], 5) ==
      [File(0), Free, Free, File(1), File(1), File(1), Free, Free, Free, Free, File(2), File(2), File(2), File(2), File(2)]
  {
  }
}
