/**
 * Sorting modelled as a sorted permutation: an insertion sort under a
 * caller-given `le`, always a permutation of its input, and sorted whenever
 * `le` is a total preorder. It stands for `slice::sort` and `sort_by` of
 * the standard library, whose internals are not part of this model.
 */
module Sorting {
  /** `le` relates every two values of `dom` one way or the other. */
  ghost predicate TotalOn<T>(le: (T, T) -> bool, dom: set<T>) {
    forall a, b :: a in dom && b in dom ==> le(a, b) || le(b, a)
  }

  ghost predicate TransitiveOn<T>(le: (T, T) -> bool, dom: set<T>) {
    forall a, b, c :: a in dom && b in dom && c in dom && le(a, b) && le(b, c) ==> le(a, c)
  }

  ghost predicate AntisymmetricOn<T>(le: (T, T) -> bool, dom: set<T>) {
    forall a, b :: a in dom && b in dom && le(a, b) && le(b, a) ==> a == b
  }

  /** The values occurring in `s`. */
  function Elements<T>(s: seq<T>): set<T> { set x | x in s }

  predicate Sorted<T>(s: seq<T>, le: (T, T) -> bool) {
    forall i, j :: 0 <= i < j < |s| ==> le(s[i], s[j])
  }

  /** Inserts `x` before the first element it is `le` to. */
  function Insert<T>(x: T, s: seq<T>, le: (T, T) -> bool): (r: seq<T>)
    ensures multiset(r) == multiset(s) + multiset{x}
  {
    if s == [] then [x]
    else if le(x, s[0]) then [x] + s
    else
      assert s == [s[0]] + s[1..];
      [s[0]] + Insert(x, s[1..], le)
  }

  /** The sorted copy of `s`. */
  function Sort<T>(s: seq<T>, le: (T, T) -> bool): (r: seq<T>)
    ensures multiset(r) == multiset(s)
    ensures |r| == |s|
  {
    if s == [] then []
    else
      assert s == [s[0]] + s[1..];
      Insert(s[0], Sort(s[1..], le), le)
  }

  lemma {:induction false} InsertSorted<T>(x: T, s: seq<T>, le: (T, T) -> bool, dom: set<T>)
    requires TotalOn(le, dom) && TransitiveOn(le, dom) && Sorted(s, le)
    requires x in dom && Elements(s) <= dom
    ensures Sorted(Insert(x, s, le), le)
  {
    if s != [] && !le(x, s[0]) {
      assert s[0] in Elements(s);
      InsertSorted(x, s[1..], le, dom);
      var r := Insert(x, s[1..], le);
      assert multiset(r) == multiset(s[1..]) + multiset{x};
      forall k | 0 <= k < |r|
        ensures le(s[0], r[k])
      {
        assert r[k] in multiset(r);
        if r[k] != x {
          assert r[k] in multiset(s[1..]);
          var m :| 0 <= m < |s[1..]| && s[1..][m] == r[k];
          assert s[m + 1] == r[k];
        }
      }
    }
  }

  /** Under a total preorder on its values the result is sorted. */
  lemma {:induction false} SortSorted<T>(s: seq<T>, le: (T, T) -> bool)
    requires TotalOn(le, Elements(s)) && TransitiveOn(le, Elements(s))
    ensures Sorted(Sort(s, le), le)
  {
    if s != [] {
      assert Elements(s[1..]) <= Elements(s);
      assert s[0] in Elements(s);
      SortSorted(s[1..], le);
      var t := Sort(s[1..], le);
      assert Elements(t) <= Elements(s) by {
        forall y | y in t ensures y in Elements(s) {
          assert y in multiset(t);
        }
      }
      InsertSorted(s[0], t, le, Elements(s));
    }
  }

  /** Inserting a value that is `le` to all of a sequence puts it in front. */
  lemma InsertFront<T>(x: T, s: seq<T>, le: (T, T) -> bool)
    requires s != [] ==> le(x, s[0])
    ensures Insert(x, s, le) == [x] + s
  {
  }

  /** Sorting an already sorted sequence leaves it unchanged. */
  lemma {:induction false} SortOfSorted<T>(s: seq<T>, le: (T, T) -> bool)
    requires Sorted(s, le)
    ensures Sort(s, le) == s
  {
    if s != [] {
      assert Sorted(s[1..], le);
      SortOfSorted(s[1..], le);
      InsertFront(s[0], s[1..], le);
    }
  }

  /**
   * Two sorted permutations of one multiset are equal, so under an
   * antisymmetric total order the sorted copy depends only on the multiset.
   */
  lemma {:induction false} SortedUnique<T>(a: seq<T>, b: seq<T>, le: (T, T) -> bool, dom: set<T>)
    requires AntisymmetricOn(le, dom) && forall k :: 0 <= k < |a| ==> a[k] in dom
    requires Sorted(a, le) && Sorted(b, le) && multiset(a) == multiset(b)
    ensures a == b
  {
    if a != [] {
      assert |b| == |a| by { assert |multiset(a)| == |a| && |multiset(b)| == |b|; }
      assert a[0] in multiset(b);
      var j :| 0 <= j < |b| && b[j] == a[0];
      assert b[0] in multiset(a);
      var i :| 0 <= i < |a| && a[i] == b[0];
      if i != 0 && j != 0 {
        assert le(a[0], a[i]) && le(b[0], b[j]);
        assert a[0] in dom && a[i] in dom;
      }
      assert a[0] == b[0];
      TailMultiset(a);
      TailMultiset(b);
      SortedUnique(a[1..], b[1..], le, dom);
    }
  }

  lemma TailMultiset<T>(a: seq<T>)
    requires a != []
    ensures multiset(a[1..]) == multiset(a) - multiset{a[0]}
  {
    assert a == [a[0]] + a[1..];
  }

  lemma ElementsOfPermutation<T>(a: seq<T>, b: seq<T>)
    requires multiset(a) == multiset(b)
    ensures Elements(a) == Elements(b)
  {
    forall x ensures x in Elements(a) <==> x in Elements(b) {
      assert x in a <==> x in multiset(a);
      assert x in b <==> x in multiset(b);
    }
  }

  /** The sorted copy depends only on the multiset of its input. */
  lemma SortDependsOnMultiset<T>(a: seq<T>, b: seq<T>, le: (T, T) -> bool)
    requires multiset(a) == multiset(b)
    requires TotalOn(le, Elements(a)) && TransitiveOn(le, Elements(a)) && AntisymmetricOn(le, Elements(a))
    ensures Sort(a, le) == Sort(b, le)
  {
    ElementsOfPermutation(a, b);
    SortSorted(a, le);
    SortSorted(b, le);
    var sa := Sort(a, le);
    forall k | 0 <= k < |sa| ensures sa[k] in Elements(a) {
      assert sa[k] in multiset(sa);
    }
    SortedUnique(sa, Sort(b, le), le, Elements(a));
  }
}
