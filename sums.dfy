/** Sums over sequences and finite sets, as `Iterator::sum` computes them. */
module Sums {
  /** The sum of a sequence of integers. */
  function SeqSum(s: seq<int>): int {
    if s == [] then 0 else SeqSum(s[..|s| - 1]) + s[|s| - 1]
  }

  lemma SeqSumAppend(s: seq<int>, x: int)
    ensures SeqSum(s + [x]) == SeqSum(s) + x
  {
    assert (s + [x])[..|s|] == s;
  }

  lemma {:induction false} SeqSumNonNegative(s: seq<int>)
    requires forall i :: 0 <= i < |s| ==> s[i] >= 0
    ensures SeqSum(s) >= 0
  {
    if s != [] {
      SeqSumNonNegative(s[..|s| - 1]);
    }
  }

  /** A sum of non-negative terms is zero only if every term is. */
  lemma {:induction false} SeqSumZero(s: seq<int>)
    requires forall i :: 0 <= i < |s| ==> s[i] >= 0
    ensures SeqSum(s) == 0 <==> forall i :: 0 <= i < |s| ==> s[i] == 0
  {
    if s != [] {
      SeqSumZero(s[..|s| - 1]);
      SeqSumNonNegative(s[..|s| - 1]);
    }
  }

  /** The sum of `f` over a finite set, in no particular order. */
  ghost function SetSum<T>(s: set<T>, f: T -> int): int
    decreases |s|
  {
    if s == {} then 0
    else
      var x :| x in s;
      f(x) + SetSum(s - {x}, f)
  }

  /** Taking any element out first gives the same sum. */
  lemma {:induction false} SetSumRemove<T>(s: set<T>, f: T -> int, y: T)
    requires y in s
    ensures SetSum(s, f) == f(y) + SetSum(s - {y}, f)
    decreases |s|
  {
    var x :| x in s && SetSum(s, f) == f(x) + SetSum(s - {x}, f);
    if x != y {
      SetSumRemove(s - {x}, f, y);
      SetSumRemove(s - {y}, f, x);
      assert s - {x} - {y} == s - {y} - {x};
    }
  }

  /** Functions that agree on the set have the same sum over it. */
  lemma {:induction false} SetSumCongruent<T>(s: set<T>, f: T -> int, g: T -> int)
    requires forall x :: x in s ==> f(x) == g(x)
    ensures SetSum(s, f) == SetSum(s, g)
    decreases |s|
  {
    if s != {} {
      var x :| x in s && SetSum(s, f) == f(x) + SetSum(s - {x}, f);
      SetSumRemove(s, g, x);
      SetSumCongruent(s - {x}, f, g);
    }
  }

  /** Non-negative terms have a non-negative sum. */
  lemma {:induction false} SetSumNonNegative<T>(s: set<T>, f: T -> int)
    requires forall x :: x in s ==> f(x) >= 0
    ensures SetSum(s, f) >= 0
    decreases |s|
  {
    if s != {} {
      var x :| x in s && SetSum(s, f) == f(x) + SetSum(s - {x}, f);
      SetSumNonNegative(s - {x}, f);
    }
  }

  /** A sum of zero terms is zero. */
  lemma {:induction false} SetSumZero<T>(s: set<T>, f: T -> int)
    requires forall x :: x in s ==> f(x) == 0
    ensures SetSum(s, f) == 0
    decreases |s|
  {
    if s != {} {
      var x :| x in s && SetSum(s, f) == f(x) + SetSum(s - {x}, f);
      SetSumZero(s - {x}, f);
    }
  }

  /** Adding one new element adds its term. */
  lemma SetSumAdd<T>(s: set<T>, f: T -> int, x: T)
    requires x !in s
    ensures SetSum(s + {x}, f) == SetSum(s, f) + f(x)
  {
    SetSumRemove(s + {x}, f, x);
    assert s + {x} - {x} == s;
  }

  /**
   * Loops that visit a set one element at a time keep the visited and the
   * remaining elements as a partition: moving `x` over keeps it one.
   */
  lemma ShiftElement<T>(done: set<T>, todo: set<T>, x: T)
    requires done !! todo && x in todo
    ensures (done + {x}) !! (todo - {x}) && (done + {x}) + (todo - {x}) == done + todo
    ensures |todo - {x}| < |todo|
  {
  }

  /** Once nothing remains, everything has been visited. */
  lemma Exhausted<T>(done: set<T>, todo: set<T>, all: set<T>)
    requires done + todo == all && todo == {}
    ensures done == all
  {
  }

  /** A subset of a finite set is no larger than the set. */
  lemma {:induction false} SubsetCard<T>(s: set<T>, t: set<T>)
    requires s <= t
    ensures |s| <= |t|
  {
    if s != {} {
      var x :| x in s;
      SubsetCard(s - {x}, t - {x});
    }
  }
}
