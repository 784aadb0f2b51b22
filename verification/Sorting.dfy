/** Python's stable sort by a key. */
module Sorting {
  import opened Prelude

  /** Insert after everything whose key is no larger. */
  function Inserted<T>(key: T -> real, sorted: seq<T>, x: T): seq<T> {
    if sorted == [] || key(sorted[|sorted| - 1]) <= key(x) then sorted + [x]
    else Inserted(key, sorted[..|sorted| - 1], x) + [sorted[|sorted| - 1]]
  }

  /** `list.sort(key=...)`: ascending, equal keys in their old order. */
  function SortedBy<T>(key: T -> real, s: seq<T>): seq<T> {
    if s == [] then [] else Inserted(key, SortedBy(key, s[..|s| - 1]), s[|s| - 1])
  }

  ghost predicate Ordered<T>(key: T -> real, s: seq<T>) {
    forall i, j :: 0 <= i < j < |s| ==> key(s[i]) <= key(s[j])
  }

  function WithKey<T>(key: T -> real, s: seq<T>, r: real): seq<T> {
    if s == [] then []
    else
      var front, last := WithKey(key, s[..|s| - 1], r), s[|s| - 1];
      if key(last) == r then front + [last] else front
  }

  lemma WithKeyAppend<T>(key: T -> real, s: seq<T>, x: T, r: real)
    ensures WithKey(key, s + [x], r) == if key(x) == r then WithKey(key, s, r) + [x] else WithKey(key, s, r)
  {
    assert (s + [x])[..|s|] == s;
  }

  lemma {:induction false} InsertedElements<T>(key: T -> real, sorted: seq<T>, x: T)
    ensures multiset(Inserted(key, sorted, x)) == multiset(sorted) + multiset{x}
  {
    if sorted != [] && key(sorted[|sorted| - 1]) > key(x) {
      assert sorted == sorted[..|sorted| - 1] + [sorted[|sorted| - 1]];
      InsertedElements(key, sorted[..|sorted| - 1], x);
    }
  }

  lemma {:induction false} InsertedOrdered<T>(key: T -> real, sorted: seq<T>, x: T)
    requires Ordered(key, sorted)
    ensures Ordered(key, Inserted(key, sorted, x))
  {
    if sorted != [] && key(sorted[|sorted| - 1]) > key(x) {
      var front, last := sorted[..|sorted| - 1], sorted[|sorted| - 1];
      InsertedOrdered(key, front, x);
      InsertedElements(key, front, x);
      var inner := Inserted(key, front, x);
      forall i | 0 <= i < |inner|
        ensures key(inner[i]) <= key(last)
      {
        assert inner[i] in multiset(inner);
        assert inner[i] in front || inner[i] == x;
      }
    }
  }

  lemma {:induction false} InsertedKeys<T>(key: T -> real, sorted: seq<T>, x: T, r: real)
    ensures WithKey(key, Inserted(key, sorted, x), r) == WithKey(key, sorted + [x], r)
  {
    WithKeyAppend(key, sorted, x, r);
    if sorted != [] && key(sorted[|sorted| - 1]) > key(x) {
      var front, last := sorted[..|sorted| - 1], sorted[|sorted| - 1];
      assert sorted == front + [last];
      InsertedKeys(key, front, x, r);
      WithKeyAppend(key, Inserted(key, front, x), last, r);
      WithKeyAppend(key, front, last, r);
      WithKeyAppend(key, front, x, r);
    }
  }

  /** The sort is an ordered permutation that keeps the order of equal keys. */
  lemma {:induction false} SortIsStable<T>(key: T -> real, s: seq<T>, r: real)
    ensures Ordered(key, SortedBy(key, s)) && multiset(SortedBy(key, s)) == multiset(s)
    ensures WithKey(key, SortedBy(key, s), r) == WithKey(key, s, r)
  {
    if s != [] {
      var front, last := s[..|s| - 1], s[|s| - 1];
      assert s == front + [last];
      SortIsStable(key, front, r);
      InsertedOrdered(key, SortedBy(key, front), last);
      InsertedElements(key, SortedBy(key, front), last);
      InsertedKeys(key, SortedBy(key, front), last, r);
      WithKeyAppend(key, SortedBy(key, front), last, r);
      WithKeyAppend(key, front, last, r);
    }
  }

  /** A list in order is left as it is. */
  lemma {:induction false} SortedByKeepsOrder<T>(key: T -> real, s: seq<T>)
    requires Ordered(key, s)
    ensures SortedBy(key, s) == s
  {
    if s != [] {
      var front, last := s[..|s| - 1], s[|s| - 1];
      assert s == front + [last];
      SortedByKeepsOrder(key, front);
    }
  }

  /** The first `n` of an ordered list: whatever is cut off is no smaller than all of them. */
  lemma CutKeepsSmallest<T>(key: T -> real, sorted: seq<T>, n: nat, x: T)
    requires Ordered(key, sorted) && x in sorted && x !in Take(sorted, n)
    ensures |Take(sorted, n)| == n
    ensures forall y :: y in Take(sorted, n) ==> key(y) <= key(x)
  {
    var top := Take(sorted, n);
    var j :| 0 <= j < |sorted| && sorted[j] == x;
    assert j >= n;
    forall i | 0 <= i < |top|
      ensures key(top[i]) <= key(x)
    {
      assert top[i] == sorted[i];
    }
  }
}
