/** Value types shared by the models. */
module Prelude {

  datatype Option<+T> = None | Some(value: T)

  function Min(a: int, b: int): int {
    if a <= b then a else b
  }

  function Max(a: int, b: int): int {
    if a >= b then a else b
  }

  ghost predicate NoDuplicates<T>(s: seq<T>) {
    forall i, j :: 0 <= i < j < |s| ==> s[i] != s[j]
  }

  /** A Python slice `s[:n]`: all of `s` when it is shorter than `n`. */
  function Take<T>(s: seq<T>, n: nat): seq<T> {
    if |s| <= n then s else s[..n]
  }

  ghost predicate Ascending<T>(before: (T, T) -> bool, s: seq<T>) {
    forall i, j :: 0 <= i < j < |s| ==> before(s[i], s[j])
  }

  lemma LastIsApart<T>(before: (T, T) -> bool, s: seq<T>)
    requires s != [] && Ascending(before, s)
    requires forall x :: x in s ==> !before(x, x)
    ensures forall x :: x in s[..|s| - 1] <==> x in s && x != s[|s| - 1]
    ensures forall x :: x in s && x != s[|s| - 1] ==> before(x, s[|s| - 1])
  {
    var front, last := s[..|s| - 1], s[|s| - 1];
    assert s == front + [last];
    forall i | 0 <= i < |front|
      ensures front[i] != last
    {
      assert before(s[i], s[|s| - 1]);
    }
  }

  lemma HasMember<T>(s: seq<T>)
    ensures s == [] || exists x :: x in s
  {
    assert s == [] || s[0] in s;
  }

  /** There is one way to list a set in strictly ascending order. */
  lemma {:induction false} AscendingListingIsUnique<T>(before: (T, T) -> bool, a: seq<T>, b: seq<T>)
    requires Ascending(before, a) && Ascending(before, b)
    requires forall x, y :: x in a && y in a && before(x, y) ==> !before(y, x)
    requires forall x :: x in a <==> x in b
    ensures a == b
  {
    if a == [] {
      HasMember(b);
    } else {
      var x := a[|a| - 1];
      assert x in b;
      var y := b[|b| - 1];
      assert y in a;
      LastIsApart(before, a);
      LastIsApart(before, b);
      var a', b' := a[..|a| - 1], b[..|b| - 1];
      assert x == y;
      forall z | true
        ensures z in a' <==> z in b'
      {
        assert z in a' <==> z in a && z != x;
        assert z in b' <==> z in b && z != y;
      }
      AscendingListingIsUnique(before, a', b');
      assert a == a' + [x] && b == b' + [x];
    }
  }

  /** `a` embeds in `b` in order, no element of `b` used twice. */
  predicate Subsequence<T(==)>(a: seq<T>, b: seq<T>) {
    if a == [] then true
    else if b == [] then false
    else
      || (a[|a| - 1] == b[|b| - 1] && Subsequence(a[..|a| - 1], b[..|b| - 1]))
      || Subsequence(a, b[..|b| - 1])
  }

  lemma {:induction false} DropLast<T>(a: seq<T>, b: seq<T>)
    requires a != [] && Subsequence(a, b)
    ensures Subsequence(a[..|a| - 1], b)
  {
    var a', b' := a[..|a| - 1], b[..|b| - 1];
    if Subsequence(a, b') {
      DropLast(a, b');
    }
    if a' != [] {
      assert Subsequence(a', b');
    }
  }

  lemma {:induction false} PrefixOfSubsequence<T>(a: seq<T>, c: seq<T>, b: seq<T>)
    requires Subsequence(a + c, b)
    ensures Subsequence(a, b)
  {
    if c == [] {
      assert a + c == a;
    } else {
      DropLast(a + c, b);
      assert (a + c)[..|a + c| - 1] == a + c[..|c| - 1];
      PrefixOfSubsequence(a, c[..|c| - 1], b);
    }
  }

  /** How many elements satisfy `p`. */
  function Count<T>(s: seq<T>, p: T -> bool): nat {
    if s == [] then 0
    else Count(s[..|s| - 1], p) + if p(s[|s| - 1]) then 1 else 0
  }

  lemma CountAppend<T>(s: seq<T>, x: T, p: T -> bool)
    ensures Count(s + [x], p) == Count(s, p) + if p(x) then 1 else 0
  {
    assert (s + [x])[..|s|] == s;
  }

  lemma {:induction false} CountMonotone<T>(s: seq<T>, p: T -> bool, q: T -> bool)
    requires forall x :: x in s && p(x) ==> q(x)
    ensures Count(s, p) <= Count(s, q)
  {
    if s != [] {
      assert s == s[..|s| - 1] + [s[|s| - 1]];
      CountMonotone(s[..|s| - 1], p, q);
    }
  }

  lemma SubsetSize<T>(a: set<T>, b: set<T>)
    requires a <= b
    ensures |a| <= |b|
  {
    if a != {} {
      var x :| x in a;
      SubsetSize(a - {x}, b - {x});
    }
  }

  function Elements<T>(s: seq<T>): set<T> {
    set x | x in s
  }

  /** A sequence has as many members as places, exactly when it repeats nothing. */
  lemma {:induction false} ElementsCounted<T>(s: seq<T>)
    ensures |Elements(s)| <= |s|
    ensures NoDuplicates(s) ==> |Elements(s)| == |s|
  {
    if s != [] {
      var front, last := s[..|s| - 1], s[|s| - 1];
      assert s == front + [last];
      ElementsCounted(front);
      assert Elements(s) == Elements(front) + {last};
    }
  }

  /** The pigeonhole: distinct members of a set are no more than the set holds. */
  lemma DistinctFit<T>(s: seq<T>, bound: set<T>)
    requires NoDuplicates(s) && forall x :: x in s ==> x in bound
    ensures |s| <= |bound|
  {
    ElementsCounted(s);
    SubsetSize(Elements(s), bound);
  }

  lemma FullSubset<T>(a: set<T>, b: set<T>)
    requires a <= b && |a| >= |b|
    ensures a == b
  {
    assert |b| == |a| + |b - a| by {
      assert b == a + (b - a);
    }
    assert b - a == {};
  }

  lemma {:induction false} DistinctCounted<T>(s: seq<T>, x: T)
    requires NoDuplicates(s)
    ensures multiset(s)[x] == if x in s then 1 else 0
  {
    if s != [] {
      var front, last := s[..|s| - 1], s[|s| - 1];
      assert s == front + [last];
      DistinctCounted(front, x);
    }
  }

  lemma CountedIsDistinct<T>(s: seq<T>)
    requires forall x :: multiset(s)[x] <= 1
    ensures NoDuplicates(s)
  {
    forall i, j | 0 <= i < j < |s|
      ensures s[i] != s[j]
    {
      assert s == s[..j] + s[j..];
      assert s[i] in multiset(s[..j]) && s[j] in multiset(s[j..]) by {
        assert s[..j][i] == s[i] && s[j..][0] == s[j];
      }
      assert multiset(s)[s[j]] == multiset(s[..j])[s[j]] + multiset(s[j..])[s[j]];
    }
  }
}
