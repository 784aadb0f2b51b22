/** Keyset pagination over a fixed table.

    The library, the club chat and the challenge list share one pattern: sort by a
    nullable time, cut at a limit, and hand out the last row's time as the cursor
    of the next request. A query is any result SQL may give: ties may come in any
    order, and in a different order on every request. */
module Pagination {
  import opened Prelude

  /** ORDER BY key DESC NULLS LAST, or ORDER BY key ASC. */
  datatype Sort<!T> = Sort(descending: bool, key: T -> Option<int>)

  predicate KeyBefore<T>(s: Sort<T>, a: Option<int>, b: Option<int>) {
    a.Some? && (b.None? || if s.descending then a.value > b.value else a.value < b.value)
  }

  predicate Before<T>(s: Sort<T>, x: T, y: T) {
    KeyBefore(s, s.key(x), s.key(y))
  }

  /** The WHERE clause of a cursor: strictly past it, NULLs included. */
  predicate Past<T>(s: Sort<T>, cursor: Option<int>, x: T) {
    cursor.None? || KeyBefore(s, cursor, s.key(x))
  }

  ghost predicate Sorted<T>(s: Sort<T>, rows: seq<T>) {
    forall i, j :: 0 <= i < j < |rows| ==> !Before(s, rows[j], rows[i])
  }

  /** `rows` is the beginning of some sorted listing of the table past the cursor. */
  ghost predicate Heads<T>(s: Sort<T>, table: set<T>, cursor: Option<int>, rows: seq<T>) {
    && NoDuplicates(rows)
    && Sorted(s, rows)
    && (forall x :: x in rows ==> x in table && Past(s, cursor, x))
    && (forall x, y :: x in table && Past(s, cursor, x) && x !in rows && y in rows ==> !Before(s, x, y))
  }

  /** What the database may return for one page query. */
  ghost predicate QueryResult<T>(s: Sort<T>, table: set<T>, cursor: Option<int>, limit: nat, rows: seq<T>) {
    && Heads(s, table, cursor, rows)
    && |rows| <= limit
    && (|rows| < limit ==> forall x :: x in table && Past(s, cursor, x) ==> x in rows)
  }

  // ---------- the two next-cursor rules ----------

  datatype Page<T> = Page(items: seq<T>, next: Option<int>)

  function Last<T>(rows: seq<T>): T
    requires rows != []
  {
    rows[|rows| - 1]
  }

  /** A full page hands out its last key, unless that key is NULL. */
  function FullPage<T>(s: Sort<T>, rows: seq<T>, limit: nat): Page<T>
    requires limit > 0
  {
    Page(rows, if |rows| == limit then s.key(Last(rows)) else None)
  }

  /** One row more than the page is fetched; its presence says there is a next page. */
  function LookaheadPage<T>(s: Sort<T>, rows: seq<T>, limit: nat): Page<T>
    requires limit > 0
  {
    Page(Take(rows, limit), if |rows| > limit then s.key(Last(Take(rows, limit))) else None)
  }

  /** What either rule guarantees about a page requested at `cursor`. */
  ghost predicate Sound<T>(s: Sort<T>, table: set<T>, cursor: Option<int>, page: Page<T>) {
    && Heads(s, table, cursor, page.items)
    && (page.next.Some? ==> page.items != [] && s.key(Last(page.items)) == page.next)
    && (page.next.None? ==> forall x :: x in table && Past(s, cursor, x) && x !in page.items ==>
          page.items != [] && s.key(Last(page.items)).None? && s.key(x).None?)
  }

  lemma FullPageIsSound<T>(s: Sort<T>, table: set<T>, cursor: Option<int>, limit: nat, rows: seq<T>)
    requires limit > 0 && QueryResult(s, table, cursor, limit, rows)
    ensures Sound(s, table, cursor, FullPage(s, rows, limit))
  {
    if rows != [] {
      assert Last(rows) in rows;
    }
  }

  lemma TakeKeepsHeads<T>(s: Sort<T>, table: set<T>, cursor: Option<int>, limit: nat, rows: seq<T>)
    requires Heads(s, table, cursor, rows)
    ensures Heads(s, table, cursor, Take(rows, limit))
  {
    var items := Take(rows, limit);
    var rest := rows[|items|..];
    assert rows == items + rest;
    forall x, y | x in table && Past(s, cursor, x) && x !in items && y in items
      ensures !Before(s, x, y)
    {
      if x in rows {
        assert x in rest;
        var i :| 0 <= i < |rest| && rest[i] == x;
        var j :| 0 <= j < |items| && items[j] == y;
        assert !Before(s, rows[|items| + i], rows[j]);
      }
    }
  }

  lemma LookaheadPageIsSound<T>(s: Sort<T>, table: set<T>, cursor: Option<int>, limit: nat, rows: seq<T>)
    requires limit > 0 && QueryResult(s, table, cursor, limit + 1, rows)
    ensures Sound(s, table, cursor, LookaheadPage(s, rows, limit))
  {
    TakeKeepsHeads(s, table, cursor, limit, rows);
    if rows != [] {
      assert Last(Take(rows, limit)) in rows;
    }
  }

  // ---------- following the cursor ----------

  function CursorOf<T>(pages: seq<Page<T>>, i: nat): Option<int>
    requires i <= |pages|
  {
    if i == 0 then None else pages[i - 1].next
  }

  ghost predicate SoundAt<T>(s: Sort<T>, table: set<T>, pages: seq<Page<T>>, i: nat)
    requires i < |pages|
  {
    Sound(s, table, CursorOf(pages, i), pages[i])
  }

  /** Every page was requested with the cursor of the page before it. */
  ghost predicate Walk<T>(s: Sort<T>, table: set<T>, pages: seq<Page<T>>) {
    && (forall i :: 0 <= i < |pages| ==> SoundAt(s, table, pages, i))
    && (forall i :: 0 <= i < |pages| - 1 ==> pages[i].next.Some?)
  }

  ghost predicate Completed<T>(s: Sort<T>, table: set<T>, pages: seq<Page<T>>) {
    Walk(s, table, pages) && pages != [] && Last(pages).next.None?
  }

  function Delivered<T>(pages: seq<Page<T>>): seq<T> {
    if pages == [] then [] else Delivered(pages[..|pages| - 1]) + Last(pages).items
  }

  lemma WalkPrefix<T>(s: Sort<T>, table: set<T>, pages: seq<Page<T>>, n: nat)
    requires Walk(s, table, pages) && n <= |pages|
    ensures Walk(s, table, pages[..n])
  {
    var front := pages[..n];
    forall i | 0 <= i < |front|
      ensures SoundAt(s, table, front, i)
    {
      assert SoundAt(s, table, pages, i);
      assert CursorOf(front, i) == CursorOf(pages, i) && front[i] == pages[i];
    }
  }

  /** Nothing delivered so far comes after the cursor that the walk has reached. */
  lemma {:induction false} DeliveredUpToCursor<T>(s: Sort<T>, table: set<T>, pages: seq<Page<T>>)
    requires Walk(s, table, pages)
    ensures forall x :: x in Delivered(pages) ==> x in table
    ensures pages != [] && Last(pages).next.Some? ==>
              forall x :: x in Delivered(pages) ==> !KeyBefore(s, Last(pages).next, s.key(x))
  {
    if pages != [] {
      var n := |pages| - 1;
      var front, page := pages[..n], pages[n];
      WalkPrefix(s, table, pages, n);
      DeliveredUpToCursor(s, table, front);
      assert SoundAt(s, table, pages, n);
      if page.next.Some? {
        forall x | x in Delivered(pages)
          ensures !KeyBefore(s, page.next, s.key(x))
        {
          if x in page.items {
            var i :| 0 <= i < |page.items| && page.items[i] == x;
            if i < |page.items| - 1 {
              assert !Before(s, Last(page.items), page.items[i]);
            }
          } else {
            assert x in Delivered(front) && n > 0;
            assert front[n - 1].next.Some? && CursorOf(pages, n) == front[n - 1].next;
            assert Last(page.items) in page.items;
          }
        }
      }
    }
  }

  /** A later page lies strictly after everything delivered before it. */
  lemma LaterPageComesAfter<T>(s: Sort<T>, table: set<T>, pages: seq<Page<T>>, x: T, y: T)
    requires Walk(s, table, pages) && pages != []
    requires x in Delivered(pages[..|pages| - 1]) && y in Last(pages).items
    ensures Before(s, x, y)
  {
    var n := |pages| - 1;
    WalkPrefix(s, table, pages, n);
    DeliveredUpToCursor(s, table, pages[..n]);
    assert SoundAt(s, table, pages, n);
    assert pages[..n][n - 1].next.Some?;
  }

  /** The pages, concatenated, are in listing order and repeat nothing. */
  lemma {:induction false} PagesAreDisjointAndOrdered<T>(s: Sort<T>, table: set<T>, pages: seq<Page<T>>)
    requires Walk(s, table, pages)
    ensures NoDuplicates(Delivered(pages)) && Sorted(s, Delivered(pages))
  {
    if pages != [] {
      var n := |pages| - 1;
      WalkPrefix(s, table, pages, n);
      PagesAreDisjointAndOrdered(s, table, pages[..n]);
      assert SoundAt(s, table, pages, n);
      var a, b := Delivered(pages[..n]), pages[n].items;
      forall i, j | 0 <= i < j < |a + b|
        ensures (a + b)[i] != (a + b)[j] && !Before(s, (a + b)[j], (a + b)[i])
      {
        if i < |a| && j >= |a| {
          assert a[i] in a && b[j - |a|] in b;
          LaterPageComesAfter(s, table, pages, a[i], b[j - |a|]);
        }
      }
    }
  }

  /** `x` carries the same key as the last row of page `i`. */
  predicate TiesWithEndOf<T>(s: Sort<T>, pages: seq<Page<T>>, i: nat, x: T)
    requires i < |pages|
  {
    pages[i].items != [] && s.key(Last(pages[i].items)) == s.key(x)
  }

  lemma LeftForLater<T>(s: Sort<T>, table: set<T>, cursor: Option<int>, page: Page<T>, x: T)
    requires Sound(s, table, cursor, page) && x in table && Past(s, cursor, x) && x !in page.items
    ensures (page.items != [] && s.key(Last(page.items)) == s.key(x)) || (page.next.Some? && Past(s, page.next, x))
  {
    if page.items != [] {
      assert Last(page.items) in page.items;
      assert !Before(s, x, Last(page.items));
    }
  }

  lemma {:induction false} NotYetDelivered<T>(s: Sort<T>, table: set<T>, pages: seq<Page<T>>, x: T)
    requires Walk(s, table, pages) && x in table && x !in Delivered(pages)
    ensures
      || (exists i :: 0 <= i < |pages| && TiesWithEndOf(s, pages, i, x))
      || ((pages == [] || Last(pages).next.Some?) && Past(s, CursorOf(pages, |pages|), x))
  {
    if pages != [] {
      var n := |pages| - 1;
      var front := pages[..n];
      WalkPrefix(s, table, pages, n);
      NotYetDelivered(s, table, front, x);
      if i :| 0 <= i < |front| && TiesWithEndOf(s, front, i, x) {
        assert TiesWithEndOf(s, pages, i, x);
      } else {
        assert CursorOf(front, n) == CursorOf(pages, n);
        assert SoundAt(s, table, pages, n);
        LeftForLater(s, table, CursorOf(pages, n), pages[n], x);
        assert pages[n].items != [] && s.key(Last(pages[n].items)) == s.key(x) ==> TiesWithEndOf(s, pages, n, x);
      }
    }
  }

  /** Following the cursor to the end misses only rows that tie with the end of a
      page (a NULL ties with a page that ended on NULL). */
  lemma MissedRowsTieWithAPageEnd<T>(s: Sort<T>, table: set<T>, pages: seq<Page<T>>, x: T)
    requires Completed(s, table, pages) && x in table && x !in Delivered(pages)
    ensures exists i :: 0 <= i < |pages| && TiesWithEndOf(s, pages, i, x)
  {
    NotYetDelivered(s, table, pages, x);
  }

  /** No page ends in the middle of a group of equal keys. */
  ghost predicate NoSplitTies<T>(s: Sort<T>, table: set<T>, pages: seq<Page<T>>) {
    forall i, x :: 0 <= i < |pages| && x in table && TiesWithEndOf(s, pages, i, x) ==> x in pages[i].items
  }

  lemma {:induction false} DeliveredByAPage<T>(pages: seq<Page<T>>, x: T)
    ensures x in Delivered(pages) <==> exists i :: 0 <= i < |pages| && x in pages[i].items
  {
    if pages != [] {
      DeliveredByAPage(pages[..|pages| - 1], x);
      if i :| 0 <= i < |pages| && x in pages[i].items && i < |pages| - 1 {
        assert x in pages[..|pages| - 1][i].items;
      }
    }
  }

  lemma EarlierPageComesBefore<T>(s: Sort<T>, table: set<T>, pages: seq<Page<T>>, i: nat, j: nat, x: T, y: T)
    requires Walk(s, table, pages) && i < j < |pages| && x in pages[i].items && y in pages[j].items
    ensures Before(s, x, y)
  {
    var upto, front := pages[..j + 1], pages[..j];
    WalkPrefix(s, table, pages, j + 1);
    assert upto[..|upto| - 1] == front && front[i] == pages[i];
    assert x in Delivered(front) by {
      DeliveredByAPage(front, x);
    }
    LaterPageComesAfter(s, table, upto, x, y);
  }

  lemma TiesShareAPage<T>(s: Sort<T>, table: set<T>, pages: seq<Page<T>>, i: nat, j: nat, x: T)
    requires Walk(s, table, pages) && i < |pages| && j < |pages|
    requires TiesWithEndOf(s, pages, i, x) && x in pages[j].items
    ensures i == j
  {
    var end := Last(pages[i].items);
    assert SoundAt(s, table, pages, i);
    assert end in pages[i].items;
    if i < j {
      EarlierPageComesBefore(s, table, pages, i, j, end, x);
    } else if j < i {
      EarlierPageComesBefore(s, table, pages, j, i, x, end);
    }
  }

  /** Exactly when a walk delivers the whole table: iff no page splits a group of ties. */
  lemma CompleteIffNoSplitTies<T>(s: Sort<T>, table: set<T>, pages: seq<Page<T>>)
    requires Completed(s, table, pages)
    ensures (forall x :: x in table ==> x in Delivered(pages)) <==> NoSplitTies(s, table, pages)
  {
    if NoSplitTies(s, table, pages) {
      forall x | x in table
        ensures x in Delivered(pages)
      {
        DeliveredByAPage(pages, x);
        if x !in Delivered(pages) {
          MissedRowsTieWithAPageEnd(s, table, pages, x);
        }
      }
    }
    if forall x :: x in table ==> x in Delivered(pages) {
      forall i, x | 0 <= i < |pages| && x in table && TiesWithEndOf(s, pages, i, x)
        ensures x in pages[i].items
      {
        DeliveredByAPage(pages, x);
        var j :| 0 <= j < |pages| && x in pages[j].items;
        TiesShareAPage(s, table, pages, i, j, x);
      }
    }
  }

  ghost predicate DistinctKeys<T>(s: Sort<T>, table: set<T>) {
    forall x, y :: x in table && y in table && x != y ==> s.key(x) != s.key(y)
  }

  /** `rows` is the whole table in listing order. */
  ghost predicate FullListing<T>(s: Sort<T>, table: set<T>, rows: seq<T>) {
    && NoDuplicates(rows)
    && Sorted(s, rows)
    && (forall x :: x in rows ==> x in table)
    && (forall x :: x in table ==> x in rows)
  }

  /** With distinct keys (so at most one NULL) the pages concatenate to the full sorted list. */
  lemma DistinctKeysGiveTheFullListing<T>(s: Sort<T>, table: set<T>, pages: seq<Page<T>>, rows: seq<T>)
    requires Completed(s, table, pages) && DistinctKeys(s, table) && FullListing(s, table, rows)
    ensures Delivered(pages) == rows
  {
    forall i, x | 0 <= i < |pages| && x in table && TiesWithEndOf(s, pages, i, x)
      ensures x in pages[i].items
    {
      assert SoundAt(s, table, pages, i);
      assert Last(pages[i].items) in pages[i].items;
    }
    CompleteIffNoSplitTies(s, table, pages);
    PagesAreDisjointAndOrdered(s, table, pages);
    DeliveredUpToCursor(s, table, pages);
    var before := (x: T, y: T) => Before(s, x, y);
    forall list | list == rows || list == Delivered(pages)
      ensures Ascending(before, list)
    {
      forall i, j | 0 <= i < j < |list|
        ensures before(list[i], list[j])
      {
        assert list[i] in list && list[j] in list && list[i] != list[j];
        assert !Before(s, list[j], list[i]);
      }
    }
    AscendingListingIsUnique(before, Delivered(pages), rows);
  }

  // ---------- termination ----------

  lemma {:induction false} DeliveredGrows<T>(s: Sort<T>, table: set<T>, pages: seq<Page<T>>)
    requires Walk(s, table, pages)
    ensures |pages| <= |Delivered(pages)| + 1
    ensures pages != [] && Last(pages).next.Some? ==> |pages| <= |Delivered(pages)|
  {
    if pages != [] {
      var n := |pages| - 1;
      WalkPrefix(s, table, pages, n);
      DeliveredGrows(s, table, pages[..n]);
      assert SoundAt(s, table, pages, n);
      if n > 0 {
        assert pages[..n][n - 1].next.Some?;
      }
    }
  }

  /** Every walk ends: it has at most one page more than the table has rows. */
  lemma WalksAreBounded<T>(s: Sort<T>, table: set<T>, pages: seq<Page<T>>)
    requires Walk(s, table, pages)
    ensures |pages| <= |table| + 1
  {
    DeliveredGrows(s, table, pages);
    PagesAreDisjointAndOrdered(s, table, pages);
    DeliveredUpToCursor(s, table, pages);
    DistinctFit(Delivered(pages), table);
  }

  // ---------- the hypotheses can be met ----------

  /** Some row of a non-empty set comes before no other row's key. */
  lemma FirstRowExists<T>(s: Sort<T>, rows: set<T>) returns (first: T)
    requires rows != {}
    ensures first in rows && forall x :: x in rows ==> !Before(s, x, first)
  {
    first :| first in rows;
    if rows - {first} != {} {
      var other := FirstRowExists(s, rows - {first});
      var alone := first;
      if Before(s, other, first) {
        first := other;
      }
      forall x | x in rows
        ensures !Before(s, x, first)
      {
        assert x == alone || x in rows - {alone};
      }
    } else {
      assert rows == {first};
    }
  }

  /** Every query has a result. */
  lemma QueryHasResult<T>(s: Sort<T>, table: set<T>, cursor: Option<int>, limit: nat) returns (rows: seq<T>)
    ensures QueryResult(s, table, cursor, limit, rows)
    decreases table
  {
    var matching := set x | x in table && Past(s, cursor, x);
    if limit == 0 || matching == {} {
      rows := [];
      assert forall x :: x in table && Past(s, cursor, x) ==> x in matching;
    } else {
      var first := FirstRowExists(s, matching);
      var rest := QueryHasResult(s, table - {first}, cursor, limit - 1);
      rows := [first] + rest;
      assert forall x :: x in table && Past(s, cursor, x) ==> x in matching;
    }
  }
}
