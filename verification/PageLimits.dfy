/** Keyset pagination at a page limit: exactly which tables a walk delivers in full.
    The condition speaks of the table and the limit only. */
module PageLimits {
  import opened Prelude
  import opened Pagination

  /** How a service turns the fetched rows into a page and a cursor. */
  datatype Rule = WhenFull | WithLookahead

  function FetchLimit(rule: Rule, limit: nat): nat {
    if rule.WhenFull? then limit else limit + 1
  }

  function PageOf<T>(rule: Rule, s: Sort<T>, rows: seq<T>, limit: nat): Page<T>
    requires limit > 0
  {
    if rule.WhenFull? then FullPage(s, rows, limit) else LookaheadPage(s, rows, limit)
  }

  /** A page that the service may return at `cursor`, for some order of the ties. */
  ghost predicate Returned<T(!new)>(rule: Rule, s: Sort<T>, table: set<T>, cursor: Option<int>, limit: nat, page: Page<T>)
    requires limit > 0
  {
    exists rows :: QueryResult(s, table, cursor, FetchLimit(rule, limit), rows) && page == PageOf(rule, s, rows, limit)
  }

  ghost predicate ReturnedAt<T(!new)>(rule: Rule, s: Sort<T>, table: set<T>, limit: nat, pages: seq<Page<T>>, i: nat)
    requires limit > 0 && i < |pages|
  {
    Returned(rule, s, table, CursorOf(pages, i), limit, pages[i])
  }

  /** Every page is what the service returned for the cursor of the page before it. */
  ghost predicate Served<T(!new)>(rule: Rule, s: Sort<T>, table: set<T>, limit: nat, pages: seq<Page<T>>)
    requires limit > 0
  {
    && (forall i :: 0 <= i < |pages| ==> ReturnedAt(rule, s, table, limit, pages, i))
    && (forall i :: 0 <= i < |pages| - 1 ==> pages[i].next.Some?)
  }

  ghost predicate ServedToTheEnd<T(!new)>(rule: Rule, s: Sort<T>, table: set<T>, limit: nat, pages: seq<Page<T>>)
    requires limit > 0
  {
    Served(rule, s, table, limit, pages) && pages != [] && Last(pages).next.None?
  }

  /** What the limit adds to `Sound`: a page with rows left behind it is full. */
  ghost predicate AtLimit<T>(s: Sort<T>, table: set<T>, cursor: Option<int>, limit: nat, page: Page<T>) {
    QueryResult(s, table, cursor, limit, page.items) && (page.next.Some? ==> |page.items| == limit)
  }

  lemma ReturnedPageIsSound<T(!new)>(rule: Rule, s: Sort<T>, table: set<T>, cursor: Option<int>, limit: nat, page: Page<T>)
    requires limit > 0 && Returned(rule, s, table, cursor, limit, page)
    ensures Sound(s, table, cursor, page) && AtLimit(s, table, cursor, limit, page)
  {
    var rows :| QueryResult(s, table, cursor, FetchLimit(rule, limit), rows) && page == PageOf(rule, s, rows, limit);
    if rule.WhenFull? {
      FullPageIsSound(s, table, cursor, limit, rows);
    } else {
      LookaheadPageIsSound(s, table, cursor, limit, rows);
    }
  }

  /** When a page has a cursor: with lookahead exactly when rows were left out, and otherwise
      exactly when the page is full and its last row has a key. */
  lemma CursorMeaning<T(!new)>(rule: Rule, s: Sort<T>, table: set<T>, cursor: Option<int>, limit: nat, page: Page<T>)
    requires limit > 0 && Returned(rule, s, table, cursor, limit, page)
    ensures rule.WithLookahead? && (forall x :: x in table ==> s.key(x).Some?) ==>
              (page.next.Some? <==> exists x :: x in table && Past(s, cursor, x) && x !in page.items)
    ensures rule.WhenFull? ==>
              (page.next.Some? <==> |page.items| == limit && s.key(page.items[limit - 1]).Some?)
    ensures page.next.Some? ==> page.items != [] && page.next == s.key(page.items[|page.items| - 1])
  {
    var rows :| QueryResult(s, table, cursor, FetchLimit(rule, limit), rows) && page == PageOf(rule, s, rows, limit);
    if rule.WithLookahead? {
      if |rows| > limit {
        var x := rows[limit];
        assert x in rows && x !in page.items;
        assert page.items[limit - 1] in rows;
      } else {
        assert page.items == rows;
      }
    }
  }

  /** Every page but the last holds `limit` rows, and none holds more. */
  predicate Filled<T>(pages: seq<Page<T>>, limit: nat) {
    forall i :: 0 <= i < |pages| ==> |pages[i].items| <= limit && (i < |pages| - 1 ==> |pages[i].items| == limit)
  }

  lemma ServedIsAWalk<T(!new)>(rule: Rule, s: Sort<T>, table: set<T>, limit: nat, pages: seq<Page<T>>)
    requires limit > 0 && Served(rule, s, table, limit, pages)
    ensures Walk(s, table, pages)
    ensures Filled(pages, limit)
    ensures forall i :: 0 <= i < |pages| ==> AtLimit(s, table, CursorOf(pages, i), limit, pages[i])
  {
    forall i | 0 <= i < |pages|
      ensures SoundAt(s, table, pages, i) && AtLimit(s, table, CursorOf(pages, i), limit, pages[i])
    {
      assert ReturnedAt(rule, s, table, limit, pages, i);
      ReturnedPageIsSound(rule, s, table, CursorOf(pages, i), limit, pages[i]);
    }
  }

  // ---------- where a group of equal keys lies ----------

  /** The rows listed strictly before those with this key. */
  function Earlier<T>(s: Sort<T>, table: set<T>, key: Option<int>): set<T> {
    set x | x in table && KeyBefore(s, s.key(x), key)
  }

  /** The rows with this key. */
  function Group<T>(s: Sort<T>, table: set<T>, key: Option<int>): set<T> {
    set x | x in table && s.key(x) == key
  }

  /** Counting from 0, the places of the group in the listing all fall into one
      block of `limit` places. */
  predicate FitsAPage<T>(s: Sort<T>, table: set<T>, limit: nat, key: Option<int>)
    requires limit > 0
  {
    var before, tied := |Earlier(s, table, key)|, |Group(s, table, key)|;
    before / limit == (before + tied - 1) / limit
  }

  ghost predicate GroupsFit<T>(s: Sort<T>, table: set<T>, limit: nat)
    requires limit > 0
  {
    forall x :: x in table ==> FitsAPage(s, table, limit, s.key(x))
  }

  lemma EarlierAndGroup<T>(s: Sort<T>, table: set<T>, key: Option<int>)
    ensures |Earlier(s, table, key) + Group(s, table, key)| == |Earlier(s, table, key)| + |Group(s, table, key)|
  {
    assert Earlier(s, table, key) !! Group(s, table, key);
  }

  lemma {:induction false} PlacesDelivered<T>(pages: seq<Page<T>>, limit: nat, n: nat)
    requires Filled(pages, limit) && n < |pages|
    ensures |Delivered(pages[..n])| == n * limit
  {
    if n > 0 {
      PlacesDelivered(pages, limit, n - 1);
      DeliveredStep(pages, n - 1);
      assert n * limit == (n - 1) * limit + limit;
    }
  }

  lemma DeliveredStep<T>(pages: seq<Page<T>>, n: nat)
    requires n < |pages|
    ensures Delivered(pages[..n + 1]) == Delivered(pages[..n]) + pages[n].items
  {
    assert pages[..n + 1][..n] == pages[..n];
  }

  /** What is delivered before a page precedes everything past its cursor. */
  lemma DeliveredBefore<T>(s: Sort<T>, table: set<T>, pages: seq<Page<T>>, n: nat, x: T)
    requires Walk(s, table, pages) && n < |pages| && x in table && Past(s, CursorOf(pages, n), x)
    ensures forall z :: z in Delivered(pages[..n]) ==> z in Earlier(s, table, s.key(x))
    ensures |Delivered(pages[..n])| <= |Earlier(s, table, s.key(x))|
  {
    WalkPrefix(s, table, pages, n);
    DeliveredUpToCursor(s, table, pages[..n]);
    PagesAreDisjointAndOrdered(s, table, pages[..n]);
    DistinctFit(Delivered(pages[..n]), Earlier(s, table, s.key(x)));
  }

  lemma DeliveredSoFar<T>(pages: seq<Page<T>>, n: nat, j: nat, z: T)
    requires j < n <= |pages| && z in pages[j].items
    ensures z in Delivered(pages[..n])
  {
    DeliveredByAPage(pages[..n], z);
    assert pages[..n][j] == pages[j];
  }

  lemma BlockOf(place: nat, limit: nat, n: nat)
    requires limit > 0
    ensures place / limit == n <==> n * limit <= place < n * limit + limit
  {
    var q := place / limit;
    assert place == q * limit + place % limit;
    if q < n {
      assert (q + 1) * limit <= n * limit;
    } else if q > n {
      assert (n + 1) * limit <= q * limit;
    }
  }

  /** A group that starts in block n fits when it also ends there. */
  lemma SameBlock(before: nat, tied: nat, limit: nat, n: nat)
    requires limit > 0 && tied > 0 && n * limit <= before < n * limit + limit
    ensures before / limit == (before + tied - 1) / limit <==> before + tied <= n * limit + limit
  {
    BlockOf(before, limit, n);
    BlockOf(before + tied - 1, limit, n);
  }

  lemma FitsIff<T>(s: Sort<T>, table: set<T>, limit: nat, key: Option<int>, n: nat)
    requires limit > 0 && |Group(s, table, key)| > 0
    requires n * limit <= |Earlier(s, table, key)| < n * limit + limit
    ensures FitsAPage(s, table, limit, key) <==>
            |Earlier(s, table, key)| + |Group(s, table, key)| <= n * limit + limit
  {
    SameBlock(|Earlier(s, table, key)|, |Group(s, table, key)|, limit, n);
  }

  // ---------- completeness ----------

  /** Rows no later than a delivered row are delivered with its page or before, if at all. */
  lemma NoLaterThan<T>(s: Sort<T>, table: set<T>, pages: seq<Page<T>>, n: nat, x: T, z: T)
    requires Walk(s, table, pages) && n < |pages| && x in pages[n].items
    requires z in Delivered(pages) && !Before(s, x, z)
    ensures z in Delivered(pages[..n + 1])
  {
    DeliveredByAPage(pages, z);
    var j :| 0 <= j < |pages| && z in pages[j].items;
    if j > n {
      EarlierPageComesBefore(s, table, pages, n, j, x, z);
    }
    DeliveredSoFar(pages, n + 1, j, z);
  }

  lemma UpToTheGroupOf<T>(s: Sort<T>, table: set<T>, pages: seq<Page<T>>, n: nat, x: T)
    requires Walk(s, table, pages) && n < |pages| && x in pages[n].items
    requires forall y :: y in table ==> y in Delivered(pages)
    ensures |Earlier(s, table, s.key(x))| + |Group(s, table, s.key(x))| <= |Delivered(pages[..n + 1])|
  {
    var both := Earlier(s, table, s.key(x)) + Group(s, table, s.key(x));
    var sofar := Delivered(pages[..n + 1]);
    forall z | z in both
      ensures z in sofar
    {
      NoLaterThan(s, table, pages, n, x, z);
    }
    SubsetSize(both, Elements(sofar));
    ElementsCounted(sofar);
    EarlierAndGroup(s, table, s.key(x));
  }

  lemma DeliveredGroupPlaces<T>(s: Sort<T>, table: set<T>, limit: nat, pages: seq<Page<T>>, n: nat, x: T)
    requires limit > 0 && Walk(s, table, pages) && Filled(pages, limit) && n < |pages|
    requires x in table && x in pages[n].items && Past(s, CursorOf(pages, n), x)
    requires forall y :: y in table ==> y in Delivered(pages)
    ensures n * limit <= |Earlier(s, table, s.key(x))| < n * limit + limit
    ensures |Earlier(s, table, s.key(x))| + |Group(s, table, s.key(x))| <= n * limit + limit
  {
    PlacesDelivered(pages, limit, n);
    DeliveredStep(pages, n);
    DeliveredBefore(s, table, pages, n, x);
    UpToTheGroupOf(s, table, pages, n, x);
    assert x in Group(s, table, s.key(x));
  }

  /** A group that is delivered lies within the page that delivered one of its rows. */
  lemma DeliveredGroupFits<T>(s: Sort<T>, table: set<T>, limit: nat, pages: seq<Page<T>>, n: nat, x: T)
    requires limit > 0 && Walk(s, table, pages) && Filled(pages, limit) && n < |pages|
    requires x in table && x in pages[n].items && Past(s, CursorOf(pages, n), x)
    requires forall y :: y in table ==> y in Delivered(pages)
    ensures FitsAPage(s, table, limit, s.key(x))
  {
    DeliveredGroupPlaces(s, table, limit, pages, n, x);
    assert x in Group(s, table, s.key(x));
    FitsIff(s, table, limit, s.key(x), n);
  }

  lemma DeliveredPast<T>(s: Sort<T>, table: set<T>, pages: seq<Page<T>>, x: T) returns (n: nat)
    requires Walk(s, table, pages) && x in Delivered(pages)
    ensures n < |pages| && x in pages[n].items && Past(s, CursorOf(pages, n), x)
  {
    DeliveredByAPage(pages, x);
    n :| 0 <= n < |pages| && x in pages[n].items;
    assert SoundAt(s, table, pages, n);
  }

  lemma MissedGroupPlaces<T>(s: Sort<T>, table: set<T>, limit: nat, pages: seq<Page<T>>, n: nat, y: T)
    requires limit > 0 && Walk(s, table, pages) && Filled(pages, limit) && n < |pages|
    requires TiesWithEndOf(s, pages, n, y) && |pages[n].items| == limit
    requires y in table && Past(s, CursorOf(pages, n), y) && y !in Delivered(pages)
    requires forall z :: z in table && z !in Delivered(pages) ==> !Before(s, z, y)
    ensures n * limit <= |Earlier(s, table, s.key(y))| < n * limit + limit
    ensures |Earlier(s, table, s.key(y))| + |Group(s, table, s.key(y))| > n * limit + limit
  {
    PlacesDelivered(pages, limit, n);
    DeliveredStep(pages, n);
    DeliveredBefore(s, table, pages, n, y);
    EarlierIsDelivered(s, table, pages, n, y);
    UpToTheEndOf(s, table, pages, n, y);
  }

  /** The first row that is missed belongs to a group that spans two pages. */
  lemma MissedGroupDoesNotFit<T>(s: Sort<T>, table: set<T>, limit: nat, pages: seq<Page<T>>, n: nat, y: T)
    requires limit > 0 && Walk(s, table, pages) && Filled(pages, limit) && n < |pages|
    requires TiesWithEndOf(s, pages, n, y) && |pages[n].items| == limit
    requires y in table && Past(s, CursorOf(pages, n), y) && y !in Delivered(pages)
    requires forall z :: z in table && z !in Delivered(pages) ==> !Before(s, z, y)
    ensures !FitsAPage(s, table, limit, s.key(y))
  {
    MissedGroupPlaces(s, table, limit, pages, n, y);
    assert y in Group(s, table, s.key(y));
    FitsIff(s, table, limit, s.key(y), n);
  }

  /** Fewer rows precede a page's last row than have been delivered with it. */
  lemma EarlierIsDelivered<T>(s: Sort<T>, table: set<T>, pages: seq<Page<T>>, n: nat, y: T)
    requires Walk(s, table, pages) && n < |pages| && TiesWithEndOf(s, pages, n, y)
    requires forall z :: z in table && z !in Delivered(pages) ==> !Before(s, z, y)
    ensures |Earlier(s, table, s.key(y))| < |Delivered(pages[..n + 1])|
  {
    var before, sofar := Earlier(s, table, s.key(y)), Delivered(pages[..n + 1]);
    var x := Last(pages[n].items);
    assert x in pages[n].items;
    forall z | z in before
      ensures z in sofar
    {
      NoLaterThan(s, table, pages, n, x, z);
    }
    DeliveredSoFar(pages, n + 1, n, x);
    assert x !in before;
    SubsetSize(before + {x}, Elements(sofar));
    ElementsCounted(sofar);
  }

  lemma NothingAfterTheEnd<T>(s: Sort<T>, items: seq<T>, z: T)
    requires Sorted(s, items) && z in items
    ensures !Before(s, Last(items), z)
  {
    var i :| 0 <= i < |items| && items[i] == z;
    assert i == |items| - 1 || !Before(s, items[|items| - 1], items[i]);
  }

  lemma NoneIsLater<T>(s: Sort<T>, table: set<T>, pages: seq<Page<T>>, n: nat, y: T, z: T)
    requires Walk(s, table, pages) && n < |pages| && TiesWithEndOf(s, pages, n, y)
    requires y in table && Past(s, CursorOf(pages, n), y) && z in Delivered(pages[..n + 1])
    ensures z in Earlier(s, table, s.key(y)) + Group(s, table, s.key(y)) && z in Delivered(pages)
  {
    DeliveredStep(pages, n);
    DeliveredBefore(s, table, pages, n, y);
    if z in pages[n].items {
      assert SoundAt(s, table, pages, n);
      NothingAfterTheEnd(s, pages[n].items, z);
    }
    DeliveredByAPage(pages[..n + 1], z);
    DeliveredByAPage(pages, z);
    var j :| 0 <= j < n + 1 && z in pages[..n + 1][j].items;
    assert z in pages[j].items;
  }

  /** A missed row that ties with the end of a page comes on top of what was delivered with that page. */
  lemma UpToTheEndOf<T>(s: Sort<T>, table: set<T>, pages: seq<Page<T>>, n: nat, y: T)
    requires Walk(s, table, pages) && n < |pages| && TiesWithEndOf(s, pages, n, y)
    requires y in table && Past(s, CursorOf(pages, n), y) && y !in Delivered(pages)
    ensures |Delivered(pages[..n + 1])| < |Earlier(s, table, s.key(y))| + |Group(s, table, s.key(y))|
  {
    var both, sofar := Earlier(s, table, s.key(y)) + Group(s, table, s.key(y)), Delivered(pages[..n + 1]);
    forall z | z in sofar
      ensures z in both - {y}
    {
      NoneIsLater(s, table, pages, n, y, z);
    }
    WalkPrefix(s, table, pages, n + 1);
    PagesAreDisjointAndOrdered(s, table, pages[..n + 1]);
    DistinctFit(sofar, both - {y});
    EarlierAndGroup(s, table, s.key(y));
    assert y in both;
  }

  /** A missed row ties with the end of a full page that could have held it. */
  lemma MissedFromAFullPage<T>(s: Sort<T>, table: set<T>, limit: nat, pages: seq<Page<T>>, y: T) returns (n: nat)
    requires Completed(s, table, pages) && y in table && y !in Delivered(pages)
    requires forall i :: 0 <= i < |pages| ==> AtLimit(s, table, CursorOf(pages, i), limit, pages[i])
    ensures n < |pages| && TiesWithEndOf(s, pages, n, y) && |pages[n].items| == limit && Past(s, CursorOf(pages, n), y)
  {
    MissedRowsTieWithAPageEnd(s, table, pages, y);
    n :| 0 <= n < |pages| && TiesWithEndOf(s, pages, n, y);
    assert SoundAt(s, table, pages, n);
    assert Last(pages[n].items) in pages[n].items;
    DeliveredByAPage(pages, y);
  }

  /** Whatever order the ties came in, the pages deliver the whole table exactly
      when every group of equal keys lies within one block of `limit` places. */
  lemma CompleteIffGroupsFit<T(!new)>(rule: Rule, s: Sort<T>, table: set<T>, limit: nat, pages: seq<Page<T>>)
    requires limit > 0 && ServedToTheEnd(rule, s, table, limit, pages)
    ensures Completed(s, table, pages)
    ensures (forall x :: x in table ==> x in Delivered(pages)) <==> GroupsFit(s, table, limit)
  {
    ServedIsAWalk(rule, s, table, limit, pages);
    if forall x :: x in table ==> x in Delivered(pages) {
      forall x | x in table
        ensures FitsAPage(s, table, limit, s.key(x))
      {
        var n := DeliveredPast(s, table, pages, x);
        DeliveredGroupFits(s, table, limit, pages, n, x);
      }
    } else {
      var missed := set x | x in table && x !in Delivered(pages);
      var x :| x in table && x !in Delivered(pages);
      assert x in missed;
      var y := FirstRowExists(s, missed);
      var n := MissedFromAFullPage(s, table, limit, pages, y);
      MissedGroupDoesNotFit(s, table, limit, pages, n, y);
    }
  }

  /** Every page but the last is full, none is longer, and what is delivered is in order
      and in the table, each row once. */
  lemma ServedPagesMeaning<T(!new)>(rule: Rule, s: Sort<T>, table: set<T>, limit: nat, pages: seq<Page<T>>)
    requires limit > 0 && ServedToTheEnd(rule, s, table, limit, pages)
    ensures Filled(pages, limit) && NoDuplicates(Delivered(pages)) && Sorted(s, Delivered(pages))
    ensures forall x :: x in Delivered(pages) ==> x in table
  {
    ServedIsAWalk(rule, s, table, limit, pages);
    PagesAreDisjointAndOrdered(s, table, pages);
    DeliveredUpToCursor(s, table, pages);
  }

  // ---------- the hypotheses can be met ----------

  /** Requesting page after page until there is no cursor comes to an end, under either rule. */
  lemma WalkHasCompletion<T(!new)>(rule: Rule, s: Sort<T>, table: set<T>, limit: nat, pages: seq<Page<T>>)
    returns (whole: seq<Page<T>>)
    requires limit > 0 && Served(rule, s, table, limit, pages) && (pages == [] || Last(pages).next.Some?)
    ensures ServedToTheEnd(rule, s, table, limit, whole)
    decreases |table| + 1 - |pages|
  {
    var rows := QueryHasResult(s, table, CursorOf(pages, |pages|), FetchLimit(rule, limit));
    whole := pages + [PageOf(rule, s, rows, limit)];
    forall i | 0 <= i < |whole|
      ensures ReturnedAt(rule, s, table, limit, whole, i)
    {
      assert CursorOf(whole, i) == CursorOf(pages, i);
      assert i < |pages| ==> ReturnedAt(rule, s, table, limit, pages, i);
    }
    ServedIsAWalk(rule, s, table, limit, whole);
    WalksAreBounded(s, table, whole);
    if Last(whole).next.Some? {
      whole := WalkHasCompletion(rule, s, table, limit, whole);
    }
  }

  /** The smallest failing tables: two rows of one key, pages of one row. The walk
      serves one of them and ends. */
  lemma TiedPairIsSplit<T(!new)>(rule: Rule, s: Sort<T>, x: T, y: T)
    requires x != y && s.key(x) == s.key(y) && s.key(x).Some?
    ensures var pages := [Page([x], s.key(x)), Page([], None)];
            ServedToTheEnd(rule, s, {x, y}, 1, pages) && y !in Delivered(pages)
  {
    var pages := [Page([x], s.key(x)), Page([], None)];
    var rows := if rule.WhenFull? then [x] else [x, y];
    assert QueryResult(s, {x, y}, None, FetchLimit(rule, 1), rows);
    assert PageOf(rule, s, rows, 1) == pages[0];
    assert ReturnedAt(rule, s, {x, y}, 1, pages, 0);
    assert QueryResult(s, {x, y}, s.key(x), FetchLimit(rule, 1), []);
    assert ReturnedAt(rule, s, {x, y}, 1, pages, 1);
    DeliveredByAPage(pages, y);
  }

  /** Two rows without a key, pages of one row: the first page already ends the walk. */
  lemma UnkeyedPairIsSplit<T(!new)>(s: Sort<T>, x: T, y: T)
    requires x != y && s.key(x).None? && s.key(y).None?
    ensures ServedToTheEnd(WhenFull, s, {x, y}, 1, [Page([x], None)]) && y !in Delivered([Page([x], None)])
  {
    var pages := [Page([x], None)];
    assert QueryResult(s, {x, y}, None, FetchLimit(WhenFull, 1), [x]);
    assert ReturnedAt(WhenFull, s, {x, y}, 1, pages, 0);
    DeliveredByAPage(pages, y);
  }
}
