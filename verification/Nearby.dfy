/** Proximity search with numbered pages (`get_nearby_events`,
    backend/app/domains/event/service.py). The distance of a candidate is a given
    number; events without coordinates are skipped. Every page is a request of its
    own, which queries again, and the query has no ORDER BY: events at one distance
    may come in a different order on every request. */
module Nearby {
  import opened Prelude
  import opened Sorting

  const PAGE_SIZE: nat := 20

  /** A candidate of the bounding-box query; `distance` is absent without coordinates. */
  datatype Candidate = Candidate(id: nat, distance: Option<real>)

  predicate Within(c: Candidate, radius: real) {
    c.distance.Some? && c.distance.value <= radius
  }

  function Inside(candidates: seq<Candidate>, radius: real): seq<Candidate> {
    if candidates == [] then []
    else
      var front, last := Inside(candidates[..|candidates| - 1], radius), candidates[|candidates| - 1];
      if Within(last, radius) then front + [last] else front
  }

  function Distance(): Candidate -> real {
    (c: Candidate) => if c.distance.Some? then c.distance.value else 0.0
  }

  /** Everything within the radius, nearest first, ties in candidate order. */
  function Nearest(candidates: seq<Candidate>, radius: real): seq<Candidate> {
    SortedBy(Distance(), Inside(candidates, radius))
  }

  /** A Python slice with non-negative bounds. */
  function Slice<T>(s: seq<T>, lo: nat, hi: nat): seq<T>
    requires lo <= hi
  {
    if |s| <= lo then [] else Take(s, hi)[lo..]
  }

  datatype Page = Page(items: seq<Candidate>, page: int, hasMore: bool)

  /** What page number `n` of a result list holds. */
  function PageOf(within: seq<Candidate>, n: int): Page
    requires n >= 1
  {
    var offset := (n - 1) * PAGE_SIZE;
    Page(Slice(within, offset, offset + PAGE_SIZE), n, |within| > offset + PAGE_SIZE)
  }

  method GetNearbyEvents(candidates: seq<Candidate>, radius: real, page: int) returns (answer: Page)
    ensures answer == PageOf(Nearest(candidates, radius), Max(page, 1))
  {
    var n := page;
    if n < 1 {
      n := 1;
    }
    var within: seq<Candidate> := [];
    var i := 0;
    while i < |candidates|
      invariant i <= |candidates|
      invariant within == Inside(candidates[..i], radius)
    {
      assert candidates[..i + 1][..i] == candidates[..i];
      if candidates[i].distance.Some? {
        if candidates[i].distance.value <= radius {
          within := within + [candidates[i]];
        }
      }
      i := i + 1;
    }
    assert candidates[..|candidates|] == candidates;
    within := SortedBy(Distance(), within);
    var offset := (n - 1) * PAGE_SIZE;
    answer := Page(Slice(within, offset, offset + PAGE_SIZE), n, |within| > offset + PAGE_SIZE);
  }

  lemma {:induction false} InsideCounted(candidates: seq<Candidate>, radius: real, c: Candidate)
    ensures multiset(Inside(candidates, radius))[c] == if Within(c, radius) then multiset(candidates)[c] else 0
  {
    if candidates != [] {
      assert candidates == candidates[..|candidates| - 1] + [candidates[|candidates| - 1]];
      InsideCounted(candidates[..|candidates| - 1], radius, c);
    }
  }

  /** The list behind the pages: exactly the candidates within the radius, each as
      often as the query returned it, in order of distance, equal distances in query order. */
  lemma NearestMeaning(candidates: seq<Candidate>, radius: real, c: Candidate, d: real)
    ensures multiset(Nearest(candidates, radius))[c] ==
            if c.distance.Some? && c.distance.value <= radius then multiset(candidates)[c] else 0
    ensures Ordered(Distance(), Nearest(candidates, radius))
    ensures WithKey(Distance(), Nearest(candidates, radius), d) == WithKey(Distance(), Inside(candidates, radius), d)
  {
    InsideCounted(candidates, radius, c);
    SortIsStable(Distance(), Inside(candidates, radius), d);
  }

  // ---------- one query per page ----------

  /** What the query may return for a table: its rows, each once, in any order. */
  ghost predicate IsResult(table: set<Candidate>, rows: seq<Candidate>) {
    NoDuplicates(rows) && forall c :: c in rows <==> c in table
  }

  function InsideSet(table: set<Candidate>, radius: real): set<Candidate> {
    set c | c in table && c.distance.Some? && c.distance.value <= radius
  }

  lemma NearestCounted(table: set<Candidate>, rows: seq<Candidate>, radius: real, c: Candidate)
    requires IsResult(table, rows)
    ensures multiset(Nearest(rows, radius))[c] == if c in InsideSet(table, radius) then 1 else 0
  {
    NearestMeaning(rows, radius, c, 0.0);
    DistinctCounted(rows, c);
  }

  lemma NearestListsInside(table: set<Candidate>, rows: seq<Candidate>, radius: real)
    requires IsResult(table, rows)
    ensures IsResult(InsideSet(table, radius), Nearest(rows, radius))
    ensures Ordered(Distance(), Nearest(rows, radius)) && |Nearest(rows, radius)| == |InsideSet(table, radius)|
  {
    var near, inside := Nearest(rows, radius), InsideSet(table, radius);
    SortIsStable(Distance(), Inside(rows, radius), 0.0);
    forall c | true
      ensures multiset(near)[c] == if c in inside then 1 else 0
      ensures c in near <==> c in inside
    {
      NearestCounted(table, rows, radius, c);
      assert c in near <==> c in multiset(near);
    }
    CountedIsDistinct(near);
    assert Elements(near) == inside;
    ElementsCounted(near);
  }

  /** The page that request number `i`, counted from 0, receives. */
  function Received(orders: seq<seq<Candidate>>, radius: real, i: nat): Page
    requires i < |orders|
  {
    PageOf(Nearest(orders[i], radius), i + 1)
  }

  function Joined<T>(pages: seq<seq<T>>): seq<T> {
    if pages == [] then [] else Joined(pages[..|pages| - 1]) + pages[|pages| - 1]
  }

  /** What all requests receive, one after another. */
  function Served(orders: seq<seq<Candidate>>, radius: real): seq<Candidate> {
    Joined(seq(|orders|, i requires 0 <= i < |orders| => Received(orders, radius, i).items))
  }

  ghost predicate Results(table: set<Candidate>, orders: seq<seq<Candidate>>) {
    forall i :: 0 <= i < |orders| ==> IsResult(table, orders[i])
  }

  /** A client asks for page after page until has_more is false. */
  ghost predicate Walk(table: set<Candidate>, radius: real, orders: seq<seq<Candidate>>) {
    && Results(table, orders) && orders != []
    && (forall i :: 0 <= i < |orders| ==> (Received(orders, radius, i).hasMore <==> i < |orders| - 1))
  }

  /** has_more of page n is false exactly when n pages have room for everything
      within the radius, whatever order the rows came in. */
  lemma HasMoreIsExact(table: set<Candidate>, rows: seq<Candidate>, radius: real, n: nat)
    requires n >= 1 && IsResult(table, rows)
    ensures !PageOf(Nearest(rows, radius), n).hasMore <==> n * PAGE_SIZE >= |InsideSet(table, radius)|
  {
    NearestListsInside(table, rows, radius);
    assert (n - 1) * PAGE_SIZE + PAGE_SIZE == n * PAGE_SIZE;
  }

  lemma SliceAt<T>(s: seq<T>, lo: nat, hi: nat)
    requires lo <= hi
    ensures |Slice(s, lo, hi)| == Max(0, Min(|s|, hi) - lo)
    ensures forall i :: 0 <= i < |Slice(s, lo, hi)| ==> Slice(s, lo, hi)[i] == s[lo + i]
  {
  }

  /** What one request contributes. */
  lemma ReceivedItems(table: set<Candidate>, orders: seq<seq<Candidate>>, radius: real, i: nat)
    requires Results(table, orders) && i < |orders|
    ensures |Nearest(orders[i], radius)| == |InsideSet(table, radius)|
    ensures var items, near := Received(orders, radius, i).items, Nearest(orders[i], radius);
            |items| == Max(0, Min(|near|, 20 * i + 20) - 20 * i) &&
            forall j :: 0 <= j < |items| ==> items[j] == near[20 * i + j]
  {
    NearestListsInside(table, orders[i], radius);
    SliceAt(Nearest(orders[i], radius), 20 * i, 20 * i + 20);
  }

  /** Pages that cut `total` places into twenties. */
  ghost predicate Cut<T>(pages: seq<seq<T>>, total: nat) {
    forall i :: 0 <= i < |pages| ==> |pages[i]| == Max(0, Min(total, 20 * i + 20) - 20 * i)
  }

  lemma {:induction false} JoinedLength<T>(pages: seq<seq<T>>, total: nat)
    requires Cut(pages, total)
    ensures |Joined(pages)| == Min(20 * |pages|, total)
  {
    if pages != [] {
      JoinedLength(pages[..|pages| - 1], total);
    }
  }

  lemma {:induction false} JoinedAt<T>(pages: seq<seq<T>>, total: nat, p: nat)
    requires Cut(pages, total) && p < |Joined(pages)|
    ensures p / 20 < |pages| && p % 20 < |pages[p / 20]| && Joined(pages)[p] == pages[p / 20][p % 20]
  {
    var n := |pages| - 1;
    JoinedLength(pages, total);
    JoinedLength(pages[..n], total);
    if p < |Joined(pages[..n])| {
      JoinedAt(pages[..n], total, p);
    } else {
      assert p / 20 == n;
    }
  }

  lemma ServedIsCut(table: set<Candidate>, orders: seq<seq<Candidate>>, radius: real)
    requires Results(table, orders)
    ensures var pages := seq(|orders|, i requires 0 <= i < |orders| => Received(orders, radius, i).items);
            Cut(pages, |InsideSet(table, radius)|)
    ensures |Served(orders, radius)| == Min(20 * |orders|, |InsideSet(table, radius)|)
  {
    var pages := seq(|orders|, i requires 0 <= i < |orders| => Received(orders, radius, i).items);
    forall i | 0 <= i < |pages|
      ensures |pages[i]| == Max(0, Min(|InsideSet(table, radius)|, 20 * i + 20) - 20 * i)
    {
      ReceivedItems(table, orders, radius, i);
    }
    JoinedLength(pages, |InsideSet(table, radius)|);
  }

  /** Place p is served from the listing of the request whose page holds it. */
  lemma ServedAt(table: set<Candidate>, orders: seq<seq<Candidate>>, radius: real, p: nat)
    requires Results(table, orders) && p < |Served(orders, radius)|
    ensures p / 20 < |orders| && p < |Nearest(orders[p / 20], radius)|
    ensures Served(orders, radius)[p] == Nearest(orders[p / 20], radius)[p]
  {
    ServedIsCut(table, orders, radius);
    JoinedAt(seq(|orders|, i requires 0 <= i < |orders| => Received(orders, radius, i).items), |InsideSet(table, radius)|, p);
    ReceivedItems(table, orders, radius, p / 20);
    assert 20 * (p / 20) + p % 20 == p;
  }

  /** When every request sees the rows in one order, the pages are the beginning of one list. */
  lemma PagesConcatenate(table: set<Candidate>, rows: seq<Candidate>, radius: real, n: nat)
    requires IsResult(table, rows)
    ensures Served(seq(n, _ => rows), radius) == Take(Nearest(rows, radius), 20 * n)
  {
    var orders := seq(n, _ => rows);
    ServedIsCut(table, orders, radius);
    NearestListsInside(table, rows, radius);
    forall p | 0 <= p < |Served(orders, radius)|
      ensures Served(orders, radius)[p] == Nearest(rows, radius)[p]
    {
      ServedAt(table, orders, radius, p);
    }
  }

  // ---------- places and distances ----------

  function Closer(table: set<Candidate>, radius: real, d: real): set<Candidate> {
    set c | c in InsideSet(table, radius) && c.distance.value < d
  }

  /** Everything within the radius at this very distance. */
  function Ring(table: set<Candidate>, radius: real, d: real): set<Candidate> {
    set c | c in InsideSet(table, radius) && c.distance.value == d
  }

  lemma NoFurther(table: set<Candidate>, radius: real, d: real, e: real)
    requires d < e
    ensures |Closer(table, radius, d)| + |Ring(table, radius, d)| <= |Closer(table, radius, e)|
  {
    assert Closer(table, radius, d) !! Ring(table, radius, d);
    SubsetSize(Closer(table, radius, d) + Ring(table, radius, d), Closer(table, radius, e));
  }

  lemma BeginsAfterCloser(table: set<Candidate>, radius: real, near: seq<Candidate>, p: nat)
    requires IsResult(InsideSet(table, radius), near) && Ordered(Distance(), near) && p < |near|
    ensures |Closer(table, radius, Distance()(near[p]))| <= p
  {
    var closer := Closer(table, radius, Distance()(near[p]));
    forall c | c in closer
      ensures c in near[..p]
    {
      assert c in near;
      var i :| 0 <= i < |near| && near[i] == c;
      assert i < p;
      assert near[..p][i] == c;
    }
    SubsetSize(closer, Elements(near[..p]));
    ElementsCounted(near[..p]);
  }

  lemma EndsWithinRing(table: set<Candidate>, radius: real, near: seq<Candidate>, p: nat)
    requires IsResult(InsideSet(table, radius), near) && Ordered(Distance(), near) && p < |near|
    ensures var d := Distance()(near[p]); p < |Closer(table, radius, d)| + |Ring(table, radius, d)|
  {
    var d := Distance()(near[p]);
    var both := Closer(table, radius, d) + Ring(table, radius, d);
    assert Closer(table, radius, d) !! Ring(table, radius, d);
    forall c | c in near[..p + 1]
      ensures c in both
    {
      var i :| 0 <= i < p + 1 && near[i] == c;
      assert c in near;
    }
    DistinctFit(near[..p + 1], both);
  }

  /** In any listing, place p holds a candidate of distance d exactly when p lies
      between the number of closer ones and the number of no further ones. */
  lemma DistanceAtPlace(table: set<Candidate>, radius: real, near: seq<Candidate>, p: nat, d: real)
    requires IsResult(InsideSet(table, radius), near) && Ordered(Distance(), near) && p < |near|
    ensures Distance()(near[p]) == d <==>
            |Closer(table, radius, d)| <= p < |Closer(table, radius, d)| + |Ring(table, radius, d)|
  {
    var e := Distance()(near[p]);
    BeginsAfterCloser(table, radius, near, p);
    EndsWithinRing(table, radius, near, p);
    if e < d {
      NoFurther(table, radius, e, d);
    } else if d < e {
      NoFurther(table, radius, d, e);
    }
  }

  // ---------- what the pages deliver ----------

  /** Whatever the orders, a walk delivers as many entries as there are events within
      the radius, all of them such events, nearest first across its pages. */
  lemma WalksAreOrdered(table: set<Candidate>, radius: real, orders: seq<seq<Candidate>>)
    requires Walk(table, radius, orders)
    ensures var served := Served(orders, radius);
            && |served| == |InsideSet(table, radius)| && Ordered(Distance(), served)
            && (forall c :: c in served ==> c in table && c.distance.Some? && c.distance.value <= radius)
            && (forall i, j :: 0 <= i < j < |served| ==> served[i].distance.value <= served[j].distance.value)
  {
    var n, served := |orders|, Served(orders, radius);
    assert IsResult(table, orders[n - 1]);
    HasMoreIsExact(table, orders[n - 1], radius, n);
    assert !Received(orders, radius, n - 1).hasMore;
    ServedIsCut(table, orders, radius);
    forall p | 0 <= p < |served|
      ensures served[p] in InsideSet(table, radius)
    {
      ServedAt(table, orders, radius, p);
      NearestListsInside(table, orders[p / 20], radius);
      assert served[p] in Nearest(orders[p / 20], radius);
    }
    forall p, r | 0 <= p < r < |served|
      ensures Distance()(served[p]) <= Distance()(served[r])
    {
      PlacesInOrder(table, radius, orders, p, r);
    }
  }

  lemma PlacesInOrder(table: set<Candidate>, radius: real, orders: seq<seq<Candidate>>, p: nat, r: nat)
    requires Results(table, orders) && p < r < |Served(orders, radius)|
    ensures Distance()(Served(orders, radius)[p]) <= Distance()(Served(orders, radius)[r])
  {
    ServedPlace(table, radius, orders, p);
    ServedPlace(table, radius, orders, r);
    var served := Served(orders, radius);
    var d, e := Distance()(served[p]), Distance()(served[r]);
    if e < d {
      NoFurther(table, radius, e, d);
    }
  }

  /** The number of closer events and the number of no further ones enclose the place
      at which an event is served. */
  lemma ServedPlace(table: set<Candidate>, radius: real, orders: seq<seq<Candidate>>, p: nat)
    requires Results(table, orders) && p < |Served(orders, radius)|
    ensures var c := Served(orders, radius)[p]; var d := Distance()(c);
            c in InsideSet(table, radius) &&
            |Closer(table, radius, d)| <= p < |Closer(table, radius, d)| + |Ring(table, radius, d)|
  {
    ServedAt(table, orders, radius, p);
    var near := Nearest(orders[p / 20], radius);
    NearestListsInside(table, orders[p / 20], radius);
    assert near[p] in near;
    BeginsAfterCloser(table, radius, near, p);
    EndsWithinRing(table, radius, near, p);
  }

  /** The places of this distance all belong to one page. */
  predicate RingFits(table: set<Candidate>, radius: real, d: real) {
    var closer, level := |Closer(table, radius, d)|, |Ring(table, radius, d)|;
    closer / 20 == (closer + level - 1) / 20
  }

  ghost predicate RingsFit(table: set<Candidate>, radius: real) {
    forall c :: c in InsideSet(table, radius) ==> RingFits(table, radius, c.distance.value)
  }

  /** The pages of a walk hold every event within the radius exactly once. */
  ghost predicate DeliversOnce(table: set<Candidate>, radius: real, orders: seq<seq<Candidate>>) {
    IsResult(InsideSet(table, radius), Served(orders, radius))
  }

  lemma FittingRingsAreServedOnce(table: set<Candidate>, radius: real, orders: seq<seq<Candidate>>, p: nat, r: nat)
    requires Results(table, orders) && RingsFit(table, radius) && p < r < |Served(orders, radius)|
    ensures Served(orders, radius)[p] != Served(orders, radius)[r]
  {
    var c := Served(orders, radius)[p];
    if Served(orders, radius)[r] == c {
      ServedPlace(table, radius, orders, p);
      ServedPlace(table, radius, orders, r);
      SamePage(table, radius, c.distance.value, p, r);
      ServedAt(table, orders, radius, p);
      ServedAt(table, orders, radius, r);
      NearestListsInside(table, orders[p / 20], radius);
    }
  }

  lemma SamePage(table: set<Candidate>, radius: real, d: real, p: nat, r: nat)
    requires RingFits(table, radius, d)
    requires |Closer(table, radius, d)| <= p <= r < |Closer(table, radius, d)| + |Ring(table, radius, d)|
    ensures p / 20 == r / 20
  {
  }

  lemma FittingRingsDeliverOnce(table: set<Candidate>, radius: real, orders: seq<seq<Candidate>>)
    requires Walk(table, radius, orders) && RingsFit(table, radius)
    ensures DeliversOnce(table, radius, orders)
  {
    var served, inside := Served(orders, radius), InsideSet(table, radius);
    WalksAreOrdered(table, radius, orders);
    forall p, r | 0 <= p < r < |served|
      ensures served[p] != served[r]
    {
      FittingRingsAreServedOnce(table, radius, orders, p, r);
    }
    ElementsCounted(served);
    FullSubset(Elements(served), inside);
    forall c | true
      ensures c in served <==> c in inside
    {
      assert c in served <==> c in Elements(served);
    }
  }

  // ---------- a ring across a page boundary ----------

  lemma {:induction false} SomeOrder(table: set<Candidate>) returns (rows: seq<Candidate>)
    ensures IsResult(table, rows)
  {
    rows := [];
    if table != {} {
      var c :| c in table;
      var rest := SomeOrder(table - {c});
      rows := rest + [c];
    }
  }

  lemma {:induction false} InsideOfAppend(near: seq<Candidate>, rest: seq<Candidate>, radius: real)
    requires (forall c :: c in near ==> Within(c, radius)) && (forall c :: c in rest ==> !Within(c, radius))
    ensures Inside(near + rest, radius) == near
  {
    if rest != [] {
      assert (near + rest)[..|near + rest| - 1] == near + rest[..|rest| - 1];
      InsideOfAppend(near, rest[..|rest| - 1], radius);
    } else if near != [] {
      assert near + rest == near && near[..|near| - 1] + [] == near[..|near| - 1];
      InsideOfAppend(near[..|near| - 1], [], radius);
    }
  }

  /** Every listing in order of distance is the listing of some query result. */
  lemma ListingIsPossible(table: set<Candidate>, radius: real, near: seq<Candidate>, rest: seq<Candidate>)
    requires IsResult(InsideSet(table, radius), near) && Ordered(Distance(), near)
    requires IsResult(table - InsideSet(table, radius), rest)
    ensures IsResult(table, near + rest) && Nearest(near + rest, radius) == near
  {
    InsideOfAppend(near, rest, radius);
    SortedByKeepsOrder(Distance(), near);
    var rows := near + rest;
    forall c | true
      ensures c in rows <==> c in table
    {
    }
    forall i, j | 0 <= i < j < |rows|
      ensures rows[i] != rows[j]
    {
      if i < |near| && j >= |near| {
        assert rows[i] in near && rows[j] in rest;
      }
    }
  }

  function Swapped(near: seq<Candidate>, b: nat): seq<Candidate>
    requires 0 < b < |near|
  {
    near[b - 1 := near[b]][b := near[b - 1]]
  }

  lemma SwapIsPossible(inside: set<Candidate>, near: seq<Candidate>, b: nat)
    requires IsResult(inside, near) && Ordered(Distance(), near)
    requires 0 < b < |near| && Distance()(near[b - 1]) == Distance()(near[b])
    ensures IsResult(inside, Swapped(near, b)) && Ordered(Distance(), Swapped(near, b))
  {
    var swapped := Swapped(near, b);
    forall c | true
      ensures c in swapped <==> c in near
    {
      if c in near {
        var i :| 0 <= i < |near| && near[i] == c;
        assert swapped[if i == b then b - 1 else if i == b - 1 then b else i] == c;
      }
    }
  }

  /** Two listings that differ by a swap at a page boundary, served on the two sides of it. */
  lemma SwapRepeats(table: set<Candidate>, radius: real, near: seq<Candidate>, k: nat, orders: seq<seq<Candidate>>)
    requires Results(table, orders) && 0 < k < |orders| && 20 * k < |near| == |Served(orders, radius)|
    requires Nearest(orders[k - 1], radius) == near && Nearest(orders[k], radius) == Swapped(near, 20 * k)
    ensures !NoDuplicates(Served(orders, radius))
  {
    assert (20 * k) / 20 == k && (20 * k - 1) / 20 == k - 1;
    ServedAt(table, orders, radius, 20 * k - 1);
    ServedAt(table, orders, radius, 20 * k);
  }

  lemma SwapOrders(table: set<Candidate>, radius: real, near: seq<Candidate>, k: nat, n: nat)
    returns (orders: seq<seq<Candidate>>)
    requires IsResult(InsideSet(table, radius), near) && Ordered(Distance(), near)
    requires 0 < k < n && 20 * k < |near| && Distance()(near[20 * k - 1]) == Distance()(near[20 * k])
    ensures |orders| == n && Results(table, orders)
    ensures Nearest(orders[k - 1], radius) == near && Nearest(orders[k], radius) == Swapped(near, 20 * k)
  {
    var rest := SomeOrder(table - InsideSet(table, radius));
    var plain, changed := near + rest, Swapped(near, 20 * k) + rest;
    ListingIsPossible(table, radius, near, rest);
    SwapIsPossible(InsideSet(table, radius), near, 20 * k);
    ListingIsPossible(table, radius, Swapped(near, 20 * k), rest);
    orders := seq(n, i => if i == k then changed else plain);
  }

  /** Requests of the right number form a walk. */
  lemma LengthMakesAWalk(table: set<Candidate>, radius: real, orders: seq<seq<Candidate>>)
    requires Results(table, orders) && orders != []
    requires 20 * |orders| >= |InsideSet(table, radius)| > 20 * (|orders| - 1)
    ensures Walk(table, radius, orders)
  {
    forall i | 0 <= i < |orders|
      ensures Received(orders, radius, i).hasMore <==> i < |orders| - 1
    {
      HasMoreIsExact(table, orders[i], radius, i + 1);
    }
  }

  lemma RingIsInside(table: set<Candidate>, radius: real, d: real)
    ensures |Closer(table, radius, d)| + |Ring(table, radius, d)| <= |InsideSet(table, radius)|
  {
    assert Closer(table, radius, d) !! Ring(table, radius, d);
    SubsetSize(Closer(table, radius, d) + Ring(table, radius, d), InsideSet(table, radius));
  }

  lemma SplitPlace(table: set<Candidate>, radius: real, near: seq<Candidate>, d: real) returns (k: nat)
    requires IsResult(InsideSet(table, radius), near) && Ordered(Distance(), near) && |near| == |InsideSet(table, radius)|
    requires Ring(table, radius, d) != {} && !RingFits(table, radius, d)
    ensures 0 < k && 20 * k < |near| && Distance()(near[20 * k - 1]) == Distance()(near[20 * k])
  {
    RingIsInside(table, radius, d);
    var closer, level := |Closer(table, radius, d)|, |Ring(table, radius, d)|;
    k := closer / 20 + 1;
    assert closer < 20 * k < closer + level;
    DistanceAtPlace(table, radius, near, 20 * k - 1, d);
    DistanceAtPlace(table, radius, near, 20 * k, d);
  }

  lemma SplitRingCanRepeat(table: set<Candidate>, radius: real, d: real) returns (orders: seq<seq<Candidate>>)
    requires Ring(table, radius, d) != {} && !RingFits(table, radius, d)
    ensures Walk(table, radius, orders) && !DeliversOnce(table, radius, orders)
  {
    var rows := SomeOrder(table);
    NearestListsInside(table, rows, radius);
    var near := Nearest(rows, radius);
    var k := SplitPlace(table, radius, near, d);
    orders := SwapOrders(table, radius, near, k, (|near| - 1) / 20 + 1);
    LengthMakesAWalk(table, radius, orders);
    ServedIsCut(table, orders, radius);
    SwapRepeats(table, radius, near, k, orders);
  }

  /** Exactly when the numbered pages are exact: following them delivers every event
      within the radius once, for every choice of row orders, iff no group of events
      at one distance spans two blocks of twenty places. */
  lemma PagesAreExactIff(table: set<Candidate>, radius: real)
    ensures (forall orders :: Walk(table, radius, orders) ==> DeliversOnce(table, radius, orders)) <==>
            RingsFit(table, radius)
  {
    if RingsFit(table, radius) {
      forall orders | Walk(table, radius, orders)
        ensures DeliversOnce(table, radius, orders)
      {
        FittingRingsDeliverOnce(table, radius, orders);
      }
    } else {
      var c :| c in InsideSet(table, radius) && !RingFits(table, radius, c.distance.value);
      assert c in Ring(table, radius, c.distance.value);
      var orders := SplitRingCanRepeat(table, radius, c.distance.value);
    }
  }

  // ---------- twenty-one events at one venue ----------

  function AtVenue(i: nat): Candidate {
    Candidate(i, Some(0.0))
  }

  const VENUE: seq<Candidate> := seq(21, i requires 0 <= i < 21 => AtVenue(i))
  const VENUE_ROTATED: seq<Candidate> := [AtVenue(20)] + seq(20, i requires 0 <= i < 20 => AtVenue(i))

  lemma SameEvents(c: Candidate)
    ensures c in VENUE <==> c == AtVenue(c.id) && c.id < 21
    ensures c in VENUE_ROTATED <==> c == AtVenue(c.id) && c.id < 21
  {
    if c == AtVenue(c.id) && c.id < 21 {
      assert VENUE[c.id] == c && VENUE_ROTATED[(c.id + 1) % 21] == c;
    }
  }

  /** At one distance every row order is a listing. */
  lemma AnyOrderIsNearest(table: set<Candidate>, rows: seq<Candidate>, radius: real, d: real)
    requires IsResult(table, rows) && d <= radius && forall c :: c in rows ==> c.distance == Some(d)
    ensures InsideSet(table, radius) == table && Nearest(rows, radius) == rows
  {
    assert InsideSet(table, radius) == table;
    assert rows + [] == rows;
    ListingIsPossible(table, radius, rows, []);
  }

  lemma VenueResults(table: set<Candidate>)
    requires table == Elements(VENUE)
    ensures IsResult(table, VENUE) && IsResult(table, VENUE_ROTATED)
  {
    forall c | true
      ensures c in VENUE <==> c in VENUE_ROTATED
    {
      SameEvents(c);
    }
  }

  lemma VenueOrders(table: set<Candidate>)
    requires table == Elements(VENUE)
    ensures IsResult(table, VENUE) && IsResult(table, VENUE_ROTATED) && table == InsideSet(table, 5.0)
    ensures Nearest(VENUE, 5.0) == VENUE && Nearest(VENUE_ROTATED, 5.0) == VENUE_ROTATED
  {
    VenueResults(table);
    AnyOrderIsNearest(table, VENUE, 5.0, 0.0);
    AnyOrderIsNearest(table, VENUE_ROTATED, 5.0, 0.0);
  }

  /** The first page from one order, the second from another: event 19 comes twice,
      event 20 never, and the second page says that there is no more. */
  lemma TiedEventsCanBeSkipped()
    ensures var table, orders := Elements(VENUE), [VENUE, VENUE_ROTATED];
            Walk(table, 5.0, orders) &&
            |Served(orders, 5.0)| == 21 && Served(orders, 5.0)[19..] == [AtVenue(19), AtVenue(19)] &&
            AtVenue(20) !in Served(orders, 5.0)
  {
    var table, orders := Elements(VENUE), [VENUE, VENUE_ROTATED];
    VenueOrders(table);
    NearestListsInside(table, VENUE, 5.0);
    LengthMakesAWalk(table, 5.0, orders);
    ServedIsCut(table, orders, 5.0);
    var served := Served(orders, 5.0);
    forall p | 0 <= p < 21
      ensures served[p] == AtVenue(if p == 20 then 19 else p)
    {
      ServedAt(table, orders, 5.0, p);
      assert p / 20 == if p == 20 then 1 else 0;
    }
  }
}
