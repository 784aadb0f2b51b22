/** The AI-picks channel: resolving suggested titles against the catalogue
    (`_channel_ai_picks`, backend/app/domains/discovery/service.py, and
    `find_book_by_title`, backend/app/domains/discovery/repository.py). */
module Picks {
  import opened Prelude
  import opened Discovery

  const SEARCH_LIMIT := 5

  datatype Suggestion = Suggestion(title: string, reason: string)

  /** A suggestion with the matches its own query finds, shortest title first; titles
      of one length may come in another order in the next query. */
  datatype Search = Search(suggestion: Suggestion, matches: seq<Book>)

  datatype Pick = Pick(book: Book, reason: string)

  function FirstOutside(books: seq<Book>, excluded: set<BookId>): Option<Book> {
    if books == [] then None
    else if books[0].id !in excluded then Some(books[0])
    else FirstOutside(books[1..], excluded)
  }

  /** The scan finds the earliest book that is not excluded, or there is none. */
  lemma {:induction false} FirstOutsideMeaning(books: seq<Book>, excluded: set<BookId>)
    ensures var r := FirstOutside(books, excluded);
            if r.None? then forall b :: b in books ==> b.id in excluded
            else exists i :: 0 <= i < |books| && books[i] == r.value && r.value.id !in excluded &&
                             forall j :: 0 <= j < i ==> books[j].id in excluded
  {
    if books != [] && books[0].id in excluded {
      FirstOutsideMeaning(books[1..], excluded);
      assert forall b :: b in books ==> b == books[0] || b in books[1..];
      assert forall i :: 0 <= i < |books| - 1 ==> books[1..][i] == books[i + 1];
      var r := FirstOutside(books[1..], excluded);
      if r.Some? {
        var i :| 0 <= i < |books| - 1 && books[1..][i] == r.value && r.value.id !in excluded &&
                 forall j :: 0 <= j < i ==> books[1..][j].id in excluded;
        forall j | 0 <= j < i + 1
          ensures books[j].id in excluded
        {
          if j > 0 { assert books[1..][j - 1] == books[j]; }
        }
        assert books[i + 1] == r.value;
      }
    }
  }

  /** The query reads five rows, tightest title first, before exclusions are looked at. */
  method FindBookByTitle(matches: seq<Book>, excluded: set<BookId>) returns (found: Option<Book>)
    ensures found == FirstOutside(Take(matches, SEARCH_LIMIT), excluded)
  {
    var rows := Take(matches, SEARCH_LIMIT);
    var i := 0;
    while i < |rows|
      invariant i <= |rows|
      invariant FirstOutside(rows, excluded) == FirstOutside(rows[i..], excluded)
    {
      if rows[i].id !in excluded {
        return Some(rows[i]);
      }
      assert rows[i..][1..] == rows[i + 1..];
      i := i + 1;
    }
    return None;
  }

  function PickedIds(picks: seq<Pick>): set<BookId> {
    set p | p in picks :: p.book.id
  }

  lemma PickedIdsGrow(picks: seq<Pick>, p: Pick)
    ensures PickedIds(picks + [p]) == PickedIds(picks) + {p.book.id}
  {
    assert forall q :: q in picks + [p] <==> q in picks || q == p;
  }

  /** The rows a search reads: all matches, or the first `depth` of them. */
  function RowsRead(matches: seq<Book>, depth: Option<nat>): seq<Book> {
    if depth.None? then matches else Take(matches, depth.value)
  }

  /** What one suggestion adds: the first row read that is not picked yet. */
  function PickFor(s: Search, depth: Option<nat>, picked: set<BookId>): seq<Pick> {
    match FirstOutside(RowsRead(s.matches, depth), picked)
    case None => []
    case Some(book) => [Pick(book, s.suggestion.reason)]
  }

  /** A full list takes no further suggestion. */
  predicate Full(picks: seq<Pick>, limit: nat) {
    picks != [] && |picks| >= limit
  }

  function Round(s: Search, limit: nat, depth: Option<nat>, picks: seq<Pick>): seq<Pick> {
    if Full(picks, limit) then picks else picks + PickFor(s, depth, PickedIds(picks))
  }

  /** The picks after a list of searches, when a search reads `depth` rows. */
  function PicksOf(searches: seq<Search>, limit: nat, depth: Option<nat>): seq<Pick> {
    if searches == [] then []
    else
      Round(searches[|searches| - 1], limit, depth, PicksOf(searches[..|searches| - 1], limit, depth))
  }

  const SEARCH := Some(SEARCH_LIMIT)

  lemma PicksStep(searches: seq<Search>, limit: nat, depth: Option<nat>, n: nat)
    requires n < |searches|
    ensures PicksOf(searches[..n + 1], limit, depth) ==
            Round(searches[n], limit, depth, PicksOf(searches[..n], limit, depth))
  {
    assert searches[..n + 1][..n] == searches[..n];
  }

  lemma {:induction false} StoppedPicks(searches: seq<Search>, limit: nat, depth: Option<nat>, n: nat)
    requires n <= |searches|
    requires Full(PicksOf(searches[..n], limit, depth), limit)
    ensures PicksOf(searches, limit, depth) == PicksOf(searches[..n], limit, depth)
    decreases |searches| - n
  {
    if n < |searches| {
      PicksStep(searches, limit, depth, n);
      StoppedPicks(searches, limit, depth, n + 1);
    } else {
      assert searches[..n] == searches;
    }
  }

  const TRENDING_REASON := "trending"

  function Trending(books: seq<Book>): seq<Pick> {
    seq(|books|, i requires 0 <= i < |books| => Pick(books[i], TRENDING_REASON))
  }

  /** One round: a hit is remembered in both the list and the set. */
  method PickNext(s: Search, limit: nat, items: seq<Pick>, matched: set<BookId>)
    returns (more: seq<Pick>, ids: set<BookId>)
    requires matched == PickedIds(items) && !Full(items, limit)
    ensures more == Round(s, limit, SEARCH, items) && ids == PickedIds(more)
  {
    more, ids := items, matched;
    var found := FindBookByTitle(s.matches, matched);
    if found.Some? {
      ids := matched + {found.value.id};
      more := items + [Pick(found.value, s.suggestion.reason)];
      PickedIdsGrow(items, Pick(found.value, s.suggestion.reason));
    }
  }

  /** The loop over the searches stops at the first hit that fills the limit. */
  method Resolve(searches: seq<Search>, limit: nat) returns (items: seq<Pick>)
    ensures items == PicksOf(searches, limit, SEARCH)
  {
    items := [];
    var matched: set<BookId> := {};
    for i := 0 to |searches|
      invariant items == PicksOf(searches[..i], limit, SEARCH) && matched == PickedIds(items)
      invariant !Full(items, limit)
    {
      items, matched := PickNext(searches[i], limit, items, matched);
      PicksStep(searches, limit, SEARCH, i);
      if Full(items, limit) {
        StoppedPicks(searches, limit, SEARCH, i + 1);
        return;
      }
    }
    assert searches[..|searches|] == searches;
  }

  /** Without an engine, a history or a single hit, the channel falls back to trending books. */
  method ChannelAiPicks(wired: bool, hasHistory: bool, searches: seq<Search>,
                        limit: nat, trending: seq<Book>) returns (answer: seq<Pick>)
    ensures var picks := PicksOf(searches, limit, SEARCH);
            answer == if !wired || !hasHistory || picks == [] then Trending(trending) else picks
  {
    if !wired || !hasHistory {
      return Trending(trending);
    }
    answer := Resolve(searches, limit);
    if answer == [] {
      answer := Trending(trending);
    }
  }

  // ---------- results ----------

  predicate DistinctPicks(picks: seq<Pick>) {
    forall i, j :: 0 <= i < j < |picks| ==> picks[i].book.id != picks[j].book.id
  }

  /** Every pick is a match of some search, with that suggestion's reason. */
  ghost predicate FromSearches(picks: seq<Pick>, searches: seq<Search>) {
    forall p :: p in picks ==> exists s :: s in searches && p.reason == s.suggestion.reason && p.book in s.matches
  }

  lemma MoreSearches(picks: seq<Pick>, front: seq<Search>, last: Search)
    requires FromSearches(picks, front)
    ensures FromSearches(picks, front + [last])
  {
    forall p | p in picks
      ensures exists s :: s in front + [last] && p.reason == s.suggestion.reason && p.book in s.matches
    {
      var s :| s in front && p.reason == s.suggestion.reason && p.book in s.matches;
      assert s in front + [last];
    }
  }

  lemma OneMorePick(before: seq<Pick>, pick: Pick, searches: seq<Search>, s: Search)
    requires DistinctPicks(before) && FromSearches(before, searches) && s in searches
    requires pick.reason == s.suggestion.reason && pick.book in s.matches
    requires forall i :: 0 <= i < |before| ==> before[i].book.id != pick.book.id
    ensures DistinctPicks(before + [pick]) && FromSearches(before + [pick], searches)
  {
    assert forall p :: p in before + [pick] ==> p in before || p == pick;
  }

  /** No book is picked twice; there are at most `limit` picks (one, for limit 0);
      and every pick is a match of a suggestion's search, with that suggestion's reason. */
  lemma {:induction false} PicksMeaning(searches: seq<Search>, limit: nat, depth: Option<nat>)
    ensures var picks := PicksOf(searches, limit, depth);
            && |picks| <= Max(limit, 1) && |picks| <= |searches|
            && DistinctPicks(picks) && FromSearches(picks, searches)
  {
    if searches != [] {
      var front, last := searches[..|searches| - 1], searches[|searches| - 1];
      assert searches == front + [last];
      PicksMeaning(front, limit, depth);
      var before, after := PicksOf(front, limit, depth), PicksOf(searches, limit, depth);
      MoreSearches(before, front, last);
      RoundMeaning(last, limit, depth, before);
      if after != before {
        assert after == before + [after[|before|]];
        OneMorePick(before, after[|before|], searches, last);
      }
    }
  }

  lemma MorePicks(searches: seq<Search>, limit: nat, depth: Option<nat>)
    requires searches != []
    ensures PicksOf(searches[..|searches| - 1], limit, depth) <= PicksOf(searches, limit, depth)
  {
  }

  /** A list that is not full left out no search: one of the rows it read is picked. */
  lemma {:induction false} PicksMissNothing(searches: seq<Search>, limit: nat, depth: Option<nat>, k: nat)
    requires k < |searches| && RowsRead(searches[k].matches, depth) != []
    requires |PicksOf(searches, limit, depth)| < Max(limit, 1)
    ensures exists p, b :: p in PicksOf(searches, limit, depth) && b in RowsRead(searches[k].matches, depth) && p.book.id == b.id
  {
    var front := searches[..|searches| - 1];
    MorePicks(searches, limit, depth);
    var before, picks := PicksOf(front, limit, depth), PicksOf(searches, limit, depth);
    if k < |front| {
      PicksMissNothing(front, limit, depth, k);
      var p, b :| p in before && b in RowsRead(searches[k].matches, depth) && p.book.id == b.id;
      assert p in picks;
    } else {
      var rows := RowsRead(searches[k].matches, depth);
      FirstOutsideMeaning(rows, PickedIds(before));
      var found := FirstOutside(rows, PickedIds(before));
      if found.Some? {
        assert picks[|before|] in picks && found.value in rows;
      } else {
        assert rows[0] in rows && rows[0].id in PickedIds(before);
        var p :| p in before && p.book.id == rows[0].id;
        assert p in picks;
      }
    }
  }

  /** One round adds nothing, or one match that was not picked before. */
  lemma RoundMeaning(s: Search, limit: nat, depth: Option<nat>, before: seq<Pick>)
    ensures var after := Round(s, limit, depth, before);
            after == before ||
            (!Full(before, limit) && |after| == |before| + 1 && after[..|before|] == before &&
             after[|before|].reason == s.suggestion.reason && after[|before|].book in s.matches &&
             forall i :: 0 <= i < |before| ==> before[i].book.id != after[|before|].book.id)
  {
    var after := Round(s, limit, depth, before);
    if after != before {
      var rows := RowsRead(s.matches, depth);
      FirstOutsideMeaning(rows, PickedIds(before));
      assert after[|before|].book in rows && after[|before|].book.id !in PickedIds(before);
      forall i | 0 <= i < |before|
        ensures before[i].book.id != after[|before|].book.id
      {
        assert before[i] in before;
      }
    }
  }

  /** Reading only five rows loses nothing exactly when one of them is free or no
      match at all is. */
  lemma SearchIsCompleteIff(matches: seq<Book>, excluded: set<BookId>)
    ensures FirstOutside(Take(matches, SEARCH_LIMIT), excluded) == FirstOutside(matches, excluded) <==>
            (exists b :: b in Take(matches, SEARCH_LIMIT) && b.id !in excluded) ||
            (forall b :: b in matches ==> b.id in excluded)
  {
    var rows := Take(matches, SEARCH_LIMIT);
    FirstOutsideMeaning(rows, excluded);
    FirstOutsideMeaning(matches, excluded);
    assert forall i :: 0 <= i < |rows| ==> rows[i] == matches[i];
    var near, far := FirstOutside(rows, excluded), FirstOutside(matches, excluded);
    if near.Some? && far.Some? {
      var i :| 0 <= i < |rows| && rows[i] == near.value && forall j :: 0 <= j < i ==> rows[j].id in excluded;
      var k :| 0 <= k < |matches| && matches[k] == far.value && forall j :: 0 <= j < k ==> matches[j].id in excluded;
      assert matches[i].id !in excluded && matches[k].id !in excluded;
      assert i == k;
    }
    if near.Some? {
      assert matches[0] == rows[0];
    }
  }

  /** With fewer than five books picked so far the search never misses a free match. */
  lemma SearchIsCompleteForFourPicks(matches: seq<Book>, excluded: set<BookId>)
    requires NoRepeats(matches) && |excluded| < SEARCH_LIMIT
    ensures FirstOutside(Take(matches, SEARCH_LIMIT), excluded) == FirstOutside(matches, excluded)
  {
    var rows := Take(matches, SEARCH_LIMIT);
    if forall b :: b in rows ==> b.id in excluded {
      DistinctBooksFit(rows, excluded);
      assert rows == matches;
    } else {
      SearchIsCompleteIff(matches, excluded);
    }
  }

  lemma DistinctBooksFit(books: seq<Book>, ids: set<BookId>)
    requires NoRepeats(books) && forall b :: b in books ==> b.id in ids
    ensures |books| <= |ids|
  {
    DistinctFit(seq(|books|, i requires 0 <= i < |books| => books[i].id), ids);
  }

  lemma PickedIdsFit(picks: seq<Pick>)
    ensures |PickedIds(picks)| <= |picks|
  {
    var ids := seq(|picks|, i requires 0 <= i < |picks| => picks[i].book.id);
    forall id | id in PickedIds(picks)
      ensures id in Elements(ids)
    {
      var i :| 0 <= i < |picks| && picks[i].book.id == id;
      assert ids[i] == id;
    }
    SubsetSize(PickedIds(picks), Elements(ids));
    ElementsCounted(ids);
  }

  /** A query returns a book once. */
  ghost predicate DistinctMatches(searches: seq<Search>) {
    forall i :: 0 <= i < |searches| ==> NoRepeats(searches[i].matches)
  }

  /** For up to five searches, or up to five picks wanted, the channel answers as
      if every search read all its matches, whatever and in whatever order they come. */
  lemma {:induction false} FiveRowsSuffice(searches: seq<Search>, limit: nat)
    requires DistinctMatches(searches) && (|searches| <= SEARCH_LIMIT || limit <= SEARCH_LIMIT)
    ensures PicksOf(searches, limit, SEARCH) == PicksOf(searches, limit, None)
  {
    if searches != [] {
      var front, last := searches[..|searches| - 1], searches[|searches| - 1];
      FiveRowsSuffice(front, limit);
      var before := PicksOf(front, limit, SEARCH);
      PicksMeaning(front, limit, SEARCH);
      if !Full(before, limit) {
        PickedIdsFit(before);
        SearchIsCompleteForFourPicks(last.matches, PickedIds(before));
      }
    }
  }

  // ---------- six searches for one title ----------

  const SIX: seq<Book> := seq(6, i requires 0 <= i < 6 => Book(i, "title"))

  function SameTitle(n: nat): seq<Search> {
    seq(n, _ => Search(Suggestion("title", ""), SIX))
  }

  /** The first `m` books of the list, picked. */
  function FirstPicks(m: nat): seq<Pick>
    requires m <= |SIX|
  {
    seq(m, i requires 0 <= i < m => Pick(SIX[i], ""))
  }

  lemma NextOfSix(m: nat, depth: nat)
    requires m <= depth <= |SIX|
    ensures FirstOutside(Take(SIX, depth), PickedIds(FirstPicks(m))) == if m < depth then Some(SIX[m]) else None
  {
    var rows, ids := Take(SIX, depth), PickedIds(FirstPicks(m));
    FirstOutsideMeaning(rows, ids);
    forall i | 0 <= i < depth
      ensures rows[i].id in ids <==> i < m
    {
      if i < m {
        assert FirstPicks(m)[i] in FirstPicks(m);
      }
    }
    if m < depth {
      assert rows[m] in rows;
    }
  }

  function RowsOfSix(depth: Option<nat>): nat {
    if depth.None? then 6 else Min(depth.value, 6)
  }

  lemma NextPick(m: nat, limit: nat, depth: Option<nat>)
    requires limit > SEARCH_LIMIT && m <= RowsOfSix(depth)
    ensures Round(Search(Suggestion("title", ""), SIX), limit, depth, FirstPicks(m)) ==
            FirstPicks(Min(m + 1, RowsOfSix(depth)))
  {
    NextOfSix(m, RowsOfSix(depth));
    assert RowsRead(SIX, depth) == Take(SIX, RowsOfSix(depth));
  }

  /** Asked for one title again and again, the channel picks the rows read one by one. */
  lemma {:induction false} SameTitlePicks(n: nat, limit: nat, depth: Option<nat>)
    requires limit > SEARCH_LIMIT
    ensures PicksOf(SameTitle(n), limit, depth) == FirstPicks(Min(n, RowsOfSix(depth)))
  {
    if n > 0 {
      SameTitlePicks(n - 1, limit, depth);
      assert SameTitle(n)[..n - 1] == SameTitle(n - 1);
      NextPick(Min(n - 1, RowsOfSix(depth)), limit, depth);
    }
  }

  /** With six searches and six picks wanted, the row limit can lose a book. */
  lemma SixthPickCanBeLost(n: nat, limit: nat)
    requires n > SEARCH_LIMIT && limit > SEARCH_LIMIT
    ensures DistinctMatches(SameTitle(n))
    ensures |PicksOf(SameTitle(n), limit, SEARCH)| == 5
    ensures |PicksOf(SameTitle(n), limit, None)| == 6
  {
    SameTitlePicks(n, limit, SEARCH);
    SameTitlePicks(n, limit, None);
  }

  /** Exactly when reading five rows before the exclusions is safe, whatever the queries return. */
  lemma FiveRowsSufficeIff(n: nat, limit: nat)
    ensures (forall searches :: DistinctMatches(searches) && |searches| == n ==>
               PicksOf(searches, limit, SEARCH) == PicksOf(searches, limit, None)) <==>
            n <= SEARCH_LIMIT || limit <= SEARCH_LIMIT
  {
    if n <= SEARCH_LIMIT || limit <= SEARCH_LIMIT {
      forall searches | DistinctMatches(searches) && |searches| == n
        ensures PicksOf(searches, limit, SEARCH) == PicksOf(searches, limit, None)
      {
        FiveRowsSuffice(searches, limit);
      }
    } else {
      SixthPickCanBeLost(n, limit);
    }
  }
}
