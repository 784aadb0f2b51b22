/** Merging book lists without repetition: the genre query with its pushed-down
    limit and early break (backend/app/domains/discovery/repository.py) and the
    rule-based mix (backend/app/domains/discovery/service.py). */
module Discovery {
  import opened Prelude

  type BookId = nat

  /** A candidate book; `tag` is the matched genre or the reason shown to the reader. */
  datatype Item = Item(id: BookId, title: string, tag: string)

  predicate HasId(items: seq<Item>, id: BookId) {
    exists i :: 0 <= i < |items| && items[i].id == id
  }

  /** `items` followed by those of `more` whose id is new, each id once. */
  function Extended(items: seq<Item>, more: seq<Item>): seq<Item> {
    if more == [] then items
    else
      var front, last := Extended(items, more[..|more| - 1]), more[|more| - 1];
      if HasId(front, last.id) then front else front + [last]
  }

  /** The first occurrence of every id, in order. */
  function FirstOccurrences(items: seq<Item>): seq<Item> {
    Extended([], items)
  }

  ghost predicate DistinctIds(items: seq<Item>) {
    forall i, j :: 0 <= i < j < |items| ==> items[i].id != items[j].id
  }

  // ---------- the code ----------

  datatype Book = Book(id: BookId, title: string)

  function Tagged(books: seq<Book>, tag: string): seq<Item> {
    seq(|books|, i requires 0 <= i < |books| => Item(books[i].id, books[i].title, tag))
  }

  /** The books of a genre outside the reader's library, newest first. */
  function BooksOf(catalogue: map<string, seq<Book>>, genre: string): seq<Book> {
    if genre in catalogue then catalogue[genre] else []
  }

  /** The candidates of the first `n` genres, genre by genre, with no limit. */
  function Candidates(catalogue: map<string, seq<Book>>, genres: seq<string>, n: nat): seq<Item>
    requires n <= |genres|
  {
    if n == 0 then []
    else
      Candidates(catalogue, genres, n - 1) + Tagged(BooksOf(catalogue, genres[n - 1]), genres[n - 1])
  }

  ghost predicate NoRepeats(books: seq<Book>) {
    forall i, j :: 0 <= i < j < |books| ==> books[i].id != books[j].id
  }

  /** Add the books not seen yet; `seen` mirrors the ids of the results. */
  method AddUnseen(results: seq<Item>, seen: set<BookId>, books: seq<Book>, tag: string)
    returns (results': seq<Item>, seen': set<BookId>)
    requires forall id :: id in seen <==> HasId(results, id)
    ensures results' == Extended(results, Tagged(books, tag))
    ensures forall id :: id in seen' <==> HasId(results', id)
  {
    results', seen' := results, seen;
    var i := 0;
    while i < |books|
      invariant i <= |books|
      invariant results' == Extended(results, Tagged(books, tag)[..i])
      invariant forall id :: id in seen' <==> HasId(results', id)
    {
      assert Tagged(books, tag)[..i + 1][..i] == Tagged(books, tag)[..i];
      if books[i].id !in seen' {
        seen' := seen' + {books[i].id};
        var before := results';
        results' := results' + [Item(books[i].id, books[i].title, tag)];
        HasIdAppend(before, Item(books[i].id, books[i].title, tag));
      }
      i := i + 1;
    }
    assert Tagged(books, tag)[..|books|] == Tagged(books, tag);
  }

  /** `books_by_genre_match`: at most `limit` rows are read per genre, and the loop
      stops once there are enough; the answer is that of merging the full lists. */
  method BooksByGenreMatch(catalogue: map<string, seq<Book>>, genres: seq<string>, limit: nat)
    returns (answer: seq<Item>)
    requires forall g :: g in catalogue ==> NoRepeats(catalogue[g])
    ensures answer == Take(FirstOccurrences(Candidates(catalogue, genres, |genres|)), limit)
  {
    if |genres| == 0 {
      return [];
    }
    var results: seq<Item>, seen: set<BookId> := [], {};
    var i := 0;
    while i < |genres|
      invariant i <= |genres|
      invariant results == FirstOccurrences(Candidates(catalogue, genres, i))
      invariant forall id :: id in seen <==> HasId(results, id)
    {
      var fetched := Take(BooksOf(catalogue, genres[i]), limit);
      results, seen := AddUnseen(results, seen, fetched, genres[i]);
      GenreStep(catalogue, genres, i, limit);
      if |results| >= limit {
        break;
      }
      i := i + 1;
    }
    answer := Take(results, limit);
  }

  /** `_rule_based`: three lists merged in turn, then cut. */
  method RuleBased(popular: seq<Book>, similar: seq<Book>, recent: seq<Book>, limit: nat) returns (answer: seq<Item>)
    ensures answer == Take(FirstOccurrences(Tagged(popular, "popular") + Tagged(similar, "similar") + Tagged(recent, "recent")), limit)
  {
    var results, seen := AddUnseen([], {}, popular, "popular");
    results, seen := AddUnseen(results, seen, similar, "similar");
    results, seen := AddUnseen(results, seen, recent, "recent");
    ExtendedConcat([], Tagged(popular, "popular"), Tagged(similar, "similar"));
    ExtendedConcat([], Tagged(popular, "popular") + Tagged(similar, "similar"), Tagged(recent, "recent"));
    answer := Take(results, limit);
  }

  // ---------- what the candidates are ----------

  /** How many books the first `n` genres have, repetitions counted. */
  function Offset(catalogue: map<string, seq<Book>>, genres: seq<string>, n: nat): nat
    requires n <= |genres|
  {
    if n == 0 then 0
    else Offset(catalogue, genres, n - 1) + if genres[n - 1] in catalogue then |catalogue[genres[n - 1]]| else 0
  }

  /** Genre by genre, book by book, each tagged with the genre that found it. */
  lemma {:induction false} CandidatesMeaning(catalogue: map<string, seq<Book>>, genres: seq<string>, n: nat, i: nat, j: nat)
    requires i < n <= |genres| && genres[i] in catalogue && j < |catalogue[genres[i]]|
    ensures |Candidates(catalogue, genres, n)| == Offset(catalogue, genres, n)
    ensures Offset(catalogue, genres, i) + j < |Candidates(catalogue, genres, n)|
    ensures var book := catalogue[genres[i]][j];
            Candidates(catalogue, genres, n)[Offset(catalogue, genres, i) + j] == Item(book.id, book.title, genres[i])
  {
    CandidatesCounted(catalogue, genres, n - 1);
    CandidatesCounted(catalogue, genres, n);
    if i < n - 1 {
      CandidatesMeaning(catalogue, genres, n - 1, i, j);
    }
  }

  lemma {:induction false} CandidatesCounted(catalogue: map<string, seq<Book>>, genres: seq<string>, n: nat)
    requires n <= |genres|
    ensures |Candidates(catalogue, genres, n)| == Offset(catalogue, genres, n)
  {
    if n > 0 {
      CandidatesCounted(catalogue, genres, n - 1);
    }
  }

  // ---------- what first occurrences are ----------

  lemma HasIdAppend(items: seq<Item>, x: Item)
    ensures forall id :: HasId(items + [x], id) <==> HasId(items, id) || id == x.id
  {
    forall id | HasId(items, id)
      ensures HasId(items + [x], id)
    {
      var i :| 0 <= i < |items| && items[i].id == id;
      assert (items + [x])[i].id == id;
    }
    assert (items + [x])[|items|] == x;
    forall id | HasId(items + [x], id) && id != x.id
      ensures HasId(items, id)
    {
      var i :| 0 <= i < |items + [x]| && (items + [x])[i].id == id;
      assert items[i].id == id;
    }
  }

  lemma {:induction false} ExtendedConcat(items: seq<Item>, a: seq<Item>, b: seq<Item>)
    ensures Extended(items, a + b) == Extended(Extended(items, a), b)
  {
    if b == [] {
      assert a + b == a;
    } else {
      assert (a + b)[..|a + b| - 1] == a + b[..|b| - 1];
      ExtendedConcat(items, a, b[..|b| - 1]);
    }
  }

  lemma {:induction false} ExtendedKeepsPrefix(items: seq<Item>, more: seq<Item>)
    ensures items <= Extended(items, more)
  {
    if more != [] {
      ExtendedKeepsPrefix(items, more[..|more| - 1]);
    }
  }

  lemma {:induction false} ExtendedIds(items: seq<Item>, more: seq<Item>)
    ensures forall id :: HasId(Extended(items, more), id) <==> HasId(items, id) || HasId(more, id)
    ensures DistinctIds(items) ==> DistinctIds(Extended(items, more))
  {
    if more != [] {
      var front, last := more[..|more| - 1], more[|more| - 1];
      assert more == front + [last];
      ExtendedIds(items, front);
      HasIdAppend(front, last);
      HasIdAppend(Extended(items, front), last);
    }
  }

  /** The merged list has each id once, in the order of first occurrence, and each
      entry is the first candidate with its id. */
  lemma {:induction false} FirstOccurrencesMeaning(items: seq<Item>, id: BookId)
    ensures DistinctIds(FirstOccurrences(items)) && Subsequence(FirstOccurrences(items), items)
    ensures HasId(FirstOccurrences(items), id) <==> HasId(items, id)
    ensures forall x :: x in FirstOccurrences(items) ==>
              exists i :: 0 <= i < |items| && items[i] == x && !HasId(items[..i], x.id)
  {
    ExtendedIds([], items);
    if items != [] {
      var front, last := items[..|items| - 1], items[|items| - 1];
      FirstOccurrencesMeaning(front, last.id);
      var merged := FirstOccurrences(front);
      assert (merged + [last])[..|merged|] == merged;
      forall x | x in FirstOccurrences(items)
        ensures exists i :: 0 <= i < |items| && items[i] == x && !HasId(items[..i], x.id)
      {
        if x in merged {
          var i :| 0 <= i < |front| && front[i] == x && !HasId(front[..i], x.id);
          assert items[i] == x && items[..i] == front[..i];
        } else {
          assert x == last && items[|front|] == x && items[..|front|] == front;
        }
      }
    }
  }

  // ---------- limit pushdown ----------

  function Ids(items: seq<Item>): seq<BookId> {
    seq(|items|, i requires 0 <= i < |items| => items[i].id)
  }

  lemma DistinctIdsFit(a: seq<Item>, b: seq<Item>)
    requires DistinctIds(a) && forall id :: HasId(a, id) ==> HasId(b, id)
    ensures |a| <= |b|
  {
    forall id | id in Ids(a)
      ensures id in Elements(Ids(b))
    {
      var i :| 0 <= i < |a| && Ids(a)[i] == id;
      assert HasId(a, id);
      var j :| 0 <= j < |b| && b[j].id == id;
      assert Ids(b)[j] == id;
    }
    DistinctFit(Ids(a), Elements(Ids(b)));
    ElementsCounted(Ids(b));
  }

  lemma TakePrefix(a: seq<Item>, b: seq<Item>, n: nat)
    requires a <= b && |a| >= n
    ensures Take(a, n) == Take(b, n)
  {
  }

  /** The pigeonhole step: `limit` distinct books, however many are already in the
      results, always fill the answer, so reading more of the genre cannot change it. */
  lemma PushdownKeepsAnswer(results: seq<Item>, books: seq<Book>, tag: string, limit: nat)
    requires NoRepeats(books)
    ensures var cut, full := Extended(results, Tagged(Take(books, limit), tag)), Extended(results, Tagged(books, tag));
            Take(cut, limit) == Take(full, limit) && (|cut| < limit ==> cut == full)
  {
    if |books| > limit {
      var head, tail := Tagged(books, tag)[..limit], Tagged(books, tag)[limit..];
      assert Tagged(Take(books, limit), tag) == head && Tagged(books, tag) == head + tail;
      var cut := Extended(results, head);
      ExtendedConcat(results, head, tail);
      ExtendedKeepsPrefix(cut, tail);
      ExtendedIds(results, head);
      DistinctIdsFit(head, cut);
      TakePrefix(cut, Extended(results, Tagged(books, tag)), limit);
    }
  }

  /** Once there are enough results the remaining genres add nothing to the answer. */
  lemma {:induction false} LaterGenresDoNotMatter(catalogue: map<string, seq<Book>>, genres: seq<string>, n: nat, limit: nat)
    requires n <= |genres| && |FirstOccurrences(Candidates(catalogue, genres, n))| >= limit
    ensures Take(FirstOccurrences(Candidates(catalogue, genres, |genres|)), limit) ==
            Take(FirstOccurrences(Candidates(catalogue, genres, n)), limit)
    decreases |genres| - n
  {
    if n < |genres| {
      var books := BooksOf(catalogue, genres[n]);
      var now, next := FirstOccurrences(Candidates(catalogue, genres, n)), FirstOccurrences(Candidates(catalogue, genres, n + 1));
      ExtendedConcat([], Candidates(catalogue, genres, n), Tagged(books, genres[n]));
      ExtendedKeepsPrefix(now, Tagged(books, genres[n]));
      TakePrefix(now, next, limit);
      LaterGenresDoNotMatter(catalogue, genres, n + 1, limit);
    }
  }

  /** One genre of the loop: either the results are still exactly the merge of the
      full lists so far, or they already hold the whole answer. */
  lemma GenreStep(catalogue: map<string, seq<Book>>, genres: seq<string>, n: nat, limit: nat)
    requires n < |genres| && forall g :: g in catalogue ==> NoRepeats(catalogue[g])
    ensures var cut := Extended(FirstOccurrences(Candidates(catalogue, genres, n)),
                                Tagged(Take(BooksOf(catalogue, genres[n]), limit), genres[n]));
            if |cut| < limit then cut == FirstOccurrences(Candidates(catalogue, genres, n + 1))
            else Take(cut, limit) == Take(FirstOccurrences(Candidates(catalogue, genres, |genres|)), limit)
  {
    var results, books := FirstOccurrences(Candidates(catalogue, genres, n)), BooksOf(catalogue, genres[n]);
    ExtendedConcat([], Candidates(catalogue, genres, n), Tagged(books, genres[n]));
    PushdownKeepsAnswer(results, books, genres[n], limit);
    if |Extended(results, Tagged(Take(books, limit), genres[n]))| >= limit {
      LaterGenresDoNotMatter(catalogue, genres, n + 1, limit);
    }
  }
}
