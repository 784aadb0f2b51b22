/** The three keyset listings: library, club chat and challenges. Each service
    function turns one query result into a page; the results instantiate
    `Pagination` for following its cursor to the end. */
module Listings {
  import opened Prelude
  import opened Pagination
  import opened PageLimits

  type UserId = nat
  type Time = int

  // ---------- library (book/service.py, book/repository.py) ----------

  const MIN_LIBRARY_PAGE := 1
  const MAX_LIBRARY_PAGE := 50

  datatype ReadingStatus = Reading | Completed | Paused | Dropped | Wishlist

  datatype UserBook = UserBook(id: nat, user: UserId, status: ReadingStatus, startedAt: Option<Time>)

  function Clamp(limit: int, least: int, most: int): int {
    Max(least, Min(limit, most))
  }

  function LibraryLimit(limit: int): nat {
    Clamp(limit, MIN_LIBRARY_PAGE, MAX_LIBRARY_PAGE)
  }

  const LIBRARY_SORT: Sort<UserBook> := Sort(true, (ub: UserBook) => ub.startedAt)

  function Library(rows: set<UserBook>, user: UserId, status: Option<ReadingStatus>): set<UserBook> {
    set ub | ub in rows && ub.user == user && (status.Some? ==> ub.status == status.value)
  }

  /** `list_library`, given the rows its clamped query returned. */
  method ListLibrary(ghost table: set<UserBook>, ghost cursor: Option<Time>, limit: int, fetched: seq<UserBook>)
    returns (items: seq<UserBook>, next: Option<Time>)
    requires QueryResult(LIBRARY_SORT, table, cursor, LibraryLimit(limit), fetched)
    ensures items == fetched
    ensures Returned(WhenFull, LIBRARY_SORT, table, cursor, LibraryLimit(limit), Page(items, next))
  {
    var clamped := LibraryLimit(limit);
    next := None;
    if |fetched| == clamped {
      var last := fetched[|fetched| - 1];
      if last.startedAt.Some? {
        next := last.startedAt;
      }
    }
    items := fetched;
    assert Page(items, next) == PageOf(WhenFull, LIBRARY_SORT, fetched, clamped);
  }

  // ---------- club chat (club/service.py, club/repository.py) ----------

  datatype Message = Message(id: nat, club: nat, room: Option<nat>, createdAt: Time, deletedAt: Option<Time>)

  const CHAT_SORT: Sort<Message> := Sort(true, (m: Message) => Some(m.createdAt))

  /** Club-wide messages that are not deleted. */
  function Chat(rows: set<Message>, club: nat): set<Message> {
    set m | m in rows && m.club == club && m.deletedAt.None? && m.room.None?
  }

  /** `list_messages`: one row more than the page was fetched. */
  method ListMessages(ghost table: set<Message>, ghost cursor: Option<Time>, limit: nat, fetched: seq<Message>)
    returns (items: seq<Message>, next: Option<Time>)
    requires limit > 0 && QueryResult(CHAT_SORT, table, cursor, FetchLimit(WithLookahead, limit), fetched)
    ensures items == Take(fetched, limit)
    ensures Returned(WithLookahead, CHAT_SORT, table, cursor, limit, Page(items, next))
  {
    var hasMore := |fetched| > limit;
    items := Take(fetched, limit);
    next := if hasMore then Some(items[|items| - 1].createdAt) else None;
    assert Page(items, next) == PageOf(WithLookahead, CHAT_SORT, fetched, limit);
  }

  // ---------- challenges (challenge/service.py, challenge/repository.py) ----------

  datatype Listed = Listed(id: nat, startsAt: Time, endsAt: Time, limited: bool, exclusiveUntil: Option<Time>)

  datatype StatusFilter = AnyStatus | ActiveOnly | UpcomingOnly | EndedOnly

  const CHALLENGE_SORT: Sort<Listed> := Sort(false, (c: Listed) => Some(c.endsAt))

  predicate Matches(c: Listed, filter: StatusFilter, now: Time) {
    match filter
    case AnyStatus => true
    case ActiveOnly =>
      c.startsAt <= now <= c.endsAt && (!c.limited || (c.exclusiveUntil.Some? && c.exclusiveUntil.value >= now))
    case UpcomingOnly => c.startsAt > now
    case EndedOnly => c.endsAt < now
  }

  function Catalogue(rows: set<Listed>, filter: StatusFilter, now: Time): set<Listed> {
    set c | c in rows && Matches(c, filter, now)
  }

  function ChallengeLimit(limit: int): nat {
    Clamp(limit, 1, 50)
  }

  /** `list_challenges`: a full page always has a cursor, since end times are never NULL. */
  method ListChallenges(ghost table: set<Listed>, ghost cursor: Option<Time>, limit: int, fetched: seq<Listed>)
    returns (items: seq<Listed>, next: Option<Time>)
    requires QueryResult(CHALLENGE_SORT, table, cursor, ChallengeLimit(limit), fetched)
    ensures items == fetched
    ensures Returned(WhenFull, CHALLENGE_SORT, table, cursor, ChallengeLimit(limit), Page(items, next))
  {
    var clamped := ChallengeLimit(limit);
    next := None;
    if |fetched| == clamped {
      next := Some(fetched[|fetched| - 1].endsAt);
    }
    items := fetched;
    assert Page(items, next) == PageOf(WhenFull, CHALLENGE_SORT, fetched, clamped);
  }

  // ---------- following the cursors ----------

  /** Library pages are disjoint and in order, and miss only books that share the
      start time of a page's last book, or have none when a page ended on one
      that has none. */
  lemma LibraryWalk(rows: set<UserBook>, user: UserId, status: Option<ReadingStatus>, pages: seq<Page<UserBook>>, ub: UserBook)
    requires Pagination.Completed(LIBRARY_SORT, Library(rows, user, status), pages)
    ensures NoDuplicates(Delivered(pages)) && Sorted(LIBRARY_SORT, Delivered(pages))
    ensures ub in Delivered(pages) ==> ub in Library(rows, user, status)
    ensures ub in Library(rows, user, status) && ub !in Delivered(pages) ==>
              exists i :: 0 <= i < |pages| && pages[i].items != [] && Last(pages[i].items).startedAt == ub.startedAt
  {
    var table := Library(rows, user, status);
    PagesAreDisjointAndOrdered(LIBRARY_SORT, table, pages);
    DeliveredUpToCursor(LIBRARY_SORT, table, pages);
    if ub in table && ub !in Delivered(pages) {
      MissedRowsTieWithAPageEnd(LIBRARY_SORT, table, pages, ub);
      var i :| 0 <= i < |pages| && TiesWithEndOf(LIBRARY_SORT, pages, i, ub);
    }
  }

  /** When no two books of the listing start at the same time, and at most one has
      not started, the pages are the library, newest first. */
  lemma LibraryPagesAreTheLibrary(rows: set<UserBook>, user: UserId, status: Option<ReadingStatus>,
                                  pages: seq<Page<UserBook>>, listing: seq<UserBook>)
    requires Pagination.Completed(LIBRARY_SORT, Library(rows, user, status), pages)
    requires forall x, y :: x in Library(rows, user, status) && y in Library(rows, user, status) && x != y ==>
               x.startedAt != y.startedAt
    requires FullListing(LIBRARY_SORT, Library(rows, user, status), listing)
    ensures Delivered(pages) == listing
  {
    DistinctKeysGiveTheFullListing(LIBRARY_SORT, Library(rows, user, status), pages, listing);
  }

  /** Library pages hold the user's books of the status, the latest start first and those
      without a start at the end; pages are of the requested size clamped to 1..50. */
  lemma LibraryPagesMeaning(rows: set<UserBook>, user: UserId, status: Option<ReadingStatus>, limit: int,
                            pages: seq<Page<UserBook>>)
    requires ServedToTheEnd(WhenFull, LIBRARY_SORT, Library(rows, user, status), LibraryLimit(limit), pages)
    ensures var books := Delivered(pages);
            && NoDuplicates(books)
            && (forall ub :: ub in books ==> ub in rows && ub.user == user && (status.Some? ==> ub.status == status.value))
            && (forall i, j :: 0 <= i < j < |books| && books[j].startedAt.Some? ==>
                  books[i].startedAt.Some? && books[i].startedAt.value >= books[j].startedAt.value)
    ensures forall i :: 0 <= i < |pages| ==>
              var size := if limit < 1 then 1 else if limit > 50 then 50 else limit;
              |pages[i].items| <= size && (i < |pages| - 1 ==> |pages[i].items| == size)
  {
    ServedPagesMeaning(WhenFull, LIBRARY_SORT, Library(rows, user, status), LibraryLimit(limit), pages);
    var books := Delivered(pages);
    forall i, j | 0 <= i < j < |books| && books[j].startedAt.Some?
      ensures books[i].startedAt.Some? && books[i].startedAt.value >= books[j].startedAt.value
    {
      assert !Before(LIBRARY_SORT, books[j], books[i]);
    }
  }

  /** Chat pages hold club-wide messages that are not deleted, newest first. */
  lemma ChatPagesMeaning(rows: set<Message>, club: nat, limit: nat, pages: seq<Page<Message>>)
    requires limit > 0 && ServedToTheEnd(WithLookahead, CHAT_SORT, Chat(rows, club), limit, pages)
    ensures var messages := Delivered(pages);
            && NoDuplicates(messages)
            && (forall m :: m in messages ==> m in rows && m.club == club && m.deletedAt.None? && m.room.None?)
            && (forall i, j :: 0 <= i < j < |messages| ==> messages[i].createdAt >= messages[j].createdAt)
    ensures forall i :: 0 <= i < |pages| ==>
              |pages[i].items| <= limit && (i < |pages| - 1 ==> |pages[i].items| == limit)
  {
    ServedPagesMeaning(WithLookahead, CHAT_SORT, Chat(rows, club), limit, pages);
    var messages := Delivered(pages);
    forall i, j | 0 <= i < j < |messages|
      ensures messages[i].createdAt >= messages[j].createdAt
    {
      assert !Before(CHAT_SORT, messages[j], messages[i]);
    }
  }

  /** What each status filter shows: running challenges (a limited one only while its
      edition is open), those still to come, those that are over, or all. */
  predicate Shown(c: Listed, filter: StatusFilter, now: Time) {
    && (filter == ActiveOnly ==>
          c.startsAt <= now && now <= c.endsAt &&
          (c.limited ==> c.exclusiveUntil.Some? && now <= c.exclusiveUntil.value))
    && (filter == UpcomingOnly ==> now < c.startsAt)
    && (filter == EndedOnly ==> c.endsAt < now)
  }

  /** Challenge pages hold what the filter shows, the earliest end first; pages are of
      the requested size clamped to 1..50. */
  lemma ChallengePagesMeaning(rows: set<Listed>, filter: StatusFilter, now: Time, limit: int, pages: seq<Page<Listed>>)
    requires ServedToTheEnd(WhenFull, CHALLENGE_SORT, Catalogue(rows, filter, now), ChallengeLimit(limit), pages)
    ensures var listed := Delivered(pages);
            && NoDuplicates(listed)
            && (forall c :: c in listed ==> c in rows && Shown(c, filter, now))
            && (forall i, j :: 0 <= i < j < |listed| ==> listed[i].endsAt <= listed[j].endsAt)
    ensures forall i :: 0 <= i < |pages| ==>
              var size := if limit < 1 then 1 else if limit > 50 then 50 else limit;
              |pages[i].items| <= size && (i < |pages| - 1 ==> |pages[i].items| == size)
  {
    ServedPagesMeaning(WhenFull, CHALLENGE_SORT, Catalogue(rows, filter, now), ChallengeLimit(limit), pages);
    var listed := Delivered(pages);
    forall i, j | 0 <= i < j < |listed|
      ensures listed[i].endsAt <= listed[j].endsAt
    {
      assert !Before(CHALLENGE_SORT, listed[j], listed[i]);
    }
  }

  /** Library pages deliver the whole listing exactly when no group of books with one
      start time, nor the group without any, spans two blocks of the clamped limit. */
  lemma LibraryPagesCompleteIff(rows: set<UserBook>, user: UserId, status: Option<ReadingStatus>, limit: int,
                                pages: seq<Page<UserBook>>)
    requires ServedToTheEnd(WhenFull, LIBRARY_SORT, Library(rows, user, status), LibraryLimit(limit), pages)
    ensures (forall ub :: ub in rows && ub.user == user && (status.Some? ==> ub.status == status.value) ==>
               ub in Delivered(pages)) <==>
            GroupsFit(LIBRARY_SORT, Library(rows, user, status), LibraryLimit(limit))
  {
    CompleteIffGroupsFit(WhenFull, LIBRARY_SORT, Library(rows, user, status), LibraryLimit(limit), pages);
  }

  /** Chat pages deliver the whole undeleted club chat exactly when no group of
      messages of one instant spans two blocks of `limit`. */
  lemma ChatPagesCompleteIff(rows: set<Message>, club: nat, limit: nat, pages: seq<Page<Message>>)
    requires limit > 0 && ServedToTheEnd(WithLookahead, CHAT_SORT, Chat(rows, club), limit, pages)
    ensures (forall m :: m in rows && m.club == club && m.deletedAt.None? && m.room.None? ==> m in Delivered(pages)) <==>
            GroupsFit(CHAT_SORT, Chat(rows, club), limit)
  {
    CompleteIffGroupsFit(WithLookahead, CHAT_SORT, Chat(rows, club), limit, pages);
  }

  /** Challenge pages deliver the whole filtered catalogue exactly when no group of
      challenges with one end time spans two blocks of the clamped limit. */
  lemma ChallengePagesCompleteIff(rows: set<Listed>, filter: StatusFilter, now: Time, limit: int, pages: seq<Page<Listed>>)
    requires ServedToTheEnd(WhenFull, CHALLENGE_SORT, Catalogue(rows, filter, now), ChallengeLimit(limit), pages)
    ensures (forall c :: c in rows && Shown(c, filter, now) ==> c in Delivered(pages)) <==>
            GroupsFit(CHALLENGE_SORT, Catalogue(rows, filter, now), ChallengeLimit(limit))
  {
    CompleteIffGroupsFit(WhenFull, CHALLENGE_SORT, Catalogue(rows, filter, now), ChallengeLimit(limit), pages);
  }

  /** Challenge pages with distinct end times are the filtered catalogue, earliest end first. */
  lemma ChallengePagesAreTheCatalogue(rows: set<Listed>, filter: StatusFilter, now: Time,
                                      pages: seq<Page<Listed>>, listing: seq<Listed>)
    requires Pagination.Completed(CHALLENGE_SORT, Catalogue(rows, filter, now), pages)
    requires forall x, y :: x in rows && y in rows && x != y ==> x.endsAt != y.endsAt
    requires FullListing(CHALLENGE_SORT, Catalogue(rows, filter, now), listing)
    ensures Delivered(pages) == listing
  {
    DistinctKeysGiveTheFullListing(CHALLENGE_SORT, Catalogue(rows, filter, now), pages, listing);
  }

  /** Completeness can fail: two messages of one instant, pages of one message. */
  lemma TiedMessagesCanBeMissed()
    ensures var a, b := Message(0, 1, None, 5, None), Message(1, 1, None, 5, None);
            var pages := [Page([a], Some(5)), Page([], None)];
            ServedToTheEnd(WithLookahead, CHAT_SORT, {a, b}, 1, pages) && b !in Delivered(pages)
  {
    TiedPairIsSplit(WithLookahead, CHAT_SORT, Message(0, 1, None, 5, None), Message(1, 1, None, 5, None));
  }

  /** Two books started at the same time, or two not started, requested one by one. */
  lemma TiedBooksCanBeMissed()
    ensures var a, b := UserBook(0, 1, Reading, Some(5)), UserBook(1, 1, Reading, Some(5));
            var pages := [Page([a], Some(5)), Page([], None)];
            ServedToTheEnd(WhenFull, LIBRARY_SORT, {a, b}, LibraryLimit(1), pages) && b !in Delivered(pages)
    ensures var a, b := UserBook(0, 1, Wishlist, None), UserBook(1, 1, Wishlist, None);
            var pages := [Page([a], None)];
            ServedToTheEnd(WhenFull, LIBRARY_SORT, {a, b}, LibraryLimit(1), pages) && b !in Delivered(pages)
  {
    TiedPairIsSplit(WhenFull, LIBRARY_SORT, UserBook(0, 1, Reading, Some(5)), UserBook(1, 1, Reading, Some(5)));
    UnkeyedPairIsSplit(LIBRARY_SORT, UserBook(0, 1, Wishlist, None), UserBook(1, 1, Wishlist, None));
  }

  /** Two challenges that end together, requested one by one. */
  lemma TiedChallengesCanBeMissed()
    ensures var a, b := Listed(0, 0, 5, false, None), Listed(1, 0, 5, false, None);
            var pages := [Page([a], Some(5)), Page([], None)];
            ServedToTheEnd(WhenFull, CHALLENGE_SORT, {a, b}, ChallengeLimit(1), pages) && b !in Delivered(pages)
  {
    TiedPairIsSplit(WhenFull, CHALLENGE_SORT, Listed(0, 0, 5, false, None), Listed(1, 0, 5, false, None));
  }
}
