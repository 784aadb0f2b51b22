/** Grouping a topic's flat comment list into threads
    (`_build_comment_threads`, backend/app/domains/club/service.py). */
module Threads {
  import opened Prelude
  import opened Clubs
  import ClubResults

  datatype Row = Row(id: CommentId, comment: Comment)

  datatype Thread = Thread(root: Row, replies: seq<Row>)

  function Roots(rows: seq<Row>): seq<Row> {
    if rows == [] then []
    else
      var front, last := Roots(rows[..|rows| - 1]), rows[|rows| - 1];
      if last.comment.parent.None? then front + [last] else front
  }

  function RepliesTo(rows: seq<Row>, id: CommentId): seq<Row> {
    if rows == [] then []
    else
      var front, last := RepliesTo(rows[..|rows| - 1], id), rows[|rows| - 1];
      if last.comment.parent == Some(id) then front + [last] else front
  }

  function ThreadsFor(roots: seq<Row>, rows: seq<Row>): seq<Thread> {
    seq(|roots|, i requires 0 <= i < |roots| => Thread(roots[i], RepliesTo(rows, roots[i].id)))
  }

  function Grouped(rows: seq<Row>): seq<Thread> {
    ThreadsFor(Roots(rows), rows)
  }

  function Lookup(repliesByParent: map<CommentId, seq<Row>>, id: CommentId): seq<Row> {
    if id in repliesByParent then repliesByParent[id] else []
  }

  /** The first pass: a dictionary of reply lists and the list of roots. */
  method SplitRows(rows: seq<Row>) returns (roots: seq<Row>, repliesByParent: map<CommentId, seq<Row>>)
    ensures roots == Roots(rows)
    ensures forall id :: Lookup(repliesByParent, id) == RepliesTo(rows, id)
  {
    repliesByParent, roots := map[], [];
    var i := 0;
    while i < |rows|
      invariant i <= |rows|
      invariant roots == Roots(rows[..i])
      invariant forall id :: Lookup(repliesByParent, id) == RepliesTo(rows[..i], id)
    {
      var row := rows[i];
      assert rows[..i + 1][..i] == rows[..i];
      if row.comment.parent.None? {
        roots := roots + [row];
      } else {
        var p := row.comment.parent.value;
        repliesByParent := repliesByParent[p := Lookup(repliesByParent, p) + [row]];
      }
      i := i + 1;
    }
    assert rows[..|rows|] == rows;
  }

  /** The second pass attaches each root's replies. */
  method BuildCommentThreads(rows: seq<Row>) returns (threads: seq<Thread>)
    ensures threads == Grouped(rows)
  {
    var roots, repliesByParent := SplitRows(rows);
    threads := [];
    var j := 0;
    while j < |roots|
      invariant j <= |roots|
      invariant threads == ThreadsFor(roots[..j], rows)
    {
      threads := threads + [Thread(roots[j], Lookup(repliesByParent, roots[j].id))];
      j := j + 1;
    }
    assert roots[..|roots|] == roots;
  }

  // ---------- order ----------

  lemma {:induction false} GroupsKeepOrder(rows: seq<Row>, id: CommentId)
    ensures Subsequence(Roots(rows), rows)
    ensures Subsequence(RepliesTo(rows, id), rows)
  {
    if rows != [] {
      var front, last := rows[..|rows| - 1], rows[|rows| - 1];
      GroupsKeepOrder(front, id);
      var r, q := Roots(front), RepliesTo(front, id);
      assert (r + [last])[..|r|] == r && (q + [last])[..|q|] == q;
    }
  }

  /** Each thread is a root of the list with exactly the rows that answer it; every root
      has its thread, in list order. */
  lemma ThreadMeaning(rows: seq<Row>, i: nat, x: Row)
    requires i < |Grouped(rows)|
    ensures var t := Grouped(rows)[i];
            && t.root in rows && t.root.comment.parent.None?
            && multiset(t.replies)[x] == (if x.comment.parent == Some(t.root.id) then multiset(rows)[x] else 0)
            && Subsequence(t.replies, rows)
    ensures |Grouped(rows)| == |Roots(rows)| && Grouped(rows)[i].root == Roots(rows)[i]
    ensures multiset(Roots(rows))[x] == if x.comment.parent.None? then multiset(rows)[x] else 0
  {
    var t := Grouped(rows)[i];
    RootsCounted(rows, x);
    RootsCounted(rows, t.root);
    assert t.root in Roots(rows) && multiset(Roots(rows))[t.root] > 0;
    RepliesCounted(rows, t.root.id, x);
    GroupsKeepOrder(rows, t.root.id);
  }

  // ---------- losing nothing ----------

  function Flattened(threads: seq<Thread>): seq<Row> {
    if threads == [] then []
    else
      var last := threads[|threads| - 1];
      Flattened(threads[..|threads| - 1]) + [last.root] + last.replies
  }

  ghost predicate DistinctIds(rows: seq<Row>) {
    forall i, j :: 0 <= i < j < |rows| ==> rows[i].id != rows[j].id
  }

  /** Every reply in the list answers a root in the list. */
  ghost predicate ParentsAreRoots(rows: seq<Row>) {
    forall x :: x in rows && x.comment.parent.Some? ==> RootCount(rows, x.comment.parent.value) > 0
  }

  /** How many roots of the list carry an id. */
  function RootCount(rows: seq<Row>, id: CommentId): nat {
    if rows == [] then 0
    else
      var last := rows[|rows| - 1];
      RootCount(rows[..|rows| - 1], id) + if last.comment.parent.None? && last.id == id then 1 else 0
  }

  lemma {:induction false} RootCountMeaning(rows: seq<Row>, id: CommentId)
    ensures RootCount(rows, id) > 0 <==> exists x :: x in rows && x.comment.parent.None? && x.id == id
    ensures DistinctIds(rows) ==> RootCount(rows, id) <= 1
    ensures RootCount(Roots(rows), id) == RootCount(rows, id)
  {
    if rows != [] {
      var front, last := rows[..|rows| - 1], rows[|rows| - 1];
      assert rows == front + [last];
      RootCountMeaning(front, id);
      var r := Roots(front);
      assert (r + [last])[..|r|] == r;
    }
  }

  lemma {:induction false} RootsCounted(rows: seq<Row>, x: Row)
    ensures multiset(Roots(rows))[x] == if x.comment.parent.None? then multiset(rows)[x] else 0
    ensures forall y :: y in Roots(rows) ==> y.comment.parent.None?
  {
    if rows != [] {
      assert rows == rows[..|rows| - 1] + [rows[|rows| - 1]];
      RootsCounted(rows[..|rows| - 1], x);
    }
  }

  lemma {:induction false} RepliesCounted(rows: seq<Row>, id: CommentId, x: Row)
    ensures multiset(RepliesTo(rows, id))[x] == if x.comment.parent == Some(id) then multiset(rows)[x] else 0
  {
    if rows != [] {
      assert rows == rows[..|rows| - 1] + [rows[|rows| - 1]];
      RepliesCounted(rows[..|rows| - 1], id, x);
    }
  }

  lemma FlattenedAppend(threads: seq<Thread>, last: Thread, x: Row)
    ensures multiset(Flattened(threads + [last]))[x] ==
            multiset(Flattened(threads))[x] + (if last.root == x then 1 else 0) + multiset(last.replies)[x]
  {
    assert (threads + [last])[..|threads|] == threads;
  }

  /** How often a row comes out of threading, root by root: once as a root, and
      once per occurrence for each thread whose root carries its parent id. */
  function Copies(roots: seq<Row>, rows: seq<Row>, x: Row): nat {
    if roots == [] then 0
    else
      var last := roots[|roots| - 1];
      Copies(roots[..|roots| - 1], rows, x)
      + (if last == x then 1 else 0)
      + (if x.comment.parent == Some(last.id) then multiset(rows)[x] else 0)
  }

  lemma ThreadsForAppend(front: seq<Row>, last: Row, rows: seq<Row>)
    ensures ThreadsFor(front + [last], rows) == ThreadsFor(front, rows) + [Thread(last, RepliesTo(rows, last.id))]
  {
  }

  lemma OneMoreRoot(front: seq<Row>, last: Row, rows: seq<Row>, x: Row)
    ensures multiset(Flattened(ThreadsFor(front + [last], rows)))[x] ==
            multiset(Flattened(ThreadsFor(front, rows)))[x] + (if last == x then 1 else 0)
            + multiset(RepliesTo(rows, last.id))[x]
  {
    ThreadsForAppend(front, last, rows);
    FlattenedAppend(ThreadsFor(front, rows), Thread(last, RepliesTo(rows, last.id)), x);
  }

  lemma {:induction false} FlattenedCounted(roots: seq<Row>, rows: seq<Row>, x: Row)
    ensures multiset(Flattened(ThreadsFor(roots, rows)))[x] == Copies(roots, rows, x)
  {
    if roots != [] {
      var front, last := roots[..|roots| - 1], roots[|roots| - 1];
      assert front + [last] == roots;
      FlattenedCounted(front, rows, x);
      RepliesCounted(rows, last.id, x);
      OneMoreRoot(front, last, rows, x);
    }
  }

  lemma {:induction false} CopiesMeaning(roots: seq<Row>, rows: seq<Row>, x: Row)
    requires forall y :: y in roots ==> y.comment.parent.None?
    ensures x.comment.parent.None? ==> Copies(roots, rows, x) == multiset(roots)[x]
    ensures x.comment.parent.Some? && RootCount(roots, x.comment.parent.value) == 0 ==> Copies(roots, rows, x) == 0
    ensures x.comment.parent.Some? && RootCount(roots, x.comment.parent.value) == 1 ==>
              Copies(roots, rows, x) == multiset(rows)[x]
  {
    if roots != [] {
      var front, last := roots[..|roots| - 1], roots[|roots| - 1];
      assert roots == front + [last];
      CopiesMeaning(front, rows, x);
    }
  }

  lemma GroupedCounted(rows: seq<Row>, x: Row)
    requires DistinctIds(rows)
    ensures multiset(Flattened(Grouped(rows)))[x] ==
            if x.comment.parent.None? || RootCount(rows, x.comment.parent.value) > 0 then multiset(rows)[x] else 0
  {
    RootsCounted(rows, x);
    FlattenedCounted(Roots(rows), rows, x);
    CopiesMeaning(Roots(rows), rows, x);
    if x.comment.parent.Some? {
      RootCountMeaning(rows, x.comment.parent.value);
    }
  }

  /** Exactly when threading loses nothing, in whatever order the rows come: iff
      every reply answers a root of the list. */
  lemma ThreadingIsLosslessIff(rows: seq<Row>)
    requires DistinctIds(rows)
    ensures multiset(Flattened(Grouped(rows))) == multiset(rows) <==> ParentsAreRoots(rows)
  {
    var flat := multiset(Flattened(Grouped(rows)));
    if ParentsAreRoots(rows) {
      forall x: Row | true
        ensures flat[x] == multiset(rows)[x]
      {
        GroupedCounted(rows, x);
        assert multiset(rows)[x] > 0 <==> x in rows;
      }
    }
    if flat == multiset(rows) {
      forall x | x in rows && x.comment.parent.Some?
        ensures RootCount(rows, x.comment.parent.value) > 0
      {
        GroupedCounted(rows, x);
        assert multiset(rows)[x] > 0;
      }
    }
  }

  /** Some listing of a topic's comments. */
  ghost predicate IsCommentListing(s: Store, topic: TopicId, rows: seq<Row>) {
    && DistinctIds(rows)
    && (forall x :: x in rows ==> x.id in CommentsOf(s.comments, topic) && x.comment == s.comments[x.id])
    && (forall id :: id in CommentsOf(s.comments, topic) ==> Row(id, s.comments[id]) in rows)
  }

  /** In every reachable store, threading any listing of a topic's comments gives
      back exactly those comments. */
  lemma ReachableThreadsAreLossless(feedWired: bool, ops: seq<Op>, topic: TopicId, rows: seq<Row>)
    requires IsCommentListing(Run(EmptyStore(feedWired), ops), topic, rows)
    ensures multiset(Flattened(Grouped(rows))) == multiset(rows)
  {
    var s := Run(EmptyStore(feedWired), ops);
    ClubResults.RepliesAreOneLevel(feedWired, ops);
    forall x | x in rows && x.comment.parent.Some?
      ensures RootCount(rows, x.comment.parent.value) > 0
    {
      var p := x.comment.parent.value;
      RootCountMeaning(rows, p);
      assert Row(p, s.comments[p]) in rows;
    }
    ThreadingIsLosslessIff(rows);
  }
}
