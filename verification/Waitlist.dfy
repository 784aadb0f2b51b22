/** Meetup attendance (backend/app/domains/event/service.py and repository.py).

    One table of joins, in joining order, is both the attendance list and the
    overflow queue of every event; a seat is confirmed by rank alone. */
module Waitlist {
  import opened Prelude

  type UserId = nat
  type EventId = nat

  // ---------- tables ----------

  datatype Event = Event(creator: UserId, maxAttendees: Option<int>, deleted: bool)

  datatype Entry = Entry(event: EventId, user: UserId)

  /** `entries` is event_waitlist in `queued_at` order. */
  datatype State = State(events: map<EventId, Event>, entries: seq<Entry>)

  const EMPTY := State(map[], [])

  function Queue(entries: seq<Entry>, event: EventId): seq<UserId> {
    if entries == [] then []
    else
      var front, last := Queue(entries[..|entries| - 1], event), entries[|entries| - 1];
      if last.event == event then front + [last.user] else front
  }

  function Without(entries: seq<Entry>, e: Entry): seq<Entry> {
    if entries == [] then []
    else
      var front, last := Without(entries[..|entries| - 1], e), entries[|entries| - 1];
      if last == e then front else front + [last]
  }

  predicate Live(s: State, event: EventId) {
    event in s.events && !s.events[event].deleted
  }

  // ---------- operations ----------

  datatype Error = EventNotFound | PermissionDenied | AlreadyJoined | NotOnWaitlist | Rejected

  datatype Op =
    | Create(event: EventId, creator: UserId, maxAttendees: Option<int>)
    | Cancel(event: EventId, user: UserId)
    | Join(event: EventId, user: UserId)
    | Leave(event: EventId, user: UserId)

  datatype Reply = Reply(state: State, error: Option<Error>)

  function Step(s: State, op: Op): Reply {
    match op
    case Create(e, creator, maxAttendees) =>
      if e in s.events || (maxAttendees.Some? && maxAttendees.value < 1) then Reply(s, Some(Rejected))
      else Reply(s.(events := s.events[e := Event(creator, maxAttendees, false)]), None)
    case Cancel(e, u) =>
      if !Live(s, e) then Reply(s, Some(EventNotFound))
      else if s.events[e].creator != u then Reply(s, Some(PermissionDenied))
      else Reply(s.(events := s.events[e := s.events[e].(deleted := true)]), None)
    case Join(e, u) =>
      if !Live(s, e) then Reply(s, Some(EventNotFound))
      else if Entry(e, u) in s.entries then Reply(s, Some(AlreadyJoined))
      else Reply(s.(entries := s.entries + [Entry(e, u)]), None)
    case Leave(e, u) =>
      if !Live(s, e) then Reply(s, Some(EventNotFound))
      else if Entry(e, u) !in s.entries then Reply(s, Some(NotOnWaitlist))
      else Reply(s.(entries := Without(s.entries, Entry(e, u))), None)
  }

  function Run(start: State, ops: seq<Op>): State {
    if ops == [] then start else Step(Run(start, ops[..|ops| - 1]), ops[|ops| - 1]).state
  }

  // ---------- seats ----------

  /** 1-based place in the queue. */
  function Rank(queue: seq<UserId>, user: UserId): (r: nat)
    requires user in queue
    ensures 1 <= r <= |queue| && queue[r - 1] == user
    ensures forall i :: 0 <= i < r - 1 ==> queue[i] != user
  {
    if queue[0] == user then 1 else 1 + Rank(queue[1..], user)
  }

  predicate Confirmed(maxAttendees: Option<int>, queue: seq<UserId>, user: UserId) {
    user in queue && (maxAttendees.None? || Rank(queue, user) <= maxAttendees.value)
  }

  ghost function ConfirmedSet(maxAttendees: Option<int>, queue: seq<UserId>): set<UserId> {
    set u | u in queue && Confirmed(maxAttendees, queue, u)
  }

  // ---------- the code ----------

  class EventService {
    var events: map<EventId, Event>
    var entries: seq<Entry>

    function Current(): State
      reads this
    {
      State(events, entries)
    }

    constructor ()
      ensures Current() == EMPTY
    {
      events, entries := map[], [];
    }

    method CreateEvent(event: EventId, creator: UserId, maxAttendees: Option<int>) returns (error: Option<Error>)
      modifies this`events
      ensures Reply(Current(), error) == Step(old(Current()), Create(event, creator, maxAttendees))
    {
      if event in events || (maxAttendees.Some? && maxAttendees.value < 1) {
        return Some(Rejected);
      }
      events := events[event := Event(creator, maxAttendees, false)];
      return None;
    }

    method CancelEvent(event: EventId, user: UserId) returns (error: Option<Error>)
      modifies this`events
      ensures Reply(Current(), error) == Step(old(Current()), Cancel(event, user))
    {
      if event !in events || events[event].deleted {
        return Some(EventNotFound);
      }
      if events[event].creator != user {
        return Some(PermissionDenied);
      }
      events := events[event := events[event].(deleted := true)];
      return None;
    }

    /** `joined_count`: rows of the table that belong to the event. */
    method JoinedCount(event: EventId) returns (count: nat)
      ensures count == |Queue(entries, event)|
    {
      count := 0;
      var i := 0;
      while i < |entries|
        invariant i <= |entries|
        invariant count == |Queue(entries[..i], event)|
      {
        assert entries[..i + 1][..i] == entries[..i];
        if entries[i].event == event {
          count := count + 1;
        }
        i := i + 1;
      }
      assert entries[..|entries|] == entries;
    }

    /** The reply's position is a count, and it is the joiner's rank. */
    method JoinWaitlist(event: EventId, user: UserId) returns (error: Option<Error>, position: nat, confirmed: bool)
      modifies this`entries
      ensures Reply(Current(), error) == Step(old(Current()), Join(event, user))
      ensures error.None? ==>
                user in Queue(entries, event) && position == Rank(Queue(entries, event), user) &&
                confirmed == Confirmed(events[event].maxAttendees, Queue(entries, event), user)
    {
      position, confirmed := 0, false;
      if event !in events || events[event].deleted {
        return Some(EventNotFound), 0, false;
      }
      if Entry(event, user) in entries {
        return Some(AlreadyJoined), 0, false;
      }
      QueueMembers(entries, event, user);
      entries := entries + [Entry(event, user)];
      assert entries[..|entries| - 1] == old(entries);
      position := JoinedCount(event);
      confirmed := events[event].maxAttendees.None? || position <= events[event].maxAttendees.value;
      error := None;
    }

    method LeaveWaitlist(event: EventId, user: UserId) returns (error: Option<Error>)
      modifies this`entries
      ensures Reply(Current(), error) == Step(old(Current()), Leave(event, user))
    {
      if event !in events || events[event].deleted {
        return Some(EventNotFound);
      }
      if Entry(event, user) !in entries {
        return Some(NotOnWaitlist);
      }
      var kept: seq<Entry> := [];
      var i := 0;
      while i < |entries|
        invariant i <= |entries|
        invariant entries == old(entries)
        invariant kept == Without(entries[..i], Entry(event, user))
      {
        assert entries[..i + 1][..i] == entries[..i];
        if entries[i] != Entry(event, user) {
          kept := kept + [entries[i]];
        }
        i := i + 1;
      }
      assert entries[..|entries|] == entries;
      entries := kept;
      return None;
    }
  }

  // ---------- the queue of an event ----------

  lemma {:induction false} QueueMembers(entries: seq<Entry>, event: EventId, user: UserId)
    ensures user in Queue(entries, event) <==> Entry(event, user) in entries
  {
    if entries != [] {
      assert entries == entries[..|entries| - 1] + [entries[|entries| - 1]];
      QueueMembers(entries[..|entries| - 1], event, user);
    }
  }

  lemma QueueAppend(entries: seq<Entry>, e: Entry, event: EventId)
    ensures Queue(entries + [e], event) == Queue(entries, event) + if e.event == event then [e.user] else []
  {
    assert (entries + [e])[..|entries|] == entries;
  }

  /** `queue` with `user` taken out. */
  function Removed(queue: seq<UserId>, user: UserId): seq<UserId> {
    if queue == [] then []
    else
      var front, last := Removed(queue[..|queue| - 1], user), queue[|queue| - 1];
      if last == user then front else front + [last]
  }

  lemma RemovedAppend(queue: seq<UserId>, last: UserId, user: UserId)
    ensures Removed(queue + [last], user) == Removed(queue, user) + if last == user then [] else [last]
  {
    assert (queue + [last])[..|queue|] == queue;
  }

  lemma {:induction false} QueueWithout(entries: seq<Entry>, e: Entry, event: EventId)
    ensures Queue(Without(entries, e), event) ==
            if e.event == event then Removed(Queue(entries, event), e.user) else Queue(entries, event)
  {
    if entries != [] {
      var front, last := entries[..|entries| - 1], entries[|entries| - 1];
      assert entries == front + [last];
      QueueWithout(front, e, event);
      QueueAppend(front, last, event);
      QueueAppend(Without(front, e), last, event);
      RemovedAppend(Queue(front, event), last.user, e.user);
    }
  }

  /** The queue with place `k`, counted from 0, taken out. */
  function Gap(queue: seq<UserId>, k: nat): seq<UserId>
    requires k < |queue|
  {
    queue[..k] + queue[k + 1..]
  }

  lemma GapInPrefix(front: seq<UserId>, last: UserId, k: nat)
    requires k < |front|
    ensures Gap(front + [last], k) == Gap(front, k) + [last]
  {
  }

  lemma {:induction false} RemovedAbsent(queue: seq<UserId>, user: UserId)
    requires user !in queue
    ensures Removed(queue, user) == queue
  {
    if queue != [] {
      assert queue == queue[..|queue| - 1] + [queue[|queue| - 1]];
      RemovedAbsent(queue[..|queue| - 1], user);
    }
  }

  /** Taking out the holder of place k closes the gap. */
  lemma {:induction false} RemovedAtPlace(queue: seq<UserId>, k: nat)
    requires NoDuplicates(queue) && k < |queue|
    ensures Removed(queue, queue[k]) == Gap(queue, k)
  {
    var front, last := queue[..|queue| - 1], queue[|queue| - 1];
    assert queue == front + [last];
    if k == |front| {
      RemovedAbsent(front, last);
    } else {
      RemovedAtPlace(front, k);
      GapInPrefix(front, last, k);
    }
  }

  /** The same by rank. */
  lemma RemovedClosesGap(queue: seq<UserId>, user: UserId)
    requires NoDuplicates(queue)
    ensures Removed(queue, user) == if user in queue then Gap(queue, Rank(queue, user) - 1) else queue
  {
    if user in queue {
      RemovedAtPlace(queue, Rank(queue, user) - 1);
    } else {
      RemovedAbsent(queue, user);
    }
  }

  lemma RankInPrefix(front: seq<UserId>, last: UserId, user: UserId)
    requires NoDuplicates(front) && user in front
    ensures Rank(front + [last], user) == Rank(front, user)
  {
    var r := Rank(front, user);
    assert (front + [last])[r - 1] == user;
    assert forall i :: 0 <= i < r - 1 ==> (front + [last])[i] == front[i];
  }

  // ---------- results ----------

  ghost predicate QueuesOk(s: State) {
    forall e :: NoDuplicates(Queue(s.entries, e))
  }

  /** What one operation does to one queue: nothing, a new last place, or a removal. */
  lemma StepQueue(s: State, op: Op, event: EventId)
    ensures var q, q' := Queue(s.entries, event), Queue(Step(s, op).state.entries, event);
            || q' == q
            || (op.Join? && op.event == event && op.user !in q && q' == q + [op.user])
            || (op.Leave? && op.event == event && q' == Removed(q, op.user))
  {
    var q := Queue(s.entries, event);
    assert q + [] == q;
    match op
    case Join(e, u) =>
      QueueAppend(s.entries, Entry(e, u), event);
      QueueMembers(s.entries, event, u);
    case Leave(e, u) =>
      QueueWithout(s.entries, Entry(e, u), event);
    case _ =>
  }

  lemma {:induction false} RemovedDistinct(queue: seq<UserId>, user: UserId)
    requires NoDuplicates(queue)
    ensures NoDuplicates(Removed(queue, user))
  {
    if queue != [] {
      var front, last := queue[..|queue| - 1], queue[|queue| - 1];
      assert queue == front + [last];
      RemovedDistinct(front, user);
      RemovedLosesOnly(front, user, last);
    }
  }

  lemma StepKeepsQueues(s: State, op: Op)
    requires QueuesOk(s)
    ensures QueuesOk(Step(s, op).state)
  {
    forall e | true
      ensures NoDuplicates(Queue(Step(s, op).state.entries, e))
    {
      StepQueue(s, op, e);
      if op.Leave? {
        RemovedDistinct(Queue(s.entries, e), op.user);
      }
    }
  }

  /** Nobody is queued twice, in any reachable state. */
  lemma {:induction false} QueuesHold(ops: seq<Op>)
    ensures QueuesOk(Run(EMPTY, ops))
  {
    if ops != [] {
      QueuesHold(ops[..|ops| - 1]);
      StepKeepsQueues(Run(EMPTY, ops[..|ops| - 1]), ops[|ops| - 1]);
    } else {
      assert forall e :: Queue([], e) == [];
    }
  }

  /** One operation never worsens the rank of someone who stays. */
  lemma StepNeverRaisesRank(s: State, op: Op, event: EventId, user: UserId)
    requires QueuesOk(s) && user in Queue(s.entries, event) && op != Leave(event, user)
    ensures var q := Queue(Step(s, op).state.entries, event);
            user in q && Rank(q, user) <= Rank(Queue(s.entries, event), user)
  {
    var q := Queue(s.entries, event);
    StepQueue(s, op, event);
    if op.Join? {
      RankInPrefix(q, op.user, user);
    } else if op.Leave? && op.event == event {
      RemovedKeepsRank(q, op.user, user);
    }
  }

  /** Place `k` falls out; the holder of place `r` moves up if it was further back. */
  lemma RankAfterGap(queue: seq<UserId>, k: nat, r: nat)
    requires NoDuplicates(queue) && k < |queue| && r < |queue| && k != r
    ensures var q := Gap(queue, k);
            queue[r] in q && NoDuplicates(q) && Rank(q, queue[r]) == if k < r then r else r + 1
  {
    var q := Gap(queue, k);
    assert forall i :: 0 <= i < k ==> q[i] == queue[i];
    assert forall i :: k <= i < |q| ==> q[i] == queue[i + 1];
    var place := if k < r then r - 1 else r;
    assert q[place] == queue[r];
    RankOfElement(q, place);
  }

  lemma GapKeepsRank(queue: seq<UserId>, leaver: UserId, user: UserId)
    requires NoDuplicates(queue) && user in queue && leaver in queue && leaver != user
    ensures var q := Gap(queue, Rank(queue, leaver) - 1);
            user in q && NoDuplicates(q) &&
            Rank(q, user) == Rank(queue, user) - if Rank(queue, leaver) < Rank(queue, user) then 1 else 0
  {
    var k, r := Rank(queue, leaver) - 1, Rank(queue, user) - 1;
    assert queue[k] == leaver && queue[r] == user;
    RankAfterGap(queue, k, r);
  }

  lemma RemovedKeepsRank(queue: seq<UserId>, leaver: UserId, user: UserId)
    requires NoDuplicates(queue) && user in queue && leaver != user
    ensures var q := Removed(queue, leaver);
            user in q && NoDuplicates(q) &&
            Rank(q, user) == Rank(queue, user) - if leaver in queue && Rank(queue, leaver) < Rank(queue, user) then 1 else 0
  {
    RemovedClosesGap(queue, leaver);
    if leaver in queue {
      GapKeepsRank(queue, leaver, user);
    }
  }

  /** Ranks never increase while their owner stays, over any run without that leave. */
  lemma {:induction false} RanksNeverIncrease(ops: seq<Op>, more: seq<Op>, event: EventId, user: UserId)
    requires user in Queue(Run(EMPTY, ops).entries, event) && Leave(event, user) !in more
    ensures var q := Queue(Run(Run(EMPTY, ops), more).entries, event);
            user in q && Rank(q, user) <= Rank(Queue(Run(EMPTY, ops).entries, event), user)
  {
    if more != [] {
      var front, last := more[..|more| - 1], more[|more| - 1];
      assert more == front + [last];
      RanksNeverIncrease(ops, front, event, user);
      RunAppend(ops, front);
      QueuesHold(ops + front);
      StepNeverRaisesRank(Run(Run(EMPTY, ops), front), last, event, user);
    }
  }

  lemma {:induction false} RunAppend(ops: seq<Op>, more: seq<Op>)
    ensures Run(EMPTY, ops + more) == Run(Run(EMPTY, ops), more)
  {
    if more == [] {
      assert ops + more == ops;
    } else {
      assert (ops + more)[..|ops + more| - 1] == ops + more[..|more| - 1];
      RunAppend(ops, more[..|more| - 1]);
    }
  }

  lemma StepKeepsEvents(s: State, op: Op, event: EventId)
    requires event in s.events
    ensures var t := Step(s, op).state;
            event in t.events && t.events[event].maxAttendees == s.events[event].maxAttendees &&
            (s.events[event].deleted ==> t.events[event].deleted)
  {
  }

  lemma {:induction false} RunKeepsEvents(start: State, more: seq<Op>, event: EventId)
    requires event in start.events
    ensures var t := Run(start, more);
            event in t.events && t.events[event].maxAttendees == start.events[event].maxAttendees &&
            (start.events[event].deleted ==> t.events[event].deleted)
  {
    if more != [] {
      RunKeepsEvents(start, more[..|more| - 1], event);
      StepKeepsEvents(Run(start, more[..|more| - 1]), more[|more| - 1], event);
    }
  }

  /** A confirmed seat is kept until its holder leaves. */
  lemma ConfirmedSeatsAreKept(ops: seq<Op>, more: seq<Op>, event: EventId, user: UserId)
    requires var s := Run(EMPTY, ops);
             event in s.events && Confirmed(s.events[event].maxAttendees, Queue(s.entries, event), user)
    requires Leave(event, user) !in more
    ensures var t := Run(Run(EMPTY, ops), more);
            event in t.events && Confirmed(t.events[event].maxAttendees, Queue(t.entries, event), user)
  {
    RanksNeverIncrease(ops, more, event, user);
    RunKeepsEvents(Run(EMPTY, ops), more, event);
  }

  /** Cancelling is final: the queue of a cancelled event never changes again. */
  lemma {:induction false} CancelledQueuesAreFrozen(start: State, more: seq<Op>, event: EventId)
    requires event in start.events && start.events[event].deleted
    ensures Queue(Run(start, more).entries, event) == Queue(start.entries, event)
    ensures forall user :: Step(Run(start, more), Join(event, user)).error == Some(EventNotFound)
  {
    RunKeepsEvents(start, more, event);
    if more != [] {
      var front, last := more[..|more| - 1], more[|more| - 1];
      CancelledQueuesAreFrozen(start, front, event);
      RunKeepsEvents(start, front, event);
      var s := Run(start, front);
      match last
      case Join(e, u) => QueueAppend(s.entries, Entry(e, u), event);
      case Leave(e, u) => QueueWithout(s.entries, Entry(e, u), event);
      case _ =>
    }
  }

  /** The confirmed attendees are the first `maxAttendees` of the queue; there are
      min(maxAttendees, queue length) of them. */
  lemma ConfirmedAreTheFirst(capacity: nat, queue: seq<UserId>)
    requires NoDuplicates(queue)
    ensures ConfirmedSet(Some(capacity), queue) == Elements(Take(queue, capacity))
    ensures |ConfirmedSet(Some(capacity), queue)| == Min(capacity, |queue|)
  {
    var first := Take(queue, capacity);
    forall u | true
      ensures u in ConfirmedSet(Some(capacity), queue) <==> u in first
    {
      if u in first {
        var i :| 0 <= i < |first| && first[i] == u;
        assert queue[i] == u;
      }
      if u in ConfirmedSet(Some(capacity), queue) {
        assert first[Rank(queue, u) - 1] == u;
      }
    }
    assert ConfirmedSet(Some(capacity), queue) == Elements(first);
    ElementsCounted(first);
  }

  lemma RanksAreDistinct(queue: seq<UserId>, u: UserId, v: UserId)
    requires u in queue && v in queue && u != v
    ensures Rank(queue, u) != Rank(queue, v)
  {
    assert queue[Rank(queue, u) - 1] == u && queue[Rank(queue, v) - 1] == v;
  }

  /** Who is confirmed once `leaver` is gone. */
  lemma ConfirmedAfterLeaving(capacity: nat, queue: seq<UserId>, leaver: UserId, u: UserId)
    requires NoDuplicates(queue) && leaver in queue
    ensures Confirmed(Some(capacity), Removed(queue, leaver), u) <==>
            u in queue && u != leaver &&
            (Rank(queue, u) <= capacity || (Rank(queue, u) == capacity + 1 && Rank(queue, leaver) <= capacity))
  {
    var q := Removed(queue, leaver);
    if u == leaver || u !in queue {
      RemovedLosesOnly(queue, leaver, u);
    } else {
      RemovedKeepsRank(queue, leaver, u);
      RanksAreDistinct(queue, leaver, u);
    }
  }

  lemma {:induction false} RemovedLosesOnly(queue: seq<UserId>, leaver: UserId, u: UserId)
    ensures u in Removed(queue, leaver) <==> u in queue && u != leaver
  {
    if queue != [] {
      assert queue == queue[..|queue| - 1] + [queue[|queue| - 1]];
      RemovedLosesOnly(queue[..|queue| - 1], leaver, u);
    }
  }

  lemma RankOfElement(queue: seq<UserId>, i: nat)
    requires NoDuplicates(queue) && i < |queue|
    ensures Rank(queue, queue[i]) == i + 1
  {
  }

  /** The seats after `leaver` goes: a waiter frees nothing; a confirmed leaver
      hands the seat to the first waiter, if there is one. */
  ghost function SeatsAfterLeaving(capacity: nat, queue: seq<UserId>, leaver: UserId): set<UserId> {
    var seats := ConfirmedSet(Some(capacity), queue);
    if leaver !in seats then seats
    else seats - {leaver} + if |queue| > capacity then {queue[capacity]} else {}
  }

  lemma LeavingPromotesTheFirstWaiter(capacity: nat, queue: seq<UserId>, leaver: UserId)
    requires NoDuplicates(queue) && leaver in queue
    ensures ConfirmedSet(Some(capacity), Removed(queue, leaver)) == SeatsAfterLeaving(capacity, queue, leaver)
  {
    forall u | true
      ensures u in ConfirmedSet(Some(capacity), Removed(queue, leaver)) <==>
              u in SeatsAfterLeaving(capacity, queue, leaver)
    {
      ConfirmedAfterLeaving(capacity, queue, leaver, u);
      if |queue| > capacity {
        RankOfElement(queue, capacity);
        if u in queue && u != queue[capacity] {
          RanksAreDistinct(queue, u, queue[capacity]);
        }
      }
    }
  }

  /** The same, for the state after an accepted leave. */
  lemma LeaveReassignsSeats(ops: seq<Op>, event: EventId, leaver: UserId, capacity: nat)
    requires var s := Run(EMPTY, ops);
             Step(s, Leave(event, leaver)).error.None? && s.events[event].maxAttendees == Some(capacity)
    ensures var s := Run(EMPTY, ops);
            var after := Step(s, Leave(event, leaver)).state;
            ConfirmedSet(Some(capacity), Queue(after.entries, event)) ==
            SeatsAfterLeaving(capacity, Queue(s.entries, event), leaver)
  {
    var s := Run(EMPTY, ops);
    QueuesHold(ops);
    QueueMembers(s.entries, event, leaver);
    QueueWithout(s.entries, Entry(event, leaver), event);
    LeavingPromotesTheFirstWaiter(capacity, Queue(s.entries, event), leaver);
  }

  // ---------- what the accepted operations achieve ----------

  /** The last operation of the run was accepted. */
  predicate Accepted(ops: seq<Op>)
    requires ops != []
  {
    Step(Run(EMPTY, ops[..|ops| - 1]), ops[|ops| - 1]).error.None?
  }

  /** The event as its accepted creation stored it. */
  function Created(ops: seq<Op>, event: EventId): Option<(UserId, Option<int>)> {
    if ops == [] then None
    else
      var last := ops[|ops| - 1];
      if Accepted(ops) && last.Create? && last.event == event then Some((last.creator, last.maxAttendees))
      else Created(ops[..|ops| - 1], event)
  }

  predicate Cancelled(ops: seq<Op>, event: EventId) {
    ops != [] &&
    ((Accepted(ops) && ops[|ops| - 1].Cancel? && ops[|ops| - 1].event == event) || Cancelled(ops[..|ops| - 1], event))
  }

  /** Who is queued, in the order of the joins that were not taken back. */
  function Queued(ops: seq<Op>, event: EventId): seq<UserId> {
    if ops == [] then []
    else
      var before, last := Queued(ops[..|ops| - 1], event), ops[|ops| - 1];
      if Accepted(ops) && last.Join? && last.event == event then before + [last.user]
      else if Accepted(ops) && last.Leave? && last.event == event then Removed(before, last.user)
      else before
  }

  lemma {:induction false} EventsFollowRequests(ops: seq<Op>, event: EventId)
    ensures var events := Run(EMPTY, ops).events;
            && (Created(ops, event).Some? <==> event in events)
            && (event in events ==> Created(ops, event) == Some((events[event].creator, events[event].maxAttendees)))
            && (Cancelled(ops, event) <==> event in events && events[event].deleted)
  {
    if ops != [] {
      EventsFollowRequests(ops[..|ops| - 1], event);
    }
  }

  lemma {:induction false} QueuesFollowRequests(ops: seq<Op>, event: EventId)
    ensures Queue(Run(EMPTY, ops).entries, event) == Queued(ops, event)
  {
    if ops != [] {
      var s, last := Run(EMPTY, ops[..|ops| - 1]), ops[|ops| - 1];
      QueuesFollowRequests(ops[..|ops| - 1], event);
      match last
      case Join(e, u) => QueueAppend(s.entries, Entry(e, u), event);
      case Leave(e, u) => QueueWithout(s.entries, Entry(e, u), event);
      case _ =>
    }
  }

  /** In every reachable state, by the requests alone: anyone not yet queued may join an event
      that was created and not cancelled, however full it is; whoever is queued may leave it;
      its creator alone may cancel it; and a new event needs a capacity of at least one. */
  lemma AcceptedIff(ops: seq<Op>, event: EventId, user: UserId, maxAttendees: Option<int>)
    ensures var s := Run(EMPTY, ops);
            var live := Created(ops, event).Some? && !Cancelled(ops, event);
            && Step(s, Join(event, user)).error ==
                 (if !live then Some(EventNotFound) else if user in Queued(ops, event) then Some(AlreadyJoined) else None)
            && Step(s, Leave(event, user)).error ==
                 (if !live then Some(EventNotFound) else if user !in Queued(ops, event) then Some(NotOnWaitlist) else None)
            && Step(s, Cancel(event, user)).error ==
                 (if !live then Some(EventNotFound) else if Created(ops, event).value.0 != user then Some(PermissionDenied) else None)
            && (Step(s, Create(event, user, maxAttendees)).error.None? <==>
                  Created(ops, event).None? && (maxAttendees.Some? ==> maxAttendees.value >= 1))
  {
    EventsFollowRequests(ops, event);
    QueuesFollowRequests(ops, event);
    QueueMembers(Run(EMPTY, ops).entries, event, user);
  }

  /** Without a capacity everyone queued is confirmed; with one, exactly the first so many. */
  lemma ConfirmedByRequests(ops: seq<Op>, event: EventId, user: UserId)
    requires Created(ops, event).Some?
    ensures var s := Run(EMPTY, ops);
            event in s.events &&
            (Confirmed(s.events[event].maxAttendees, Queue(s.entries, event), user) <==>
             var capacity := Created(ops, event).value.1;
             user in if capacity.None? || capacity.value >= |Queued(ops, event)| then Queued(ops, event)
                     else Queued(ops, event)[..Max(0, capacity.value)])
  {
    EventsFollowRequests(ops, event);
    QueuesFollowRequests(ops, event);
    QueuesHold(ops);
    var capacity, queue := Created(ops, event).value.1, Queued(ops, event);
    if capacity.Some? {
      if capacity.value >= 0 {
        ConfirmedAreTheFirst(capacity.value, queue);
        assert user in ConfirmedSet(capacity, queue) <==> user in Elements(Take(queue, capacity.value));
      }
    }
  }
}
