/** Challenge participation, progress and badge awards
    (backend/app/domains/challenge/service.py and repository.py).

    `Handle` is one service call or event handler on the tables; `Transact`
    wraps it in a session that commits or rolls back; class `ChallengeService`
    is the code, proved equal to `Transact`. */
module Challenges {
  import opened Prelude
  import EventBus

  type UserId = nat
  type BadgeId = nat
  type ChallengeId = nat
  type Time = int

  // ---------- tables ----------

  datatype Kind = BooksCount | ReadingTime | Streak | Genre

  datatype Mode = Accumulate | Maximum

  datatype Challenge = Challenge(
    kind: Kind,
    target: int,
    startsAt: Time,
    endsAt: Time,
    badge: Option<BadgeId>,
    limited: bool,
    exclusiveUntil: Option<Time>,
    exclusiveBadge: Option<BadgeId>)

  datatype Participant = Participant(current: int, achievedAt: Option<Time>)

  /** `owned` is the user_badges table, one row per (user, badge). */
  datatype Db = Db(
    badges: map<BadgeId, string>,
    challenges: map<ChallengeId, Challenge>,
    participants: map<(ChallengeId, UserId), Participant>,
    owned: set<(UserId, BadgeId)>)

  datatype BadgeEarned = BadgeEarned(user: UserId, badge: BadgeId, name: string)

  // ---------- progress events ----------

  datatype ProgressEvent =
    | ReadingSessionCompleted(user: UserId, durationSec: int)
    | UserBookCompleted(user: UserId)
    | UserGradeRecomputed(user: UserId, streakDays: int)
  {
    function Drives(): Kind {
      match this
      case ReadingSessionCompleted(_, _) => ReadingTime
      case UserBookCompleted(_) => BooksCount
      case UserGradeRecomputed(_, _) => Streak
    }

    function Delta(): int {
      match this
      case ReadingSessionCompleted(_, durationSec) => durationSec
      case UserBookCompleted(_) => 1
      case UserGradeRecomputed(_, streakDays) => streakDays
    }
  }

  function ModeOf(kind: Kind): Mode {
    if kind == Streak then Maximum else Accumulate
  }

  function Advanced(mode: Mode, current: int, delta: int): int {
    if mode == Accumulate then current + delta else Max(current, delta)
  }

  // ---------- advancing challenges ----------

  /** The tables as a transaction sees them, with the events it has staged. */
  datatype Work = Work(db: Db, staged: seq<BadgeEarned>)

  predicate Active(db: Db, user: UserId, kind: Kind, dbNow: Time, c: ChallengeId) {
    && c in db.challenges
    && (c, user) in db.participants
    && db.challenges[c].kind == kind
    && db.challenges[c].startsAt <= dbNow <= db.challenges[c].endsAt
    && db.participants[(c, user)].achievedAt.None?
  }

  /** `rows` is some listing of the active, unachieved challenges; SQL fixes no order. */
  ghost predicate IsListing(db: Db, user: UserId, kind: Kind, dbNow: Time, rows: seq<ChallengeId>) {
    && NoDuplicates(rows)
    && forall c :: c in rows <==> Active(db, user, kind, dbNow, c)
  }

  predicate Joined(db: Db, user: UserId, rows: seq<ChallengeId>) {
    forall c :: c in rows ==> c in db.challenges && (c, user) in db.participants
  }

  /** Insert the badge row and stage its event, unless the badge is unknown or already owned. */
  function Grant(w: Work, user: UserId, badge: BadgeId): Work {
    if badge in w.db.badges && (user, badge) !in w.db.owned then
      Work(w.db.(owned := w.db.owned + {(user, badge)}),
           w.staged + [BadgeEarned(user, badge, w.db.badges[badge])])
    else w
  }

  function GrantIf(w: Work, condition: bool, user: UserId, badge: Option<BadgeId>): Work {
    if condition && badge.Some? then Grant(w, user, badge.value) else w
  }

  predicate ExclusiveOpen(ch: Challenge, now: Time) {
    ch.limited && ch.exclusiveUntil.Some? && now <= ch.exclusiveUntil.value
  }

  function NewRow(ch: Challenge, p: Participant, delta: int, now: Time): Participant {
    var value := Advanced(ModeOf(ch.kind), p.current, delta);
    Participant(value, if value >= ch.target then Some(now) else None)
  }

  function AdvanceOne(w: Work, user: UserId, c: ChallengeId, delta: int, now: Time): Work
    requires c in w.db.challenges && (c, user) in w.db.participants
  {
    var ch := w.db.challenges[c];
    var row := NewRow(ch, w.db.participants[(c, user)], delta, now);
    var w1 := w.(db := w.db.(participants := w.db.participants[(c, user) := row]));
    if row.achievedAt.None? then w1
    else GrantIf(GrantIf(w1, true, user, ch.badge), ExclusiveOpen(ch, now), user, ch.exclusiveBadge)
  }

  /** One row is advanced; every other row and all challenges stay as they were. */
  lemma AdvanceOneTouchesOneRow(w: Work, user: UserId, c: ChallengeId, delta: int, now: Time)
    requires c in w.db.challenges && (c, user) in w.db.participants
    ensures var r := AdvanceOne(w, user, c, delta, now);
            r.db.challenges == w.db.challenges && r.db.badges == w.db.badges &&
            r.db.participants ==
              w.db.participants[(c, user) := NewRow(w.db.challenges[c], w.db.participants[(c, user)], delta, now)]
  {
  }

  function AdvanceRows(w: Work, user: UserId, rows: seq<ChallengeId>, delta: int, now: Time): (r: Work)
    requires Joined(w.db, user, rows)
    ensures r.db.challenges == w.db.challenges && r.db.badges == w.db.badges
    ensures r.db.participants.Keys == w.db.participants.Keys
  {
    if rows == [] then w
    else AdvanceOne(AdvanceRows(w, user, rows[..|rows| - 1], delta, now), user, rows[|rows| - 1], delta, now)
  }

  // ---------- requests ----------

  datatype Error =
    | ChallengeNotFound | ChallengeEnded | AlreadyJoined | NotParticipant
    | BadgeNotFound | ChallengeExpired | MultipleResults | Rejected

  /** `dbNow` is the transaction clock of the database, `now` the application clock. */
  datatype Request =
    | Progress(event: ProgressEvent, rows: seq<ChallengeId>, dbNow: Time, now: Time)
    | Join(challenge: ChallengeId, user: UserId, now: Time)
    | Leave(challenge: ChallengeId, user: UserId)
    | AwardBadge(user: UserId, badge: BadgeId, now: Time)
    | CreateBadge(id: BadgeId, name: string)
    | CreateChallenge(id: ChallengeId, row: Challenge)

  datatype Reply = Reply(work: Work, error: Option<Error>)

  /** Limited challenges that name `badge` as their exclusive badge. */
  ghost predicate Claims(db: Db, c: ChallengeId, badge: BadgeId) {
    c in db.challenges && db.challenges[c].limited && db.challenges[c].exclusiveBadge == Some(badge)
  }

  ghost predicate Expired(db: Db, c: ChallengeId, now: Time)
    requires c in db.challenges
  {
    db.challenges[c].exclusiveUntil.Some? && now > db.challenges[c].exclusiveUntil.value
  }

  /** `scalar_one_or_none` raises when two limited challenges claim the badge. */
  ghost function DeadlineGuard(db: Db, badge: BadgeId, now: Time): Option<Error> {
    if exists c, d :: c != d && Claims(db, c, badge) && Claims(db, d, badge) then Some(MultipleResults)
    else if exists c :: Claims(db, c, badge) && Expired(db, c, now) then Some(ChallengeExpired)
    else None
  }

  predicate KnownBadge(db: Db, badge: Option<BadgeId>) {
    badge.Some? ==> badge.value in db.badges
  }

  ghost predicate ValidRequest(db: Db, req: Request) {
    req.Progress? ==> IsListing(db, req.event.user, req.event.Drives(), req.dbNow, req.rows)
  }

  ghost function Handle(db: Db, req: Request): Reply
    requires ValidRequest(db, req)
  {
    var same := Work(db, []);
    match req
    case Progress(ev, rows, _, now) =>
      Reply(AdvanceRows(same, ev.user, rows, ev.Delta(), now), None)
    case Join(c, u, now) =>
      if c !in db.challenges then Reply(same, Some(ChallengeNotFound))
      else if db.challenges[c].endsAt < now then Reply(same, Some(ChallengeEnded))
      else if (c, u) in db.participants then Reply(same, Some(AlreadyJoined))
      else Reply(Work(db.(participants := db.participants[(c, u) := Participant(0, None)]), []), None)
    case Leave(c, u) =>
      if (c, u) !in db.participants then Reply(same, Some(NotParticipant))
      else Reply(Work(db.(participants := db.participants - {(c, u)}), []), None)
    case AwardBadge(u, b, now) =>
      if b !in db.badges then Reply(same, Some(BadgeNotFound))
      else if DeadlineGuard(db, b, now).Some? then Reply(same, DeadlineGuard(db, b, now))
      else Reply(Grant(same, u, b), None)
    case CreateBadge(id, name) =>
      if id in db.badges then Reply(same, Some(Rejected))
      else Reply(Work(db.(badges := db.badges[id := name]), []), None)
    case CreateChallenge(id, row) =>
      if id in db.challenges || row.target <= 0 || !KnownBadge(db, row.badge) || !KnownBadge(db, row.exclusiveBadge) then
        Reply(same, Some(Rejected))
      else Reply(Work(db.(challenges := db.challenges[id := row]), []), None)
  }

  // ---------- transactions ----------

  /** Durable tables, and what the bus has been given. */
  datatype World = World(db: Db, published: seq<BadgeEarned>)

  const EMPTY_WORLD := World(Db(map[], map[], map[], {}), [])

  type SessionOp = EventBus.Op<BadgeEarned>

  function Registrations(n: nat): seq<SessionOp> {
    seq(n, _ => EventBus.Register)
  }

  function Stagings(events: seq<BadgeEarned>): seq<SessionOp> {
    seq(|events|, i requires 0 <= i < |events| => EventBus.Stage(events[i]))
  }

  function SessionLog(hooks: nat, events: seq<BadgeEarned>, commits: bool): seq<SessionOp> {
    Registrations(hooks) + Stagings(events) + [if commits then EventBus.Commit else EventBus.Rollback]
  }

  /** One transaction on a fresh session that registered `hooks` times; it
      commits when the handler succeeds and the database lets it (`dbCommits`). */
  datatype Transaction = Transaction(request: Request, hooks: nat, dbCommits: bool)

  ghost predicate Commits(db: Db, t: Transaction)
    requires ValidRequest(db, t.request)
  {
    t.dbCommits && Handle(db, t.request).error.None?
  }

  ghost function Transact(w: World, t: Transaction): World
    requires ValidRequest(w.db, t.request)
  {
    var work := Handle(w.db, t.request).work;
    var log := SessionLog(t.hooks, work.staged, Commits(w.db, t));
    World(if Commits(w.db, t) then work.db else w.db, w.published + EventBus.After(log).dispatched)
  }

  ghost predicate ValidRun(start: World, run: seq<Transaction>)
    decreases |run|, 0
  {
    run == [] || (
      var front, last := run[..|run| - 1], run[|run| - 1];
      ValidRun(start, front) && last.hooks > 0 && ValidRequest(RunWorld(start, front).db, last.request))
  }

  ghost function RunWorld(start: World, run: seq<Transaction>): World
    requires ValidRun(start, run)
    decreases |run|, 1
  {
    if run == [] then start else Transact(RunWorld(start, run[..|run| - 1]), run[|run| - 1])
  }

  // ---------- the code ----------

  lemma {:induction false} AfterRegistrations(n: nat)
    ensures EventBus.After(Registrations(n)) == EventBus.SessionState([], n, n, [])
  {
    if n > 0 {
      assert Registrations(n) == Registrations(n - 1) + [EventBus.Register];
      AfterRegistrations(n - 1);
      EventBus.AfterAppend(Registrations(n - 1), EventBus.Register);
    }
  }

  lemma StagingsAppend(front: seq<BadgeEarned>, last: BadgeEarned)
    ensures Stagings(front + [last]) == Stagings(front) + [EventBus.Stage(last)]
  {
  }

  lemma {:induction false} AfterStagings(ops: seq<SessionOp>, events: seq<BadgeEarned>)
    ensures var s := EventBus.After(ops);
            EventBus.After(ops + Stagings(events)) == s.(queue := s.queue + events)
  {
    if events == [] {
      assert ops + Stagings(events) == ops;
    } else {
      var front, last := events[..|events| - 1], events[|events| - 1];
      assert front + [last] == events;
      AfterStagings(ops, front);
      StagingsAppend(front, last);
      assert ops + (Stagings(front) + [EventBus.Stage(last)]) == (ops + Stagings(front)) + [EventBus.Stage(last)];
      EventBus.AfterAppend(ops + Stagings(front), EventBus.Stage(last));
    }
  }

  /** A registered session hands the bus everything it staged, or nothing. */
  lemma RegisteredSessionDelivers(hooks: nat, events: seq<BadgeEarned>, commits: bool)
    requires hooks > 0
    ensures EventBus.After(SessionLog(hooks, events, commits)).dispatched == if commits then events else []
  {
    AfterRegistrations(hooks);
    AfterStagings(Registrations(hooks), events);
    EventBus.AfterAppend(Registrations(hooks) + Stagings(events), if commits then EventBus.Commit else EventBus.Rollback);
  }

  type JoinedRow = (ChallengeId, Challenge, Participant)

  function Ids(rows: seq<JoinedRow>): seq<ChallengeId> {
    seq(|rows|, i requires 0 <= i < |rows| => rows[i].0)
  }

  /** `rows` agrees with the tables from position `i` on. */
  ghost predicate FreshFrom(db: Db, user: UserId, rows: seq<JoinedRow>, mode: Mode, i: nat) {
    forall j :: i <= j < |rows| ==>
      var (c, ch, p) := rows[j];
      c in db.challenges && (c, user) in db.participants &&
      ch == db.challenges[c] && p == db.participants[(c, user)] && ModeOf(ch.kind) == mode
  }

  /** Advancing one row of a duplicate-free listing leaves the later rows fresh. */
  lemma LaterRowsStayFresh(w: Work, user: UserId, rows: seq<JoinedRow>, mode: Mode, i: nat, delta: int, now: Time)
    requires NoDuplicates(Ids(rows)) && i < |rows| && FreshFrom(w.db, user, rows, mode, i)
    ensures FreshFrom(AdvanceOne(w, user, rows[i].0, delta, now).db, user, rows, mode, i + 1)
  {
    AdvanceOneTouchesOneRow(w, user, rows[i].0, delta, now);
    forall j | i < j < |rows|
      ensures rows[j].0 != rows[i].0
    {
      assert Ids(rows)[j] == rows[j].0 && Ids(rows)[i] == rows[i].0;
    }
  }

  class ChallengeService {
    var badges: map<BadgeId, string>
    var challenges: map<ChallengeId, Challenge>
    var participants: map<(ChallengeId, UserId), Participant>
    var owned: set<(UserId, BadgeId)>
    var published: seq<BadgeEarned>

    function Tables(): Db
      reads this
    {
      Db(badges, challenges, participants, owned)
    }

    function Current(): World
      reads this
    {
      World(Tables(), published)
    }

    constructor ()
      ensures Current() == EMPTY_WORLD
    {
      badges, challenges, participants, owned, published := map[], map[], map[], {}, [];
    }

    method ListUserActiveChallenges(user: UserId, kind: Kind, dbNow: Time)
      returns (rows: seq<JoinedRow>)
      ensures IsListing(Tables(), user, kind, dbNow, Ids(rows))
      ensures FreshFrom(Tables(), user, rows, ModeOf(kind), 0)
    {
      rows := [];
      var unread := challenges.Keys;
      while unread != {}
        invariant unread <= challenges.Keys
        invariant NoDuplicates(Ids(rows)) && FreshFrom(Tables(), user, rows, ModeOf(kind), 0)
        invariant forall c :: c in Ids(rows) <==> c !in unread && Active(Tables(), user, kind, dbNow, c)
        decreases unread
      {
        var c :| c in unread;
        unread := unread - {c};
        if Active(Tables(), user, kind, dbNow, c) {
          ghost var before := Ids(rows);
          rows := rows + [(c, challenges[c], participants[(c, user)])];
          assert Ids(rows) == before + [c];
        }
      }
    }

    /** The tables and the staged queue: what the running transaction can change. */
    function InProgress(session: EventBus.Session<BadgeEarned>): Work
      reads this, session
    {
      Work(Tables(), session.queue)
    }

    method AwardOnce(session: EventBus.Session<BadgeEarned>, user: UserId, badge: BadgeId)
      modifies this`owned, session`queue
      ensures InProgress(session) == Grant(old(InProgress(session)), user, badge)
    {
      if badge in badges && (user, badge) !in owned {
        owned := owned + {(user, badge)};
        session.StageEvent(BadgeEarned(user, badge, badges[badge]));
      }
    }

    /** One row of the loop of `_advance_challenges`. */
    method AdvanceChallenge(session: EventBus.Session<BadgeEarned>, user: UserId, c: ChallengeId, ch: Challenge,
                            p: Participant, delta: int, mode: Mode, now: Time)
      requires c in challenges && (c, user) in participants
      requires ch == challenges[c] && p == participants[(c, user)] && mode == ModeOf(ch.kind)
      modifies this`owned, this`participants, session`queue
      ensures InProgress(session) == AdvanceOne(old(InProgress(session)), user, c, delta, now)
    {
      var value := if mode == Accumulate then p.current + delta else Max(p.current, delta);
      var achievedAt := if value >= ch.target then Some(now) else None;
      participants := participants[(c, user) := Participant(value, achievedAt)];
      if achievedAt.None? {
        return;
      }
      if ch.badge.Some? {
        AwardOnce(session, user, ch.badge.value);
      }
      if ch.limited && ch.exclusiveBadge.Some? {
        if ch.exclusiveUntil.Some? && now <= ch.exclusiveUntil.value {
          AwardOnce(session, user, ch.exclusiveBadge.value);
        }
      }
    }

    /** The loop of `_advance_challenges`, over rows read before any was changed. */
    method AdvanceChallenges(session: EventBus.Session<BadgeEarned>, user: UserId,
                             rows: seq<JoinedRow>,
                             delta: int, mode: Mode, now: Time)
      requires NoDuplicates(Ids(rows)) && FreshFrom(Tables(), user, rows, mode, 0)
      modifies this`owned, this`participants, session`queue
      ensures InProgress(session) == AdvanceRows(old(InProgress(session)), user, Ids(rows), delta, now)
    {
      ghost var start := InProgress(session);
      ghost var ids := Ids(rows);
      assert Joined(start.db, user, ids);
      var i := 0;
      while i < |rows|
        invariant i <= |rows|
        invariant InProgress(session) == AdvanceRows(start, user, ids[..i], delta, now)
        invariant FreshFrom(Tables(), user, rows, mode, i)
      {
        assert ids[..i + 1][..i] == ids[..i];
        var (c, ch, p) := rows[i];
        LaterRowsStayFresh(InProgress(session), user, rows, mode, i, delta, now);
        AdvanceChallenge(session, user, c, ch, p, delta, mode, now);
        i := i + 1;
      }
      assert ids[..|ids|] == ids;
    }

    /** The end of a registered session: the tables stay and the staged events go
        to the bus, or the tables go back and the events are dropped. */
    method Finish(session: EventBus.Session<BadgeEarned>, commits: bool, ownedBefore: set<(UserId, BadgeId)>,
                  participantsBefore: map<(ChallengeId, UserId), Participant>)
      requires session.commitHooks == 1 && session.rollbackHooks == 1 && session.dispatched == []
      modifies this`owned, this`participants, this`published, session
      ensures if commits then owned == old(owned) && participants == old(participants)
              else owned == ownedBefore && participants == participantsBefore
      ensures published == old(published) + if commits then old(session.queue) else []
    {
      if commits {
        session.FireCommit();
      } else {
        owned, participants := ownedBefore, participantsBefore;
        session.FireRollback();
      }
      published := published + session.dispatched;
    }

    /** A progress handler: a fresh session, one registration, one commit. */
    method HandleProgressEvent(event: ProgressEvent, dbNow: Time, now: Time, dbCommits: bool)
      returns (rows: seq<ChallengeId>)
      modifies this
      ensures IsListing(old(Tables()), event.user, event.Drives(), dbNow, rows)
      ensures Current() == Transact(old(Current()), Transaction(Progress(event, rows, dbNow, now), 1, dbCommits))
    {
      var session := new EventBus.Session<BadgeEarned>();
      session.CommitAndPublish();
      var ownedBefore, participantsBefore := owned, participants;
      var loaded := ListUserActiveChallenges(event.user, event.Drives(), dbNow);
      rows := Ids(loaded);
      AdvanceChallenges(session, event.user, loaded, event.Delta(), ModeOf(event.Drives()), now);
      RegisteredSessionDelivers(1, session.queue, dbCommits);
      Finish(session, dbCommits, ownedBefore, participantsBefore);
    }

    method JoinChallenge(c: ChallengeId, user: UserId, now: Time) returns (error: Option<Error>)
      modifies this`participants
      ensures Reply(Work(Tables(), []), error) == Handle(old(Tables()), Join(c, user, now))
    {
      if c !in challenges {
        return Some(ChallengeNotFound);
      }
      if challenges[c].endsAt < now {
        return Some(ChallengeEnded);
      }
      if (c, user) in participants {
        return Some(AlreadyJoined);
      }
      participants := participants[(c, user) := Participant(0, None)];
      return None;
    }

    method LeaveChallenge(c: ChallengeId, user: UserId) returns (error: Option<Error>)
      modifies this`participants
      ensures Reply(Work(Tables(), []), error) == Handle(old(Tables()), Leave(c, user))
    {
      if (c, user) !in participants {
        return Some(NotParticipant);
      }
      participants := participants - {(c, user)};
      return None;
    }

    /** The query of `_guard_exclusive_badge_deadline`: the limited challenges claiming the badge. */
    method LimitedChallengesByExclusiveBadge(badge: BadgeId) returns (found: seq<ChallengeId>)
      ensures NoDuplicates(found) && forall c :: c in found <==> Claims(Tables(), c, badge)
    {
      found := [];
      var unread := challenges.Keys;
      while unread != {}
        invariant unread <= challenges.Keys
        invariant NoDuplicates(found)
        invariant forall c :: c in found <==> c !in unread && Claims(Tables(), c, badge)
        decreases unread
      {
        var c :| c in unread;
        unread := unread - {c};
        if challenges[c].limited && challenges[c].exclusiveBadge == Some(badge) {
          found := found + [c];
        }
      }
    }

    method GuardExclusiveBadgeDeadline(badge: BadgeId, now: Time) returns (error: Option<Error>)
      ensures error == DeadlineGuard(Tables(), badge, now)
    {
      var found := LimitedChallengesByExclusiveBadge(badge);
      if |found| > 1 {
        assert found[0] in found && found[1] in found;
        return Some(MultipleResults);
      }
      assert forall c, d :: c in found && d in found ==> c == d;
      if |found| == 0 {
        return None;
      }
      assert found[0] in found;
      var deadline := challenges[found[0]].exclusiveUntil;
      if deadline.Some? && now > deadline.value {
        assert Expired(Tables(), found[0], now);
        return Some(ChallengeExpired);
      }
      return None;
    }

    /** `award_badge` inside its session. */
    method TryAward(session: EventBus.Session<BadgeEarned>, user: UserId, badge: BadgeId, now: Time)
      returns (error: Option<Error>)
      requires session.queue == []
      modifies this`owned, session`queue
      ensures Reply(InProgress(session), error) == Handle(old(Tables()), AwardBadge(user, badge, now))
    {
      if badge !in badges {
        return Some(BadgeNotFound);
      }
      error := GuardExclusiveBadgeDeadline(badge, now);
      if error.None? {
        AwardOnce(session, user, badge);
      }
    }

    /** Manual award: the request session registers, the award may be refused, and
        the request commits only when nothing was raised. */
    method AwardBadgeManually(user: UserId, badge: BadgeId, now: Time, dbCommits: bool) returns (error: Option<Error>)
      modifies this
      ensures error == Handle(old(Tables()), AwardBadge(user, badge, now)).error
      ensures Current() == Transact(old(Current()), Transaction(AwardBadge(user, badge, now), 1, dbCommits))
    {
      var session := new EventBus.Session<BadgeEarned>();
      session.CommitAndPublish();
      var ownedBefore := owned;
      error := TryAward(session, user, badge, now);
      RegisteredSessionDelivers(1, session.queue, error.None? && dbCommits);
      Finish(session, error.None? && dbCommits, ownedBefore, participants);
    }
  }
}
