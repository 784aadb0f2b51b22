/** Results about every run of challenge transactions. */
module ChallengeResults {
  import opened Prelude
  import opened Challenges

  // ---------- exactly one BadgeEarned per badge row ----------

  function Keys(events: seq<BadgeEarned>): seq<(UserId, BadgeId)> {
    seq(|events|, i requires 0 <= i < |events| => (events[i].user, events[i].badge))
  }

  /** The published events are exactly the badge rows: one event per row, no
      event without a row, each carrying the badge's name. */
  ghost predicate Ledger(db: Db, published: seq<BadgeEarned>) {
    && NoDuplicates(Keys(published))
    && (forall k :: k in Keys(published) <==> k in db.owned)
    && (forall e :: e in published ==> e.badge in db.badges && e.name == db.badges[e.badge])
  }

  lemma GrantKeepsLedger(before: seq<BadgeEarned>, w: Work, user: UserId, badge: BadgeId)
    requires Ledger(w.db, before + w.staged)
    ensures Ledger(Grant(w, user, badge).db, before + Grant(w, user, badge).staged)
  {
    var g := Grant(w, user, badge);
    if g != w {
      var all, last := before + w.staged, g.staged[|w.staged|];
      assert before + g.staged == all + [last];
      assert Keys(all + [last]) == Keys(all) + [(user, badge)];
    }
  }

  lemma AdvanceOneKeepsLedger(before: seq<BadgeEarned>, w: Work, user: UserId, c: ChallengeId, delta: int, now: Time)
    requires c in w.db.challenges && (c, user) in w.db.participants
    requires Ledger(w.db, before + w.staged)
    ensures var r := AdvanceOne(w, user, c, delta, now); Ledger(r.db, before + r.staged)
  {
    var ch := w.db.challenges[c];
    var row := NewRow(ch, w.db.participants[(c, user)], delta, now);
    var w1 := w.(db := w.db.(participants := w.db.participants[(c, user) := row]));
    if row.achievedAt.Some? {
      if ch.badge.Some? {
        GrantKeepsLedger(before, w1, user, ch.badge.value);
      }
      var w2 := GrantIf(w1, true, user, ch.badge);
      if ch.exclusiveBadge.Some? {
        GrantKeepsLedger(before, w2, user, ch.exclusiveBadge.value);
      }
    }
  }

  lemma {:induction false} AdvanceKeepsLedger(before: seq<BadgeEarned>, w: Work, user: UserId, rows: seq<ChallengeId>,
                                              delta: int, now: Time)
    requires Joined(w.db, user, rows) && Ledger(w.db, before + w.staged)
    ensures var r := AdvanceRows(w, user, rows, delta, now); Ledger(r.db, before + r.staged)
  {
    if rows != [] {
      var front := rows[..|rows| - 1];
      AdvanceKeepsLedger(before, w, user, front, delta, now);
      AdvanceOneKeepsLedger(before, AdvanceRows(w, user, front, delta, now), user, rows[|rows| - 1], delta, now);
    }
  }

  lemma HandleKeepsLedger(db: Db, published: seq<BadgeEarned>, req: Request)
    requires ValidRequest(db, req) && Ledger(db, published)
    ensures var w := Handle(db, req).work; Ledger(w.db, published + w.staged)
  {
    var same := Work(db, []);
    assert published + [] == published;
    match req
    case Progress(ev, rows, _, now) => AdvanceKeepsLedger(published, same, ev.user, rows, ev.Delta(), now);
    case AwardBadge(u, b, _) => GrantKeepsLedger(published, same, u, b);
    case _ =>
  }

  /** Whatever the handlers, the registrations and the commits: in every reachable
      world the published BadgeEarned events are exactly the badge rows. */
  lemma {:induction false} PublishedAwardsAreTheBadgeRows(start: World, run: seq<Transaction>)
    requires ValidRun(start, run) && Ledger(start.db, start.published)
    ensures Ledger(RunWorld(start, run).db, RunWorld(start, run).published)
  {
    if run != [] {
      var front, last := run[..|run| - 1], run[|run| - 1];
      PublishedAwardsAreTheBadgeRows(start, front);
      var w := RunWorld(start, front);
      HandleKeepsLedger(w.db, w.published, last.request);
      RegisteredSessionDelivers(last.hooks, Handle(w.db, last.request).work.staged, Commits(w.db, last));
      assert w.published + [] == w.published;
    }
  }

  /** In particular from the empty tables on. */
  lemma ReachableAwards(run: seq<Transaction>)
    requires ValidRun(EMPTY_WORLD, run)
    ensures Ledger(RunWorld(EMPTY_WORLD, run).db, RunWorld(EMPTY_WORLD, run).published)
  {
    assert Keys([]) == [];
    PublishedAwardsAreTheBadgeRows(EMPTY_WORLD, run);
  }

  // ---------- progress rows refine the history of events ----------

  datatype Update = Update(delta: int, at: Time)

  /** What an event counts for in a challenge of this kind: seconds read, one book,
      or the length of the streak. No event drives a genre challenge. */
  function Contribution(ev: ProgressEvent, kind: Kind): Option<int> {
    match kind
    case ReadingTime => if ev.ReadingSessionCompleted? then Some(ev.durationSec) else None
    case BooksCount => if ev.UserBookCompleted? then Some(1) else None
    case Streak => if ev.UserGradeRecomputed? then Some(ev.streakDays) else None
    case Genre => None
  }

  lemma DeltaIsTheContribution(ev: ProgressEvent, kind: Kind)
    ensures Contribution(ev, kind) == if kind == ev.Drives() then Some(ev.Delta()) else None
  {
  }

  /** The in-window progress events for (challenge, user) committed since the last join or leave. */
  ghost function History(start: World, run: seq<Transaction>, c: ChallengeId, user: UserId): seq<Update>
    requires ValidRun(start, run)
  {
    if run == [] then []
    else
      var front, last := run[..|run| - 1], run[|run| - 1];
      var db, prior := RunWorld(start, front).db, History(start, front, c, user);
      if !Commits(db, last) then prior
      else match last.request
        case Join(c', user', _) => if (c', user') == (c, user) then [] else prior
        case Leave(c', user') => if (c', user') == (c, user) then [] else prior
        case Progress(ev, _, dbNow, now) =>
          if ev.user == user && c in db.challenges && Contribution(ev, db.challenges[c].kind).Some? &&
             db.challenges[c].startsAt <= dbNow <= db.challenges[c].endsAt
          then prior + [Update(Contribution(ev, db.challenges[c].kind).value, now)]
          else prior
        case _ => prior
  }

  function Total(updates: seq<Update>): int {
    if updates == [] then 0 else Total(updates[..|updates| - 1]) + updates[|updates| - 1].delta
  }

  function Peak(updates: seq<Update>): int {
    if updates == [] then 0 else Max(Peak(updates[..|updates| - 1]), updates[|updates| - 1].delta)
  }

  /** A streak challenge keeps the longest streak, every other kind the sum. */
  function Folded(kind: Kind, updates: seq<Update>): int {
    if kind == Streak then Peak(updates) else Total(updates)
  }

  /** The peak bounds every update, and is one of them unless it is 0. */
  lemma {:induction false} PeakMeaning(updates: seq<Update>)
    ensures Peak(updates) >= 0 && forall u :: u in updates ==> u.delta <= Peak(updates)
    ensures Peak(updates) == 0 || exists u :: u in updates && u.delta == Peak(updates)
  {
    if updates != [] {
      var front, last := updates[..|updates| - 1], updates[|updates| - 1];
      assert updates == front + [last];
      PeakMeaning(front);
      assert last in updates;
    }
  }

  lemma FoldedStep(kind: Kind, front: seq<Update>, u: Update)
    ensures Folded(kind, front + [u]) == Advanced(ModeOf(kind), Folded(kind, front), u.delta)
  {
    assert (front + [u])[..|front|] == front;
  }

  predicate ReachesAt(ch: Challenge, updates: seq<Update>, k: nat)
    requires k <= |updates|
  {
    k > 0 && Folded(ch.kind, updates[..k]) >= ch.target
  }

  /** Length of the shortest non-empty prefix that reaches the target, or of the whole history. */
  function Cutoff(ch: Challenge, updates: seq<Update>): (k: nat)
    ensures k <= |updates|
    ensures forall j :: 0 <= j < k ==> !ReachesAt(ch, updates, j)
    ensures k < |updates| ==> ReachesAt(ch, updates, k)
  {
    if updates == [] then 0
    else
      var front := updates[..|updates| - 1];
      var k := Cutoff(ch, front);
      assert forall j :: 0 <= j <= |front| ==> front[..j] == updates[..j];
      assert forall j :: 0 <= j <= |front| ==> ReachesAt(ch, front, j) == ReachesAt(ch, updates, j);
      if ReachesAt(ch, front, k) then k else |updates|
  }

  /** The participant row that a history calls for. */
  function RowFor(ch: Challenge, updates: seq<Update>): Participant {
    var k := Cutoff(ch, updates);
    Participant(Folded(ch.kind, updates[..k]),
                if ReachesAt(ch, updates, k) then Some(updates[k - 1].at) else None)
  }

  lemma CutoffIsStable(ch: Challenge, updates: seq<Update>, u: Update)
    ensures RowFor(ch, updates + [u]) ==
            if RowFor(ch, updates).achievedAt.Some? then RowFor(ch, updates)
            else NewRow(ch, RowFor(ch, updates), u.delta, u.at)
  {
    var longer := updates + [u];
    var k, l := Cutoff(ch, updates), Cutoff(ch, longer);
    assert forall j :: 0 <= j <= |updates| ==> longer[..j] == updates[..j];
    assert forall j :: 0 <= j <= |updates| ==> ReachesAt(ch, longer, j) == ReachesAt(ch, updates, j);
    if ReachesAt(ch, updates, k) {
      assert l == k by {
        assert ReachesAt(ch, longer, k);
      }
    } else {
      assert k == |updates| && updates[..k] == updates;
      assert l == |longer| && longer[..l] == longer && longer[..|longer| - 1] == updates;
      FoldedStep(ch.kind, updates, u);
    }
  }

  /** Advancing a duplicate-free listing updates each listed row once, from its old value. */
  lemma {:induction false} AdvanceUpdatesListedRows(w: Work, user: UserId, rows: seq<ChallengeId>, delta: int, now: Time)
    requires Joined(w.db, user, rows) && NoDuplicates(rows)
    ensures var r := AdvanceRows(w, user, rows, delta, now);
            forall k :: k in w.db.participants ==>
              r.db.participants[k] ==
              if k.1 == user && k.0 in rows then NewRow(w.db.challenges[k.0], w.db.participants[k], delta, now)
              else w.db.participants[k]
  {
    if rows != [] {
      var front, c := rows[..|rows| - 1], rows[|rows| - 1];
      assert rows == front + [c];
      AdvanceUpdatesListedRows(w, user, front, delta, now);
      AdvanceOneTouchesOneRow(AdvanceRows(w, user, front, delta, now), user, c, delta, now);
      assert c !in front;
    }
  }

  /** Only CreateChallenge changes the challenges, and only by adding one. */
  lemma HandleKeepsChallenges(db: Db, req: Request, c: ChallengeId)
    requires ValidRequest(db, req) && c in db.challenges
    ensures c in Handle(db, req).work.db.challenges
    ensures Handle(db, req).work.db.challenges[c] == db.challenges[c]
  {
  }

  ghost predicate RowsFollowHistory(start: World, run: seq<Transaction>)
    requires ValidRun(start, run)
  {
    var db := RunWorld(start, run).db;
    forall k :: k in db.participants ==>
      k.0 in db.challenges && db.participants[k] == RowFor(db.challenges[k.0], History(start, run, k.0, k.1))
  }

  lemma ProgressFollowsHistory(start: World, run: seq<Transaction>, c: ChallengeId, user: UserId)
    requires run != [] && ValidRun(start, run) && RowsFollowHistory(start, run[..|run| - 1])
    requires run[|run| - 1].request.Progress?
    requires (c, user) in RunWorld(start, run).db.participants
    ensures var db := RunWorld(start, run).db;
            c in db.challenges && db.participants[(c, user)] == RowFor(db.challenges[c], History(start, run, c, user))
  {
    var front, last := run[..|run| - 1], run[|run| - 1];
    var db := RunWorld(start, front).db;
    if Commits(db, last) {
      var Progress(ev, rows, dbNow, now) := last.request;
      AdvanceUpdatesListedRows(Work(db, []), ev.user, rows, ev.Delta(), now);
      DeltaIsTheContribution(ev, db.challenges[c].kind);
      CutoffIsStable(db.challenges[c], History(start, front, c, user), Update(ev.Delta(), now));
      assert c in rows <==> Active(db, ev.user, ev.Drives(), dbNow, c);
    }
  }

  /** What a request other than a progress event does to one participant row. */
  lemma OtherRequestsOnRow(db: Db, req: Request, k: (ChallengeId, UserId))
    requires ValidRequest(db, req) && !req.Progress?
    ensures var r := Handle(db, req);
            var after := r.work.db.participants;
            if r.error.None? && req.Join? && (req.challenge, req.user) == k then
              k.0 in db.challenges && k in after && after[k] == Participant(0, None)
            else if r.error.None? && req.Leave? && (req.challenge, req.user) == k then k !in after
            else (k in after <==> k in db.participants) && (k in after ==> after[k] == db.participants[k])
  {
  }

  lemma OtherRequestsFollowHistory(start: World, run: seq<Transaction>, c: ChallengeId, user: UserId)
    requires run != [] && ValidRun(start, run) && RowsFollowHistory(start, run[..|run| - 1])
    requires !run[|run| - 1].request.Progress?
    requires (c, user) in RunWorld(start, run).db.participants
    ensures var db := RunWorld(start, run).db;
            c in db.challenges && db.participants[(c, user)] == RowFor(db.challenges[c], History(start, run, c, user))
  {
    var front, last := run[..|run| - 1], run[|run| - 1];
    var before := RunWorld(start, front).db;
    assert (c, user) in before.participants ==> c in before.challenges;
    OtherRequestsOnRow(before, last.request, (c, user));
    HandleKeepsChallenges(before, last.request, c);
    NoHistory(before.challenges[c]);
  }

  lemma NoHistory(ch: Challenge)
    ensures RowFor(ch, []) == Participant(0, None)
  {
  }

  /** Every participant row is the fold of its history up to the target: the sum
      (maximum, for streaks) over the shortest prefix that reaches the target, or
      over everything when nothing does, achieved when and only when it does. */
  lemma {:induction false} ProgressRefinesHistory(start: World, run: seq<Transaction>)
    requires ValidRun(start, run) && start.db.participants == map[]
    ensures RowsFollowHistory(start, run)
  {
    if run != [] {
      ProgressRefinesHistory(start, run[..|run| - 1]);
      forall c, user | (c, user) in RunWorld(start, run).db.participants
        ensures var db := RunWorld(start, run).db;
                c in db.challenges && db.participants[(c, user)] == RowFor(db.challenges[c], History(start, run, c, user))
      {
        if run[|run| - 1].request.Progress? {
          ProgressFollowsHistory(start, run, c, user);
        } else {
          OtherRequestsFollowHistory(start, run, c, user);
        }
      }
    }
  }

  ghost predicate PositiveTargets(db: Db) {
    forall c :: c in db.challenges ==> db.challenges[c].target > 0
  }

  lemma {:induction false} TargetsStayPositive(start: World, run: seq<Transaction>)
    requires ValidRun(start, run) && PositiveTargets(start.db)
    ensures PositiveTargets(RunWorld(start, run).db)
  {
    if run != [] {
      TargetsStayPositive(start, run[..|run| - 1]);
    }
  }

  /** A row is achieved exactly when its value has reached the target. */
  lemma AchievedIffTargetReached(run: seq<Transaction>, k: (ChallengeId, UserId))
    requires ValidRun(EMPTY_WORLD, run) && k in RunWorld(EMPTY_WORLD, run).db.participants
    ensures var db := RunWorld(EMPTY_WORLD, run).db;
            k.0 in db.challenges &&
            (db.participants[k].achievedAt.Some? <==> db.participants[k].current >= db.challenges[k.0].target)
  {
    ReachableRow(run, k);
    var db := RunWorld(EMPTY_WORLD, run).db;
    var h := History(EMPTY_WORLD, run, k.0, k.1);
    var j := Cutoff(db.challenges[k.0], h);
    if j == 0 {
      assert h[..j] == [];
    }
  }

  /** Once achieved, a row is frozen until its owner leaves. */
  lemma AchievedRowsAreFrozen(w: World, t: Transaction, k: (ChallengeId, UserId))
    requires ValidRequest(w.db, t.request) && t.hooks > 0
    requires k in w.db.participants && w.db.participants[k].achievedAt.Some?
    ensures var after := Transact(w, t).db;
            if Commits(w.db, t) && t.request == Leave(k.0, k.1) then k !in after.participants
            else k in after.participants && after.participants[k] == w.db.participants[k]
  {
    if t.request.Progress? {
      var Progress(ev, rows, dbNow, now) := t.request;
      AdvanceUpdatesListedRows(Work(w.db, []), ev.user, rows, ev.Delta(), now);
    }
  }

  lemma FoldOvershoot(ch: Challenge, updates: seq<Update>)
    requires ch.kind != Streak && ch.target > 0
    requires RowFor(ch, updates).achievedAt.Some?
    ensures var k := Cutoff(ch, updates);
            k > 0 && RowFor(ch, updates).current - ch.target < updates[k - 1].delta
  {
    var k := Cutoff(ch, updates);
    assert updates[..k][..k - 1] == updates[..k - 1];
    assert !ReachesAt(ch, updates, k - 1);
    if k == 1 {
      assert updates[..k - 1] == [];
    }
  }

  /** One row of a reachable world. */
  lemma ReachableRow(run: seq<Transaction>, k: (ChallengeId, UserId))
    requires ValidRun(EMPTY_WORLD, run) && k in RunWorld(EMPTY_WORLD, run).db.participants
    ensures var db := RunWorld(EMPTY_WORLD, run).db;
            k.0 in db.challenges && db.challenges[k.0].target > 0 &&
            db.participants[k] == RowFor(db.challenges[k.0], History(EMPTY_WORLD, run, k.0, k.1))
  {
    ProgressRefinesHistory(EMPTY_WORLD, run);
    TargetsStayPositive(EMPTY_WORLD, run);
  }

  /** What every row of a reachable world holds: for a streak the longest one counted,
      at least 0, and for every other kind the sum of what was counted. */
  lemma RowsMeasureTheirKind(run: seq<Transaction>, k: (ChallengeId, UserId))
    requires ValidRun(EMPTY_WORLD, run) && k in RunWorld(EMPTY_WORLD, run).db.participants
    ensures var db, h := RunWorld(EMPTY_WORLD, run).db, History(EMPTY_WORLD, run, k.0, k.1);
            k.0 in db.challenges &&
            var ch, value := db.challenges[k.0], db.participants[k].current;
            var counted := h[..Cutoff(ch, h)];
            if ch.kind == Streak then
              && value >= 0 && (forall u :: u in counted ==> u.delta <= value)
              && (value == 0 || exists u :: u in counted && u.delta == value)
            else value == Total(counted)
  {
    ReachableRow(run, k);
    var db, h := RunWorld(EMPTY_WORLD, run).db, History(EMPTY_WORLD, run, k.0, k.1);
    PeakMeaning(h[..Cutoff(db.challenges[k.0], h)]);
  }

  /** Over every run, an achieved row of accumulated progress overshoots its target by
      less than the update that reached it. */
  lemma OvershootBelowLastUpdate(run: seq<Transaction>, k: (ChallengeId, UserId))
    requires ValidRun(EMPTY_WORLD, run) && k in RunWorld(EMPTY_WORLD, run).db.participants
    requires RunWorld(EMPTY_WORLD, run).db.participants[k].achievedAt.Some?
    ensures var db, h := RunWorld(EMPTY_WORLD, run).db, History(EMPTY_WORLD, run, k.0, k.1);
            k.0 in db.challenges &&
            var ch := db.challenges[k.0];
            ch.kind != Streak ==>
              Cutoff(ch, h) > 0 && db.participants[k].current - ch.target < h[Cutoff(ch, h) - 1].delta
  {
    ReachableRow(run, k);
    var ch := RunWorld(EMPTY_WORLD, run).db.challenges[k.0];
    if ch.kind != Streak {
      FoldOvershoot(ch, History(EMPTY_WORLD, run, k.0, k.1));
    }
  }

  // ---------- which badges an event awards ----------

  /** Reaching the target of `ch` at `now` awards `badge`. */
  predicate Offers(ch: Challenge, badge: BadgeId, now: Time) {
    || ch.badge == Some(badge)
    || (ch.limited && ch.exclusiveBadge == Some(badge) && ch.exclusiveUntil.Some? && now <= ch.exclusiveUntil.value)
  }

  /** With this delta the user's row of challenge `c` reaches the target. */
  predicate Crosses(db: Db, user: UserId, c: ChallengeId, delta: int)
    requires c in db.challenges && (c, user) in db.participants
  {
    var ch, current := db.challenges[c], db.participants[(c, user)].current;
    (if ch.kind == Streak then Max(current, delta) else current + delta) >= ch.target
  }

  lemma AdvanceOneAwards(w: Work, user: UserId, c: ChallengeId, delta: int, now: Time, k: (UserId, BadgeId))
    requires c in w.db.challenges && (c, user) in w.db.participants
    ensures k in AdvanceOne(w, user, c, delta, now).db.owned <==>
            k in w.db.owned || (
              k.0 == user && k.1 in w.db.badges &&
              Crosses(w.db, user, c, delta) && Offers(w.db.challenges[c], k.1, now))
  {
  }

  /** Exactly which badge rows exist after advancing a listing, in any order of the rows. */
  lemma {:induction false} AdvanceAwardsExactly(w: Work, user: UserId, rows: seq<ChallengeId>, delta: int, now: Time)
    requires Joined(w.db, user, rows) && NoDuplicates(rows)
    ensures var r := AdvanceRows(w, user, rows, delta, now);
            forall k :: k in r.db.owned <==>
              k in w.db.owned || (
                k.0 == user && k.1 in w.db.badges &&
                exists c :: c in rows && Crosses(w.db, user, c, delta) && Offers(w.db.challenges[c], k.1, now))
  {
    if rows != [] {
      var front, c := rows[..|rows| - 1], rows[|rows| - 1];
      assert rows == front + [c] && c !in front;
      AdvanceAwardsExactly(w, user, front, delta, now);
      AdvanceUpdatesListedRows(w, user, front, delta, now);
      var mid := AdvanceRows(w, user, front, delta, now);
      forall k | true
        ensures k in AdvanceOne(mid, user, c, delta, now).db.owned <==>
                k in mid.db.owned || (
                  k.0 == user && k.1 in w.db.badges &&
                  Crosses(w.db, user, c, delta) && Offers(w.db.challenges[c], k.1, now))
      {
        AdvanceOneAwards(mid, user, c, delta, now, k);
      }
    }
  }

  // ---------- the limited-edition deadline ----------

  /** `c` is the only challenge, limited or not, through which `badge` can be earned. */
  ghost predicate SoleSource(db: Db, c: ChallengeId, badge: BadgeId) {
    && Claims(db, c, badge)
    && forall d :: d in db.challenges ==> db.challenges[d].badge != Some(badge) && (d != c ==> !Claims(db, d, badge))
  }

  predicate HappensAfter(req: Request, deadline: Time) {
    match req
    case Progress(_, _, _, now) => now > deadline
    case AwardBadge(_, _, now) => now > deadline
    case _ => true
  }

  /** After the deadline of a limited challenge its exclusive badge is awarded by
      a request exactly when that request is a progress event that completes some
      challenge still offering it: one with the badge as its standard badge (the
      expired challenge itself may be one), or another limited challenge; never by hand. */
  lemma AwardedAfterDeadlineIff(db: Db, req: Request, c: ChallengeId, user: UserId, badge: BadgeId)
    requires ValidRequest(db, req) && Claims(db, c, badge)
    requires db.challenges[c].exclusiveUntil.Some? && HappensAfter(req, db.challenges[c].exclusiveUntil.value)
    requires (user, badge) !in db.owned
    ensures (user, badge) in Handle(db, req).work.db.owned <==>
            req.Progress? && req.event.user == user && badge in db.badges &&
            exists d :: d in req.rows && Crosses(db, user, d, req.event.Delta()) &&
                        Offers(db.challenges[d], badge, req.now)
  {
    match req
    case Progress(ev, rows, _, now) =>
      AdvanceAwardsExactly(Work(db, []), ev.user, rows, ev.Delta(), now);
    case AwardBadge(u, b, now) =>
      if b == badge {
        assert Claims(db, c, badge) && Expired(db, c, now);
      }
    case _ =>
  }

  lemma {:induction false} ChallengesOnlyGrow(start: World, run: seq<Transaction>, c: ChallengeId)
    requires ValidRun(start, run) && c in start.db.challenges
    ensures c in RunWorld(start, run).db.challenges
    ensures RunWorld(start, run).db.challenges[c] == start.db.challenges[c]
  {
    if run != [] {
      var front := run[..|run| - 1];
      ChallengesOnlyGrow(start, front, c);
      HandleKeepsChallenges(RunWorld(start, front).db, run[|run| - 1].request, c);
    }
  }

  /** A badge whose only source is a limited challenge is never awarded after that
      challenge's deadline, by either path, in any run. */
  lemma {:induction false} DeadlineIsFinal(start: World, run: seq<Transaction>, c: ChallengeId, badge: BadgeId, user: UserId)
    requires ValidRun(start, run) && Claims(start.db, c, badge)
    requires start.db.challenges[c].exclusiveUntil.Some?
    requires forall t :: t in run ==> HappensAfter(t.request, start.db.challenges[c].exclusiveUntil.value)
    requires SoleSource(RunWorld(start, run).db, c, badge)
    ensures (user, badge) in RunWorld(start, run).db.owned <==> (user, badge) in start.db.owned
  {
    if run != [] {
      var front, last := run[..|run| - 1], run[|run| - 1];
      var before := RunWorld(start, front);
      forall d | d in before.db.challenges
        ensures before.db.challenges[d].badge != Some(badge) && (d != c ==> !Claims(before.db, d, badge))
      {
        HandleKeepsChallenges(before.db, last.request, d);
      }
      ChallengesOnlyGrow(start, front, c);
      assert forall t :: t in front ==> t in run;
      DeadlineIsFinal(start, front, c, badge, user);
      assert last in run;
      if (user, badge) in before.db.owned {
        RowsAreNeverWithdrawn(before.db, last.request, (user, badge));
      } else {
        AwardedAfterDeadlineIff(before.db, last.request, c, user, badge);
      }
    }
  }

  lemma RowsAreNeverWithdrawn(db: Db, req: Request, k: (UserId, BadgeId))
    requires ValidRequest(db, req) && k in db.owned
    ensures k in Handle(db, req).work.db.owned
  {
    if req.Progress? {
      AdvanceAwardsExactly(Work(db, []), req.event.user, req.rows, req.event.Delta(), req.now);
    }
  }

  /** The models file promises that the exclusive badge is locked for good after
      the deadline. It is not when another challenge offers the same badge: here a
      standard badge of challenge 1 is the expired exclusive badge of challenge 0. */
  lemma SharedBadgeEscapesTheDeadline()
    ensures var limited := Challenge(Streak, 1, 0, 100, None, true, Some(10), Some(7));
            var other := Challenge(BooksCount, 1, 0, 100, Some(7), false, None, None);
            var db := Db(map[7 := "badge"], map[0 := limited, 1 := other], map[(1, 5) := Participant(0, None)], {});
            var req := Progress(UserBookCompleted(5), [1], 20, 20);
            Claims(db, 0, 7) && Expired(db, 0, 20) && ValidRequest(db, req) && (5, 7) in Handle(db, req).work.db.owned
  {
    var limited := Challenge(Streak, 1, 0, 100, None, true, Some(10), Some(7));
    var other := Challenge(BooksCount, 1, 0, 100, Some(7), false, None, None);
    var db := Db(map[7 := "badge"], map[0 := limited, 1 := other], map[(1, 5) := Participant(0, None)], {});
    var req := Progress(UserBookCompleted(5), [1], 20, 20);
    assert IsListing(db, 5, BooksCount, 20, [1]);
    AdvanceAwardsExactly(Work(db, []), 5, [1], 1, 20);
    assert Crosses(db, 5, 1, 1) && 1 in req.rows;
  }

  /** Nor when the expired challenge gives the same badge as its standard badge. */
  lemma OwnStandardBadgeEscapesTheDeadline()
    ensures var limited := Challenge(BooksCount, 1, 0, 100, Some(7), true, Some(10), Some(7));
            var db := Db(map[7 := "badge"], map[0 := limited], map[(0, 5) := Participant(0, None)], {});
            var req := Progress(UserBookCompleted(5), [0], 20, 20);
            Claims(db, 0, 7) && Expired(db, 0, 20) && ValidRequest(db, req) && (5, 7) in Handle(db, req).work.db.owned
  {
    var limited := Challenge(BooksCount, 1, 0, 100, Some(7), true, Some(10), Some(7));
    var db := Db(map[7 := "badge"], map[0 := limited], map[(0, 5) := Participant(0, None)], {});
    assert IsListing(db, 5, BooksCount, 20, [0]);
    AdvanceAwardsExactly(Work(db, []), 5, [0], 1, 20);
    assert Crosses(db, 5, 0, 1) && 0 in [0];
  }
}
