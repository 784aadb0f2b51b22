/** What the accepted requests of a run of challenge transactions achieve, read off
    the requests and their outcomes. */
module ChallengeRequests {
  import opened Prelude
  import opened Challenges
  import opened ChallengeResults

  /** The last transaction of the run was accepted and committed. */
  ghost predicate Succeeded(run: seq<Transaction>)
    requires run != [] && ValidRun(EMPTY_WORLD, run)
  {
    Commits(RunWorld(EMPTY_WORLD, run[..|run| - 1]).db, run[|run| - 1])
  }

  // ---------- participation ----------

  /** The user's last successful join or leave of the challenge was a join. */
  ghost predicate LastJoined(run: seq<Transaction>, c: ChallengeId, user: UserId)
    requires ValidRun(EMPTY_WORLD, run)
  {
    if run == [] then false
    else
      var front, last := run[..|run| - 1], run[|run| - 1].request;
      if Succeeded(run) && last.Join? && last.challenge == c && last.user == user then true
      else if Succeeded(run) && last.Leave? && last.challenge == c && last.user == user then false
      else LastJoined(front, c, user)
  }

  lemma ProgressKeepsParticipants(db: Db, req: Request)
    requires ValidRequest(db, req) && req.Progress?
    ensures Handle(db, req).work.db.participants.Keys == db.participants.Keys
  {
  }

  /** A participant row exists exactly when the last successful request says so. */
  lemma {:induction false} ParticipantsFollowRequests(run: seq<Transaction>, c: ChallengeId, user: UserId)
    requires ValidRun(EMPTY_WORLD, run)
    ensures (c, user) in RunWorld(EMPTY_WORLD, run).db.participants <==> LastJoined(run, c, user)
  {
    if run != [] {
      var front, last := run[..|run| - 1], run[|run| - 1];
      ParticipantsFollowRequests(front, c, user);
      var db := RunWorld(EMPTY_WORLD, front).db;
      if last.request.Progress? {
        ProgressKeepsParticipants(db, last.request);
      } else {
        OtherRequestsOnRow(db, last.request, (c, user));
      }
    }
  }

  /** The challenge as its successful creation stored it. */
  ghost function Created(run: seq<Transaction>, c: ChallengeId): Option<Challenge>
    requires ValidRun(EMPTY_WORLD, run)
  {
    if run == [] then None
    else
      var front, last := run[..|run| - 1], run[|run| - 1].request;
      if Succeeded(run) && last.CreateChallenge? && last.id == c then Some(last.row) else Created(front, c)
  }

  lemma HandleOnChallenge(db: Db, req: Request, c: ChallengeId)
    requires ValidRequest(db, req)
    ensures var after := Handle(db, req).work.db.challenges;
            if Handle(db, req).error.None? && req.CreateChallenge? && req.id == c then
              c !in db.challenges && c in after && after[c] == req.row
            else (c in after <==> c in db.challenges) && (c in after ==> after[c] == db.challenges[c])
  {
  }

  lemma {:induction false} ChallengesFollowRequests(run: seq<Transaction>, c: ChallengeId)
    requires ValidRun(EMPTY_WORLD, run)
    ensures var challenges := RunWorld(EMPTY_WORLD, run).db.challenges;
            Created(run, c) == if c in challenges then Some(challenges[c]) else None
  {
    if run != [] {
      ChallengesFollowRequests(run[..|run| - 1], c);
      HandleOnChallenge(RunWorld(EMPTY_WORLD, run[..|run| - 1]).db, run[|run| - 1].request, c);
    }
  }

  /** In every reachable world: a join is accepted exactly when the challenge was created,
      has not ended, and the user's last successful request was not a join of it; a leave
      exactly when it was. */
  lemma JoinsAndLeavesAccepted(run: seq<Transaction>, c: ChallengeId, user: UserId, now: Time)
    requires ValidRun(EMPTY_WORLD, run)
    ensures var db := RunWorld(EMPTY_WORLD, run).db;
            && (Handle(db, Join(c, user, now)).error.None? <==>
                  Created(run, c).Some? && now <= Created(run, c).value.endsAt && !LastJoined(run, c, user))
            && (Handle(db, Leave(c, user)).error.None? <==> LastJoined(run, c, user))
  {
    ParticipantsFollowRequests(run, c, user);
    ChallengesFollowRequests(run, c);
  }

  /** The name with which the badge was successfully created. */
  ghost function BadgeNamed(run: seq<Transaction>, badge: BadgeId): Option<string>
    requires ValidRun(EMPTY_WORLD, run)
  {
    if run == [] then None
    else
      var front, last := run[..|run| - 1], run[|run| - 1].request;
      if Succeeded(run) && last.CreateBadge? && last.id == badge then Some(last.name) else BadgeNamed(front, badge)
  }

  lemma HandleOnBadge(db: Db, req: Request, badge: BadgeId)
    requires ValidRequest(db, req)
    ensures var after := Handle(db, req).work.db.badges;
            if Handle(db, req).error.None? && req.CreateBadge? && req.id == badge then
              badge !in db.badges && badge in after && after[badge] == req.name
            else (badge in after <==> badge in db.badges) && (badge in after ==> after[badge] == db.badges[badge])
  {
  }

  lemma {:induction false} BadgeNamesFollowRequests(run: seq<Transaction>, badge: BadgeId)
    requires ValidRun(EMPTY_WORLD, run)
    ensures var badges := RunWorld(EMPTY_WORLD, run).db.badges;
            BadgeNamed(run, badge) == if badge in badges then Some(badges[badge]) else None
  {
    if run != [] {
      BadgeNamesFollowRequests(run[..|run| - 1], badge);
      HandleOnBadge(RunWorld(EMPTY_WORLD, run[..|run| - 1]).db, run[|run| - 1].request, badge);
    }
  }

  /** A challenge is accepted exactly when its id is new, its target positive and its badges,
      if any, were created; a badge when its id is new. */
  lemma CreationsAccepted(run: seq<Transaction>, id: ChallengeId, row: Challenge, badge: BadgeId, name: string)
    requires ValidRun(EMPTY_WORLD, run)
    ensures var db := RunWorld(EMPTY_WORLD, run).db;
            && (Handle(db, CreateBadge(badge, name)).error.None? <==> BadgeNamed(run, badge).None?)
            && (Handle(db, CreateChallenge(id, row)).error.None? <==>
                  Created(run, id).None? && row.target > 0 &&
                  (row.badge.Some? ==> BadgeNamed(run, row.badge.value).Some?) &&
                  (row.exclusiveBadge.Some? ==> BadgeNamed(run, row.exclusiveBadge.value).Some?))
  {
    BadgeNamesFollowRequests(run, badge);
    ChallengesFollowRequests(run, id);
    if row.badge.Some? {
      BadgeNamesFollowRequests(run, row.badge.value);
    }
    if row.exclusiveBadge.Some? {
      BadgeNamesFollowRequests(run, row.exclusiveBadge.value);
    }
  }

  // ---------- manual awards ----------

  /** At `now` the badge is locked: a limited challenge claims it and its deadline has passed. */
  ghost predicate Locked(db: Db, badge: BadgeId, now: Time) {
    exists c :: c in db.challenges && db.challenges[c].limited && db.challenges[c].exclusiveBadge == Some(badge) &&
                db.challenges[c].exclusiveUntil.Some? && db.challenges[c].exclusiveUntil.value < now
  }

  /** Two limited challenges claim the badge, which the lookup of the guard cannot handle. */
  ghost predicate ClaimedTwice(db: Db, badge: BadgeId) {
    exists c, d :: c in db.challenges && d in db.challenges && c != d &&
                   db.challenges[c].limited && db.challenges[c].exclusiveBadge == Some(badge) &&
                   db.challenges[d].limited && db.challenges[d].exclusiveBadge == Some(badge)
  }

  lemma GuardMeaning(db: Db, badge: BadgeId, now: Time)
    ensures DeadlineGuard(db, badge, now).None? <==> !ClaimedTwice(db, badge) && !Locked(db, badge, now)
  {
    if ClaimedTwice(db, badge) {
      var c, d :| c in db.challenges && d in db.challenges && c != d &&
                  db.challenges[c].limited && db.challenges[c].exclusiveBadge == Some(badge) &&
                  db.challenges[d].limited && db.challenges[d].exclusiveBadge == Some(badge);
      assert Claims(db, c, badge) && Claims(db, d, badge);
    }
    if Locked(db, badge, now) {
      var c :| c in db.challenges && db.challenges[c].limited && db.challenges[c].exclusiveBadge == Some(badge) &&
               db.challenges[c].exclusiveUntil.Some? && db.challenges[c].exclusiveUntil.value < now;
      assert Claims(db, c, badge) && Expired(db, c, now);
    }
  }

  /** A manual award succeeds exactly when the badge is known, not locked and not claimed
      twice; then the user owns it, and nothing else changes. A refusal changes nothing. */
  lemma ManualAwardsInsert(db: Db, user: UserId, badge: BadgeId, now: Time)
    ensures var r := Handle(db, AwardBadge(user, badge, now));
            && (r.error.None? <==> badge in db.badges && !ClaimedTwice(db, badge) && !Locked(db, badge, now))
            && r.work.db == db.(owned := if r.error.None? then db.owned + {(user, badge)} else db.owned)
  {
    GuardMeaning(db, badge, now);
    assert (user, badge) in db.owned ==> db.owned + {(user, badge)} == db.owned;
  }

  /** Over every run: a badge row exists exactly when a successful manual award gave it, or
      a successful progress event completed a challenge that offered it. */
  ghost predicate Earned(run: seq<Transaction>, user: UserId, badge: BadgeId)
    requires ValidRun(EMPTY_WORLD, run)
  {
    run != [] && (
      var front, t := run[..|run| - 1], run[|run| - 1];
      var db := RunWorld(EMPTY_WORLD, front).db;
      || Earned(front, user, badge)
      || (Succeeded(run) && t.request.AwardBadge? && t.request.user == user && t.request.badge == badge)
      || (Succeeded(run) && t.request.Progress? && t.request.event.user == user && badge in db.badges &&
          exists c :: c in t.request.rows && Crosses(db, user, c, t.request.event.Delta()) &&
                      Offers(db.challenges[c], badge, t.request.now)))
  }

  lemma {:induction false} BadgesFollowRequests(run: seq<Transaction>, user: UserId, badge: BadgeId)
    requires ValidRun(EMPTY_WORLD, run)
    ensures (user, badge) in RunWorld(EMPTY_WORLD, run).db.owned <==> Earned(run, user, badge)
  {
    if run != [] {
      var front, t := run[..|run| - 1], run[|run| - 1];
      BadgesFollowRequests(front, user, badge);
      var db := RunWorld(EMPTY_WORLD, front).db;
      match t.request
      case Progress(ev, rows, _, now) => AdvanceAwardsExactly(Work(db, []), ev.user, rows, ev.Delta(), now);
      case AwardBadge(u, b, now) => ManualAwardsInsert(db, u, b, now);
      case _ =>
    }
  }
}
