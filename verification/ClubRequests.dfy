/** What the accepted operations of a run achieve in a club store: every table read off
    the operations and their outcomes, and exactly which operations are accepted. */
module ClubRequests {
  import opened Prelude
  import opened Clubs
  import opened ClubResults

  ghost function After(wired: bool, ops: seq<Op>): Store {
    Run(EmptyStore(wired), ops)
  }

  /** The last operation of the run was accepted. */
  ghost predicate Accepted(wired: bool, ops: seq<Op>)
    requires ops != []
  {
    Step(After(wired, ops[..|ops| - 1]), ops[|ops| - 1]).error.None?
  }

  lemma RefusedChangesNothing(s: Store, op: Op)
    requires Step(s, op).error.Some?
    ensures Step(s, op).store == s
  {
  }

  // ---------- clubs and membership ----------

  /** The club as its accepted creation described it. */
  ghost function ClubOf(wired: bool, ops: seq<Op>, club: ClubId): Option<Club> {
    if ops == [] then None
    else
      var front, last := ops[..|ops| - 1], ops[|ops| - 1];
      if Accepted(wired, ops) && last.OnMembership? && last.m.OpCreateClub? && last.m.club == club then
        Some(Club(last.m.user, last.m.maxMembers, last.m.isPublic))
      else ClubOf(wired, front, club)
  }

  /** The club that was created with the invite code. */
  ghost function InvitedBy(wired: bool, ops: seq<Op>, code: string): Option<ClubId> {
    if ops == [] then None
    else
      var front, last := ops[..|ops| - 1], ops[|ops| - 1];
      if Accepted(wired, ops) && last.OnMembership? && last.m.OpCreateClub? && last.m.code == code then Some(last.m.club)
      else InvitedBy(wired, front, code)
  }

  /** The operation lets its user into the club: by creating it, by its code, or as a public club. */
  ghost predicate Enters(wired: bool, before: seq<Op>, op: Op, club: ClubId, user: UserId) {
    op.OnMembership? && op.m.user == user &&
    match op.m
    case OpCreateClub(c, _, _, _, _) => c == club
    case OpJoinByCode(code, _) => InvitedBy(wired, before, code) == Some(club)
    case OpJoinPublic(c, _) => c == club
    case OpLeaveClub(_, _) => false
  }

  /** The user's last accepted create, join or leave of the club let them in. */
  ghost predicate LastEntered(wired: bool, ops: seq<Op>, club: ClubId, user: UserId) {
    if ops == [] then false
    else
      var front, last := ops[..|ops| - 1], ops[|ops| - 1];
      if Accepted(wired, ops) && Enters(wired, front, last, club, user) then true
      else if Accepted(wired, ops) && last == OnMembership(OpLeaveClub(club, user)) then false
      else LastEntered(wired, front, club, user)
  }

  /** What a membership operation does to one club and one invite code. */
  lemma ClubEffect(s: Store, op: MembershipOp, club: ClubId)
    ensures var r := StepMembership(s, op);
            if r.error.None? && op.OpCreateClub? && op.club == club then
              club in r.store.clubs && r.store.clubs[club] == Club(op.user, op.maxMembers, op.isPublic)
            else (club in r.store.clubs <==> club in s.clubs) && (club in s.clubs ==> r.store.clubs[club] == s.clubs[club])
  {
  }

  lemma InviteEffect(s: Store, op: MembershipOp, code: string)
    ensures var r := StepMembership(s, op);
            if r.error.None? && op.OpCreateClub? && op.code == code then
              code in r.store.invites && r.store.invites[code] == op.club
            else (code in r.store.invites <==> code in s.invites) && (code in s.invites ==> r.store.invites[code] == s.invites[code])
  {
  }

  lemma {:induction false} ClubsFollowOperations(wired: bool, ops: seq<Op>, club: ClubId, code: string)
    ensures var s := After(wired, ops);
            && ClubOf(wired, ops, club) == (if club in s.clubs then Some(s.clubs[club]) else None)
            && InvitedBy(wired, ops, code) == (if code in s.invites then Some(s.invites[code]) else None)
  {
    if ops != [] {
      var front, last := ops[..|ops| - 1], ops[|ops| - 1];
      ClubsFollowOperations(wired, front, club, code);
      match last
      case OnMembership(m) =>
        ClubEffect(After(wired, front), m, club);
        InviteEffect(After(wired, front), m, code);
      case OnLifecycle(l) => LifecycleFrame(After(wired, front), l);
      case OnDiscussion(d) => DiscussionFrame(After(wired, front), d);
    }
  }

  /** The operation names this club, directly or by a code of the store. */
  predicate Lets(s: Store, op: MembershipOp, club: ClubId, user: UserId) {
    op.user == user &&
    match op
    case OpCreateClub(c, _, _, _, _) => c == club
    case OpJoinByCode(code, _) => code in s.invites && s.invites[code] == club
    case OpJoinPublic(c, _) => c == club
    case OpLeaveClub(_, _) => false
  }

  lemma CreatorEnters(s: Store, op: MembershipOp, club: ClubId, user: UserId)
    requires op.OpCreateClub?
    ensures var r := StepMembership(s, op);
            (club, user) in r.store.members <==> (r.error.None? && Lets(s, op, club, user)) || (club, user) in s.members
  {
  }

  lemma InvitedEnters(s: Store, op: MembershipOp, club: ClubId, user: UserId)
    requires op.OpJoinByCode?
    ensures var r := StepMembership(s, op);
            (club, user) in r.store.members <==> (r.error.None? && Lets(s, op, club, user)) || (club, user) in s.members
  {
  }

  lemma PublicEnters(s: Store, op: MembershipOp, club: ClubId, user: UserId)
    requires op.OpJoinPublic?
    ensures var r := StepMembership(s, op);
            (club, user) in r.store.members <==> (r.error.None? && Lets(s, op, club, user)) || (club, user) in s.members
  {
  }

  lemma LeaveEffect(s: Store, op: MembershipOp, club: ClubId, user: UserId)
    requires op.OpLeaveClub?
    ensures var r := StepMembership(s, op);
            (club, user) in r.store.members <==>
            (club, user) in s.members && !(r.error.None? && op.club == club && op.user == user)
  {
  }

  /** Over every run: a user is a member of a club exactly when the last accepted create,
      join or leave says so. In particular a club that is not public is entered only by
      creating it or by its code. */
  lemma {:induction false} MembersFollowOperations(wired: bool, ops: seq<Op>, club: ClubId, user: UserId)
    ensures (club, user) in After(wired, ops).members <==> LastEntered(wired, ops, club, user)
  {
    if ops != [] {
      var front, last := ops[..|ops| - 1], ops[|ops| - 1];
      var s := After(wired, front);
      MembersFollowOperations(wired, front, club, user);
      match last
      case OnMembership(m) =>
        match m {
          case OpCreateClub(_, _, _, _, _) => CreatorEnters(s, m, club, user);
          case OpJoinByCode(code, _) =>
            InvitedEnters(s, m, club, user);
            ClubsFollowOperations(wired, front, club, code);
          case OpJoinPublic(_, _) => PublicEnters(s, m, club, user);
          case OpLeaveClub(_, _) => LeaveEffect(s, m, club, user);
        }
      case OnLifecycle(l) => LifecycleFrame(s, l);
      case OnDiscussion(d) => DiscussionFrame(s, d);
    }
  }

  /** A club that is not public lets nobody in but its creator and holders of its code. */
  lemma PrivateClubsNeedTheCode(wired: bool, ops: seq<Op>, club: ClubId, user: UserId)
    requires ops != [] && Accepted(wired, ops) && Enters(wired, ops[..|ops| - 1], ops[|ops| - 1], club, user)
    requires ClubOf(wired, ops, club).Some? && !ClubOf(wired, ops, club).value.isPublic
    ensures var op := ops[|ops| - 1].m;
            op.OpCreateClub? || (op.OpJoinByCode? && InvitedBy(wired, ops[..|ops| - 1], op.code) == Some(club))
  {
    var front := ops[..|ops| - 1];
    if ops[|ops| - 1].m.OpJoinPublic? {
      MembershipAnswered(wired, front, club, user, "", 0, false);
    }
  }

  ghost predicate HasRoom(s: Store, club: ClubId, size: int) {
    |set k | k in s.members && k.0 == club| < size
  }

  /** The answer to every membership operation of a reachable store, by the operations so far. */
  lemma MembershipAnswered(wired: bool, ops: seq<Op>, club: ClubId, user: UserId, code: string, size: int, isPublic: bool)
    ensures var s, known := After(wired, ops), ClubOf(wired, ops, club);
            && Step(s, OnMembership(OpCreateClub(club, user, code, size, isPublic))).error ==
                 (if 2 <= size <= 50 && known.None? && InvitedBy(wired, ops, code).None? then None else Some(Rejected))
            && Step(s, OnMembership(OpJoinPublic(club, user))).error ==
                 (if known.None? then Some(ClubNotFound)
                  else if !known.value.isPublic then Some(ClubNotPublic)
                  else if !HasRoom(s, club, known.value.maxMembers) then Some(ClubFull) else None)
            && Step(s, OnMembership(OpLeaveClub(club, user))).error ==
                 (if known.None? then Some(ClubNotFound)
                  else if known.value.owner == user then Some(OwnerCannotLeave) else None)
  {
    ClubsFollowOperations(wired, ops, club, code);
    assert (set k | k in After(wired, ops).members && k.0 == club) == RowsOf(After(wired, ops).members, club);
  }

  lemma JoinByCodeAnswered(wired: bool, ops: seq<Op>, user: UserId, code: string)
    ensures var s, club := After(wired, ops), InvitedBy(wired, ops, code);
            club.Some? ==> ClubOf(wired, ops, club.value).Some?
    ensures var s, club := After(wired, ops), InvitedBy(wired, ops, code);
            Step(s, OnMembership(OpJoinByCode(code, user))).error ==
            if club.None? then Some(ClubNotFound)
            else if !HasRoom(s, club.value, ClubOf(wired, ops, club.value).value.maxMembers) then Some(ClubFull) else None
  {
    ClubsFollowOperations(wired, ops, 0, code);
    var s := After(wired, ops);
    MembershipHolds(EmptyStore(wired), ops);
    if code in s.invites {
      ClubsFollowOperations(wired, ops, s.invites[code], code);
      assert (set k | k in s.members && k.0 == s.invites[code]) == RowsOf(s.members, s.invites[code]);
    }
  }

  // ---------- sessions and agendas ----------

  /** The session as the accepted operations left it. */
  ghost function SessionOf(wired: bool, ops: seq<Op>, x: SessionId): Option<Session> {
    if ops == [] then None
    else
      var prior, last := SessionOf(wired, ops[..|ops| - 1], x), ops[|ops| - 1];
      if !Accepted(wired, ops) || !last.OnLifecycle? then prior
      else
        match last.l
        case OpCreateSession(y, club, _, presenter) => if y == x then Some(Session(club, presenter, Draft)) else prior
        case OpSetPresenter(_, y, _, presenter) =>
          if y == x && prior.Some? then Some(Session(prior.value.club, presenter, prior.value.status)) else prior
        case OpTransition(_, y, _, target) =>
          if y == x && prior.Some? then
            Some(Session(prior.value.club, prior.value.presenter, if target == "open" then Open else Closed))
          else prior
        case _ => prior
  }

  /** The agenda as the accepted operations left it: its text is that of the last accepted edit. */
  ghost function AgendaOf(wired: bool, ops: seq<Op>, a: AgendaId): Option<Agenda> {
    if ops == [] then None
    else
      var prior, last := AgendaOf(wired, ops[..|ops| - 1], a), ops[|ops| - 1];
      if !Accepted(wired, ops) || !last.OnLifecycle? then prior
      else
        match last.l
        case OpCreateAgenda(b, _, x, user, body) => if b == a then Some(Agenda(x, user, body, false, None)) else prior
        case OpUpdateAgenda(_, _, b, _, body) =>
          if b == a && prior.Some? then
            Some(Agenda(prior.value.session, prior.value.author, body, prior.value.published, prior.value.publishedAt))
          else prior
        case OpPublishAgenda(_, _, b, _, now) =>
          if b == a && prior.Some? then
            Some(Agenda(prior.value.session, prior.value.author, prior.value.body, true, Some(now)))
          else prior
        case _ => prior
  }

  lemma SessionEffect(s: Store, op: LifecycleOp, x: SessionId)
    requires !op.OpTransition?
    ensures var r := StepLifecycle(s, op);
            if r.error.None? && op.OpCreateSession? && op.session == x then
              x !in s.sessions && x in r.store.sessions && r.store.sessions[x] == Session(op.club, op.presenter, Draft)
            else if r.error.None? && op.OpSetPresenter? && op.session == x then
              x in s.sessions && x in r.store.sessions &&
              r.store.sessions[x] == Session(s.sessions[x].club, op.presenter, s.sessions[x].status)
            else (x in r.store.sessions <==> x in s.sessions) &&
                 (x in s.sessions ==> r.store.sessions[x] == s.sessions[x])
  {
  }

  lemma TransitionEffect(s: Store, op: LifecycleOp, x: SessionId)
    requires op.OpTransition?
    ensures var r := StepLifecycle(s, op);
            if r.error.None? && op.session == x then
              x in s.sessions && x in r.store.sessions &&
              r.store.sessions[x] ==
                Session(s.sessions[x].club, s.sessions[x].presenter, if op.target == "open" then Open else Closed)
            else (x in r.store.sessions <==> x in s.sessions) &&
                 (x in s.sessions ==> r.store.sessions[x] == s.sessions[x])
  {
  }

  lemma {:induction false} SessionsFollowOperations(wired: bool, ops: seq<Op>, x: SessionId)
    ensures var s := After(wired, ops);
            SessionOf(wired, ops, x) == if x in s.sessions then Some(s.sessions[x]) else None
  {
    if ops != [] {
      var s, last := After(wired, ops[..|ops| - 1]), ops[|ops| - 1];
      SessionsFollowOperations(wired, ops[..|ops| - 1], x);
      match last
      case OnMembership(m) => MembershipFrame(s, m);
      case OnLifecycle(l) =>
        if l.OpTransition? {
          TransitionEffect(s, l, x);
        } else {
          SessionEffect(s, l, x);
        }
      case OnDiscussion(d) => DiscussionFrame(s, d);
    }
  }

  ghost predicate SameAgenda(s: Store, t: Store, a: AgendaId) {
    (a in t.agendas <==> a in s.agendas) && (a in s.agendas ==> t.agendas[a] == s.agendas[a])
  }

  lemma AgendaCreated(s: Store, op: LifecycleOp, a: AgendaId)
    requires op.OpCreateAgenda?
    ensures var r := StepLifecycle(s, op);
            if r.error.None? && op.agenda == a then
              a !in s.agendas && a in r.store.agendas && r.store.agendas[a] == Agenda(op.session, op.user, op.body, false, None)
            else SameAgenda(s, r.store, a)
  {
  }

  lemma AgendaUpdated(s: Store, op: LifecycleOp, a: AgendaId)
    requires op.OpUpdateAgenda?
    ensures var r := StepLifecycle(s, op);
            if r.error.None? && op.agenda == a then
              a in s.agendas && a in r.store.agendas && r.store.agendas[a] == s.agendas[a].(body := op.body)
            else SameAgenda(s, r.store, a)
  {
  }

  lemma AgendaPublication(s: Store, op: LifecycleOp, a: AgendaId)
    requires op.OpPublishAgenda?
    ensures var r := StepLifecycle(s, op);
            if r.error.None? && op.agenda == a then
              a in s.agendas && a in r.store.agendas &&
              r.store.agendas[a] == s.agendas[a].(published := true, publishedAt := Some(op.now))
            else SameAgenda(s, r.store, a)
  {
  }

  lemma AgendaKept(s: Store, op: LifecycleOp, a: AgendaId)
    requires op.OpCreateSession? || op.OpSetPresenter? || op.OpTransition?
    ensures SameAgenda(s, StepLifecycle(s, op).store, a)
  {
  }

  lemma {:induction false} AgendasFollowOperations(wired: bool, ops: seq<Op>, a: AgendaId)
    ensures var s := After(wired, ops);
            AgendaOf(wired, ops, a) == if a in s.agendas then Some(s.agendas[a]) else None
  {
    if ops != [] {
      var s, last := After(wired, ops[..|ops| - 1]), ops[|ops| - 1];
      AgendasFollowOperations(wired, ops[..|ops| - 1], a);
      match last
      case OnMembership(m) => MembershipFrame(s, m);
      case OnLifecycle(l) => {
        match l {
          case OpCreateAgenda(_, _, _, _, _) => AgendaCreated(s, l, a);
          case OpUpdateAgenda(_, _, _, _, _) => AgendaUpdated(s, l, a);
          case OpPublishAgenda(_, _, _, _, _) => AgendaPublication(s, l, a);
          case _ => AgendaKept(s, l, a);
        }
      }
      case OnDiscussion(d) => DiscussionFrame(s, d);
    }
  }

  ghost predicate Hosts(wired: bool, ops: seq<Op>, club: ClubId, user: UserId) {
    ClubOf(wired, ops, club).Some? && ClubOf(wired, ops, club).value.owner == user
  }

  /** The answer to every session operation of a reachable store: the creator of the club alone
      manages sessions, a presenter must be a member, and the status moves to the next step. */
  lemma SessionAnswered(wired: bool, ops: seq<Op>, club: ClubId, x: SessionId, user: UserId, presenter: Option<UserId>, target: string)
    ensures var s := After(wired, ops);
            var gate := if ClubOf(wired, ops, club).None? then Some(ClubNotFound)
                        else if !Hosts(wired, ops, club, user) then Some(PermissionDenied) else None;
            var found := SessionOf(wired, ops, x);
            var missing := found.None? || found.value.club != club;
            var stranger := presenter.Some? && !LastEntered(wired, ops, club, presenter.value);
            && Step(s, OnLifecycle(OpCreateSession(x, club, user, presenter))).error ==
                 (if gate.Some? then gate else if stranger then Some(PresenterNotMember)
                  else if found.Some? then Some(Rejected) else None)
            && Step(s, OnLifecycle(OpSetPresenter(club, x, user, presenter))).error ==
                 (if gate.Some? then gate else if missing then Some(SessionNotFound)
                  else if stranger then Some(PresenterNotMember) else None)
            && Step(s, OnLifecycle(OpTransition(club, x, user, target))).error ==
                 (if gate.Some? then gate else if missing then Some(SessionNotFound)
                  else if target !in {"draft", "open", "closed"} then Some(InvalidSessionStatus)
                  else if (target == "open" && found.value.status == Draft) || (target == "closed" && found.value.status == Open)
                  then None else Some(InvalidStatusTransition))
  {
    ClubsFollowOperations(wired, ops, club, "");
    SessionsFollowOperations(wired, ops, x);
    HostTestsAgree(wired, ops, club, user);
    if presenter.Some? {
      MembersFollowOperations(wired, ops, club, presenter.value);
    }
  }

  /** The answer to every agenda operation: the creator of the club or the session's presenter. */
  lemma AgendaAnswered(wired: bool, ops: seq<Op>, club: ClubId, x: SessionId, a: AgendaId, user: UserId, body: string, now: Time)
    ensures var s := After(wired, ops);
            var session, agenda := SessionOf(wired, ops, x), AgendaOf(wired, ops, a);
            var gate := if ClubOf(wired, ops, club).None? then Some(ClubNotFound)
                        else if session.None? || session.value.club != club then Some(SessionNotFound)
                        else if !Hosts(wired, ops, club, user) && session.value.presenter != Some(user) then Some(PermissionDenied)
                        else None;
            var missing := agenda.None? || agenda.value.session != x;
            && Step(s, OnLifecycle(OpCreateAgenda(a, club, x, user, body))).error ==
                 (if gate.Some? then gate else if agenda.Some? then Some(Rejected) else None)
            && Step(s, OnLifecycle(OpUpdateAgenda(club, x, a, user, body))).error ==
                 (if gate.Some? then gate else if missing then Some(AgendaNotFound) else None)
            && Step(s, OnLifecycle(OpPublishAgenda(club, x, a, user, now))).error ==
                 (if gate.Some? then gate else if missing then Some(AgendaNotFound)
                  else if agenda.value.published then Some(AlreadyPublished) else None)
  {
    ClubsFollowOperations(wired, ops, club, "");
    SessionsFollowOperations(wired, ops, x);
    AgendasFollowOperations(wired, ops, a);
  }

  // ---------- topics and comments ----------

  /** The topic's agenda and prompt: it is there from its accepted creation to its deletion. */
  ghost function TopicOf(wired: bool, ops: seq<Op>, t: TopicId): Option<(AgendaId, string)> {
    if ops == [] then None
    else
      var prior, last := TopicOf(wired, ops[..|ops| - 1], t), ops[|ops| - 1];
      if !Accepted(wired, ops) || !last.OnDiscussion? then prior
      else
        match last.d
        case OpAddTopic(u, _, _, agenda, _, prompt) => if u == t then Some((agenda, prompt)) else prior
        case OpDeleteTopic(_, _, _, u, _) => if u == t then None else prior
        case _ => prior
  }

  /** The comment as the accepted operations left it: its text is that of the last accepted
      edit, and it goes with its own deletion, that of its parent, or that of its topic. */
  ghost function CommentOf(wired: bool, ops: seq<Op>, m: CommentId): Option<Comment> {
    if ops == [] then None
    else
      var prior, last := CommentOf(wired, ops[..|ops| - 1], m), ops[|ops| - 1];
      if !Accepted(wired, ops) || !last.OnDiscussion? then prior
      else
        match last.d
        case OpAddComment(n, path, user, parent, body) => if n == m then Some(Comment(path.topic, user, parent, body, None)) else prior
        case OpUpdateComment(_, n, _, body, now) =>
          if n == m && prior.Some? then
            Some(Comment(prior.value.topic, prior.value.author, prior.value.parent, body, Some(now)))
          else prior
        case OpDeleteComment(_, n, _) =>
          if n == m || (prior.Some? && prior.value.parent == Some(n)) then None else prior
        case OpDeleteTopic(_, _, _, t, _) => if prior.Some? && prior.value.topic == t then None else prior
        case _ => prior
  }

  /** The topic row is there before and after, or in neither, with one agenda and prompt. */
  ghost predicate SameTopic(s: Store, t: Store, id: TopicId) {
    (id in t.topics <==> id in s.topics) &&
    (id in s.topics ==> t.topics[id].agenda == s.topics[id].agenda && t.topics[id].prompt == s.topics[id].prompt)
  }

  lemma TopicAdded(s: Store, op: DiscussionOp, t: TopicId)
    requires op.OpAddTopic?
    ensures var r := StepDiscussion(s, op);
            if r.error.None? && op.topic == t then
              t !in s.topics && t in r.store.topics && r.store.topics[t].agenda == op.agenda && r.store.topics[t].prompt == op.prompt
            else SameTopic(s, r.store, t)
  {
  }

  lemma TopicDeleted(s: Store, op: DiscussionOp, t: TopicId)
    requires op.OpDeleteTopic?
    ensures var r := StepDiscussion(s, op);
            if r.error.None? && op.topic == t then t !in r.store.topics else SameTopic(s, r.store, t)
  {
  }

  lemma TopicKept(s: Store, op: DiscussionOp, t: TopicId)
    requires !op.OpAddTopic? && !op.OpDeleteTopic?
    ensures SameTopic(s, StepDiscussion(s, op).store, t)
  {
  }

  lemma {:induction false} TopicsFollowOperations(wired: bool, ops: seq<Op>, t: TopicId)
    ensures var s := After(wired, ops);
            TopicOf(wired, ops, t) == if t in s.topics then Some((s.topics[t].agenda, s.topics[t].prompt)) else None
  {
    if ops != [] {
      var s, last := After(wired, ops[..|ops| - 1]), ops[|ops| - 1];
      TopicsFollowOperations(wired, ops[..|ops| - 1], t);
      match last
      case OnMembership(m) => MembershipFrame(s, m);
      case OnLifecycle(l) => LifecycleFrame(s, l);
      case OnDiscussion(d) =>
        if d.OpAddTopic? {
          TopicAdded(s, d, t);
        } else if d.OpDeleteTopic? {
          TopicDeleted(s, d, t);
        } else {
          TopicKept(s, d, t);
        }
    }
  }

  lemma CommentWritten(s: Store, op: DiscussionOp, m: CommentId)
    requires op.OpAddComment? || op.OpUpdateComment?
    ensures var r := StepDiscussion(s, op);
            if r.error.None? && op.OpAddComment? && op.comment == m then
              m !in s.comments && m in r.store.comments &&
              r.store.comments[m] == Comment(op.path.topic, op.user, op.parent, op.body, None)
            else if r.error.None? && op.OpUpdateComment? && op.comment == m then
              m in s.comments && m in r.store.comments &&
              r.store.comments[m] == s.comments[m].(body := op.body, editedAt := Some(op.now))
            else (m in r.store.comments <==> m in s.comments) &&
                 (m in s.comments ==> r.store.comments[m] == s.comments[m])
  {
  }

  /** Exactly the comments of `gone` have disappeared, and the others are as they were. */
  ghost predicate Without(s: Store, t: Store, m: CommentId, gone: bool) {
    (m in t.comments <==> m in s.comments && !gone) && (m in t.comments ==> t.comments[m] == s.comments[m])
  }

  lemma CommentDeleted(s: Store, op: DiscussionOp, m: CommentId)
    requires op.OpDeleteComment?
    ensures var r := StepDiscussion(s, op);
            Without(s, r.store, m, r.error.None? && m in s.comments &&
                                   (op.comment == m || s.comments[m].parent == Some(op.comment)))
  {
  }

  lemma CommentGoesWithTopic(s: Store, op: DiscussionOp, m: CommentId)
    requires op.OpDeleteTopic?
    ensures var r := StepDiscussion(s, op);
            Without(s, r.store, m, r.error.None? && m in s.comments && s.comments[m].topic == op.topic)
  {
  }

  lemma CommentKept(s: Store, op: DiscussionOp, m: CommentId)
    requires op.OpAddTopic? || op.OpReorderTopics?
    ensures Without(s, StepDiscussion(s, op).store, m, false)
  {
  }

  lemma {:induction false} CommentsFollowOperations(wired: bool, ops: seq<Op>, m: CommentId)
    ensures var s := After(wired, ops);
            CommentOf(wired, ops, m) == if m in s.comments then Some(s.comments[m]) else None
  {
    if ops != [] {
      var s, last := After(wired, ops[..|ops| - 1]), ops[|ops| - 1];
      CommentsFollowOperations(wired, ops[..|ops| - 1], m);
      match last
      case OnMembership(o) => MembershipFrame(s, o);
      case OnLifecycle(l) => LifecycleFrame(s, l);
      case OnDiscussion(d) =>
        match d {
          case OpDeleteComment(_, _, _) => CommentDeleted(s, d, m);
          case OpDeleteTopic(_, _, _, _, _) => CommentGoesWithTopic(s, d, m);
          case OpAddTopic(_, _, _, _, _, _) => CommentKept(s, d, m);
          case OpReorderTopics(_, _, _, _, _) => CommentKept(s, d, m);
          case _ => CommentWritten(s, d, m);
        }
    }
  }

  /** What the path of a topic operation must meet: the session in the club, the agenda in the
      session, written by the caller. */
  ghost function AuthorGate(wired: bool, ops: seq<Op>, club: ClubId, x: SessionId, a: AgendaId, user: UserId): Option<Error> {
    var session, agenda := SessionOf(wired, ops, x), AgendaOf(wired, ops, a);
    if session.None? || session.value.club != club then Some(SessionNotFound)
    else if agenda.None? || agenda.value.session != x then Some(AgendaNotFound)
    else if agenda.value.author != user then Some(PermissionDenied)
    else None
  }

  lemma TopicsAnswered(wired: bool, ops: seq<Op>, club: ClubId, x: SessionId, a: AgendaId, t: TopicId, user: UserId,
                       prompt: string, order: seq<TopicId>)
    ensures var s, gate, topic := After(wired, ops), AuthorGate(wired, ops, club, x, a, user), TopicOf(wired, ops, t);
            && Step(s, OnDiscussion(OpAddTopic(t, club, x, a, user, prompt))).error ==
                 (if gate.Some? then gate else if topic.Some? then Some(Rejected) else None)
            && Step(s, OnDiscussion(OpDeleteTopic(club, x, a, t, user))).error ==
                 (if gate.Some? then gate else if topic.None? || topic.value.0 != a then Some(TopicNotFound) else None)
            && Step(s, OnDiscussion(OpReorderTopics(club, x, a, user, order))).error ==
                 (if gate.Some? then gate
                  else if forall u :: u in order <==> TopicOf(wired, ops, u).Some? && TopicOf(wired, ops, u).value.0 == a then None
                  else Some(InvalidTopicSet))
  {
    SessionsFollowOperations(wired, ops, x);
    AgendasFollowOperations(wired, ops, a);
    TopicsFollowOperations(wired, ops, t);
    var s := After(wired, ops);
    forall u | true
      ensures u in TopicsOf(s.topics, a) <==> TopicOf(wired, ops, u).Some? && TopicOf(wired, ops, u).value.0 == a
    {
      TopicsFollowOperations(wired, ops, u);
    }
    SameSetIff(order, TopicsOf(s.topics, a));
  }

  lemma SameSetIff(order: seq<TopicId>, ids: set<TopicId>)
    ensures (set t | t in order) == ids <==> forall u :: u in order <==> u in ids
  {
  }

  /** What the path of a comment must meet. */
  ghost function PathGate(wired: bool, ops: seq<Op>, p: Path): Option<Error> {
    var session, agenda, topic := SessionOf(wired, ops, p.session), AgendaOf(wired, ops, p.agenda), TopicOf(wired, ops, p.topic);
    if ClubOf(wired, ops, p.club).None? then Some(ClubNotFound)
    else if session.None? || session.value.club != p.club then Some(SessionNotFound)
    else if agenda.None? || agenda.value.session != p.session then Some(AgendaNotFound)
    else if topic.None? || topic.value.0 != p.agenda then Some(TopicNotFound)
    else None
  }

  lemma PathsFollowOperations(wired: bool, ops: seq<Op>, p: Path)
    ensures PathError(After(wired, ops), p) == PathGate(wired, ops, p)
  {
    ClubsFollowOperations(wired, ops, p.club, "");
    SessionsFollowOperations(wired, ops, p.session);
    AgendasFollowOperations(wired, ops, p.agenda);
    TopicsFollowOperations(wired, ops, p.topic);
  }

  /** A comment needs the path, a member as its author and, for a reply, a root comment of the
      same topic. */
  lemma AddCommentAnswered(wired: bool, ops: seq<Op>, m: CommentId, p: Path, user: UserId, parent: Option<CommentId>, body: string)
    ensures var gate := PathGate(wired, ops, p);
            var answered := if parent.Some? then CommentOf(wired, ops, parent.value) else None;
            Step(After(wired, ops), OnDiscussion(OpAddComment(m, p, user, parent, body))).error ==
            if gate.Some? then gate
            else if !LastEntered(wired, ops, p.club, user) then Some(NotMember)
            else if parent.Some? && (answered.None? || answered.value.topic != p.topic) then Some(CommentNotFound)
            else if parent.Some? && answered.value.parent.Some? then Some(MaxReplyDepthExceeded)
            else if CommentOf(wired, ops, m).Some? then Some(Rejected)
            else None
  {
    PathsFollowOperations(wired, ops, p);
    MembersFollowOperations(wired, ops, p.club, user);
    CommentsFollowOperations(wired, ops, m);
    if parent.Some? {
      CommentsFollowOperations(wired, ops, parent.value);
    }
  }

  /** A comment is edited or deleted by its author or the creator of the club. */
  lemma CommentEditsAnswered(wired: bool, ops: seq<Op>, m: CommentId, p: Path, user: UserId, body: string, now: Time)
    ensures var s, gate, comment := After(wired, ops), PathGate(wired, ops, p), CommentOf(wired, ops, m);
            var answer := if gate.Some? then gate
                          else if comment.None? || comment.value.topic != p.topic then Some(CommentNotFound)
                          else if comment.value.author != user && !Hosts(wired, ops, p.club, user) then Some(PermissionDenied)
                          else None;
            && Step(s, OnDiscussion(OpUpdateComment(p, m, user, body, now))).error == answer
            && Step(s, OnDiscussion(OpDeleteComment(p, m, user))).error == answer
  {
    PathsFollowOperations(wired, ops, p);
    ClubsFollowOperations(wired, ops, p.club, "");
    CommentsFollowOperations(wired, ops, m);
  }

  // ---------- the feed ----------

  /** The feed entry of an accepted operation, if it has one: a new member of a public club, an
      opened session, a published agenda, a comment. */
  ghost function EntryOf(wired: bool, before: seq<Op>, op: Op): seq<FeedEvent> {
    match op
    case OnMembership(m) =>
      if m.OpJoinPublic? && !LastEntered(wired, before, m.club, m.user) then [ClubJoined(m.user, m.club)] else []
    case OnLifecycle(l) =>
      if l.OpTransition? && l.target == "open" then [SessionOpened(l.user, l.session)]
      else if l.OpPublishAgenda? then [AgendaPublished(l.user, l.agenda)]
      else []
    case OnDiscussion(d) =>
      if d.OpAddComment? then [DiscussionCommented(d.user, d.comment, d.parent)] else []
  }

  ghost function FeedOf(wired: bool, ops: seq<Op>): seq<FeedEvent> {
    if ops == [] then []
    else
      var front, last := ops[..|ops| - 1], ops[|ops| - 1];
      FeedOf(wired, front) + if Accepted(wired, ops) then EntryOf(wired, front, last) else []
  }

  lemma LifecycleEntry(s: Store, op: LifecycleOp)
    ensures var r := StepLifecycle(s, op);
            r.store.feedWired == s.feedWired &&
            r.store.feed == s.feed +
              if !s.feedWired || r.error.Some? then []
              else if op.OpTransition? && op.target == "open" then [SessionOpened(op.user, op.session)]
              else if op.OpPublishAgenda? then [AgendaPublished(op.user, op.agenda)]
              else []
  {
    assert s.feed + [] == s.feed;
  }

  lemma MembershipEntry(s: Store, op: MembershipOp)
    ensures var r := StepMembership(s, op);
            r.store.feedWired == s.feedWired &&
            r.store.feed == s.feed +
              if s.feedWired && r.error.None? && op.OpJoinPublic? && (op.club, op.user) !in s.members
              then [ClubJoined(op.user, op.club)] else []
  {
    assert s.feed + [] == s.feed;
  }

  lemma DiscussionEntry(s: Store, op: DiscussionOp)
    ensures var r := StepDiscussion(s, op);
            r.store.feedWired == s.feedWired &&
            r.store.feed == s.feed +
              if s.feedWired && r.error.None? && op.OpAddComment? then [DiscussionCommented(op.user, op.comment, op.parent)] else []
  {
    assert s.feed + [] == s.feed;
    DiscussionFrame(s, op);
    if op.OpAddComment? {
      AddedCommentEntry(s, op);
    }
  }

  lemma AddedCommentEntry(s: Store, op: DiscussionOp)
    requires op.OpAddComment?
    ensures var r := StepDiscussion(s, op);
            r.store.feed == s.feed +
              if s.feedWired && r.error.None? then [DiscussionCommented(op.user, op.comment, op.parent)] else []
  {
    assert s.feed + [] == s.feed;
  }

  /** Over every run the feed is, entry by entry and in order, what the accepted operations call
      for, or nothing when no feed service was given. */
  lemma {:induction false} FeedFollowsOperations(wired: bool, ops: seq<Op>)
    ensures After(wired, ops).feedWired == wired
    ensures After(wired, ops).feed == if wired then FeedOf(wired, ops) else []
  {
    if ops != [] {
      var front, last := ops[..|ops| - 1], ops[|ops| - 1];
      var s := After(wired, front);
      FeedFollowsOperations(wired, front);
      match last
      case OnMembership(m) =>
        MembershipEntry(s, m);
        if m.OpJoinPublic? {
          MembersFollowOperations(wired, front, m.club, m.user);
        }
      case OnLifecycle(l) => LifecycleEntry(s, l);
      case OnDiscussion(d) => DiscussionEntry(s, d);
    }
  }
}
