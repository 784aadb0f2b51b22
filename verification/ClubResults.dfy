/** What every reachable club store satisfies, and what that buys. */
module ClubResults {
  import opened Prelude
  import opened Clubs

  // ---------- what each group of operations leaves alone ----------

  /** `t` differs from `s` at most in clubs, invites, members and feed. */
  ghost predicate OnlyMembership(s: Store, t: Store) {
    t == s.(clubs := t.clubs, invites := t.invites, members := t.members, feed := t.feed)
  }

  ghost predicate OnlyLifecycle(s: Store, t: Store) {
    t == s.(sessions := t.sessions, agendas := t.agendas, feed := t.feed)
  }

  ghost predicate OnlyDiscussion(s: Store, t: Store) {
    t == s.(topics := t.topics, comments := t.comments, feed := t.feed)
  }

  lemma MembershipFrame(s: Store, op: MembershipOp)
    ensures OnlyMembership(s, StepMembership(s, op).store)
    ensures op.OpJoinPublic? || StepMembership(s, op).store.feed == s.feed
    ensures forall c :: c in s.clubs ==> c in StepMembership(s, op).store.clubs
  {
  }

  lemma SessionFrame(s: Store, op: LifecycleOp)
    requires op.OpCreateSession? || op.OpSetPresenter? || op.OpTransition?
    ensures OnlyLifecycle(s, StepLifecycle(s, op).store)
  {
  }

  lemma AgendaFrame(s: Store, op: LifecycleOp)
    requires op.OpCreateAgenda? || op.OpUpdateAgenda?
    ensures OnlyLifecycle(s, StepLifecycle(s, op).store)
  {
  }

  lemma PublicationFrame(s: Store, op: LifecycleOp)
    requires op.OpPublishAgenda?
    ensures OnlyLifecycle(s, StepLifecycle(s, op).store)
  {
  }

  lemma LifecycleFrame(s: Store, op: LifecycleOp)
    ensures OnlyLifecycle(s, StepLifecycle(s, op).store)
  {
    if op.OpCreateSession? || op.OpSetPresenter? || op.OpTransition? {
      SessionFrame(s, op);
    } else if op.OpPublishAgenda? {
      PublicationFrame(s, op);
    } else {
      AgendaFrame(s, op);
    }
  }

  lemma AddTopicFrame(s: Store, op: DiscussionOp)
    requires op.OpAddTopic?
    ensures OnlyDiscussion(s, StepDiscussion(s, op).store) && StepDiscussion(s, op).store.feed == s.feed
  {
  }

  lemma DeleteTopicFrame(s: Store, op: DiscussionOp)
    requires op.OpDeleteTopic?
    ensures OnlyDiscussion(s, StepDiscussion(s, op).store) && StepDiscussion(s, op).store.feed == s.feed
  {
  }

  lemma ReorderFrame(s: Store, op: DiscussionOp)
    requires op.OpReorderTopics?
    ensures OnlyDiscussion(s, StepDiscussion(s, op).store) && StepDiscussion(s, op).store.feed == s.feed
  {
  }

  lemma CommentFrame(s: Store, op: DiscussionOp)
    requires op.OpAddComment? || op.OpUpdateComment? || op.OpDeleteComment?
    ensures OnlyDiscussion(s, StepDiscussion(s, op).store)
    ensures op.OpAddComment? || StepDiscussion(s, op).store.feed == s.feed
  {
  }

  lemma DiscussionFrame(s: Store, op: DiscussionOp)
    ensures OnlyDiscussion(s, StepDiscussion(s, op).store)
    ensures op.OpAddComment? || StepDiscussion(s, op).store.feed == s.feed
  {
    match op
    case OpAddTopic(_, _, _, _, _, _) => AddTopicFrame(s, op);
    case OpDeleteTopic(_, _, _, _, _) => DeleteTopicFrame(s, op);
    case OpReorderTopics(_, _, _, _, _) => ReorderFrame(s, op);
    case _ => CommentFrame(s, op);
  }

  // ---------- membership: one owner row, capacity ----------

  ghost predicate MembershipOk(s: Store) {
    && (forall k :: k in s.members ==>
          k.0 in s.clubs && (s.members[k] == Owner <==> s.clubs[k.0].owner == k.1))
    && (forall c :: c in s.clubs ==> IsMember(s, c, s.clubs[c].owner) && MemberCount(s, c) <= s.clubs[c].maxMembers)
    && (forall code :: code in s.invites ==> s.invites[code] in s.clubs)
  }

  lemma JoiningAddsOneRow(members: map<(ClubId, UserId), Role>, club: ClubId, user: UserId, role: Role)
    requires (club, user) !in members
    ensures var after := members[(club, user) := role];
            |RowsOf(after, club)| == |RowsOf(members, club)| + 1 &&
            forall c :: c != club ==> RowsOf(after, c) == RowsOf(members, c)
  {
    var after := members[(club, user) := role];
    assert RowsOf(after, club) == RowsOf(members, club) + {(club, user)};
    forall c | c != club
      ensures RowsOf(after, c) == RowsOf(members, c)
    {
      assert forall k :: k in RowsOf(after, c) <==> k in RowsOf(members, c);
    }
  }

  lemma CreatingKeepsMembership(s: Store, t: Store, id: ClubId, owner: UserId, maxMembers: int, isPublic: bool)
    requires MembershipOk(s) && id !in s.clubs && maxMembers >= 1
    requires t.clubs == s.clubs[id := Club(owner, maxMembers, isPublic)]
    requires t.members == s.members[(id, owner) := Owner]
    requires forall code :: code in t.invites ==> t.invites[code] in t.clubs
    ensures MembershipOk(t)
  {
    assert RowsOf(s.members, id) == {};
    JoiningAddsOneRow(s.members, id, owner, Owner);
    forall c | c in t.clubs
      ensures IsMember(t, c, t.clubs[c].owner) && MemberCount(t, c) <= t.clubs[c].maxMembers
    {
      if c != id {
        assert IsMember(s, c, s.clubs[c].owner);
      }
    }
  }

  lemma JoiningKeepsMembership(s: Store, t: Store, club: ClubId, user: UserId)
    requires MembershipOk(s) && club in s.clubs && !IsMember(s, club, user)
    requires MemberCount(s, club) < s.clubs[club].maxMembers
    requires t.clubs == s.clubs && t.invites == s.invites && t.members == s.members[(club, user) := Member]
    ensures MembershipOk(t)
  {
    JoiningAddsOneRow(s.members, club, user, Member);
    assert IsMember(s, club, s.clubs[club].owner);
    forall c | c in t.clubs
      ensures IsMember(t, c, t.clubs[c].owner) && MemberCount(t, c) <= t.clubs[c].maxMembers
    {
      assert IsMember(s, c, s.clubs[c].owner);
    }
  }

  lemma LeavingKeepsMembership(s: Store, club: ClubId, user: UserId)
    requires MembershipOk(s) && club in s.clubs && s.clubs[club].owner != user
    ensures MembershipOk(s.(members := s.members - {(club, user)}))
  {
    var after := s.(members := s.members - {(club, user)});
    forall c | c in s.clubs
      ensures IsMember(after, c, after.clubs[c].owner) && MemberCount(after, c) <= after.clubs[c].maxMembers
    {
      assert IsMember(s, c, s.clubs[c].owner);
      SubsetSize(RowsOf(after.members, c), RowsOf(s.members, c));
    }
  }

  /** The parts of the store that membership depends on. */
  lemma MembershipDependsOn(s: Store, t: Store)
    requires MembershipOk(s) && t.clubs == s.clubs && t.members == s.members && t.invites == s.invites
    ensures MembershipOk(t)
  {
    forall c | c in t.clubs
      ensures IsMember(t, c, t.clubs[c].owner) && MemberCount(t, c) <= t.clubs[c].maxMembers
    {
      assert IsMember(s, c, s.clubs[c].owner);
    }
  }

  lemma MembershipStepKeepsIt(s: Store, op: MembershipOp)
    requires MembershipOk(s)
    ensures MembershipOk(StepMembership(s, op).store)
  {
    var r := StepMembership(s, op);
    if r.store != s {
      match op
      case OpCreateClub(c, u, _, maxMembers, isPublic) => CreatingKeepsMembership(s, r.store, c, u, maxMembers, isPublic);
      case OpJoinByCode(code, u) => JoiningKeepsMembership(s, r.store, s.invites[code], u);
      case OpJoinPublic(c, u) => JoiningKeepsMembership(s, r.store, c, u);
      case OpLeaveClub(c, u) => LeavingKeepsMembership(s, c, u);
    }
  }

  lemma StepKeepsMembership(s: Store, op: Op)
    requires MembershipOk(s)
    ensures MembershipOk(Step(s, op).store)
  {
    match op
    case OnMembership(m) => MembershipStepKeepsIt(s, m);
    case OnLifecycle(l) =>
      LifecycleFrame(s, l);
      MembershipDependsOn(s, StepLifecycle(s, l).store);
    case OnDiscussion(d) =>
      DiscussionFrame(s, d);
      MembershipDependsOn(s, StepDiscussion(s, d).store);
  }

  /** In every reachable store each club has exactly one OWNER row, that of
      owner_id, and no more members than its capacity. */
  lemma {:induction false} MembershipHolds(start: Store, ops: seq<Op>)
    requires MembershipOk(start)
    ensures MembershipOk(Run(start, ops))
  {
    if ops != [] {
      MembershipHolds(start, ops[..|ops| - 1]);
      StepKeepsMembership(Run(start, ops[..|ops| - 1]), ops[|ops| - 1]);
    }
  }

  /** The three tests for being the host agree for every user of every reachable store. */
  lemma HostTestsAgree(feedWired: bool, ops: seq<Op>, club: ClubId, user: UserId)
    ensures var s := Run(EmptyStore(feedWired), ops);
            && (HostError(s, club, user).None? <==> club in s.clubs && s.clubs[club].owner == user)
            && (IsOwnerOrManager(s, club, user) <==> HostError(s, club, user).None?)
  {
    MembershipHolds(EmptyStore(feedWired), ops);
    var s := Run(EmptyStore(feedWired), ops);
    if club in s.clubs {
      assert IsMember(s, club, s.clubs[club].owner);
    }
  }

  // ---------- references ----------

  ghost predicate ReferencesOk(s: Store) {
    && (forall x :: x in s.sessions ==> s.sessions[x].club in s.clubs)
    && (forall a :: a in s.agendas ==> s.agendas[a].session in s.sessions)
    && (forall t :: t in s.topics ==> s.topics[t].agenda in s.agendas)
    && (forall m :: m in s.comments ==> s.comments[m].topic in s.topics)
  }

  /** Cascading deletes leave no row pointing at a deleted one. */
  lemma {:induction false} ReferencesHold(start: Store, ops: seq<Op>)
    requires ReferencesOk(start)
    ensures ReferencesOk(Run(start, ops))
  {
    if ops != [] {
      var before := Run(start, ops[..|ops| - 1]);
      ReferencesHold(start, ops[..|ops| - 1]);
      StepKeepsReferences(before, ops[|ops| - 1]);
    }
  }

  lemma LifecycleKeepsReferences(s: Store, op: LifecycleOp)
    requires ReferencesOk(s)
    ensures ReferencesOk(StepLifecycle(s, op).store)
  {
  }

  lemma TopicsKeepReferences(s: Store, op: DiscussionOp)
    requires ReferencesOk(s) && (op.OpAddTopic? || op.OpDeleteTopic? || op.OpReorderTopics?)
    ensures ReferencesOk(StepDiscussion(s, op).store)
  {
  }

  lemma CommentsKeepReferences(s: Store, op: DiscussionOp)
    requires ReferencesOk(s) && (op.OpAddComment? || op.OpUpdateComment? || op.OpDeleteComment?)
    ensures ReferencesOk(StepDiscussion(s, op).store)
  {
  }

  lemma DiscussionKeepsReferences(s: Store, op: DiscussionOp)
    requires ReferencesOk(s)
    ensures ReferencesOk(StepDiscussion(s, op).store)
  {
    if op.OpAddTopic? || op.OpDeleteTopic? || op.OpReorderTopics? {
      TopicsKeepReferences(s, op);
    } else {
      CommentsKeepReferences(s, op);
    }
  }

  lemma StepKeepsReferences(s: Store, op: Op)
    requires ReferencesOk(s)
    ensures ReferencesOk(Step(s, op).store)
  {
    match op
    case OnMembership(m) => MembershipFrame(s, m);
    case OnLifecycle(l) => LifecycleKeepsReferences(s, l);
    case OnDiscussion(d) => DiscussionKeepsReferences(s, d);
  }

  // ---------- lifecycle against the feed log ----------

  function OpenedCount(feed: seq<FeedEvent>, session: SessionId): nat {
    if feed == [] then 0
    else
      var last := feed[|feed| - 1];
      OpenedCount(feed[..|feed| - 1], session) + if last.SessionOpened? && last.session == session then 1 else 0
  }

  function PublishedCount(feed: seq<FeedEvent>, agenda: AgendaId): nat {
    if feed == [] then 0
    else
      var last := feed[|feed| - 1];
      PublishedCount(feed[..|feed| - 1], agenda) + if last.AgendaPublished? && last.agenda == agenda then 1 else 0
  }

  ghost predicate FeedOk(s: Store) {
    && (forall x :: OpenedCount(s.feed, x) ==
                    if s.feedWired && x in s.sessions && s.sessions[x].status != Draft then 1 else 0)
    && (forall a :: PublishedCount(s.feed, a) == if s.feedWired && a in s.agendas && s.agendas[a].published then 1 else 0)
    && (forall a :: a in s.agendas ==> (s.agendas[a].published <==> s.agendas[a].publishedAt.Some?))
  }

  lemma CountsAfter(feed: seq<FeedEvent>, e: FeedEvent)
    ensures forall x :: OpenedCount(feed + [e], x) ==
                        OpenedCount(feed, x) + if e.SessionOpened? && e.session == x then 1 else 0
    ensures forall a :: PublishedCount(feed + [e], a) ==
                        PublishedCount(feed, a) + if e.AgendaPublished? && e.agenda == a then 1 else 0
  {
    assert (feed + [e])[..|feed + [e]| - 1] == feed;
  }

  lemma TransitionKeepsFeed(s: Store, club: ClubId, session: SessionId, user: UserId, target: string)
    requires FeedOk(s)
    ensures FeedOk(Transition(s, club, session, user, target).store)
  {
    CountsAfter(s.feed, SessionOpened(user, session));
    assert s.feed + [] == s.feed;
  }

  lemma PublishingKeepsFeed(s: Store, club: ClubId, session: SessionId, agenda: AgendaId, user: UserId, now: Time)
    requires FeedOk(s)
    ensures FeedOk(PublishAgenda(s, club, session, agenda, user, now).store)
  {
    CountsAfter(s.feed, AgendaPublished(user, agenda));
    assert s.feed + [] == s.feed;
  }

  /** The parts of the store that the feed is compared with. */
  lemma FeedDependsOn(s: Store, t: Store)
    requires FeedOk(s) && t.sessions == s.sessions && t.agendas == s.agendas && t.feedWired == s.feedWired
    requires t.feed == s.feed ||
             exists e :: t.feed == s.feed + [e] && !e.SessionOpened? && !e.AgendaPublished?
    ensures FeedOk(t)
  {
    if t.feed != s.feed {
      var e :| t.feed == s.feed + [e] && !e.SessionOpened? && !e.AgendaPublished?;
      CountsAfter(s.feed, e);
    }
  }

  lemma SessionEditsKeepFeed(s: Store, op: LifecycleOp)
    requires FeedOk(s) && (op.OpCreateSession? || op.OpSetPresenter?)
    ensures FeedOk(StepLifecycle(s, op).store)
  {
  }

  lemma AgendaEditsKeepFeed(s: Store, op: LifecycleOp)
    requires FeedOk(s) && (op.OpCreateAgenda? || op.OpUpdateAgenda?)
    ensures FeedOk(StepLifecycle(s, op).store)
  {
  }

  lemma LifecycleKeepsFeed(s: Store, op: LifecycleOp)
    requires FeedOk(s)
    ensures FeedOk(StepLifecycle(s, op).store)
  {
    match op
    case OpTransition(c, x, u, target) => TransitionKeepsFeed(s, c, x, u, target);
    case OpPublishAgenda(c, x, a, u, now) => PublishingKeepsFeed(s, c, x, a, u, now);
    case OpCreateSession(_, _, _, _) => SessionEditsKeepFeed(s, op);
    case OpSetPresenter(_, _, _, _) => SessionEditsKeepFeed(s, op);
    case OpCreateAgenda(_, _, _, _, _) => AgendaEditsKeepFeed(s, op);
    case OpUpdateAgenda(_, _, _, _, _) => AgendaEditsKeepFeed(s, op);
  }

  lemma JoinKeepsFeed(s: Store, op: MembershipOp)
    requires FeedOk(s)
    ensures FeedOk(StepMembership(s, op).store)
  {
    MembershipFrame(s, op);
    if op.OpJoinPublic? && StepMembership(s, op).store.feed != s.feed {
      assert StepMembership(s, op).store.feed == s.feed + [ClubJoined(op.user, op.club)];
    }
    FeedDependsOn(s, StepMembership(s, op).store);
  }

  lemma DiscussionKeepsFeed(s: Store, op: DiscussionOp)
    requires FeedOk(s)
    ensures FeedOk(StepDiscussion(s, op).store)
  {
    DiscussionFrame(s, op);
    if op.OpAddComment? && StepDiscussion(s, op).store.feed != s.feed {
      assert StepDiscussion(s, op).store.feed == s.feed + [DiscussionCommented(op.user, op.comment, op.parent)];
    }
    FeedDependsOn(s, StepDiscussion(s, op).store);
  }

  lemma StepKeepsFeed(s: Store, op: Op)
    requires FeedOk(s)
    ensures FeedOk(Step(s, op).store)
  {
    match op
    case OnMembership(m) => JoinKeepsFeed(s, m);
    case OnLifecycle(l) => LifecycleKeepsFeed(s, l);
    case OnDiscussion(d) => DiscussionKeepsFeed(s, d);
  }

  /** In every reachable store the log holds exactly one session_opened for a
      session that has left draft and none for a draft, exactly one
      agenda_published for a published agenda and none otherwise. */
  lemma {:induction false} FeedMatchesLifecycle(feedWired: bool, ops: seq<Op>)
    ensures FeedOk(Run(EmptyStore(feedWired), ops))
  {
    if ops != [] {
      FeedMatchesLifecycle(feedWired, ops[..|ops| - 1]);
      StepKeepsFeed(Run(EmptyStore(feedWired), ops[..|ops| - 1]), ops[|ops| - 1]);
    }
  }

  /** `t` is a later state of the lifecycle than `s`: sessions stay and their status
      does not go back, agendas stay, and a publication time never changes. */
  ghost predicate Forward(s: Store, t: Store) {
    && (forall x :: x in s.sessions ==>
          x in t.sessions && Order(s.sessions[x].status) <= Order(t.sessions[x].status))
    && (forall a :: a in s.agendas ==>
          a in t.agendas && t.agendas[a].author == s.agendas[a].author &&
          (s.agendas[a].published ==>
             t.agendas[a].published && t.agendas[a].publishedAt == s.agendas[a].publishedAt))
  }

  lemma LifecycleMovesOneStatus(s: Store, op: LifecycleOp, x: SessionId)
    requires x in s.sessions
    ensures var t := StepLifecycle(s, op).store;
            x in t.sessions &&
            (t.sessions[x].status == s.sessions[x].status ||
             (Order(t.sessions[x].status) == Order(s.sessions[x].status) + 1 &&
              op.OpTransition? && op.session == x && ParseStatus(op.target) == Some(t.sessions[x].status)))
  {
  }

  /** One operation moves a session at most one step, and only along draft, open, closed. */
  lemma StepMovesOneStatus(s: Store, op: Op, x: SessionId)
    requires x in s.sessions
    ensures var t := Step(s, op).store;
            x in t.sessions &&
            (t.sessions[x].status == s.sessions[x].status ||
             (Order(t.sessions[x].status) == Order(s.sessions[x].status) + 1 &&
              op.OnLifecycle? && op.l.OpTransition? && op.l.session == x))
  {
    match op
    case OnMembership(m) => MembershipFrame(s, m);
    case OnLifecycle(l) => LifecycleMovesOneStatus(s, l, x);
    case OnDiscussion(d) => DiscussionFrame(s, d);
  }

  lemma LifecycleKeepsAgenda(s: Store, op: LifecycleOp, a: AgendaId)
    requires a in s.agendas
    ensures var t := StepLifecycle(s, op).store;
            a in t.agendas && t.agendas[a].author == s.agendas[a].author &&
            (s.agendas[a].published ==> t.agendas[a].published && t.agendas[a].publishedAt == s.agendas[a].publishedAt)
  {
  }

  lemma LifecycleStepMovesForward(s: Store, op: LifecycleOp)
    ensures Forward(s, StepLifecycle(s, op).store)
  {
    forall x | x in s.sessions
      ensures x in StepLifecycle(s, op).store.sessions &&
              Order(s.sessions[x].status) <= Order(StepLifecycle(s, op).store.sessions[x].status)
    {
      LifecycleMovesOneStatus(s, op, x);
    }
    forall a | a in s.agendas
      ensures var t := StepLifecycle(s, op).store;
              a in t.agendas && t.agendas[a].author == s.agendas[a].author &&
              (s.agendas[a].published ==>
                 t.agendas[a].published && t.agendas[a].publishedAt == s.agendas[a].publishedAt)
    {
      LifecycleKeepsAgenda(s, op, a);
    }
  }

  lemma StepMovesForward(s: Store, op: Op)
    ensures Forward(s, Step(s, op).store)
  {
    match op
    case OnMembership(m) => MembershipFrame(s, m);
    case OnLifecycle(l) => LifecycleStepMovesForward(s, l);
    case OnDiscussion(d) => DiscussionFrame(s, d);
  }

  lemma ForwardIsTransitive(s: Store, t: Store, u: Store)
    requires Forward(s, t) && Forward(t, u)
    ensures Forward(s, u)
  {
  }

  /** Status and publication only move forward, over any run from any store. */
  lemma {:induction false} LifecycleMovesForward(start: Store, ops: seq<Op>)
    ensures Forward(start, Run(start, ops))
  {
    if ops != [] {
      var before := Run(start, ops[..|ops| - 1]);
      LifecycleMovesForward(start, ops[..|ops| - 1]);
      StepMovesForward(before, ops[|ops| - 1]);
      ForwardIsTransitive(start, before, Run(start, ops));
    }
  }

  // ---------- topic positions ----------

  ghost predicate PositionsOk(s: Store) {
    && (forall t :: t in s.topics ==> s.topics[t].position >= 0)
    && (forall t, u :: t in s.topics && u in s.topics && t != u && s.topics[t].agenda == s.topics[u].agenda ==>
          s.topics[t].position != s.topics[u].position)
  }

  lemma NextPositionIsLarger(s: Store, agenda: AgendaId)
    requires PositionsOk(s)
    ensures NextPosition(s, agenda) >= 0
    ensures forall t :: t in s.topics && s.topics[t].agenda == agenda ==> s.topics[t].position < NextPosition(s, agenda)
  {
    forall t | t in s.topics && s.topics[t].agenda == agenda
      ensures s.topics[t].position < NextPosition(s, agenda)
    {
      assert t in TopicsOf(s.topics, agenda);
    }
  }

  /** An accepted topic takes position 0 in an empty agenda, and else the position one past
      the largest. */
  lemma NewTopicPosition(s: Store, op: DiscussionOp)
    requires op.OpAddTopic? && StepDiscussion(s, op).error.None?
    ensures var t := StepDiscussion(s, op).store;
            var others := set u | u in s.topics && s.topics[u].agenda == op.agenda;
            op.topic in t.topics &&
            var position := t.topics[op.topic].position;
            if others == {} then position == 0
            else (forall u :: u in others ==> s.topics[u].position < position) &&
                 exists u :: u in others && s.topics[u].position + 1 == position
  {
    assert (set u | u in s.topics && s.topics[u].agenda == op.agenda) == TopicsOf(s.topics, op.agenda);
  }

  lemma AddingKeepsPositions(s: Store, op: DiscussionOp)
    requires PositionsOk(s) && op.OpAddTopic?
    ensures PositionsOk(StepDiscussion(s, op).store)
  {
    NextPositionIsLarger(s, op.agenda);
    if StepDiscussion(s, op).error.None? {
      assert StepDiscussion(s, op).store.topics ==
             s.topics[op.topic := Topic(op.agenda, NextPosition(s, op.agenda), op.prompt)];
    }
  }

  lemma DeletingKeepsPositions(s: Store, op: DiscussionOp)
    requires PositionsOk(s) && op.OpDeleteTopic?
    ensures PositionsOk(StepDiscussion(s, op).store)
  {
    if StepDiscussion(s, op).error.None? {
      assert StepDiscussion(s, op).store.topics == s.topics - {op.topic};
    }
  }

  lemma RenumberingKeepsPositions(s: Store, op: DiscussionOp)
    requires PositionsOk(s) && op.OpReorderTopics?
    ensures PositionsOk(StepDiscussion(s, op).store)
  {
    if StepDiscussion(s, op).error.None? {
      forall t | t in s.topics && s.topics[t].agenda == op.agenda
        ensures t in op.order
      {
        assert t in TopicsOf(s.topics, op.agenda);
      }
    }
  }

  lemma DiscussionKeepsPositions(s: Store, op: DiscussionOp)
    requires PositionsOk(s)
    ensures PositionsOk(StepDiscussion(s, op).store)
  {
    match op
    case OpAddTopic(_, _, _, _, _, _) => AddingKeepsPositions(s, op);
    case OpReorderTopics(_, _, _, _, _) => RenumberingKeepsPositions(s, op);
    case OpDeleteTopic(_, _, _, _, _) => DeletingKeepsPositions(s, op);
    case _ => assert StepDiscussion(s, op).store.topics == s.topics;
  }

  lemma StepKeepsPositions(s: Store, op: Op)
    requires PositionsOk(s)
    ensures PositionsOk(Step(s, op).store)
  {
    match op
    case OnMembership(m) => MembershipFrame(s, m);
    case OnLifecycle(l) => LifecycleFrame(s, l);
    case OnDiscussion(d) => DiscussionKeepsPositions(s, d);
  }

  /** Positions within an agenda stay distinct and non-negative over every run,
      including reorder lists that repeat an id. */
  lemma {:induction false} PositionsStayDistinct(feedWired: bool, ops: seq<Op>)
    ensures PositionsOk(Run(EmptyStore(feedWired), ops))
  {
    if ops != [] {
      PositionsStayDistinct(feedWired, ops[..|ops| - 1]);
      StepKeepsPositions(Run(EmptyStore(feedWired), ops[..|ops| - 1]), ops[|ops| - 1]);
    }
  }

  function PositionOf(s: Store): TopicId -> int {
    t => if t in s.topics then s.topics[t].position else -1
  }

  /** The topics of an agenda in ascending position: what the listing query returns. */
  ghost predicate IsTopicListing(s: Store, agenda: AgendaId, list: seq<TopicId>) {
    && NoDuplicates(list)
    && (forall t :: t in list <==> t in TopicsOf(s.topics, agenda))
    && (forall i, j :: 0 <= i < j < |list| ==> PositionOf(s)(list[i]) <= PositionOf(s)(list[j]))
  }

  /** Distinct positions leave the query no choice of order. */
  lemma ListingIsUnique(feedWired: bool, ops: seq<Op>, agenda: AgendaId, a: seq<TopicId>, b: seq<TopicId>)
    requires var s := Run(EmptyStore(feedWired), ops); IsTopicListing(s, agenda, a) && IsTopicListing(s, agenda, b)
    ensures a == b
  {
    PositionsStayDistinct(feedWired, ops);
    var s := Run(EmptyStore(feedWired), ops);
    var before := (t: TopicId, u: TopicId) => PositionOf(s)(t) < PositionOf(s)(u);
    forall list | list == a || list == b
      ensures Ascending(before, list)
    {
      forall i, j | 0 <= i < j < |list|
        ensures before(list[i], list[j])
      {
        assert list[i] in list && list[j] in list;
      }
    }
    AscendingListingIsUnique(before, a, b);
  }

  lemma AppendedListing(s: Store, t: Store, agenda: AgendaId, list: seq<TopicId>, id: TopicId)
    requires IsTopicListing(s, agenda, list) && id !in s.topics && id in t.topics && t.topics[id].agenda == agenda
    requires t.topics == s.topics[id := t.topics[id]]
    requires forall u :: u in TopicsOf(s.topics, agenda) ==> s.topics[u].position < t.topics[id].position
    ensures IsTopicListing(t, agenda, list + [id])
  {
    assert TopicsOf(t.topics, agenda) == TopicsOf(s.topics, agenda) + {id};
    forall i | 0 <= i < |list|
      ensures PositionOf(t)(list[i]) == PositionOf(s)(list[i]) < PositionOf(t)(id) && list[i] != id
    {
      assert list[i] in list;
    }
  }

  /** A new topic is listed after every topic already there. */
  lemma NewTopicListsLast(s: Store, op: DiscussionOp, list: seq<TopicId>)
    requires op.OpAddTopic? && StepDiscussion(s, op).error.None?
    requires IsTopicListing(s, op.agenda, list)
    ensures IsTopicListing(StepDiscussion(s, op).store, op.agenda, list + [op.topic])
  {
    AppendedListing(s, StepDiscussion(s, op).store, op.agenda, list, op.topic);
  }

  /** An accepted reorder, repetitions or not, puts every topic at the last index that names
      it, and moves no topic of another agenda. */
  lemma ReorderUsesTheLastIndex(s: Store, op: DiscussionOp, i: nat, t: TopicId)
    requires op.OpReorderTopics? && StepDiscussion(s, op).error.None?
    requires i < |op.order| && forall j :: i < j < |op.order| ==> op.order[j] != op.order[i]
    ensures var after := StepDiscussion(s, op).store.topics;
            op.order[i] in s.topics && op.order[i] in after && after[op.order[i]] == s.topics[op.order[i]].(position := i)
    ensures t in s.topics && s.topics[t].agenda != op.agenda ==>
              t in StepDiscussion(s, op).store.topics && StepDiscussion(s, op).store.topics[t] == s.topics[t]
  {
    assert op.order[i] in (set u | u in op.order);
    assert op.order[i] in TopicsOf(s.topics, op.agenda);
    assert LastIndex(op.order, op.order[i]) == i;
  }

  /** An accepted reorder without repetitions numbers the topics 0..n-1 in the
      requested order, and the listing becomes the request. */
  lemma ReorderListsAsRequested(s: Store, op: DiscussionOp)
    requires op.OpReorderTopics? && StepDiscussion(s, op).error.None? && NoDuplicates(op.order)
    ensures var after := StepDiscussion(s, op).store;
            (forall i :: 0 <= i < |op.order| ==>
               op.order[i] in after.topics && after.topics[op.order[i]].position == i) &&
            IsTopicListing(after, op.agenda, op.order)
  {
    var after := StepDiscussion(s, op).store;
    var named := set t | t in op.order;
    assert TopicsOf(after.topics, op.agenda) == named;
    forall i | 0 <= i < |op.order|
      ensures op.order[i] in after.topics && after.topics[op.order[i]].position == i
    {
      assert op.order[i] in named && op.order[i] in TopicsOf(s.topics, op.agenda);
      assert LastIndex(op.order, op.order[i]) == i;
    }
  }

  // ---------- comments: one level of replies ----------

  /** Every reply answers a root comment of its own topic. */
  ghost predicate RepliesOk(s: Store) {
    forall m :: m in s.comments && s.comments[m].parent.Some? ==>
      var p := s.comments[m].parent.value;
      p in s.comments && s.comments[p].parent.None? && s.comments[p].topic == s.comments[m].topic
  }

  lemma DiscussionKeepsReplies(s: Store, op: DiscussionOp)
    requires RepliesOk(s)
    ensures RepliesOk(StepDiscussion(s, op).store)
  {
  }

  lemma StepKeepsReplies(s: Store, op: Op)
    requires RepliesOk(s)
    ensures RepliesOk(Step(s, op).store)
  {
    match op
    case OnMembership(m) => MembershipFrame(s, m);
    case OnLifecycle(l) => LifecycleFrame(s, l);
    case OnDiscussion(d) => DiscussionKeepsReplies(s, d);
  }

  /** In every reachable store each reply's parent is a root comment of the same topic. */
  lemma {:induction false} RepliesAreOneLevel(feedWired: bool, ops: seq<Op>)
    ensures RepliesOk(Run(EmptyStore(feedWired), ops))
  {
    if ops != [] {
      RepliesAreOneLevel(feedWired, ops[..|ops| - 1]);
      StepKeepsReplies(Run(EmptyStore(feedWired), ops[..|ops| - 1]), ops[|ops| - 1]);
    }
  }

  // ---------- who changes what ----------

  /** The club that a topic belongs to. */
  ghost function ClubOfTopic(s: Store, topic: TopicId): ClubId
    requires ReferencesOk(s) && topic in s.topics
  {
    s.sessions[s.agendas[s.topics[topic].agenda].session].club
  }

  ghost predicate IsHost(s: Store, club: ClubId, user: UserId) {
    club in s.clubs && IsMember(s, club, user) && s.members[(club, user)] == Owner
  }

  /** `user` may edit or delete comment `m`: its author, or the host of the very club it belongs to. */
  ghost predicate MayTouch(s: Store, m: CommentId, user: UserId)
    requires ReferencesOk(s)
  {
    m in s.comments && (s.comments[m].author == user || IsHost(s, ClubOfTopic(s, s.comments[m].topic), user))
  }

  lemma AccessMeansMayTouch(s: Store, p: Path, m: CommentId, user: UserId)
    requires ReferencesOk(s) && MembershipOk(s) && CommentAccessError(s, p, m, user).None?
    ensures MayTouch(s, m, user)
  {
    assert p.club in s.clubs && IsMember(s, p.club, s.clubs[p.club].owner);
  }

  /** What one discussion operation can do to one comment, and who can do it. */
  ghost predicate AuthorisedOnComment(s: Store, t: Store, op: DiscussionOp, m: CommentId)
    requires ReferencesOk(s) && m in s.comments
  {
    if m in t.comments then
      && t.comments[m].topic == s.comments[m].topic
      && t.comments[m].author == s.comments[m].author
      && t.comments[m].parent == s.comments[m].parent
      && (t.comments[m] != s.comments[m] ==> op.OpUpdateComment? && op.comment == m && MayTouch(s, m, op.user))
    else
      || (op.OpDeleteComment? && MayTouch(s, op.comment, op.user) &&
          (op.comment == m || s.comments[m].parent == Some(op.comment)))
      || (op.OpDeleteTopic? && op.topic == s.comments[m].topic &&
          s.agendas[s.topics[op.topic].agenda].author == op.user)
  }

  lemma UpdateIsAuthorised(s: Store, op: DiscussionOp, m: CommentId)
    requires ReferencesOk(s) && MembershipOk(s) && m in s.comments && op.OpUpdateComment?
    ensures AuthorisedOnComment(s, StepDiscussion(s, op).store, op, m)
  {
    if CommentAccessError(s, op.path, op.comment, op.user).None? {
      AccessMeansMayTouch(s, op.path, op.comment, op.user);
    }
  }

  lemma DeleteIsAuthorised(s: Store, op: DiscussionOp, m: CommentId)
    requires ReferencesOk(s) && MembershipOk(s) && m in s.comments && op.OpDeleteComment?
    ensures AuthorisedOnComment(s, StepDiscussion(s, op).store, op, m)
  {
    if CommentAccessError(s, op.path, op.comment, op.user).None? {
      AccessMeansMayTouch(s, op.path, op.comment, op.user);
    }
  }

  lemma TopicDeletionIsAuthorised(s: Store, op: DiscussionOp, m: CommentId)
    requires ReferencesOk(s) && m in s.comments && op.OpDeleteTopic?
    ensures AuthorisedOnComment(s, StepDiscussion(s, op).store, op, m)
  {
  }

  lemma OthersLeaveComment(s: Store, op: DiscussionOp, m: CommentId)
    requires m in s.comments && (op.OpAddTopic? || op.OpReorderTopics? || op.OpAddComment?)
    ensures m in StepDiscussion(s, op).store.comments && StepDiscussion(s, op).store.comments[m] == s.comments[m]
  {
  }

  lemma DiscussionIsAuthorised(s: Store, op: DiscussionOp, m: CommentId)
    requires ReferencesOk(s) && MembershipOk(s) && m in s.comments
    ensures AuthorisedOnComment(s, StepDiscussion(s, op).store, op, m)
  {
    match op
    case OpUpdateComment(_, _, _, _, _) => UpdateIsAuthorised(s, op, m);
    case OpDeleteComment(_, _, _) => DeleteIsAuthorised(s, op, m);
    case OpDeleteTopic(_, _, _, _, _) => TopicDeletionIsAuthorised(s, op, m);
    case _ => OthersLeaveComment(s, op, m);
  }

  lemma ReachableStoresAreSound(feedWired: bool, ops: seq<Op>)
    ensures MembershipOk(Run(EmptyStore(feedWired), ops)) && ReferencesOk(Run(EmptyStore(feedWired), ops))
  {
    MembershipHolds(EmptyStore(feedWired), ops);
    ReferencesHold(EmptyStore(feedWired), ops);
  }

  /** In every reachable store, whatever the operation: a comment keeps its topic,
      author and parent; its text changes only by its author or the host of its own
      club; it disappears only through such a user deleting it or its parent, or
      through the agenda's author deleting its topic. */
  lemma CommentsChangeOnlyByAuthorisedUsers(feedWired: bool, ops: seq<Op>, op: Op, m: CommentId)
    requires m in Run(EmptyStore(feedWired), ops).comments
    ensures var s := Run(EmptyStore(feedWired), ops);
            var t := Step(s, op).store;
            ReferencesOk(s) &&
            if op.OnDiscussion? then AuthorisedOnComment(s, t, op.d, m)
            else m in t.comments && t.comments[m] == s.comments[m]
  {
    ReachableStoresAreSound(feedWired, ops);
    var s := Run(EmptyStore(feedWired), ops);
    match op
    case OnMembership(o) => MembershipFrame(s, o);
    case OnLifecycle(o) => LifecycleFrame(s, o);
    case OnDiscussion(o) => DiscussionIsAuthorised(s, o, m);
  }

  lemma SessionEditorIsHost(s: Store, op: LifecycleOp, x: SessionId)
    requires x in s.sessions && StepLifecycle(s, op).store.sessions != s.sessions
    requires op.OpSetPresenter? || op.OpTransition?
    ensures IsHost(s, op.club, op.user) && SessionError(s, op.club, op.session).None?
  {
  }

  lemma OtherSessionsStay(s: Store, op: LifecycleOp, x: SessionId)
    requires x in s.sessions && !((op.OpSetPresenter? || op.OpTransition?) && op.session == x)
    ensures x in StepLifecycle(s, op).store.sessions && StepLifecycle(s, op).store.sessions[x] == s.sessions[x]
  {
  }

  /** A session row changes only through the OWNER member of its own club. */
  lemma SessionsChangeOnlyByTheirHost(s: Store, op: Op, x: SessionId)
    requires x in s.sessions && x in Step(s, op).store.sessions && Step(s, op).store.sessions[x] != s.sessions[x]
    ensures op.OnLifecycle? && IsHost(s, s.sessions[x].club, op.l.user)
  {
    match op
    case OnMembership(o) => MembershipFrame(s, o);
    case OnLifecycle(o) =>
      if (o.OpSetPresenter? || o.OpTransition?) && o.session == x {
        SessionEditorIsHost(s, o, x);
      } else {
        OtherSessionsStay(s, o, x);
      }
    case OnDiscussion(o) => DiscussionFrame(s, o);
  }

  /** An agenda changes only through the host of its club or the presenter of its session. */
  lemma AgendasChangeOnlyByHostOrPresenter(feedWired: bool, ops: seq<Op>, op: Op, a: AgendaId)
    requires var s := Run(EmptyStore(feedWired), ops);
             a in s.agendas && a in Step(s, op).store.agendas && Step(s, op).store.agendas[a] != s.agendas[a]
    ensures var s := Run(EmptyStore(feedWired), ops);
            op.OnLifecycle? && s.agendas[a].session in s.sessions &&
            (s.sessions[s.agendas[a].session].presenter == Some(op.l.user) ||
             IsHost(s, s.sessions[s.agendas[a].session].club, op.l.user))
  {
    ReachableStoresAreSound(feedWired, ops);
    var s := Run(EmptyStore(feedWired), ops);
    match op
    case OnMembership(o) => MembershipFrame(s, o);
    case OnLifecycle(o) => AgendaEditorIsAllowed(s, o, a);
    case OnDiscussion(o) => DiscussionFrame(s, o);
  }

  lemma AllowedByPath(s: Store, club: ClubId, x: SessionId, user: UserId)
    requires MembershipOk(s) && HostOrPresenterError(s, club, x, user).None?
    ensures s.sessions[x].club == club && (s.sessions[x].presenter == Some(user) || IsHost(s, club, user))
  {
    assert IsMember(s, club, s.clubs[club].owner);
  }

  lemma OtherAgendasStay(s: Store, op: LifecycleOp, a: AgendaId)
    requires a in s.agendas && !((op.OpUpdateAgenda? || op.OpPublishAgenda?) && op.agenda == a)
    ensures a in StepLifecycle(s, op).store.agendas && StepLifecycle(s, op).store.agendas[a] == s.agendas[a]
  {
  }

  lemma AgendaEditorIsAllowed(s: Store, op: LifecycleOp, a: AgendaId)
    requires MembershipOk(s) && ReferencesOk(s) && a in s.agendas
    requires a in StepLifecycle(s, op).store.agendas && StepLifecycle(s, op).store.agendas[a] != s.agendas[a]
    ensures var x := s.agendas[a].session;
            s.sessions[x].presenter == Some(op.user) || IsHost(s, s.sessions[x].club, op.user)
  {
    if (op.OpUpdateAgenda? || op.OpPublishAgenda?) && op.agenda == a {
      assert HostOrPresenterError(s, op.club, op.session, op.user).None? && AgendaError(s, op.session, a).None?;
      AllowedByPath(s, op.club, op.session, op.user);
    } else {
      OtherAgendasStay(s, op, a);
    }
  }
}
