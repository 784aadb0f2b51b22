/** The club service as code: fields for the tables, methods that check and then
    write, each proved to compute its operation in `Clubs`. */
module ClubService {
  import opened Prelude
  import opened Clubs

  class Service {
    const feedWired: bool
    var clubs: map<ClubId, Club>
    var invites: map<string, ClubId>
    var members: map<(ClubId, UserId), Role>
    var sessions: map<SessionId, Session>
    var agendas: map<AgendaId, Agenda>
    var topics: map<TopicId, Topic>
    var comments: map<CommentId, Comment>
    var feed: seq<FeedEvent>

    function Tables(): Store
      reads this
    {
      Store(clubs, invites, members, sessions, agendas, topics, comments, feed, feedWired)
    }

    constructor (feedWired: bool)
      ensures Tables() == EmptyStore(feedWired)
    {
      this.feedWired := feedWired;
      clubs, invites, members := map[], map[], map[];
      sessions, agendas, topics, comments, feed := map[], map[], map[], map[], [];
    }

    method Record(e: FeedEvent)
      modifies this`feed
      ensures feed == old(feed) + if feedWired then [e] else []
    {
      if feedWired {
        feed := feed + [e];
      }
    }

    // ---------- the lookups and gates that raise ----------

    method AssertHost(club: ClubId, user: UserId) returns (error: Option<Error>)
      ensures error == HostError(Tables(), club, user)
    {
      if club !in clubs {
        return Some(ClubNotFound);
      }
      var role: Option<Role> := if (club, user) in members then Some(members[(club, user)]) else None;
      return if role == Some(Owner) then None else Some(PermissionDenied);
    }

    method AssertPresenterIsMember(club: ClubId, presenter: Option<UserId>) returns (error: Option<Error>)
      ensures error == PresenterError(Tables(), club, presenter)
    {
      if presenter.None? {
        return None;
      }
      return if (club, presenter.value) in members then None else Some(PresenterNotMember);
    }

    method GetSessionInClub(club: ClubId, session: SessionId) returns (error: Option<Error>)
      ensures error == SessionError(Tables(), club, session)
    {
      return if session in sessions && sessions[session].club == club then None else Some(SessionNotFound);
    }

    method GetAgendaInSession(session: SessionId, agenda: AgendaId) returns (error: Option<Error>)
      ensures error == AgendaError(Tables(), session, agenda)
    {
      return if agenda in agendas && agendas[agenda].session == session then None else Some(AgendaNotFound);
    }

    method GetTopicInAgenda(agenda: AgendaId, topic: TopicId) returns (error: Option<Error>)
      ensures error == TopicError(Tables(), agenda, topic)
    {
      return if topic in topics && topics[topic].agenda == agenda then None else Some(TopicNotFound);
    }

    method GetCommentInTopic(topic: TopicId, comment: CommentId) returns (error: Option<Error>)
      ensures error == CommentError(Tables(), topic, comment)
    {
      return if comment in comments && comments[comment].topic == topic then None else Some(CommentNotFound);
    }

    method AssertHostOrPresenter(club: ClubId, session: SessionId, user: UserId) returns (error: Option<Error>)
      ensures error == HostOrPresenterError(Tables(), club, session, user)
    {
      if club !in clubs {
        return Some(ClubNotFound);
      }
      error := GetSessionInClub(club, session);
      if error.None? {
        var isHost, presenter := clubs[club].owner == user, sessions[session].presenter;
        var isPresenter := presenter.Some? && presenter.value == user;
        if !(isHost || isPresenter) {
          error := Some(PermissionDenied);
        }
      }
    }

    /** What every topic operation looks up first, and the author check after it. */
    method AssertAgendaAuthor(club: ClubId, session: SessionId, agenda: AgendaId, user: UserId)
      returns (error: Option<Error>)
      ensures error == AuthorError(Tables(), club, session, agenda, user)
    {
      error := GetSessionInClub(club, session);
      if error.Some? {
        return;
      }
      error := GetAgendaInSession(session, agenda);
      if error.None? && agendas[agenda].author != user {
        error := Some(PermissionDenied);
      }
    }

    method FollowPath(p: Path) returns (error: Option<Error>)
      ensures error == PathError(Tables(), p)
    {
      if p.club !in clubs {
        return Some(ClubNotFound);
      }
      error := GetSessionInClub(p.club, p.session);
      if error.Some? {
        return;
      }
      error := GetAgendaInSession(p.session, p.agenda);
      if error.Some? {
        return;
      }
      error := GetTopicInAgenda(p.agenda, p.topic);
    }

    method AssertCommentAuthorOrHost(p: Path, comment: CommentId, user: UserId) returns (error: Option<Error>)
      ensures error == CommentAccessError(Tables(), p, comment, user)
    {
      error := FollowPath(p);
      if error.Some? {
        return;
      }
      error := GetCommentInTopic(p.topic, comment);
      if error.None? {
        var isAuthor, isHost := comments[comment].author == user, clubs[p.club].owner == user;
        if !(isAuthor || isHost) {
          error := Some(PermissionDenied);
        }
      }
    }

    /** `_validate_status_transition`: indexes in the list of states, then a difference of one. */
    method ValidateStatusTransition(current: Status, target: string) returns (error: Option<Error>)
      ensures error == TransitionError(current, target)
    {
      var names := ["draft", "open", "closed"];
      var from := Order(current);
      var to := 0;
      while to < |names| && names[to] != target
        invariant to <= |names|
        invariant forall i :: 0 <= i < to ==> names[i] != target
      {
        to := to + 1;
      }
      if to == |names| {
        assert names[0] != target && names[1] != target && names[2] != target;
        return Some(InvalidSessionStatus);
      }
      return if to == from + 1 then None else Some(InvalidStatusTransition);
    }

    // ---------- membership ----------

    method CountMembers(club: ClubId) returns (count: nat)
      ensures count == MemberCount(Tables(), club)
    {
      count := |set k | k in members && k.0 == club|;
    }

    method CreateClub(id: ClubId, owner: UserId, code: string, maxMembers: int, isPublic: bool)
      returns (error: Option<Error>)
      modifies this`clubs, this`invites, this`members
      ensures Reply(Tables(), error) == Clubs.CreateClub(old(Tables()), id, owner, code, maxMembers, isPublic)
    {
      if maxMembers < 2 || maxMembers > 50 || id in clubs || code in invites {
        return Some(Rejected);
      }
      clubs := clubs[id := Club(owner, maxMembers, isPublic)];
      invites := invites[code := id];
      members := members[(id, owner) := Owner];
      return None;
    }

    method JoinByCode(code: string, user: UserId) returns (error: Option<Error>)
      modifies this`members
      ensures Reply(Tables(), error) == Clubs.JoinByCode(old(Tables()), code, user)
    {
      if code !in invites || invites[code] !in clubs {
        return Some(ClubNotFound);
      }
      var club := invites[code];
      var count := CountMembers(club);
      if count >= clubs[club].maxMembers {
        return Some(ClubFull);
      }
      if (club, user) !in members {
        members := members[(club, user) := Member];
      }
      return None;
    }

    method JoinPublic(club: ClubId, user: UserId) returns (error: Option<Error>)
      modifies this`members, this`feed
      ensures Reply(Tables(), error) == Clubs.JoinPublic(old(Tables()), club, user)
    {
      if club !in clubs {
        return Some(ClubNotFound);
      }
      if !clubs[club].isPublic {
        return Some(ClubNotPublic);
      }
      var count := CountMembers(club);
      if count >= clubs[club].maxMembers {
        return Some(ClubFull);
      }
      if (club, user) !in members {
        members := members[(club, user) := Member];
        Record(ClubJoined(user, club));
      }
      return None;
    }

    method LeaveClub(club: ClubId, user: UserId) returns (error: Option<Error>)
      modifies this`members
      ensures Reply(Tables(), error) == Clubs.LeaveClub(old(Tables()), club, user)
    {
      if club !in clubs {
        return Some(ClubNotFound);
      }
      if clubs[club].owner == user {
        return Some(OwnerCannotLeave);
      }
      members := members - {(club, user)};
      return None;
    }

    // ---------- sessions and agendas ----------

    method CreateSession(id: SessionId, club: ClubId, user: UserId, presenter: Option<UserId>)
      returns (error: Option<Error>)
      modifies this`sessions
      ensures Reply(Tables(), error) == Clubs.CreateSession(old(Tables()), id, club, user, presenter)
    {
      error := AssertHost(club, user);
      if error.None? {
        error := AssertPresenterIsMember(club, presenter);
      }
      if error.None? {
        if id in sessions {
          return Some(Rejected);
        }
        sessions := sessions[id := Session(club, presenter, Draft)];
      }
    }

    method SetPresenter(club: ClubId, session: SessionId, user: UserId, presenter: Option<UserId>)
      returns (error: Option<Error>)
      modifies this`sessions
      ensures Reply(Tables(), error) == Clubs.SetPresenter(old(Tables()), club, session, user, presenter)
    {
      error := AssertHost(club, user);
      if error.None? {
        error := GetSessionInClub(club, session);
      }
      if error.None? {
        error := AssertPresenterIsMember(club, presenter);
      }
      if error.None? {
        sessions := sessions[session := sessions[session].(presenter := presenter)];
      }
    }

    method TransitionSessionStatus(club: ClubId, session: SessionId, user: UserId, target: string)
      returns (error: Option<Error>)
      modifies this`sessions, this`feed
      ensures Reply(Tables(), error) == Clubs.Transition(old(Tables()), club, session, user, target)
    {
      error := AssertHost(club, user);
      if error.None? {
        error := GetSessionInClub(club, session);
      }
      if error.None? {
        error := ValidateStatusTransition(sessions[session].status, target);
      }
      if error.None? {
        var status := ParseStatus(target).value;
        sessions := sessions[session := sessions[session].(status := status)];
        if status == Open {
          Record(SessionOpened(user, session));
        }
      }
    }

    method CreateAgenda(id: AgendaId, club: ClubId, session: SessionId, user: UserId, body: string)
      returns (error: Option<Error>)
      modifies this`agendas
      ensures Reply(Tables(), error) == Clubs.CreateAgenda(old(Tables()), id, club, session, user, body)
    {
      error := AssertHostOrPresenter(club, session, user);
      if error.None? {
        if id in agendas {
          return Some(Rejected);
        }
        agendas := agendas[id := Agenda(session, user, body, false, None)];
      }
    }

    method UpdateAgenda(club: ClubId, session: SessionId, agenda: AgendaId, user: UserId, body: string)
      returns (error: Option<Error>)
      modifies this`agendas
      ensures Reply(Tables(), error) == Clubs.UpdateAgenda(old(Tables()), club, session, agenda, user, body)
    {
      error := AssertHostOrPresenter(club, session, user);
      if error.None? {
        error := GetAgendaInSession(session, agenda);
      }
      if error.None? {
        agendas := agendas[agenda := agendas[agenda].(body := body)];
      }
    }

    method PublishAgenda(club: ClubId, session: SessionId, agenda: AgendaId, user: UserId, now: Time)
      returns (error: Option<Error>)
      modifies this`agendas, this`feed
      ensures Reply(Tables(), error) == Clubs.PublishAgenda(old(Tables()), club, session, agenda, user, now)
    {
      error := AssertHostOrPresenter(club, session, user);
      if error.None? {
        error := GetAgendaInSession(session, agenda);
      }
      if error.None? {
        if agendas[agenda].published {
          return Some(AlreadyPublished);
        }
        agendas := agendas[agenda := agendas[agenda].(published := true, publishedAt := Some(now))];
        Record(AgendaPublished(user, agenda));
      }
    }

    // ---------- topics ----------

    /** `get_next_topic_position`: one more than the largest position, or 0. */
    method GetNextTopicPosition(agenda: AgendaId) returns (position: int)
      ensures position == NextPosition(Tables(), agenda)
    {
      var unread := TopicsOf(topics, agenda);
      var largest: Option<int> := None;
      while unread != {}
        invariant unread <= TopicsOf(topics, agenda)
        invariant largest.None? ==> unread == TopicsOf(topics, agenda)
        invariant largest.Some? ==> exists t :: t in TopicsOf(topics, agenda) && topics[t].position == largest.value
        invariant forall t :: t in TopicsOf(topics, agenda) - unread ==> largest.Some? && topics[t].position <= largest.value
        decreases unread
      {
        var t :| t in unread;
        unread := unread - {t};
        largest := Some(if largest.None? then topics[t].position else Max(largest.value, topics[t].position));
      }
      if largest.None? {
        return 0;
      }
      return largest.value + 1;
    }

    method AddTopic(id: TopicId, club: ClubId, session: SessionId, agenda: AgendaId, user: UserId, prompt: string)
      returns (error: Option<Error>)
      modifies this`topics
      ensures Reply(Tables(), error) == Clubs.AddTopic(old(Tables()), id, club, session, agenda, user, prompt)
    {
      error := AssertAgendaAuthor(club, session, agenda, user);
      if error.None? {
        var position := GetNextTopicPosition(agenda);
        if id in topics {
          return Some(Rejected);
        }
        topics := topics[id := Topic(agenda, position, prompt)];
      }
    }

    method DeleteTopic(club: ClubId, session: SessionId, agenda: AgendaId, topic: TopicId, user: UserId)
      returns (error: Option<Error>)
      modifies this`topics, this`comments
      ensures Reply(Tables(), error) == Clubs.DeleteTopic(old(Tables()), club, session, agenda, topic, user)
    {
      error := AssertAgendaAuthor(club, session, agenda, user);
      if error.None? {
        error := GetTopicInAgenda(agenda, topic);
      }
      if error.None? {
        topics := topics - {topic};
        comments := comments - CommentsOf(comments, topic);
      }
    }

    lemma RenumberedOneMore(before: map<TopicId, Topic>, order: seq<TopicId>, n: nat, agenda: AgendaId)
      requires n < |order|
      ensures var sofar := Renumbered(before, order[..n], agenda);
              Renumbered(before, order[..n + 1], agenda) ==
              if order[n] in TopicsOf(before, agenda) then sofar[order[n] := sofar[order[n]].(position := n)] else sofar
    {
      var longer := order[..n + 1];
      assert longer == order[..n] + [order[n]] && longer[..n] == order[..n];
      assert LastIndex(longer, order[n]) == n;
    }

    /** `repo.reorder_topics`: walk the list and overwrite positions, so a repeated id keeps its last index. */
    method AssignPositions(agenda: AgendaId, order: seq<TopicId>)
      modifies this`topics
      ensures topics == Renumbered(old(topics), order, agenda)
    {
      var byId := TopicsOf(topics, agenda);
      var position := 0;
      while position < |order|
        invariant position <= |order|
        invariant topics == Renumbered(old(topics), order[..position], agenda)
      {
        var topic := order[position];
        RenumberedOneMore(old(topics), order, position, agenda);
        if topic in byId {
          topics := topics[topic := topics[topic].(position := position)];
        }
        position := position + 1;
      }
      assert order[..|order|] == order;
    }

    method ReorderTopics(club: ClubId, session: SessionId, agenda: AgendaId, user: UserId, order: seq<TopicId>)
      returns (error: Option<Error>)
      modifies this`topics
      ensures Reply(Tables(), error) == Clubs.ReorderTopics(old(Tables()), club, session, agenda, user, order)
    {
      error := AssertAgendaAuthor(club, session, agenda, user);
      if error.None? {
        if (set t | t in order) != TopicsOf(topics, agenda) {
          return Some(InvalidTopicSet);
        }
        AssignPositions(agenda, order);
      }
    }

    // ---------- comments ----------

    method AddComment(id: CommentId, p: Path, user: UserId, parent: Option<CommentId>, body: string)
      returns (error: Option<Error>)
      modifies this`comments, this`feed
      ensures Reply(Tables(), error) == Clubs.AddComment(old(Tables()), id, p, user, parent, body)
    {
      error := FollowPath(p);
      if error.Some? {
        return;
      }
      if (p.club, user) !in members {
        return Some(NotMember);
      }
      if parent.Some? {
        error := GetCommentInTopic(p.topic, parent.value);
        if error.Some? {
          return;
        }
        if comments[parent.value].parent.Some? {
          return Some(MaxReplyDepthExceeded);
        }
      }
      if id in comments {
        return Some(Rejected);
      }
      comments := comments[id := Comment(p.topic, user, parent, body, None)];
      Record(DiscussionCommented(user, id, parent));
    }

    method UpdateComment(p: Path, comment: CommentId, user: UserId, body: string, now: Time)
      returns (error: Option<Error>)
      modifies this`comments
      ensures Reply(Tables(), error) == Clubs.UpdateComment(old(Tables()), p, comment, user, body, now)
    {
      error := AssertCommentAuthorOrHost(p, comment, user);
      if error.None? {
        comments := comments[comment := comments[comment].(body := body, editedAt := Some(now))];
      }
    }

    /** The row goes first, then the rows the foreign key takes with it. */
    method DeleteComment(p: Path, comment: CommentId, user: UserId) returns (error: Option<Error>)
      modifies this`comments
      ensures Reply(Tables(), error) == Clubs.DeleteComment(old(Tables()), p, comment, user)
    {
      error := AssertCommentAuthorOrHost(p, comment, user);
      if error.None? {
        var replies := set c | c in comments && comments[c].parent == Some(comment);
        comments := comments - {comment};
        comments := comments - replies;
      }
    }
  }
}
