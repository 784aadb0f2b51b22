/** Reading clubs (backend/app/domains/club/service.py and repository.py):
    membership, session and agenda lifecycle, topics and comments.

    Each operation is a function on the tables; class `ClubService.Service` is the code,
    proved to compute it. `Step` collects the operations into one state machine. */
module Clubs {
  import opened Prelude

  type UserId = nat
  type ClubId = nat
  type SessionId = nat
  type AgendaId = nat
  type TopicId = nat
  type CommentId = nat
  type Time = int

  // ---------- tables ----------

  datatype Role = Owner | Member

  datatype Club = Club(owner: UserId, maxMembers: int, isPublic: bool)

  datatype Status = Draft | Open | Closed

  datatype Session = Session(club: ClubId, presenter: Option<UserId>, status: Status)

  datatype Agenda = Agenda(session: SessionId, author: UserId, body: string, published: bool, publishedAt: Option<Time>)

  datatype Topic = Topic(agenda: AgendaId, position: int, prompt: string)

  datatype Comment = Comment(topic: TopicId, author: UserId, parent: Option<CommentId>, body: string, editedAt: Option<Time>)

  datatype FeedEvent =
    | ClubJoined(user: UserId, club: ClubId)
    | SessionOpened(user: UserId, session: SessionId)
    | AgendaPublished(user: UserId, agenda: AgendaId)
    | DiscussionCommented(user: UserId, comment: CommentId, parent: Option<CommentId>)

  /** `feedWired` says whether the service was given a feed service at all. */
  datatype Store = Store(
    clubs: map<ClubId, Club>,
    invites: map<string, ClubId>,
    members: map<(ClubId, UserId), Role>,
    sessions: map<SessionId, Session>,
    agendas: map<AgendaId, Agenda>,
    topics: map<TopicId, Topic>,
    comments: map<CommentId, Comment>,
    feed: seq<FeedEvent>,
    feedWired: bool)

  function EmptyStore(feedWired: bool): Store {
    Store(map[], map[], map[], map[], map[], map[], map[], [], feedWired)
  }

  datatype Error =
    | ClubNotFound | ClubFull | ClubNotPublic | OwnerCannotLeave | PermissionDenied | NotMember
    | PresenterNotMember | SessionNotFound | InvalidSessionStatus | InvalidStatusTransition
    | AgendaNotFound | AlreadyPublished | TopicNotFound | InvalidTopicSet
    | CommentNotFound | MaxReplyDepthExceeded | Rejected

  datatype Reply = Reply(store: Store, error: Option<Error>)

  function Fail(s: Store, e: Error): Reply {
    Reply(s, Some(e))
  }

  function Done(s: Store): Reply {
    Reply(s, None)
  }

  // ---------- shared checks ----------

  function RowsOf(members: map<(ClubId, UserId), Role>, club: ClubId): set<(ClubId, UserId)> {
    set k | k in members && k.0 == club
  }

  function MemberCount(s: Store, club: ClubId): nat {
    |RowsOf(s.members, club)|
  }

  predicate IsMember(s: Store, club: ClubId, user: UserId) {
    (club, user) in s.members
  }

  /** `_assert_host`: the role column decides. */
  function HostError(s: Store, club: ClubId, user: UserId): Option<Error> {
    if club !in s.clubs then Some(ClubNotFound)
    else if !IsMember(s, club, user) || s.members[(club, user)] != Owner then Some(PermissionDenied)
    else None
  }

  /** `_is_owner_or_manager`: owner_id first, then the role column. */
  predicate IsOwnerOrManager(s: Store, club: ClubId, user: UserId) {
    club in s.clubs &&
    (s.clubs[club].owner == user || (IsMember(s, club, user) && s.members[(club, user)] == Owner))
  }

  function SessionError(s: Store, club: ClubId, session: SessionId): Option<Error> {
    if session !in s.sessions || s.sessions[session].club != club then Some(SessionNotFound) else None
  }

  function AgendaError(s: Store, session: SessionId, agenda: AgendaId): Option<Error> {
    if agenda !in s.agendas || s.agendas[agenda].session != session then Some(AgendaNotFound) else None
  }

  function TopicError(s: Store, agenda: AgendaId, topic: TopicId): Option<Error> {
    if topic !in s.topics || s.topics[topic].agenda != agenda then Some(TopicNotFound) else None
  }

  function CommentError(s: Store, topic: TopicId, comment: CommentId): Option<Error> {
    if comment !in s.comments || s.comments[comment].topic != topic then Some(CommentNotFound) else None
  }

  /** `_assert_host_or_presenter`: owner_id decides who the host is. */
  function HostOrPresenterError(s: Store, club: ClubId, session: SessionId, user: UserId): Option<Error> {
    if club !in s.clubs then Some(ClubNotFound)
    else if SessionError(s, club, session).Some? then SessionError(s, club, session)
    else if s.clubs[club].owner != user && s.sessions[session].presenter != Some(user) then Some(PermissionDenied)
    else None
  }

  function PresenterError(s: Store, club: ClubId, presenter: Option<UserId>): Option<Error> {
    if presenter.Some? && !IsMember(s, club, presenter.value) then Some(PresenterNotMember) else None
  }

  /** The gate of every topic operation: the path exists and the caller wrote the agenda. */
  function AuthorError(s: Store, club: ClubId, session: SessionId, agenda: AgendaId, user: UserId): Option<Error> {
    if SessionError(s, club, session).Some? then SessionError(s, club, session)
    else if AgendaError(s, session, agenda).Some? then AgendaError(s, session, agenda)
    else if s.agendas[agenda].author != user then Some(PermissionDenied)
    else None
  }

  /** The path of a discussion: club, session, agenda and topic. */
  datatype Path = Path(club: ClubId, session: SessionId, agenda: AgendaId, topic: TopicId)

  function PathError(s: Store, p: Path): Option<Error> {
    if p.club !in s.clubs then Some(ClubNotFound)
    else if SessionError(s, p.club, p.session).Some? then SessionError(s, p.club, p.session)
    else if AgendaError(s, p.session, p.agenda).Some? then AgendaError(s, p.session, p.agenda)
    else TopicError(s, p.agenda, p.topic)
  }

  /** The gate of editing or deleting a comment: its author, or the host by owner_id. */
  function CommentAccessError(s: Store, p: Path, comment: CommentId, user: UserId): Option<Error> {
    if PathError(s, p).Some? then PathError(s, p)
    else if CommentError(s, p.topic, comment).Some? then CommentError(s, p.topic, comment)
    else if s.comments[comment].author != user && s.clubs[p.club].owner != user then Some(PermissionDenied)
    else None
  }

  // ---------- membership ----------

  function CreateClub(s: Store, id: ClubId, owner: UserId, code: string, maxMembers: int, isPublic: bool): Reply {
    if id in s.clubs || code in s.invites || !(2 <= maxMembers <= 50) then Fail(s, Rejected)
    else Done(s.(clubs := s.clubs[id := Club(owner, maxMembers, isPublic)],
                 invites := s.invites[code := id],
                 members := s.members[(id, owner) := Owner]))
  }

  function JoinByCode(s: Store, code: string, user: UserId): Reply {
    if code !in s.invites || s.invites[code] !in s.clubs then Fail(s, ClubNotFound)
    else
      var club := s.invites[code];
      if MemberCount(s, club) >= s.clubs[club].maxMembers then Fail(s, ClubFull)
      else if IsMember(s, club, user) then Done(s)
      else Done(s.(members := s.members[(club, user) := Member]))
  }

  function JoinPublic(s: Store, club: ClubId, user: UserId): Reply {
    if club !in s.clubs then Fail(s, ClubNotFound)
    else if !s.clubs[club].isPublic then Fail(s, ClubNotPublic)
    else if MemberCount(s, club) >= s.clubs[club].maxMembers then Fail(s, ClubFull)
    else if IsMember(s, club, user) then Done(s)
    else Done(s.(members := s.members[(club, user) := Member],
                 feed := s.feed + if s.feedWired then [ClubJoined(user, club)] else []))
  }

  function LeaveClub(s: Store, club: ClubId, user: UserId): Reply {
    if club !in s.clubs then Fail(s, ClubNotFound)
    else if s.clubs[club].owner == user then Fail(s, OwnerCannotLeave)
    else Done(s.(members := s.members - {(club, user)}))
  }

  // ---------- sessions and agendas ----------

  function CreateSession(s: Store, id: SessionId, club: ClubId, user: UserId, presenter: Option<UserId>): Reply {
    if HostError(s, club, user).Some? then Reply(s, HostError(s, club, user))
    else if PresenterError(s, club, presenter).Some? then Reply(s, PresenterError(s, club, presenter))
    else if id in s.sessions then Fail(s, Rejected)
    else Done(s.(sessions := s.sessions[id := Session(club, presenter, Draft)]))
  }

  function SetPresenter(s: Store, club: ClubId, session: SessionId, user: UserId, presenter: Option<UserId>): Reply {
    if HostError(s, club, user).Some? then Reply(s, HostError(s, club, user))
    else if SessionError(s, club, session).Some? then Reply(s, SessionError(s, club, session))
    else if PresenterError(s, club, presenter).Some? then Reply(s, PresenterError(s, club, presenter))
    else Done(s.(sessions := s.sessions[session := s.sessions[session].(presenter := presenter)]))
  }

  function ParseStatus(text: string): Option<Status> {
    if text == "draft" then Some(Draft)
    else if text == "open" then Some(Open)
    else if text == "closed" then Some(Closed)
    else None
  }

  function Order(status: Status): nat {
    match status
    case Draft => 0
    case Open => 1
    case Closed => 2
  }

  function TransitionError(current: Status, target: string): Option<Error> {
    if ParseStatus(target).None? then Some(InvalidSessionStatus)
    else if Order(ParseStatus(target).value) != Order(current) + 1 then Some(InvalidStatusTransition)
    else None
  }

  function Transition(s: Store, club: ClubId, session: SessionId, user: UserId, target: string): Reply {
    if HostError(s, club, user).Some? then Reply(s, HostError(s, club, user))
    else if SessionError(s, club, session).Some? then Reply(s, SessionError(s, club, session))
    else if TransitionError(s.sessions[session].status, target).Some? then
      Reply(s, TransitionError(s.sessions[session].status, target))
    else
      var status := ParseStatus(target).value;
      Done(s.(sessions := s.sessions[session := s.sessions[session].(status := status)],
              feed := s.feed + if status == Open && s.feedWired then [SessionOpened(user, session)] else []))
  }

  function CreateAgenda(s: Store, id: AgendaId, club: ClubId, session: SessionId, user: UserId, body: string): Reply {
    if HostOrPresenterError(s, club, session, user).Some? then Reply(s, HostOrPresenterError(s, club, session, user))
    else if id in s.agendas then Fail(s, Rejected)
    else Done(s.(agendas := s.agendas[id := Agenda(session, user, body, false, None)]))
  }

  function UpdateAgenda(s: Store, club: ClubId, session: SessionId, agenda: AgendaId, user: UserId, body: string): Reply {
    if HostOrPresenterError(s, club, session, user).Some? then Reply(s, HostOrPresenterError(s, club, session, user))
    else if AgendaError(s, session, agenda).Some? then Reply(s, AgendaError(s, session, agenda))
    else Done(s.(agendas := s.agendas[agenda := s.agendas[agenda].(body := body)]))
  }

  function PublishAgenda(s: Store, club: ClubId, session: SessionId, agenda: AgendaId, user: UserId, now: Time): Reply {
    if HostOrPresenterError(s, club, session, user).Some? then Reply(s, HostOrPresenterError(s, club, session, user))
    else if AgendaError(s, session, agenda).Some? then Reply(s, AgendaError(s, session, agenda))
    else if s.agendas[agenda].published then Fail(s, AlreadyPublished)
    else Done(s.(agendas := s.agendas[agenda := s.agendas[agenda].(published := true, publishedAt := Some(now))],
                 feed := s.feed + if s.feedWired then [AgendaPublished(user, agenda)] else []))
  }

  // ---------- topics ----------

  function TopicsOf(topics: map<TopicId, Topic>, agenda: AgendaId): set<TopicId> {
    set t | t in topics && topics[t].agenda == agenda
  }

  ghost function LargestPosition(topics: map<TopicId, Topic>, ids: set<TopicId>): (m: int)
    requires ids != {} && ids <= topics.Keys
    ensures exists t :: t in ids && topics[t].position == m
    ensures forall t :: t in ids ==> topics[t].position <= m
  {
    var t :| t in ids;
    if ids == {t} then topics[t].position
    else Max(topics[t].position, LargestPosition(topics, ids - {t}))
  }

  ghost function NextPosition(s: Store, agenda: AgendaId): int {
    if TopicsOf(s.topics, agenda) == {} then 0 else LargestPosition(s.topics, TopicsOf(s.topics, agenda)) + 1
  }

  ghost function AddTopic(s: Store, id: TopicId, club: ClubId, session: SessionId, agenda: AgendaId, user: UserId,
                          prompt: string): Reply
  {
    if AuthorError(s, club, session, agenda, user).Some? then Reply(s, AuthorError(s, club, session, agenda, user))
    else if id in s.topics then Fail(s, Rejected)
    else Done(s.(topics := s.topics[id := Topic(agenda, NextPosition(s, agenda), prompt)]))
  }

  function CommentsOf(comments: map<CommentId, Comment>, topic: TopicId): set<CommentId> {
    set c | c in comments && comments[c].topic == topic
  }

  /** Deleting a topic deletes its comments with it (ON DELETE CASCADE). */
  function DeleteTopic(s: Store, club: ClubId, session: SessionId, agenda: AgendaId, topic: TopicId, user: UserId): Reply {
    if AuthorError(s, club, session, agenda, user).Some? then Reply(s, AuthorError(s, club, session, agenda, user))
    else if TopicError(s, agenda, topic).Some? then Reply(s, TopicError(s, agenda, topic))
    else Done(s.(topics := s.topics - {topic}, comments := s.comments - CommentsOf(s.comments, topic)))
  }

  function LastIndex(order: seq<TopicId>, topic: TopicId): (i: nat)
    requires topic in order
    ensures i < |order| && order[i] == topic
    ensures forall j :: i < j < |order| ==> order[j] != topic
  {
    if order[|order| - 1] == topic then |order| - 1 else LastIndex(order[..|order| - 1], topic)
  }

  /** Positions by index in `order`; a repeated id keeps its last index. */
  function Renumbered(topics: map<TopicId, Topic>, order: seq<TopicId>, agenda: AgendaId): map<TopicId, Topic> {
    map t | t in topics ::
      if topics[t].agenda == agenda && t in order then topics[t].(position := LastIndex(order, t)) else topics[t]
  }

  function ReorderTopics(s: Store, club: ClubId, session: SessionId, agenda: AgendaId, user: UserId,
                         order: seq<TopicId>): Reply
  {
    if AuthorError(s, club, session, agenda, user).Some? then Reply(s, AuthorError(s, club, session, agenda, user))
    else if (set t | t in order) != TopicsOf(s.topics, agenda) then Fail(s, InvalidTopicSet)
    else Done(s.(topics := Renumbered(s.topics, order, agenda)))
  }

  // ---------- comments ----------

  function AddComment(s: Store, id: CommentId, p: Path, user: UserId, parent: Option<CommentId>, body: string): Reply {
    if PathError(s, p).Some? then Reply(s, PathError(s, p))
    else if !IsMember(s, p.club, user) then Fail(s, NotMember)
    else if parent.Some? && CommentError(s, p.topic, parent.value).Some? then Reply(s, CommentError(s, p.topic, parent.value))
    else if parent.Some? && s.comments[parent.value].parent.Some? then Fail(s, MaxReplyDepthExceeded)
    else if id in s.comments then Fail(s, Rejected)
    else Done(s.(comments := s.comments[id := Comment(p.topic, user, parent, body, None)],
                 feed := s.feed + if s.feedWired then [DiscussionCommented(user, id, parent)] else []))
  }

  function UpdateComment(s: Store, p: Path, comment: CommentId, user: UserId, body: string, now: Time): Reply {
    if CommentAccessError(s, p, comment, user).Some? then Reply(s, CommentAccessError(s, p, comment, user))
    else Done(s.(comments := s.comments[comment := s.comments[comment].(body := body, editedAt := Some(now))]))
  }

  /** The rows one deletion takes with it: the comment and the replies that point at it. */
  function Cascade(s: Store, comment: CommentId): set<CommentId> {
    {comment} + set c | c in s.comments && s.comments[c].parent == Some(comment)
  }

  function DeleteComment(s: Store, p: Path, comment: CommentId, user: UserId): Reply {
    if CommentAccessError(s, p, comment, user).Some? then Reply(s, CommentAccessError(s, p, comment, user))
    else Done(s.(comments := s.comments - Cascade(s, comment)))
  }

  // ---------- the state machine ----------

  datatype MembershipOp =
    | OpCreateClub(club: ClubId, user: UserId, code: string, maxMembers: int, isPublic: bool)
    | OpJoinByCode(code: string, user: UserId)
    | OpJoinPublic(club: ClubId, user: UserId)
    | OpLeaveClub(club: ClubId, user: UserId)

  datatype LifecycleOp =
    | OpCreateSession(session: SessionId, club: ClubId, user: UserId, presenter: Option<UserId>)
    | OpSetPresenter(club: ClubId, session: SessionId, user: UserId, presenter: Option<UserId>)
    | OpTransition(club: ClubId, session: SessionId, user: UserId, target: string)
    | OpCreateAgenda(agenda: AgendaId, club: ClubId, session: SessionId, user: UserId, body: string)
    | OpUpdateAgenda(club: ClubId, session: SessionId, agenda: AgendaId, user: UserId, body: string)
    | OpPublishAgenda(club: ClubId, session: SessionId, agenda: AgendaId, user: UserId, now: Time)

  datatype DiscussionOp =
    | OpAddTopic(topic: TopicId, club: ClubId, session: SessionId, agenda: AgendaId, user: UserId, prompt: string)
    | OpDeleteTopic(club: ClubId, session: SessionId, agenda: AgendaId, topic: TopicId, user: UserId)
    | OpReorderTopics(club: ClubId, session: SessionId, agenda: AgendaId, user: UserId, order: seq<TopicId>)
    | OpAddComment(comment: CommentId, path: Path, user: UserId, parent: Option<CommentId>, body: string)
    | OpUpdateComment(path: Path, comment: CommentId, user: UserId, body: string, now: Time)
    | OpDeleteComment(path: Path, comment: CommentId, user: UserId)

  datatype Op = OnMembership(m: MembershipOp) | OnLifecycle(l: LifecycleOp) | OnDiscussion(d: DiscussionOp)

  function StepMembership(s: Store, op: MembershipOp): Reply {
    match op
    case OpCreateClub(c, u, code, maxMembers, isPublic) => CreateClub(s, c, u, code, maxMembers, isPublic)
    case OpJoinByCode(code, u) => JoinByCode(s, code, u)
    case OpJoinPublic(c, u) => JoinPublic(s, c, u)
    case OpLeaveClub(c, u) => LeaveClub(s, c, u)
  }

  function StepLifecycle(s: Store, op: LifecycleOp): Reply {
    match op
    case OpCreateSession(x, c, u, presenter) => CreateSession(s, x, c, u, presenter)
    case OpSetPresenter(c, x, u, presenter) => SetPresenter(s, c, x, u, presenter)
    case OpTransition(c, x, u, target) => Transition(s, c, x, u, target)
    case OpCreateAgenda(a, c, x, u, body) => CreateAgenda(s, a, c, x, u, body)
    case OpUpdateAgenda(c, x, a, u, body) => UpdateAgenda(s, c, x, a, u, body)
    case OpPublishAgenda(c, x, a, u, now) => PublishAgenda(s, c, x, a, u, now)
  }

  ghost function StepDiscussion(s: Store, op: DiscussionOp): Reply {
    match op
    case OpAddTopic(t, c, x, a, u, prompt) => AddTopic(s, t, c, x, a, u, prompt)
    case OpDeleteTopic(c, x, a, t, u) => DeleteTopic(s, c, x, a, t, u)
    case OpReorderTopics(c, x, a, u, order) => ReorderTopics(s, c, x, a, u, order)
    case OpAddComment(m, p, u, parent, body) => AddComment(s, m, p, u, parent, body)
    case OpUpdateComment(p, m, u, body, now) => UpdateComment(s, p, m, u, body, now)
    case OpDeleteComment(p, m, u) => DeleteComment(s, p, m, u)
  }

  ghost function Step(s: Store, op: Op): Reply {
    match op
    case OnMembership(m) => StepMembership(s, m)
    case OnLifecycle(l) => StepLifecycle(s, l)
    case OnDiscussion(d) => StepDiscussion(s, d)
  }

  /** The store after a run of operations; a refused operation leaves it unchanged. */
  ghost function Run(start: Store, ops: seq<Op>): Store {
    if ops == [] then start else Step(Run(start, ops[..|ops| - 1]), ops[|ops| - 1]).store
  }
}
