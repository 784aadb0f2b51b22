# Verified model of the reading-club backend

A Dafny model of the parts of the backend that carry protocols, state machines and
algorithms, with proofs about every run and every input. Tables are maps or sequences
held in classes; each service call or event handler is one transaction; clocks,
generators, Redis failures and socket failures are parameters.

How to read it: for each component a file states the operations as functions on the
tables, a class holds the same tables as fields and does the work step by step, and
each method is proved to compute its function. The results are then lemmas about the
functions, mostly about runs of operations of any length. The `...Requests` files, and the
`...FollowRequests` and `...Answered` lemmas elsewhere, read every table and every answer off
the accepted operations alone, without naming the functions of the operations.

| file | component |
|---|---|
| `EventBus.dfy` | staged events, one-shot commit and rollback hooks, handler dispatch |
| `Challenges.dfy`, `ChallengeResults.dfy`, `ChallengeRequests.dfy` | challenge progress, badge awards, deadlines, on top of the event bus |
| `Clubs.dfy`, `ClubService.dfy`, `ClubResults.dfy`, `ClubRequests.dfy` | membership, sessions, agendas, topics, comments |
| `Threads.dfy` | grouping comments into threads |
| `ReadingPlan.dfy` | reading-plan arithmetic |
| `Pagination.dfy`, `PageLimits.dfy`, `Listings.dfy` | keyset pagination, what a page limit can miss, and the three uses |
| `Discovery.dfy`, `TasteVectors.dfy`, `Neighbours.dfy` | merging book lists, taste vectors, similar readers |
| `Picks.dfy` | the AI-picks channel and its title search |
| `Nearby.dfy` | numbered pages of the proximity search |
| `Waitlist.dfy` | meetup attendance and overflow queue |
| `Metering.dfy` | usage ledger, caps, guides and prep-card cache of the AI coach |
| `ResponseCache.dfy` | the `cache_response` decorator |
| `Fanout.dfy` | WebSocket fan-out over several processes |
| `Sorting.dfy` | Python's stable sort by a key |
| `Prelude.dfy` | shared sequence and counting facts |

Where the code and its documentation differ, the model follows the code:

- The challenge models file says the exclusive badge is permanently locked after the
  deadline (backend/app/domains/challenge/models.py:121-123). It is not when a challenge
  offers the same badge as its standard badge, or another limited one is still open:
  `SharedBadgeEscapesTheDeadline` and `OwnStandardBadgeEscapesTheDeadline` are concrete
  cases, `AwardedAfterDeadlineIff` says exactly when it happens, and `DeadlineIsFinal`
  proves the promise for a badge with a single source.
- The library query's comment speaks of an id tiebreak for rows with equal start times
  (backend/app/domains/book/repository.py:182-189), but the cursor carries no id:
  `TiedBooksCanBeMissed` is a concrete case, and `LibraryPagesCompleteIff` says for which
  tables and limits every book is delivered. The chat and the challenge list behave alike.
- The caps of the AI coach are placed by the application clock but counted on rows stamped
  with the start of their transaction (backend/app/domains/ai_assistant/service.py:84-91,
  backend/app/domains/ai_assistant/models.py:99-101). A request that begins before midnight
  and places its window after it does not see its own day: `ExceedsACapIff` says which
  requests can exceed a cap, and `CapsHold` proves the caps for all others.
- `cache_response` on recommendations uses a key without the strategy or the limit
  (backend/app/domains/discovery/service.py:190); `RecommendationsAgreeIff` says exactly
  when that is invisible.
- A hook runs once, so a second transaction on one registration is not covered by it:
  `SpentHooksCanMisdeliver` shows both failures, `SyncThroughoutIffGuarded` the exact
  condition. `update_chapter` commits inside a request
  (backend/app/domains/book/repository.py:156-166), but nothing this request does
  afterwards stages an event: it only records a feed row (backend/app/domains/feed/service.py:481-500).
- `get_nearby_events` promises the nearest first, page by page
  (backend/app/domains/event/service.py:60-70), but every page queries again, and the query
  has no order (backend/app/domains/event/repository.py:85-126): `TiedEventsCanBeSkipped`
  is a concrete case, `PagesAreExactIff` says for which tables the pages are exact, and
  `WalksAreOrdered` what they are in any case.
- The relay of a process receives only once its task has subscribed, some time after the
  publish that created it (backend/app/core/ws_manager.py:186-212):
  `NotYetSubscribedMisses` says what is lost meanwhile.
- The title search says that it skips books already matched
  (backend/app/domains/discovery/repository.py:321-324), but the exclusion comes after
  the limit of five rows. The Claude adapter asks for three titles
  (backend/app/domains/discovery/adapters/claude_recommender_adapter.py:45), and for up to
  five the limit changes nothing (`FiveRowsSuffice`); `FiveRowsSufficeIff` shows that six
  suggestions with six wanted picks is where it first can.

## Model

| member | source | states |
|---|---|---|
| `EventBus.Session.CommitAndPublish` | backend/app/shared/event_bus.py:100-129 | each registration arms one more commit hook and one more rollback hook and touches nothing else |
| `EventBus.Session.StageEvent` | backend/app/shared/event_bus.py:82-91 | an event is appended to the session queue and not delivered |
| `EventBus.Session.DrainQueue` | backend/app/shared/event_bus.py:94-97 | hands out the queue in order and empties it |
| `EventBus.Session.FireCommit` | backend/app/shared/event_bus.py:117-125 | firing every commit hook dispatches the queue once, however many hooks there are; with no hook nothing happens |
| `EventBus.Session.FireRollback` | backend/app/shared/event_bus.py:127-129 | firing the rollback hooks clears the queue and dispatches nothing |
| `EventBus.ArmedSessionsDeliverExactly` | backend/app/shared/event_bus.py:82-129 | if every transaction registers before it ends, what reaches the bus is the in-order list of events whose next commit-or-rollback is a commit, each once, for any number of registrations |
| `EventBus.StepKeepsSync` | backend/app/shared/event_bus.py:100-129 | one step keeps session and promise in step, except exactly when an ending step finds no hook of its kind while something is queued |
| `EventBus.SyncThroughoutIffGuarded` | backend/app/shared/event_bus.py:82-129 | the delivery promise holds at every point of a run iff every commit and rollback has a hook or nothing to decide |
| `EventBus.SpentCommitHookLoses` | backend/app/shared/event_bus.py:117-125 | in any session whose commit hook is spent, the next event that is staged and committed is owed and never dispatched |
| `EventBus.SpentRollbackHookRevives` | backend/app/shared/event_bus.py:117-129 | in any session whose rollback hook is spent while a commit hook is left, an event that is rolled back is dispatched by a later commit |
| `EventBus.SpentHooksCanMisdeliver` | backend/app/shared/event_bus.py:100-129 | two concrete sessions that register first: register, commit, stage, commit loses the event; register, rollback, stage, rollback, commit delivers what was rolled back |
| `EventBus.AtMostOnceInOrder` | backend/app/shared/event_bus.py:82-129 | with no assumption at all, dispatched then queued events embed in the staging order, each staged event used at most once |
| `EventBus.LocalEventBus.Publish` | backend/app/shared/event_bus.py:69-79 | every handler of the kind is called once, in order, whether or not earlier ones raise |
| `EventBus.LocalEventBus.Dispatch` | backend/app/shared/event_bus.py:132-140 | a batch is published event by event, in order |
| `EventBus.OnceSubscribedReceivesItsKind` | backend/app/shared/event_bus.py:64-79 | a handler subscribed once receives exactly the dispatched events of its kind, in order |
| `EventBus.CommittedEventsReachTheirSubscriber` | backend/app/shared/event_bus.py:64-140 | end to end: a subscriber is called with exactly the events of its kind staged in committed transactions, each once |
| `Challenges.AdvanceOneTouchesOneRow` | backend/app/domains/challenge/repository.py:261-278 | advancing one challenge rewrites that participant row and no other |
| `Challenges.ChallengeService.ListUserActiveChallenges` | backend/app/domains/challenge/repository.py:218-240 | returns, in some order, exactly the in-window unachieved challenges of the type that the user has joined, with their rows |
| `Challenges.ChallengeService.AwardOnce` | backend/app/domains/challenge/service.py:461-466 | a badge row is inserted and its event staged only when the badge exists and is not yet owned |
| `Challenges.ChallengeService.AdvanceChallenge` | backend/app/domains/challenge/service.py:450-486 | one loop iteration: new value, achievement, standard badge, exclusive badge within the deadline |
| `Challenges.ChallengeService.AdvanceChallenges` | backend/app/domains/challenge/service.py:448-486 | the loop over rows read beforehand equals advancing the rows one after another on current tables |
| `Challenges.ChallengeService.Finish` | backend/app/shared/event_bus.py:117-129 | commit keeps the tables and publishes what was staged; rollback restores the tables and publishes nothing |
| `Challenges.ChallengeService.HandleProgressEvent` | backend/app/domains/challenge/service.py:397-430 | a progress handler is one transaction on a fresh registered session |
| `Challenges.ChallengeService.JoinChallenge` | backend/app/domains/challenge/service.py:184-204 | join with its three refusals; a join starts at 0, unachieved |
| `Challenges.ChallengeService.LeaveChallenge` | backend/app/domains/challenge/service.py:206-215 | leave deletes the row or is refused |
| `Challenges.ChallengeService.LimitedChallengesByExclusiveBadge` | backend/app/domains/challenge/repository.py:242-253 | finds exactly the limited challenges that claim the badge |
| `Challenges.ChallengeService.GuardExclusiveBadgeDeadline` | backend/app/domains/challenge/service.py:337-356 | refuses after the deadline of the claiming challenge, and fails when two challenges claim the badge |
| `Challenges.ChallengeService.TryAward` | backend/app/domains/challenge/service.py:311-335 | manual award: unknown badge, deadline guard, already owned, else award |
| `Challenges.ChallengeService.AwardBadgeManually` | backend/app/domains/challenge/service.py:311-335 | a manual award is one transaction on a registered request session |
| `Challenges.RegisteredSessionDelivers` | backend/app/shared/event_bus.py:100-129 | a fresh session registered at least once publishes everything it staged on commit and nothing on rollback |
| `ChallengeResults.PublishedAwardsAreTheBadgeRows` | backend/app/domains/challenge/service.py:311-335 | over every run the published BadgeEarned events are exactly the badge rows: one event per (user, badge), none without a row, each with the badge name |
| `ChallengeResults.ReachableAwards` | backend/app/domains/challenge/service.py:311-335 | the same for every run from the empty tables |
| `ChallengeResults.AdvanceKeepsLedger` | backend/app/domains/challenge/service.py:448-486 | advancing any list of challenges, sharing badges or not, keeps staged events and new rows in one-to-one correspondence |
| `ChallengeResults.AdvanceUpdatesListedRows` | backend/app/domains/challenge/service.py:450-456 | each listed row is updated once from its old value; all others are untouched |
| `ChallengeResults.ProgressRefinesHistory` | backend/app/domains/challenge/service.py:448-456 | every participant row equals the fold of the committed in-window events since the last join: sum, or maximum for streaks, over the shortest prefix reaching the target |
| `ChallengeResults.RowsMeasureTheirKind` | backend/app/domains/challenge/service.py:444-456 | in every reachable world the value of a streak row is at least 0, at least every streak counted and one of them unless 0; the value of any other row is the sum of what was counted |
| `ChallengeResults.PeakMeaning` | backend/app/domains/challenge/service.py:445-451 | the running maximum from 0 bounds every update, and is one of them unless it is 0 |
| `ChallengeResults.DeltaIsTheContribution` | backend/app/domains/challenge/service.py:358-395 | seconds count for reading-time challenges, one book for book challenges, the streak length for streaks, and nothing for genre challenges |
| `ChallengeResults.Cutoff` | backend/app/domains/challenge/repository.py:231-236 | the cut is the shortest non-empty prefix that reaches the target, or the whole history |
| `ChallengeResults.AchievedIffTargetReached` | backend/app/domains/challenge/service.py:453-456 | achieved_at is set iff current_value has reached the target |
| `ChallengeResults.AchievedRowsAreFrozen` | backend/app/domains/challenge/repository.py:231-236 | an achieved row never changes again until its owner leaves |
| `ChallengeResults.OvershootBelowLastUpdate` | backend/app/domains/challenge/service.py:451-456 | over every run, an achieved row of accumulated progress exceeds its target by less than the update that reached it |
| `ChallengeResults.TargetsStayPositive` | backend/app/api/admin.py:93 | targets accepted at creation are positive, in every reachable state |
| `ChallengeResults.AdvanceAwardsExactly` | backend/app/domains/challenge/service.py:458-486 | the badge rows after an event are exactly the old ones plus every known badge offered by a listed challenge that the event completes |
| `ChallengeResults.AwardedAfterDeadlineIff` | backend/app/domains/challenge/service.py:337-356 | after the deadline the exclusive badge is awarded exactly when a progress event completes a challenge still offering it: one with the badge as its standard badge, the expired challenge included, or another limited one; never by hand |
| `ChallengeResults.DeadlineIsFinal` | backend/app/domains/challenge/service.py:468-474 | a badge whose only source is one limited challenge is never awarded after that deadline, in any run, by either path |
| `ChallengeResults.SharedBadgeEscapesTheDeadline` | backend/app/domains/challenge/models.py:121-123 | concrete state in which the "permanently locked" badge is still awarded after the deadline, through another challenge |
| `ChallengeResults.OwnStandardBadgeEscapesTheDeadline` | backend/app/domains/challenge/models.py:121-123 | concrete state in which the expired challenge itself still awards the locked badge, as its standard badge |
| `ChallengeResults.RowsAreNeverWithdrawn` | backend/app/domains/challenge/repository.py:293-299 | no request removes a badge row |
| `ChallengeRequests.ParticipantsFollowRequests` | backend/app/domains/challenge/service.py:184-215 | over every run a participant row exists iff the user's last successful join or leave of the challenge was a join |
| `ChallengeRequests.JoinsAndLeavesAccepted` | backend/app/domains/challenge/service.py:192-215 | in every reachable world a join is accepted iff the challenge was created, has not ended and is not joined; a leave iff it is joined |
| `ChallengeRequests.ChallengesFollowRequests` | backend/app/api/admin.py:84-110 | every challenge is as its one successful creation stored it |
| `ChallengeRequests.BadgeNamesFollowRequests` | backend/app/domains/challenge/repository.py:255-259 | every badge has the name of its one successful creation |
| `ChallengeRequests.CreationsAccepted` | backend/app/api/admin.py:84-110 | a challenge is accepted iff its id is new, its target positive and its badges exist |
| `ChallengeRequests.ManualAwardsInsert` | backend/app/domains/challenge/service.py:311-335 | a manual award succeeds iff the badge is known, not locked by a passed deadline and not claimed twice; then the user owns it and nothing else changes |
| `ChallengeRequests.BadgesFollowRequests` | backend/app/domains/challenge/service.py:311-335 | over every run a badge row exists iff a successful manual award gave it or a successful progress event completed a challenge that offered it |
| `ClubService.Service.CreateClub` | backend/app/domains/club/repository.py:62-88 | creating a club also inserts its owner as the OWNER member |
| `ClubService.Service.JoinByCode` | backend/app/domains/club/service.py:194-203 | join by invite code: unknown code, full club, already a member, else a MEMBER row |
| `ClubService.Service.JoinPublic` | backend/app/domains/club/service.py:268-281 | join a public club, with the feed entry only for a new member |
| `ClubService.Service.LeaveClub` | backend/app/domains/club/service.py:283-292 | the owner cannot leave; anyone else loses the row |
| `ClubService.Service.CreateSession` | backend/app/domains/club/service.py:785-799 | host only, presenter must be a member, starts as draft |
| `ClubService.Service.SetPresenter` | backend/app/domains/club/service.py:819-833 | host only, presenter must be a member |
| `ClubService.Service.ValidateStatusTransition` | backend/app/domains/club/service.py:893-905 | the search in the list of states accepts exactly the next step and tells unknown states from bad steps |
| `ClubService.Service.TransitionSessionStatus` | backend/app/domains/club/service.py:835-856 | one step forward or a refusal; opening is logged |
| `ClubService.Service.CreateAgenda` | backend/app/domains/club/service.py:924-933 | host or presenter, starts as draft |
| `ClubService.Service.UpdateAgenda` | backend/app/domains/club/service.py:935-954 | only the body changes, whatever the status |
| `ClubService.Service.PublishAgenda` | backend/app/domains/club/service.py:956-987 | publishes once, stamps the time and logs it |
| `ClubService.Service.GetNextTopicPosition` | backend/app/domains/club/repository.py:873-878 | one more than the largest position of the agenda, or 0 |
| `ClubService.Service.AddTopic` | backend/app/domains/club/service.py:1032-1048 | author only, at the next position |
| `ClubService.Service.DeleteTopic` | backend/app/domains/club/service.py:1069-1082 | author only; the comments go with the topic |
| `ClubService.Service.AssignPositions` | backend/app/domains/club/repository.py:892-907 | the position loop gives every listed topic the index of its last occurrence |
| `ClubService.Service.ReorderTopics` | backend/app/domains/club/service.py:1084-1101 | accepted iff the list names exactly the agenda's topics |
| `ClubService.Service.AddComment` | backend/app/domains/club/service.py:1204-1249 | members only; a reply must answer a root comment of the same topic |
| `ClubService.Service.UpdateComment` | backend/app/domains/club/service.py:1270-1293 | author or host; only body and edit time change |
| `ClubService.Service.DeleteComment` | backend/app/domains/club/service.py:1295-1314 | author or host; replies go with their parent |
| `ClubResults.MembershipHolds` | backend/app/domains/club/repository.py:62-88 | over every run: exactly one OWNER row per club, that of owner_id; membership never exceeds max_members |
| `ClubResults.StepKeepsMembership` | backend/app/domains/club/service.py:194-203 | each operation keeps the owner row and the capacity |
| `ClubResults.HostTestsAgree` | backend/app/domains/club/service.py:858-868 | the role-based host test, the owner_id-based one and the owner-or-manager one agree for every user of every reachable store |
| `ClubResults.ReferencesHold` | backend/app/domains/club/models.py:485-489 | cascading deletes leave no row pointing at a deleted one, over every run |
| `ClubResults.FeedMatchesLifecycle` | backend/app/domains/club/service.py:849-855 | the log holds exactly one session_opened iff the session has left draft, exactly one agenda_published iff the agenda is published (none at all without a feed service) |
| `ClubResults.StepMovesOneStatus` | backend/app/domains/club/service.py:893-905 | an operation moves a session at most one step along draft, open, closed, and only a transition does |
| `ClubResults.LifecycleMovesForward` | backend/app/domains/club/service.py:963-965 | over any run status never goes back and a publication time, once set, never changes |
| `ClubResults.PositionsStayDistinct` | backend/app/domains/club/repository.py:873-907 | positions within an agenda stay distinct and non-negative over every run, repeated ids included |
| `ClubResults.ListingIsUnique` | backend/app/domains/club/repository.py:864-871 | in a reachable store ordering by position leaves one possible listing |
| `ClubResults.NewTopicListsLast` | backend/app/domains/club/repository.py:873-878 | a new topic is listed after all others |
| `ClubResults.NewTopicPosition` | backend/app/domains/club/repository.py:873-878 | an accepted topic takes position 0 in an empty agenda and else one past the largest |
| `ClubResults.ReorderUsesTheLastIndex` | backend/app/domains/club/repository.py:892-907 | an accepted reorder, repetitions or not, puts each topic at the last index naming it and moves no topic of another agenda |
| `ClubResults.ReorderListsAsRequested` | backend/app/domains/club/repository.py:892-907 | a repetition-free reorder gives positions 0..n-1 and a listing equal to the request |
| `ClubResults.RepliesAreOneLevel` | backend/app/domains/club/service.py:1222-1231 | in every reachable store each reply's parent is a root comment of the same topic |
| `ClubResults.DiscussionIsAuthorised` | backend/app/domains/club/service.py:1270-1314 | what any discussion operation can do to a comment, and who can do it |
| `ClubResults.CommentsChangeOnlyByAuthorisedUsers` | backend/app/domains/club/service.py:1349-1360 | in every reachable store and for every operation: a comment keeps topic, author and parent, its text changes only by its author or the host of its own club, and it disappears only with its parent or topic or through such a user |
| `ClubResults.SessionsChangeOnlyByTheirHost` | backend/app/domains/club/service.py:858-868 | a session row changes only through the OWNER member of the club it belongs to |
| `ClubResults.AgendasChangeOnlyByHostOrPresenter` | backend/app/domains/club/service.py:1135-1149 | in every reachable store an agenda changes only through the host of its club or the presenter of its session |
| `ClubRequests.MembersFollowOperations` | backend/app/domains/club/service.py:194-292 | over every run a user is a member of a club iff the user's last accepted create, join or leave of it was a create or join |
| `ClubRequests.PrivateClubsNeedTheCode` | backend/app/domains/club/service.py:194-273 | a club that is not public is entered only by creating it or by its invite code |
| `ClubRequests.ClubsFollowOperations` | backend/app/domains/club/repository.py:62-88 | every club and invite code is as the accepted creation stored it |
| `ClubRequests.MembershipAnswered` | backend/app/domains/club/service.py:268-292 | the answer to every create, public join and leave in every reachable store, by the operations so far |
| `ClubRequests.JoinByCodeAnswered` | backend/app/domains/club/service.py:194-203 | a join by code is refused iff no club was created with the code or the club is full |
| `ClubRequests.SessionsFollowOperations` | backend/app/domains/club/service.py:785-856 | over every run a session has the club of its creation, the presenter last accepted and the status last moved to |
| `ClubRequests.SessionAnswered` | backend/app/domains/club/service.py:785-905 | the answer to every session operation: creator of the club only, presenter a member, next status only |
| `ClubRequests.AgendasFollowOperations` | backend/app/domains/club/service.py:924-987 | over every run an agenda has the author of its creation, the text of its last accepted edit, and the time of its one publication |
| `ClubRequests.AgendaAnswered` | backend/app/domains/club/service.py:924-987 | the answer to every agenda operation: creator of the club or presenter of the session, published once |
| `ClubRequests.TopicsFollowOperations` | backend/app/domains/club/service.py:1032-1082 | over every run a topic exists from its accepted creation to its deletion, with that agenda and prompt |
| `ClubRequests.TopicsAnswered` | backend/app/domains/club/service.py:1032-1101 | the answer to adding, deleting and reordering topics: the agenda's author, and a reorder naming exactly its topics |
| `ClubRequests.CommentsFollowOperations` | backend/app/domains/club/service.py:1204-1314 | over every run a comment has the author, topic and parent of its creation and the text of its last accepted edit, until it, its parent or its topic is deleted |
| `ClubRequests.AddCommentAnswered` | backend/app/domains/club/service.py:1204-1239 | a comment is accepted iff its path exists, the author is a member and the parent, if any, is a root of the topic |
| `ClubRequests.CommentEditsAnswered` | backend/app/domains/club/service.py:1270-1314 | edits and deletions are accepted iff the path and comment exist and the caller is its author or the club's creator |
| `ClubRequests.FeedFollowsOperations` | backend/app/domains/club/service.py:277-280 | over every run the feed is, entry by entry, what the accepted operations call for, or empty without a feed service |
| `ClubRequests.RefusedChangesNothing` | backend/app/domains/club/service.py:194-203 | a refused operation leaves the store as it was |
| `Clubs.LastIndex` | backend/app/domains/club/repository.py:902-905 | the index of the last occurrence of an id |
| `Threads.SplitRows` | backend/app/domains/club/service.py:1371-1379 | one pass yields the roots and, per parent id, the replies in input order |
| `Threads.BuildCommentThreads` | backend/app/domains/club/service.py:1362-1391 | each root in order with the replies that name it |
| `Threads.GroupsKeepOrder` | backend/app/domains/club/service.py:1362-1391 | roots and each reply list keep the input order |
| `Threads.ThreadMeaning` | backend/app/domains/club/service.py:1362-1391 | the i-th thread is the i-th root of the list with exactly the rows that name it as parent, as often as they occur |
| `Threads.ThreadingIsLosslessIff` | backend/app/domains/club/service.py:1364-1370 | for distinct ids, flattening the threads gives back the input exactly when every reply answers a root of the list, in any input order |
| `Threads.ReachableThreadsAreLossless` | backend/app/domains/club/service.py:1316-1330 | so in every reachable store no comment of a topic is lost, whatever order the rows come in |
| `ReadingPlan.WeeklyPagesIsLeast` | backend/app/domains/club/service.py:676-678 | weekly_pages is the least amount with weekly_pages * weeks >= total |
| `ReadingPlan.WeeklyPagesCoverTheBook` | backend/app/domains/club/service.py:676-678 | n weekly pages suffice iff n times the weeks cover the book, a missing or zero count standing for 200 pages |
| `ReadingPlan.PlanWeeksIsLeast` | backend/app/domains/club/service.py:727-731 | the plan spans the fewest whole weeks, at least one, that hold every day |
| `ReadingPlan.ElapsedWeeksTracksThePlan` | backend/app/domains/club/service.py:733-739 | elapsed weeks are monotone in the date, lie in [1, weeks] and equal weeks from the end date on |
| `ReadingPlan.ElapsedWeeksIsTheWeekOfToday` | backend/app/domains/club/service.py:733-739 | below the plan's last week, today falls into the first n weeks iff n weeks from the start reach it |
| `ReadingPlan.ProgressIsMonotone` | backend/app/domains/club/service.py:741-747 | progress lies in [0, 100], grows with pages and shrinks with elapsed weeks |
| `ReadingPlan.ProgressIsTheShare` | backend/app/domains/club/service.py:741-747 | progress times the expected pages is 100 times the pages read, cut at 100, and 0 when nothing is expected or read |
| `ReadingPlan.FinishedReaderScore` | backend/app/domains/club/service.py:741-747 | a finished book at plan end scores at least 100 * total / (total + weeks - 1) |
| `Pagination.FullPageIsSound` | backend/app/domains/book/service.py:227-236 | the full-page rule: a cursor means the last row's key; none means nothing is left but NULLs behind a NULL |
| `Pagination.LookaheadPageIsSound` | backend/app/domains/club/service.py:498-516 | the limit+1 rule gives the same guarantee |
| `Pagination.PagesAreDisjointAndOrdered` | backend/app/domains/book/repository.py:184-203 | following next_cursor yields disjoint pages whose concatenation is in listing order |
| `Pagination.LaterPageComesAfter` | backend/app/domains/book/repository.py:187-195 | every row of a later page comes strictly after every row delivered before |
| `Pagination.MissedRowsTieWithAPageEnd` | backend/app/domains/book/repository.py:187-195 | a row missed by a completed walk has the key of some page's last row |
| `PageLimits.ReturnedPageIsSound` | backend/app/domains/book/service.py:227-236 | a page returned under either cursor rule at a limit is sound, holds at most limit rows, and is full when rows are left behind it |
| `PageLimits.CompleteIffGroupsFit` | backend/app/domains/book/repository.py:187-203 | following the cursor at a limit delivers the whole table iff every group of equal keys lies within one block of limit places of the sorted table, whatever order ties come in |
| `PageLimits.TiedPairIsSplit` | backend/app/domains/club/repository.py:510-519 | for either rule, pages of one row over two rows of one key: the pages the rule returns deliver one of them and end |
| `PageLimits.UnkeyedPairIsSplit` | backend/app/domains/book/repository.py:187-203 | pages of one row over two rows without a key: the first page already ends the walk |
| `Pagination.DistinctKeysGiveTheFullListing` | backend/app/domains/book/repository.py:196-203 | with distinct keys the pages concatenate to the full sorted list |
| `Pagination.WalksAreBounded` | backend/app/domains/book/service.py:231-235 | a walk has at most one page more than the table has rows |
| `PageLimits.WalkHasCompletion` | backend/app/domains/book/service.py:227-236 | requesting page after page under either rule terminates with a completed walk, for every table and positive limit |
| `Listings.ListLibrary` | backend/app/domains/book/service.py:219-236 | the library page: clamp, rows, cursor unless the last start time is NULL |
| `Listings.ListMessages` | backend/app/domains/club/service.py:498-516 | the chat page: limit rows, cursor iff one more was fetched |
| `Listings.ListChallenges` | backend/app/domains/challenge/service.py:105-140 | the challenge page: clamp to 1..50, cursor iff the page is full |
| `Listings.LibraryPagesMeaning` | backend/app/domains/book/repository.py:174-203 | library pages hold the user's books of the status, latest start first, those without a start last; pages have the size clamped to 1..50 |
| `Listings.ChatPagesMeaning` | backend/app/domains/club/repository.py:482-519 | chat pages hold the undeleted club-wide messages of the club, newest first |
| `Listings.ChallengePagesMeaning` | backend/app/domains/challenge/repository.py:49-97 | challenge pages hold what the status filter shows, earliest end first; pages have the size clamped to 1..50 |
| `PageLimits.CursorMeaning` | backend/app/domains/club/service.py:500-516 | with lookahead a page has a cursor iff rows were left out; otherwise iff it is full and its last row has a key |
| `PageLimits.ServedPagesMeaning` | backend/app/domains/book/service.py:227-236 | every page but the last is full, none longer; rows are delivered once, in order |
| `Listings.LibraryWalk` | backend/app/domains/book/repository.py:174-203 | library pages are disjoint and ordered, and miss only books that tie with a page end (or have no start time behind a page that ended on one) |
| `Listings.LibraryPagesAreTheLibrary` | backend/app/domains/book/repository.py:174-203 | with distinct start times the pages are the library, newest first, NULL last |
| `Listings.LibraryPagesCompleteIff` | backend/app/domains/book/repository.py:174-203 | at the clamped limit the library pages are complete iff no group of books with one start time, nor the group without any, spans two blocks of that limit |
| `Listings.ChatPagesCompleteIff` | backend/app/domains/club/repository.py:482-519 | chat pages of a limit are complete iff no group of messages of one instant spans two blocks of that limit |
| `Listings.ChallengePagesCompleteIff` | backend/app/domains/challenge/repository.py:66-97 | at the clamped limit the challenge pages are complete iff no group of challenges with one end time spans two blocks of that limit |
| `Listings.ChallengePagesAreTheCatalogue` | backend/app/domains/challenge/repository.py:49-97 | with distinct end times the pages are the filtered catalogue, earliest end first |
| `Listings.TiedMessagesCanBeMissed` | backend/app/domains/club/repository.py:516-517 | two messages of one instant, limit one: pages that the chat returns and that never deliver the second |
| `Listings.TiedBooksCanBeMissed` | backend/app/domains/book/repository.py:187-203 | two books of one start time, or two without any, limit one: pages that the library returns and that never deliver the second |
| `Listings.TiedChallengesCanBeMissed` | backend/app/domains/challenge/repository.py:66-97 | two challenges with one end time, limit one: pages that the listing returns and that never deliver the second |
| `Discovery.AddUnseen` | backend/app/domains/discovery/repository.py:197-200 | the seen-set loop appends each new id once |
| `Discovery.BooksByGenreMatch` | backend/app/domains/discovery/repository.py:179-204 | per-genre limit, seen set and early break return the first `limit` of the deduplicated full genre lists |
| `Discovery.PushdownKeepsAnswer` | backend/app/domains/discovery/repository.py:187-202 | the pigeonhole step: `limit` distinct books of one genre already settle the answer |
| `Discovery.LaterGenresDoNotMatter` | backend/app/domains/discovery/repository.py:201-202 | once there are `limit` results the remaining genres cannot change the answer |
| `Discovery.CandidatesMeaning` | backend/app/domains/discovery/repository.py:186-200 | the unlimited candidates are the books genre by genre, each tagged with the genre that found it, at its exact place |
| `Discovery.RuleBased` | backend/app/domains/discovery/service.py:227-274 | the mix is the first `limit` of the three lists with repetitions removed |
| `Discovery.FirstOccurrencesMeaning` | backend/app/domains/discovery/repository.py:183-200 | the merged list has each id once, in input order, each entry the first candidate with its id |
| `TasteVectors.DotIsSymmetric` | backend/app/domains/discovery/strategies.py:45 | the product is symmetric although only one argument's keys are visited |
| `TasteVectors.DotIsBounded` | backend/app/domains/discovery/strategies.py:45-47 | dot squared is at most the product of the squared norms, for all integer vectors |
| `TasteVectors.SimilarityIsSymmetric` | backend/app/domains/discovery/strategies.py:36-50 | similarity is symmetric |
| `TasteVectors.SimilarityRange` | backend/app/domains/discovery/strategies.py:36-50 | similarity lies in [-1, 1], in [0, 1] for counts, and is 1 for a non-zero vector with itself |
| `TasteVectors.DotMeaning` | backend/app/domains/discovery/strategies.py:45-47 | the product is the sum over keys of products of counts, built key by key; the squared norm is a vector's product with itself |
| `TasteVectors.SimilarityIsTheQuotient` | backend/app/domains/discovery/strategies.py:42-50 | similarity times the two norms is the product, zero vectors included |
| `TasteVectors.BoundMetIffProportional` | backend/app/domains/discovery/strategies.py:45-50 | equality in Cauchy-Schwarz with a positive product holds exactly for positive multiples |
| `TasteVectors.SimilarityIsOneIff` | backend/app/domains/discovery/strategies.py:36-50 | two non-zero vectors are 1 similar iff one is a positive multiple of the other |
| `TasteVectors.PositiveIffShared` | backend/app/domains/discovery/service.py:291-294 | for count vectors similarity is positive iff they share a key |
| `TasteVectors.CountTokens` | backend/app/domains/book/taste_profile_repository.py:98-107 | incrementing a dictionary per token gives the tally of all tokens so far |
| `TasteVectors.ComputeVectors` | backend/app/domains/book/taste_profile_repository.py:92-107 | both vectors count exactly the genre and author tokens of the completed books |
| `TasteVectors.AuthorsAreCutAtSeparators` | backend/app/domains/book/taste_profile_repository.py:118-122 | the author tokens of two texts joined by a comma or bar are those of the first followed by those of the second |
| `TasteVectors.AuthorsAreNotCutElsewhere` | backend/app/domains/book/taste_profile_repository.py:118-122 | a text without comma and bar has its stripped form as its only token, or none if empty |
| `TasteVectors.StripMeaning` | backend/app/domains/book/taste_profile_repository.py:105-122 | stripping removes exactly the white space at both ends |
| `TasteVectors.GenreTokenMeaning` | backend/app/domains/book/taste_profile_repository.py:97-107 | the genre token is the stripped publisher when it has 1 to 12 characters |
| `TasteVectors.ReadersSimilarIffSharedGenre` | backend/app/domains/book/taste_profile_repository.py:92-107 | two computed readers are similar iff a genre token occurs in both libraries |
| `Neighbours.TopUsers` | backend/app/domains/discovery/service.py:288-297 | score, sort descending, keep five |
| `Sorting.SortIsStable` | backend/app/domains/discovery/service.py:296 | the sort is an ordered permutation of its input that keeps the order of equal keys |
| `Sorting.CutKeepsSmallest` | backend/app/domains/discovery/service.py:296-297 | what a cut of the sorted list drops is no better than anything it keeps |
| `Neighbours.ChosenAreTheMostSimilar` | backend/app/domains/discovery/service.py:287-297 | the chosen are other readers with positive similarity, and anyone left out is no more similar than five who are in |
| `Neighbours.LeftOutReadersAreNoCloser` | backend/app/domains/discovery/service.py:288-297 | a reader with a positive product who is left out has, against vector length, no larger a product than five who are in |
| `Neighbours.ChosenShareAGenre` | backend/app/domains/discovery/service.py:289-297 | a reader is a candidate iff a genre is shared, and all candidates are chosen when there are at most five |
| `Picks.FirstOutsideMeaning` | backend/app/domains/discovery/repository.py:337-340 | the scan returns the earliest row that is not excluded, or nothing when all are |
| `Picks.FindBookByTitle` | backend/app/domains/discovery/repository.py:316-340 | only the first five matches are read; among them the scan decides |
| `Picks.Resolve` | backend/app/domains/discovery/service.py:142-160 | the loop equals one round per suggestion, a full list taking no more |
| `Picks.ChannelAiPicks` | backend/app/domains/discovery/service.py:127-165 | without engine, history or a single hit the answer is the trending list |
| `Picks.PicksMeaning` | backend/app/domains/discovery/service.py:142-160 | for every list of suggestions: no book twice, at most `limit` picks (one when the limit is 0), each a catalogue match of a suggestion and carrying that suggestion's reason |
| `Picks.PicksMissNothing` | backend/app/domains/discovery/service.py:142-160 | while the list is not full no suggestion is passed over: some row its search read is picked |
| `Picks.SearchIsCompleteIff` | backend/app/domains/discovery/repository.py:334-340 | reading five rows answers as reading all would iff one of the five is free or no match is free |
| `Picks.FiveRowsSuffice` | backend/app/domains/discovery/service.py:142-160 | for up to five suggestions or up to five wanted picks, whatever each search finds and in whatever order, the channel picks what it would if every search read all its matches |
| `Picks.SixthPickCanBeLost` | backend/app/domains/discovery/repository.py:334-340 | with more than five of both there are searches for which reading five rows yields five picks where reading all yields six |
| `Picks.FiveRowsSufficeIff` | backend/app/domains/discovery/repository.py:334-340 | for which numbers of suggestions and wanted picks the row limit is harmless whatever the searches find: exactly when one of the two is at most five |
| `Picks.SearchIsCompleteForFourPicks` | backend/app/domains/discovery/repository.py:334-340 | with fewer than five books picked a free match is never missed |
| `Nearby.GetNearbyEvents` | backend/app/domains/event/service.py:60-108 | the page of the candidates within the radius sorted by distance; page numbers below 1 mean 1 |
| `Nearby.NearestMeaning` | backend/app/domains/event/service.py:88-103 | the list behind one page holds exactly the candidates within the radius, nearest first, ties in the order of that query |
| `Nearby.PagesConcatenate` | backend/app/domains/event/service.py:105-106 | when every request sees the rows in one order, the first n pages are the first 20 n results |
| `Nearby.DistanceAtPlace` | backend/app/domains/event/service.py:88-103 | in the listing of any query result, place p holds a candidate of distance d iff p lies between the number of closer and of no further candidates: ties may move, distances may not |
| `Nearby.WalksAreOrdered` | backend/app/domains/event/service.py:105-108 | requesting page after page until has_more is false, each from a query result in any order, yields as many entries as there are events within the radius, all such events, nearest first across the pages |
| `Nearby.PagesAreExactIff` | backend/app/domains/event/repository.py:85-126 | such requests deliver every event within the radius exactly once, for every choice of row orders, iff no group of events at one distance spans two blocks of twenty places |
| `Nearby.TiedEventsCanBeSkipped` | backend/app/domains/event/repository.py:85-126 | 21 events at one venue, two row orders: event 19 is served twice, event 20 never, and the second page has no more |
| `Nearby.HasMoreIsExact` | backend/app/domains/event/service.py:105-108 | has_more of page n is false iff n pages have room for every event within the radius, whatever order the rows of that request came in |
| `Waitlist.EventService.CreateEvent` | backend/app/domains/event/service.py:110-141 | creates a live event with its capacity |
| `Waitlist.EventService.CancelEvent` | backend/app/domains/event/service.py:143-150 | only the creator cancels; the event is then gone for every operation |
| `Waitlist.EventService.JoinedCount` | backend/app/domains/event/repository.py:128-135 | counts the rows of one event |
| `Waitlist.EventService.JoinWaitlist` | backend/app/domains/event/service.py:152-161 | the returned position is the joiner's 1-based rank, and confirmed says whether that rank is within capacity |
| `Waitlist.EventService.LeaveWaitlist` | backend/app/domains/event/service.py:163-168 | leaving removes exactly the caller's row or is refused |
| `Waitlist.Rank` | backend/app/domains/event/models.py:8-10 | 1-based place of first occurrence |
| `Waitlist.QueuesHold` | backend/app/domains/event/service.py:155-156 | nobody is queued twice, in any reachable state |
| `Waitlist.RanksNeverIncrease` | backend/app/domains/event/repository.py:147-172 | over any run a rank never increases while its owner stays |
| `Waitlist.ConfirmedSeatsAreKept` | backend/app/domains/event/models.py:8-10 | a confirmed seat is kept until its holder leaves |
| `Waitlist.CancelledQueuesAreFrozen` | backend/app/domains/event/repository.py:78-83 | after cancelling the queue never changes and joins are refused |
| `Waitlist.ConfirmedAreTheFirst` | backend/app/domains/event/models.py:8-10 | the confirmed are the first max_attendees of the queue; there are min(capacity, length) of them |
| `Waitlist.LeavingPromotesTheFirstWaiter` | backend/app/domains/event/models.py:8-10 | a waiter who leaves frees nothing; a confirmed leaver hands the seat to exactly the first waiter |
| `Waitlist.LeaveReassignsSeats` | backend/app/domains/event/service.py:163-168 | the same for the state after an accepted leave, in every reachable state |
| `Waitlist.QueuesFollowRequests` | backend/app/domains/event/service.py:152-168 | over every run the queue is the accepted joins in order, without those taken back by a leave |
| `Waitlist.EventsFollowRequests` | backend/app/domains/event/service.py:110-150 | over every run an event has the creator and capacity of its creation, and is deleted iff a cancellation was accepted |
| `Waitlist.AcceptedIff` | backend/app/domains/event/service.py:143-168 | the answer to every operation in every reachable state: anyone not queued may join a live event however full, the queued may leave, the creator alone cancels |
| `Waitlist.ConfirmedByRequests` | backend/app/domains/event/service.py:155-161 | without a capacity everyone queued is confirmed, with one exactly the first so many |
| `Metering.AIAssistantService.CountUsage` | backend/app/domains/ai_assistant/repository.py:154-164 | counts the ledger rows of a user and feature since a time |
| `Metering.AIAssistantService.Record` | backend/app/domains/ai_assistant/repository.py:166-177 | one ledger row per generator call, stamped with the time the transaction began |
| `Metering.AIAssistantService.SetStyle` | backend/app/domains/ai_assistant/service.py:177-182 | unknown styles are refused |
| `Metering.AIAssistantService.PrepCardFor` | backend/app/domains/ai_assistant/service.py:139-171 | cache first, then the daily cap, then the book, then generate, cache and log |
| `Metering.AIAssistantService.AudioIntroFor` | backend/app/domains/ai_assistant/service.py:184-215 | free users are capped before the call; Pro users are not |
| `Metering.AIAssistantService.ReflectionFor` | backend/app/domains/ai_assistant/service.py:223-257 | an existing guide is returned first; free users are capped per month |
| `Metering.LedgerRecordsEveryCall` | backend/app/domains/ai_assistant/repository.py:166-177 | over every run the ledger is, row for row, the generator calls |
| `Metering.GenerationKeepsCapsIff` | backend/app/domains/ai_assistant/service.py:145-170 | a generation keeps every cap exactly when the cap that counts it, by the time of its ledger row, has room |
| `Metering.CapsHold` | backend/app/domains/ai_assistant/service.py:145-152 | over every run of requests whose rows (stamped with the transaction time) fall into the windows they count (placed by the application clock): at most 5 prep cards per user and UTC day, at most one free audio intro per day and one free guide per month |
| `Metering.StraddlingRequestExceedsTheCap` | backend/app/domains/ai_assistant/models.py:98-101 | any capped request whose row falls before its window exceeds the cap after earlier requests that all kept to theirs: it does not see the rows of its own day |
| `Metering.ExceedsACapIff` | backend/app/domains/ai_assistant/service.py:84-91 | a request can exceed a cap, after some run in which every row fell into its window, iff it is capped and its own row does not: its transaction began before midnight (or the turn of the month) and the window was placed after |
| `Metering.PrepRefusedIffFiveToday` | backend/app/domains/ai_assistant/service.py:145-152 | with an application clock that is not behind any row, an uncached card is refused exactly when at least five were generated today, in every reachable state |
| `Metering.PrepAnswered` | backend/app/domains/ai_assistant/service.py:139-171 | the whole answer to a prep-card request in every reachable state: cached card of the user's style, else refusal at five today, else unknown book, else fresh card |
| `Metering.AudioAnswered` | backend/app/domains/ai_assistant/service.py:184-215 | a Pro user is never refused for the cap; a free user is refused iff an intro was made today, while free or Pro |
| `Metering.ReflectionAnswered` | backend/app/domains/ai_assistant/service.py:223-257 | a stored guide is served; a Pro user is never refused for the cap; a free user is refused iff a guide was made this month |
| `Metering.StylesFollowRequests` | backend/app/domains/ai_assistant/service.py:177-221 | the style in force is the one last accepted, motivational before any |
| `Metering.StyleAcceptedIff` | backend/app/domains/ai_assistant/service.py:177-182 | a style is accepted iff it is motivational, analytical or reflective |
| `Metering.CardsFollowRequests` | backend/app/domains/ai_assistant/repository.py:57-91 | the cached card of a book and style is the one last generated and written for them |
| `Metering.GuidesFollowRequests` | backend/app/domains/ai_assistant/repository.py:125-145 | the stored guide of a user and book is the one generated for them |
| `Metering.GenerationRecordsTheRequest` | backend/app/domains/ai_assistant/service.py:158-170 | a generation is recorded with its user, feature, book, style, content and transaction time |
| `Metering.OneGenerationPerGuide` | backend/app/domains/ai_assistant/service.py:228-250 | the generator is called once per stored guide and never for a pair without one |
| `Metering.RepeatsReturnTheFirstGuide` | backend/app/domains/ai_assistant/service.py:228-230 | in any later state a repeat is served the first guide and changes nothing |
| `Metering.ServedCardMatchesReader` | backend/app/domains/ai_assistant/repository.py:49-91 | a served card, cached or fresh, was generated for the requested book in the reader's own style |
| `Metering.CacheHolds` | backend/app/domains/ai_assistant/repository.py:77-91 | every cached card was generated for its book and style |
| `Metering.OnlyFreshAnswersCost` | backend/app/domains/ai_assistant/service.py:139-171 | hits and refusals change nothing; an answer that changes the state is fresh and costs one call |
| `ResponseCache.CachedFunction.Invoke` | backend/app/core/cache.py:65-89 | read, else execute and write; a failing write does not surface |
| `ResponseCache.CachedFunction.InvalidateCache` | backend/app/core/cache.py:96-105 | deletes one key, or nothing when Redis fails |
| `ResponseCache.AnswersAreRecent` | backend/app/core/cache.py:61-89 | for any trace, a returned value was produced by the wrapped function for the same resolved key less than one ttl ago |
| `ResponseCache.LiveEntriesAnswer` | backend/app/core/cache.py:72-89 | from its write to its expiry, for any trace in which reads of the key work and nobody deletes it, an entry answers every call for its key and the function is not executed for that key |
| `ResponseCache.WrittenAnswersServeForTheTtl` | backend/app/core/cache.py:72-89 | an answer that was executed and written is served to every call for its key for the full ttl |
| `ResponseCache.MissesExecute` | backend/app/core/cache.py:72-105 | after a successful invalidation, a failing read or an expiry the call executes the function and returns its result |
| `ResponseCache.KeyedCacheAgrees` | backend/app/core/cache.py:61-91 | if the key determines the result of a pure function, every call returns what a direct call would |
| `ResponseCache.CacheIsTransparentIff` | backend/app/core/cache.py:61-91 | and exactly then: a key shared by two different results is visible in some trace |
| `ResponseCache.RecommendationsAgreeIff` | backend/app/domains/discovery/service.py:190-221 | the recommendation cache is invisible iff the engine ignores strategy and limit, which its key leaves out |
| `Fanout.DispatchInvertsChannel` | backend/app/core/ws_manager.py:34-36 | channel encoding and prefix dispatch are inverse for every id |
| `Fanout.ConnectionManager.Connect` | backend/app/core/ws_manager.py:61-71 | registers the socket under kind and id |
| `Fanout.ConnectionManager.Disconnect` | backend/app/core/ws_manager.py:73-92 | removes the socket and drops an empty entry |
| `Fanout.ConnectionManager.SendAll` | backend/app/core/ws_manager.py:143-150 | each live socket of the snapshot gets one copy; the others are collected |
| `Fanout.ConnectionManager.DiscardAll` | backend/app/core/ws_manager.py:151-152 | exactly the failed sockets are removed |
| `Fanout.ConnectionManager.BroadcastLocal` | backend/app/core/ws_manager.py:143-174 | one copy to every live registered socket, after which the registered sockets are the live ones |
| `Fanout.ConnectionManager.RelayMessage` | backend/app/core/ws_manager.py:213-226 | a relayed message is sent locally to the address its channel names |
| `Fanout.ConnectionManager.AfterPublish` | backend/app/core/ws_manager.py:186-189 | a successful publish leaves a relay task in place, created if there was none |
| `Fanout.ConnectionManager.RelaySubscribed` | backend/app/core/ws_manager.py:207-212 | a relay task that was created starts receiving when its subscription completes |
| `Fanout.CopiesDelivered` | backend/app/core/ws_manager.py:98-137 | exact copies: one from the publisher's local send, plus one if the socket's own process has a subscribed relay and the publish succeeded; none for any other socket |
| `Fanout.RegistrationsAfterBroadcast` | backend/app/core/ws_manager.py:143-174 | dead sockets of a process that sent are gone, no live one is dropped, other addresses are untouched |
| `Fanout.RegistryFollowsConnections` | backend/app/core/ws_manager.py:61-92 | over any run only connected sockets are registered, and one that accepts every send stays registered |
| `Fanout.DeliveriesAreConfined` | backend/app/core/ws_manager.py:98-137 | over any run a message reaches only sockets connected under that kind and id |
| `Fanout.RelayFollowsPublishes` | backend/app/core/ws_manager.py:186-212 | over any run a process has a relay task iff it has published successfully since its relay last stopped, and a receiving one iff that task has subscribed since |
| `Fanout.NotYetSubscribedMisses` | backend/app/core/ws_manager.py:180-228 | a message published while the relay of another process is missing or not yet subscribed does not reach that process |
| `Fanout.LiveSocketsAreReached` | backend/app/core/ws_manager.py:180-228 | a live connected socket gets one or two copies when it shares the publisher's process, or when the publish succeeds and the relay of its own process has subscribed without stopping since |

## Left out

- Interleavings inside one transaction (check then join, read then overwrite): service calls are modelled as atomic, as the code does not serialise them.
- Overlap of dispatch tasks: events are ordered by the creation of their dispatch task; handlers of two tasks may interleave at run time.
- Failure between a generator call and its commit: metering assumes that the transaction recording a generation commits.
- Floating point: progress percentages and similarities are over the reals; `math.sqrt` is any non-negative real root, `math.ceil` of a float quotient is the exact ceiling.
- Time stamps of user_badges and of comments' creation: ordering by them is replaced by arbitrary order (threads, listings) or insertion order (waitlist).
- Text handling: `str.strip` is modelled for ASCII white space only; invite codes are compared after upper-casing; cursor strings are the times they encode.
- The 72-hour lifetime of cached prep cards: a read may find any entry absent, at any time.
- JSON encoding of cached values: taken as lossless; a decode failure counts as a failing read.
- The three copies of connect, disconnect and local broadcast in `ConnectionManager` are one method each, parameterised by kind; `await` points inside a broadcast are not interleaving points.
- `popular` club sort, leaderboards, pinned-badge order, messages other than their listing, rooms, club events and RSVPs.
- Haversine distance and the bounding box: a candidate comes with its distance.
- Club topics, agenda drafts and the item-based recommendation engine: their control flow would only add easy members.
- Notification recipients of agendas and comments, and the update of a topic's prompt.
- HTTP routers, schemas beyond the bounds used here, migrations, authentication, the mobile client and all library internals.
