/** Commit-coupled event delivery (backend/app/shared/event_bus.py).

    A session carries a queue of staged events and two sets of one-shot hooks.
    `Step` is the protocol; class `Session` is the code that implements it, one
    hook at a time. The reference the protocol is compared with looks ahead in
    the operation log instead of keeping a queue: an event is owed to the bus
    exactly when the first commit-or-rollback after it is a commit. */
module EventBus {
  import opened Prelude

  // ---------- protocol ----------

  datatype SessionState<E> = SessionState(queue: seq<E>, commitHooks: nat, rollbackHooks: nat, dispatched: seq<E>)

  datatype Op<E> = Register | Stage(event: E) | Commit | Rollback
  {
    predicate Ends() {
      Commit? || Rollback?
    }
  }

  function Fresh<E>(): SessionState<E> {
    SessionState([], 0, 0, [])
  }

  function Step<E>(s: SessionState<E>, op: Op<E>): SessionState<E> {
    match op
    case Register => s.(commitHooks := s.commitHooks + 1, rollbackHooks := s.rollbackHooks + 1)
    case Stage(e) => s.(queue := s.queue + [e])
    case Commit =>
      if s.commitHooks == 0 then s
      else s.(queue := [], commitHooks := 0, dispatched := s.dispatched + s.queue)
    case Rollback =>
      if s.rollbackHooks == 0 then s else s.(queue := [], rollbackHooks := 0)
  }

  function After<E>(ops: seq<Op<E>>): SessionState<E> {
    if ops == [] then Fresh()
    else Step(After(ops[..|ops| - 1]), ops[|ops| - 1])
  }

  // ---------- the code ----------

  /** The SQLAlchemy session as event_bus.py uses it: the staged queue lives in
      `session.info`, each `commit_and_publish` adds one commit hook and one
      rollback hook, and a hook runs once. `dispatched` is what has been handed
      to dispatch tasks, in the order the tasks were created. */
  class Session<E> {
    var queue: seq<E>
    var commitHooks: nat
    var rollbackHooks: nat
    var dispatched: seq<E>

    function State(): SessionState<E>
      reads this
    {
      SessionState(queue, commitHooks, rollbackHooks, dispatched)
    }

    constructor ()
      ensures State() == Fresh()
    {
      queue, commitHooks, rollbackHooks, dispatched := [], 0, 0, [];
    }

    method CommitAndPublish()
      modifies this`commitHooks, this`rollbackHooks
      ensures State() == Step(old(State()), Register)
    {
      commitHooks := commitHooks + 1;
      rollbackHooks := rollbackHooks + 1;
    }

    method StageEvent(event: E)
      modifies this`queue
      ensures State() == Step(old(State()), Stage(event))
    {
      queue := queue + [event];
    }

    method DrainQueue() returns (events: seq<E>)
      modifies this`queue
      ensures events == old(queue) && queue == []
    {
      events := queue;
      queue := [];
    }

    /** Every registered hook fires; only the first one finds anything queued. */
    method FireCommit()
      modifies this
      ensures State() == Step(old(State()), Commit)
    {
      while commitHooks > 0
        invariant rollbackHooks == old(rollbackHooks)
        invariant commitHooks == old(commitHooks) ==> queue == old(queue) && dispatched == old(dispatched)
        invariant commitHooks < old(commitHooks) ==> queue == [] && dispatched == old(dispatched) + old(queue)
        invariant commitHooks <= old(commitHooks)
      {
        var events := DrainQueue();
        if events != [] {
          dispatched := dispatched + events;
        }
        commitHooks := commitHooks - 1;
      }
    }

    method FireRollback()
      modifies this
      ensures State() == Step(old(State()), Rollback)
    {
      while rollbackHooks > 0
        invariant commitHooks == old(commitHooks) && dispatched == old(dispatched)
        invariant rollbackHooks <= old(rollbackHooks)
        invariant queue == if rollbackHooks == old(rollbackHooks) then old(queue) else []
      {
        var _ := DrainQueue();
        rollbackHooks := rollbackHooks - 1;
      }
    }
  }

  // ---------- the reference: looking ahead in the log ----------

  datatype Fate = Kept | Dropped | Pending

  /** What the first commit or rollback at or after position `i` does. */
  function FateAt<E>(ops: seq<Op<E>>, i: nat): Fate
    requires i <= |ops|
    decreases |ops| - i
  {
    if i == |ops| then Pending
    else match ops[i]
      case Commit => Kept
      case Rollback => Dropped
      case _ => FateAt(ops, i + 1)
  }

  /** Events staged among the first `n` operations whose fate is `f`, in staging order. */
  function StagedWith<E>(ops: seq<Op<E>>, n: nat, f: Fate): seq<E>
    requires n <= |ops|
  {
    if n == 0 then []
    else
      var before := StagedWith(ops, n - 1, f);
      if ops[n - 1].Stage? && FateAt(ops, n - 1) == f then before + [ops[n - 1].event] else before
  }

  function Owed<E>(ops: seq<Op<E>>): seq<E> {
    StagedWith(ops, |ops|, Kept)
  }

  function Undecided<E>(ops: seq<Op<E>>): seq<E> {
    StagedWith(ops, |ops|, Pending)
  }

  /** All events staged in a log, in staging order. */
  function Staged<E>(ops: seq<Op<E>>): seq<E> {
    if ops == [] then []
    else
      var before := Staged(ops[..|ops| - 1]);
      var last := ops[|ops| - 1];
      if last.Stage? then before + [last.event] else before
  }

  /** A hook was registered since the last commit or rollback before position `k`. */
  predicate RegisteredSince<E>(ops: seq<Op<E>>, k: nat)
    requires k <= |ops|
  {
    k > 0 && !ops[k - 1].Ends() && (ops[k - 1].Register? || RegisteredSince(ops, k - 1))
  }

  /** Every transaction registers at least once before it ends. */
  ghost predicate Armed<E>(ops: seq<Op<E>>) {
    forall k :: 0 <= k < |ops| && ops[k].Ends() ==> RegisteredSince(ops, k)
  }

  ghost predicate InSync<E>(ops: seq<Op<E>>) {
    After(ops).dispatched == Owed(ops) && After(ops).queue == Undecided(ops)
  }

  // ---------- lemmas about the reference ----------

  lemma {:induction false} FateAfterAppend<E>(ops: seq<Op<E>>, op: Op<E>, i: nat)
    requires i <= |ops|
    ensures FateAt(ops + [op], i) ==
            if FateAt(ops, i) != Pending then FateAt(ops, i)
            else if op.Commit? then Kept
            else if op.Rollback? then Dropped
            else Pending
    decreases |ops| - i
  {
    if i < |ops| {
      FateAfterAppend(ops, op, i + 1);
    } else {
      assert (ops + [op])[i] == op;
      assert FateAt(ops + [op], i + 1) == Pending;
    }
  }

  lemma {:induction false} NothingPendingBefore<E>(ops: seq<Op<E>>, n: nat)
    requires n < |ops| && FateAt(ops, n) != Pending
    ensures StagedWith(ops, n, Pending) == []
  {
    if n > 0 {
      NothingPendingBefore(ops, n - 1);
    }
  }

  /** Appending an operation decides pending events and nothing else. */
  lemma {:induction false} StagedAfterAppend<E>(ops: seq<Op<E>>, op: Op<E>, n: nat)
    requires n <= |ops|
    ensures StagedWith(ops + [op], n, Kept) ==
            StagedWith(ops, n, Kept) + if op.Commit? then StagedWith(ops, n, Pending) else []
    ensures StagedWith(ops + [op], n, Pending) == if op.Ends() then [] else StagedWith(ops, n, Pending)
  {
    if n > 0 {
      StagedAfterAppend(ops, op, n - 1);
      FateAfterAppend(ops, op, n - 1);
      if FateAt(ops, n - 1) != Pending {
        NothingPendingBefore(ops, n - 1);
      }
    }
  }

  lemma OwedAfterAppend<E>(ops: seq<Op<E>>, op: Op<E>)
    ensures Owed(ops + [op]) == Owed(ops) + if op.Commit? then Undecided(ops) else []
    ensures Undecided(ops + [op]) ==
            if op.Ends() then [] else if op.Stage? then Undecided(ops) + [op.event] else Undecided(ops)
  {
    StagedAfterAppend(ops, op, |ops|);
    FateAfterAppend(ops, op, |ops|);
  }

  // ---------- main results ----------

  lemma {:induction false} RegistrationLeavesHooks<E>(ops: seq<Op<E>>)
    requires RegisteredSince(ops, |ops|)
    ensures After(ops).commitHooks > 0 && After(ops).rollbackHooks > 0
  {
    var front, last := ops[..|ops| - 1], ops[|ops| - 1];
    if !last.Register? {
      RegisteredSincePrefix(ops, |ops| - 1, front);
      RegistrationLeavesHooks(front);
    }
  }

  lemma {:induction false} RegisteredSincePrefix<E>(ops: seq<Op<E>>, k: nat, front: seq<Op<E>>)
    requires k <= |front| <= |ops| && front == ops[..|front|]
    ensures RegisteredSince(front, k) == RegisteredSince(ops, k)
  {
    if k > 0 {
      RegisteredSincePrefix(ops, k - 1, front);
    }
  }

  /** One step keeps the session in step with the reference, except an ending
      step that finds no hook of its kind while something is still queued. */
  lemma StepKeepsSync<E>(ops: seq<Op<E>>, op: Op<E>)
    requires InSync(ops)
    ensures InSync(ops + [op]) <==>
            (op.Commit? ==> Undecided(ops) == [] || After(ops).commitHooks > 0) &&
            (op.Rollback? ==> Undecided(ops) == [] || After(ops).rollbackHooks > 0)
  {
    assert (ops + [op])[..|ops + [op]| - 1] == ops;
    OwedAfterAppend(ops, op);
  }

  /** If every transaction registers before it ends, what reaches the bus is the
      in-order concatenation of the events of the committed transactions, each
      once, however many registrations there were. */
  lemma {:induction false} ArmedSessionsDeliverExactly<E>(ops: seq<Op<E>>)
    requires Armed(ops)
    ensures After(ops).dispatched == Owed(ops)
    ensures After(ops).queue == Undecided(ops)
  {
    if ops != [] {
      var n := |ops| - 1;
      var front := ops[..n];
      assert front + [ops[n]] == ops;
      forall k | 0 <= k < |front| && front[k].Ends()
        ensures RegisteredSince(front, k)
      {
        assert ops[k].Ends();
        RegisteredSincePrefix(ops, k, front);
      }
      ArmedSessionsDeliverExactly(front);
      if ops[n].Ends() {
        RegisteredSincePrefix(ops, n, front);
        RegistrationLeavesHooks(front);
      }
      StepKeepsSync(front, ops[n]);
    }
  }

  /** An ending step is guarded when it has a hook of its kind or nothing is undecided. */
  ghost predicate Guarded<E>(ops: seq<Op<E>>, k: nat)
    requires k < |ops|
  {
    var before := ops[..k];
    && (ops[k].Commit? ==> Undecided(before) == [] || After(before).commitHooks > 0)
    && (ops[k].Rollback? ==> Undecided(before) == [] || After(before).rollbackHooks > 0)
  }

  /** Exactly when the promise holds throughout a run: iff every end is guarded. */
  lemma {:induction false} SyncThroughoutIffGuarded<E>(ops: seq<Op<E>>)
    ensures (forall n :: 0 <= n <= |ops| ==> InSync(ops[..n])) <==>
            (forall k :: 0 <= k < |ops| ==> Guarded(ops, k))
  {
    if forall k :: 0 <= k < |ops| ==> Guarded(ops, k) {
      forall n | 0 <= n <= |ops|
        ensures InSync(ops[..n])
      {
        GuardedPrefixInSync(ops, n);
      }
    }
    if forall n :: 0 <= n <= |ops| ==> InSync(ops[..n]) {
      forall k | 0 <= k < |ops|
        ensures Guarded(ops, k)
      {
        assert InSync(ops[..k]) && InSync(ops[..k + 1]);
        assert ops[..k + 1] == ops[..k] + [ops[k]];
        StepKeepsSync(ops[..k], ops[k]);
      }
    }
  }

  lemma {:induction false} GuardedPrefixInSync<E>(ops: seq<Op<E>>, n: nat)
    requires n <= |ops| && forall k :: 0 <= k < |ops| ==> Guarded(ops, k)
    ensures InSync(ops[..n])
  {
    if n > 0 {
      GuardedPrefixInSync(ops, n - 1);
      assert Guarded(ops, n - 1);
      assert ops[..n] == ops[..n - 1] + [ops[n - 1]];
      StepKeepsSync(ops[..n - 1], ops[n - 1]);
    } else {
      assert ops[..0] == [];
    }
  }

  /** With its commit hook spent, a session never hears of the next committed event. */
  lemma SpentCommitHookLoses<E>(ops: seq<Op<E>>, e: E)
    requires After(ops).commitHooks == 0 && Undecided(ops) == []
    ensures var next := ops + [Stage(e)] + [Commit];
            Owed(next) == Owed(ops) + [e] && After(next).dispatched == After(ops).dispatched
  {
    AfterAppend(ops, Stage(e));
    OwedAfterAppend(ops, Stage(e));
    AfterAppend(ops + [Stage(e)], Commit);
    OwedAfterAppend(ops + [Stage(e)], Commit);
  }

  /** With its rollback hook spent but a commit hook left, it delivers what was rolled back. */
  lemma SpentRollbackHookRevives<E>(ops: seq<Op<E>>, e: E)
    requires After(ops).rollbackHooks == 0 && After(ops).commitHooks > 0
    requires After(ops).queue == [] && Undecided(ops) == []
    ensures var next := ops + [Stage(e)] + [Rollback] + [Commit];
            Owed(next) == Owed(ops) && After(next).dispatched == After(ops).dispatched + [e]
  {
    var staged := ops + [Stage(e)];
    AfterAppend(ops, Stage(e));
    OwedAfterAppend(ops, Stage(e));
    AfterAppend(staged, Rollback);
    OwedAfterAppend(staged, Rollback);
    AfterAppend(staged + [Rollback], Commit);
    OwedAfterAppend(staged + [Rollback], Commit);
  }

  /** A registration followed by one end of the transaction. */
  lemma OneTransaction<E>(end: Op<E>)
    requires end.Ends()
    ensures var ops := [Register, end];
            Owed(ops) == [] && Undecided(ops) == [] &&
            After(ops) == SessionState([], if end.Commit? then 0 else 1, if end.Commit? then 1 else 0, [])
  {
    var none: seq<Op<E>> := [];
    var first := none + [Register];
    AfterAppend(none, Register);
    OwedAfterAppend(none, Register);
    AfterAppend(first, end);
    OwedAfterAppend(first, end);
    assert first + [end] == [Register, end];
  }

  /** A session that registered before it staged anything can still fail both halves
      of the promise once a hook is spent: an event committed in a second
      transaction is lost, and a rolled-back event is delivered by a later commit. */
  lemma SpentHooksCanMisdeliver()
    ensures var ops := [Register, Commit, Stage(1), Commit];
            Owed(ops) == [1] && After(ops).dispatched == []
    ensures var ops := [Register, Rollback, Stage(1), Rollback, Commit];
            Owed(ops) == [] && After(ops).dispatched == [1]
  {
    var committed: seq<Op<int>>, rolledBack: seq<Op<int>> := [Register, Commit], [Register, Rollback];
    OneTransaction<int>(Commit);
    OneTransaction<int>(Rollback);
    SpentCommitHookLoses(committed, 1);
    SpentRollbackHookRevives(rolledBack, 1);
    assert committed + [Stage(1)] + [Commit] == [Register, Commit, Stage(1), Commit];
    assert rolledBack + [Stage(1)] + [Rollback] + [Commit] == [Register, Rollback, Stage(1), Rollback, Commit];
  }

  lemma AfterAppend<E>(ops: seq<Op<E>>, op: Op<E>)
    ensures After(ops + [op]) == Step(After(ops), op)
  {
    assert (ops + [op])[..|ops + [op]| - 1] == ops;
  }

  // ---------- at most once, with no assumption ----------

  /** Whatever the registrations, the dispatched events followed by the queued
      ones are a subsequence of the staging order: nothing is delivered twice,
      reordered or invented. */
  lemma {:induction false} AtMostOnceInOrder<E>(ops: seq<Op<E>>)
    ensures Subsequence(After(ops).dispatched + After(ops).queue, Staged(ops))
    ensures Subsequence(After(ops).dispatched, Staged(ops))
  {
    if ops != [] {
      var front, last := ops[..|ops| - 1], ops[|ops| - 1];
      AtMostOnceInOrder(front);
      var s := After(front);
      match last
      case Stage(e) =>
        assert s.dispatched + (s.queue + [e]) == (s.dispatched + s.queue) + [e];
        var a, b := (s.dispatched + s.queue) + [e], Staged(front) + [e];
        assert a[..|a| - 1] == s.dispatched + s.queue && b[..|b| - 1] == Staged(front);
      case Commit =>
        assert s.dispatched + s.queue + [] == s.dispatched + s.queue;
      case Rollback =>
        assert s.dispatched + [] == s.dispatched;
      case Register =>
    }
    PrefixOfSubsequence(After(ops).dispatched, After(ops).queue, Staged(ops));
  }

  // ---------- LocalEventBus: handlers and failures ----------

  type HandlerId = nat
  type EventKind = nat

  function CallsFor<E>(hs: seq<HandlerId>, event: E): seq<(HandlerId, E)> {
    seq(|hs|, i requires 0 <= i < |hs| => (hs[i], event))
  }

  function HandlersOf(handlers: map<EventKind, seq<HandlerId>>, kind: EventKind): seq<HandlerId> {
    if kind in handlers then handlers[kind] else []
  }

  /** Every handler call made by dispatching `events` in order. */
  function CallsOf<E>(handlers: map<EventKind, seq<HandlerId>>, kindOf: E -> EventKind, events: seq<E>)
    : seq<(HandlerId, E)>
  {
    if events == [] then []
    else
      var last := events[|events| - 1];
      CallsOf(handlers, kindOf, events[..|events| - 1]) + CallsFor(HandlersOf(handlers, kindOf(last)), last)
  }

  /** The in-process bus. A handler that raises is logged and swallowed; `calls`
      is every invocation, in order. */
  class LocalEventBus<E> {
    const kindOf: E -> EventKind
    var handlers: map<EventKind, seq<HandlerId>>
    var calls: seq<(HandlerId, E)>
    var failures: nat

    constructor (kindOf: E -> EventKind)
      ensures this.kindOf == kindOf && handlers == map[] && calls == []
    {
      this.kindOf := kindOf;
      handlers, calls, failures := map[], [], 0;
    }

    method Subscribe(kind: EventKind, handler: HandlerId)
      modifies this`handlers
      ensures handlers == old(handlers)[kind := HandlersOf(old(handlers), kind) + [handler]]
    {
      handlers := handlers[kind := HandlersOf(handlers, kind) + [handler]];
    }

    /** A failing handler does not keep the later ones from running. */
    method Publish(event: E, raises: (HandlerId, E) -> bool)
      modifies this`calls, this`failures
      ensures calls == old(calls) + CallsFor(HandlersOf(handlers, kindOf(event)), event)
    {
      var hs := HandlersOf(handlers, kindOf(event));
      var i := 0;
      while i < |hs|
        invariant i <= |hs|
        invariant calls == old(calls) + CallsFor(hs, event)[..i]
      {
        calls := calls + [(hs[i], event)];
        if raises(hs[i], event) {
          failures := failures + 1;
        }
        i := i + 1;
      }
    }

    method Dispatch(events: seq<E>, raises: (HandlerId, E) -> bool)
      modifies this`calls, this`failures
      ensures calls == old(calls) + CallsOf(handlers, kindOf, events)
    {
      var i := 0;
      while i < |events|
        invariant i <= |events|
        invariant calls == old(calls) + CallsOf(handlers, kindOf, events[..i])
      {
        Publish(events[i], raises);
        assert events[..i + 1][..i] == events[..i];
        i := i + 1;
      }
      assert events[..|events|] == events;
    }
  }

  /** The events one handler was called with. */
  function Received<E>(calls: seq<(HandlerId, E)>, h: HandlerId): seq<E> {
    if calls == [] then []
    else
      var last := calls[|calls| - 1];
      Received(calls[..|calls| - 1], h) + if last.0 == h then [last.1] else []
  }

  function OfKind<E>(events: seq<E>, kindOf: E -> EventKind, kind: EventKind): seq<E> {
    if events == [] then []
    else
      var last := events[|events| - 1];
      OfKind(events[..|events| - 1], kindOf, kind) + if kindOf(last) == kind then [last] else []
  }

  /** `h` is subscribed once, to `kind`, and to nothing else. */
  ghost predicate SubscribedOnce(handlers: map<EventKind, seq<HandlerId>>, h: HandlerId, kind: EventKind) {
    && multiset(HandlersOf(handlers, kind))[h] == 1
    && forall k :: k in handlers && k != kind ==> h !in handlers[k]
  }

  lemma {:induction false} ReceivedAppend<E>(a: seq<(HandlerId, E)>, b: seq<(HandlerId, E)>, h: HandlerId)
    ensures Received(a + b, h) == Received(a, h) + Received(b, h)
  {
    if b == [] {
      assert a + b == a;
    } else {
      assert (a + b)[..|a + b| - 1] == a + b[..|b| - 1];
      ReceivedAppend(a, b[..|b| - 1], h);
    }
  }

  lemma {:induction false} ReceivedFromOneEvent<E>(hs: seq<HandlerId>, event: E, h: HandlerId)
    ensures Received(CallsFor(hs, event), h) == seq(multiset(hs)[h], _ => event)
  {
    if hs != [] {
      var front, last := hs[..|hs| - 1], hs[|hs| - 1];
      assert hs == front + [last];
      assert CallsFor(hs, event)[..|hs| - 1] == CallsFor(front, event);
      ReceivedFromOneEvent(front, event, h);
    }
  }

  lemma {:induction false} OnceSubscribedReceivesItsKind<E>(handlers: map<EventKind, seq<HandlerId>>, kindOf: E -> EventKind,
                                                           events: seq<E>, h: HandlerId, kind: EventKind)
    requires SubscribedOnce(handlers, h, kind)
    ensures Received(CallsOf(handlers, kindOf, events), h) == OfKind(events, kindOf, kind)
  {
    if events != [] {
      var front, last := events[..|events| - 1], events[|events| - 1];
      OnceSubscribedReceivesItsKind(handlers, kindOf, front, h, kind);
      var hs := HandlersOf(handlers, kindOf(last));
      ReceivedAppend(CallsOf(handlers, kindOf, front), CallsFor(hs, last), h);
      ReceivedFromOneEvent(hs, last, h);
      if kindOf(last) != kind {
        assert h !in hs;
      }
    }
  }

  /** End to end: a handler subscribed once is called with exactly the events of
      its kind that were staged in committed transactions, each once, in order. */
  lemma CommittedEventsReachTheirSubscriber<E>(ops: seq<Op<E>>, handlers: map<EventKind, seq<HandlerId>>,
                                               kindOf: E -> EventKind, h: HandlerId, kind: EventKind)
    requires Armed(ops) && SubscribedOnce(handlers, h, kind)
    ensures Received(CallsOf(handlers, kindOf, After(ops).dispatched), h) == OfKind(Owed(ops), kindOf, kind)
  {
    ArmedSessionsDeliverExactly(ops);
    OnceSubscribedReceivesItsKind(handlers, kindOf, Owed(ops), h, kind);
  }
}
