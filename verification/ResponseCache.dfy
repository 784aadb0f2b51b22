/** The `cache_response` decorator and `invalidate_cache` (backend/app/core/cache.py).

    Redis is a map with expiry times whose reads, writes and deletes may fail. The
    wrapped function is whatever it returns at each call. */
module ResponseCache {
  import opened Prelude

  type Time = int

  datatype Entry<V> = Entry(value: V, expiresAt: Time)

  /** One execution of the wrapped function. */
  datatype Execution<V> = Execution(key: string, value: V, at: Time)

  datatype State<V> = State(store: map<string, Entry<V>>, executions: seq<Execution<V>>)

  /** `result` is what the wrapped function returns if it is executed by this call. */
  datatype Op<A, V> =
    | Call(args: A, now: Time, readFails: bool, writeFails: bool, result: V)
    | Invalidate(key: string, deleteFails: bool)

  /** A decorated function: how the key pattern resolves, and the time to live. */
  datatype Config<!A> = Config(keyOf: A -> string, ttl: nat)

  predicate Hit<A, V>(c: Config<A>, s: State<V>, op: Op<A, V>)
    requires op.Call?
  {
    !op.readFails && c.keyOf(op.args) in s.store && op.now < s.store[c.keyOf(op.args)].expiresAt
  }

  function Step<A, V>(c: Config<A>, s: State<V>, op: Op<A, V>): State<V> {
    match op
    case Call(args, now, _, writeFails, result) =>
      if Hit(c, s, op) then s
      else
        var key := c.keyOf(args);
        State(if writeFails then s.store else s.store[key := Entry(result, now + c.ttl)],
              s.executions + [Execution(key, result, now)])
    case Invalidate(key, deleteFails) =>
      if deleteFails then s else s.(store := s.store - {key})
  }

  function Returned<A, V>(c: Config<A>, s: State<V>, op: Op<A, V>): V
    requires op.Call?
  {
    if Hit(c, s, op) then s.store[c.keyOf(op.args)].value else op.result
  }

  function Empty<V>(): State<V> {
    State(map[], [])
  }

  function Run<A, V>(c: Config<A>, ops: seq<Op<A, V>>): State<V> {
    if ops == [] then Empty() else Step(c, Run(c, ops[..|ops| - 1]), ops[|ops| - 1])
  }

  // ---------- the code ----------

  class CachedFunction<A, V> {
    const config: Config<A>
    var store: map<string, Entry<V>>
    ghost var executions: seq<Execution<V>>

    ghost function Current(): State<V>
      reads this
    {
      State(store, executions)
    }

    constructor (config: Config<A>)
      ensures this.config == config && Current() == Empty()
    {
      this.config := config;
      store, executions := map[], [];
    }

    /** GET: expired entries read as absent; a failing Redis reads as absent. */
    method Read(key: string, now: Time, fails: bool) returns (cached: Option<V>)
      ensures cached == if !fails && key in store && now < store[key].expiresAt then Some(store[key].value) else None
    {
      if fails || key !in store || now >= store[key].expiresAt {
        return None;
      }
      return Some(store[key].value);
    }

    /** The wrapper: read, else execute and write. */
    method Invoke(args: A, now: Time, readFails: bool, writeFails: bool, result: V) returns (value: V)
      modifies this
      ensures Current() == Step(config, old(Current()), Call(args, now, readFails, writeFails, result))
      ensures value == Returned(config, old(Current()), Call(args, now, readFails, writeFails, result))
    {
      var key := config.keyOf(args);
      var cached := Read(key, now, readFails);
      if cached.Some? {
        return cached.value;
      }
      executions := executions + [Execution(key, result, now)];
      if !writeFails {
        store := store[key := Entry(result, now + config.ttl)];
      }
      return result;
    }

    method InvalidateCache(key: string, deleteFails: bool)
      modifies this`store
      ensures Current() == Step(config, old(Current()), Op<A, V>.Invalidate(key, deleteFails))
    {
      if !deleteFails {
        store := store - {key};
      }
    }
  }

  // ---------- every answer is recent and for the same key ----------

  ghost predicate Backed<V>(executions: seq<Execution<V>>, key: string, value: V, at: Time) {
    Execution(key, value, at) in executions
  }

  /** Every stored entry was produced by an execution for its key, one ttl before it expires. */
  ghost predicate StoreOk<A, V>(c: Config<A>, s: State<V>) {
    forall k :: k in s.store ==> Backed(s.executions, k, s.store[k].value, s.store[k].expiresAt - c.ttl)
  }

  lemma StepKeepsStore<A, V>(c: Config<A>, s: State<V>, op: Op<A, V>)
    requires StoreOk(c, s)
    ensures StoreOk(c, Step(c, s, op))
  {
    var t := Step(c, s, op);
    forall k | k in t.store
      ensures Backed(t.executions, k, t.store[k].value, t.store[k].expiresAt - c.ttl)
    {
      if k in s.store && t.store[k] == s.store[k] {
        assert Backed(s.executions, k, s.store[k].value, s.store[k].expiresAt - c.ttl);
      }
    }
  }

  lemma {:induction false} StoreHolds<A, V>(c: Config<A>, ops: seq<Op<A, V>>)
    ensures StoreOk(c, Run(c, ops))
  {
    if ops != [] {
      StoreHolds(c, ops[..|ops| - 1]);
      StepKeepsStore(c, Run(c, ops[..|ops| - 1]), ops[|ops| - 1]);
    }
  }

  /** For any trace of calls, expiries, invalidations and Redis failures: what a
      call returns was produced by the wrapped function, for the same resolved
      key, less than one ttl ago (or by this very call). */
  lemma AnswersAreRecent<A, V>(c: Config<A>, ops: seq<Op<A, V>>, op: Op<A, V>)
    requires op.Call? && c.ttl > 0
    ensures var s := Run(c, ops);
            exists e :: e in Step(c, s, op).executions && e.key == c.keyOf(op.args) &&
                        e.value == Returned(c, s, op) && e.at > op.now - c.ttl
  {
    StoreHolds(c, ops);
    var s, key := Run(c, ops), c.keyOf(op.args);
    if Hit(c, s, op) {
      assert Backed(s.executions, key, s.store[key].value, s.store[key].expiresAt - c.ttl);
    } else {
      assert Execution(key, op.result, op.now) in Step(c, s, op).executions;
    }
  }

  /** The operation leaves a live entry of `key` alone: it neither misses it nor deletes it. */
  predicate SparesEntry<A, V>(c: Config<A>, op: Op<A, V>, key: string, expiresAt: Time) {
    match op
    case Call(args, now, readFails, _, _) => c.keyOf(args) == key ==> !readFails && now < expiresAt
    case Invalidate(k, deleteFails) => k == key ==> deleteFails
  }

  function ExecutionsFor<V>(s: State<V>, key: string): nat {
    Count(s.executions, (e: Execution<V>) => e.key == key)
  }

  lemma StepSparesEntry<A, V>(c: Config<A>, s: State<V>, op: Op<A, V>, key: string)
    requires key in s.store && SparesEntry(c, op, key, s.store[key].expiresAt)
    ensures var t := Step(c, s, op);
            key in t.store && t.store[key] == s.store[key] && ExecutionsFor(t, key) == ExecutionsFor(s, key)
  {
    if op.Call? && !Hit(c, s, op) {
      CountAppend(s.executions, Execution(c.keyOf(op.args), op.result, op.now), (e: Execution<V>) => e.key == key);
    }
  }

  /** From its write to its expiry an entry answers for the function: whatever else
      happens, as long as reads of this key work and nobody deletes it, every call
      for the key returns the stored value and the function is not executed for it. */
  lemma {:induction false} LiveEntriesAnswer<A, V>(c: Config<A>, ops: seq<Op<A, V>>, more: seq<Op<A, V>>, key: string)
    requires key in Run(c, ops).store
    requires forall i :: 0 <= i < |more| ==> SparesEntry(c, more[i], key, Run(c, ops).store[key].expiresAt)
    ensures var s, t := Run(c, ops), Run(c, ops + more);
            key in t.store && t.store[key] == s.store[key] && ExecutionsFor(t, key) == ExecutionsFor(s, key)
    ensures forall i :: 0 <= i < |more| && more[i].Call? && c.keyOf(more[i].args) == key ==>
              Returned(c, Run(c, ops + more[..i]), more[i]) == Run(c, ops).store[key].value
  {
    if more == [] {
      assert ops + more == ops;
    } else {
      var front, last := more[..|more| - 1], more[|more| - 1];
      LiveEntriesAnswer(c, ops, front, key);
      assert (ops + more)[..|ops + more| - 1] == ops + front;
      StepSparesEntry(c, Run(c, ops + front), last, key);
      forall i | 0 <= i < |more| && more[i].Call? && c.keyOf(more[i].args) == key
        ensures Returned(c, Run(c, ops + more[..i]), more[i]) == Run(c, ops).store[key].value
      {
        if i < |front| {
          assert front[i] == more[i] && front[..i] == more[..i];
        } else {
          assert more[..i] == front;
        }
      }
    }
  }

  /** A call that executes and writes its answer is repeated to every call for its key
      within the full ttl, on a trace that spares the entry. */
  lemma WrittenAnswersServeForTheTtl<A, V>(c: Config<A>, ops: seq<Op<A, V>>, write: Op<A, V>, more: seq<Op<A, V>>, call: Op<A, V>)
    requires write.Call? && !write.writeFails && !Hit(c, Run(c, ops), write)
    requires forall i :: 0 <= i < |more| ==> SparesEntry(c, more[i], c.keyOf(write.args), write.now + c.ttl)
    requires call.Call? && c.keyOf(call.args) == c.keyOf(write.args) && !call.readFails && call.now < write.now + c.ttl
    ensures var s := Run(c, ops + [write] + more);
            Returned(c, s, call) == write.result && Step(c, s, call) == s
  {
    assert (ops + [write])[..|ops|] == ops;
    LiveEntriesAnswer(c, ops + [write], more, c.keyOf(write.args));
  }

  /** After a successful invalidation the next call for the key executes, and so does any
      call whose read fails or comes a full ttl after the last write. */
  lemma MissesExecute<A, V>(c: Config<A>, ops: seq<Op<A, V>>, key: string, call: Op<A, V>)
    requires call.Call? && c.keyOf(call.args) == key
    ensures var s := Run(c, ops + [Invalidate(key, false)]);
            Returned(c, s, call) == call.result && Step(c, s, call).executions == s.executions + [Execution(key, call.result, call.now)]
    ensures var s := Run(c, ops);
            call.readFails || (key in s.store ==> s.store[key].expiresAt <= call.now) ==>
              Returned(c, s, call) == call.result && Step(c, s, call).executions == s.executions + [Execution(key, call.result, call.now)]
  {
    assert (ops + [Op<A, V>.Invalidate(key, false)])[..|ops|] == ops;
  }

  // ---------- refinement of the plain function ----------

  /** The wrapped function is the pure function `f`. */
  ghost predicate Pure<A, V>(f: A -> V, ops: seq<Op<A, V>>) {
    forall i :: 0 <= i < |ops| && ops[i].Call? ==> ops[i].result == f(ops[i].args)
  }

  /** Every call of the trace returned what a direct call would have. */
  ghost predicate Agrees<A, V>(c: Config<A>, f: A -> V, ops: seq<Op<A, V>>) {
    forall i :: 0 <= i < |ops| && ops[i].Call? ==> Returned(c, Run(c, ops[..i]), ops[i]) == f(ops[i].args)
  }

  /** Arguments that share a key share a result. */
  ghost predicate KeyDetermines<A(!new), V>(c: Config<A>, f: A -> V) {
    forall x, y :: c.keyOf(x) == c.keyOf(y) ==> f(x) == f(y)
  }

  ghost predicate StoredByF<A(!new), V>(c: Config<A>, f: A -> V, s: State<V>) {
    forall k :: k in s.store ==> exists x :: c.keyOf(x) == k && f(x) == s.store[k].value
  }

  lemma {:induction false} PureStores<A(!new), V>(c: Config<A>, f: A -> V, ops: seq<Op<A, V>>)
    requires Pure(f, ops)
    ensures StoredByF(c, f, Run(c, ops))
  {
    if ops != [] {
      var front, last := ops[..|ops| - 1], ops[|ops| - 1];
      PureStores(c, f, front);
      var s, t := Run(c, front), Run(c, ops);
      forall k | k in t.store
        ensures exists x :: c.keyOf(x) == k && f(x) == t.store[k].value
      {
        if k in s.store && t.store[k] == s.store[k] {
          var x :| c.keyOf(x) == k && f(x) == s.store[k].value;
        } else {
          assert c.keyOf(last.args) == k && f(last.args) == t.store[k].value;
        }
      }
    }
  }

  lemma KeyedCacheAgrees<A(!new), V>(c: Config<A>, f: A -> V, ops: seq<Op<A, V>>)
    requires KeyDetermines(c, f) && Pure(f, ops)
    ensures Agrees(c, f, ops)
  {
    forall i | 0 <= i < |ops| && ops[i].Call?
      ensures Returned(c, Run(c, ops[..i]), ops[i]) == f(ops[i].args)
    {
      PureStores(c, f, ops[..i]);
    }
  }

  lemma SecondCallSeesTheFirst<A(!new), V>(c: Config<A>, f: A -> V, x: A, y: A)
    requires c.ttl > 0 && c.keyOf(x) == c.keyOf(y)
    ensures var ops := [Call(x, 0, false, false, f(x)), Call(y, 0, false, false, f(y))];
            Pure(f, ops) && (Agrees(c, f, ops) ==> f(x) == f(y))
  {
    var first, second := Call(x, 0, false, false, f(x)), Call(y, 0, false, false, f(y));
    var ops := [first, second];
    assert ops[..1] == [first] && [first][..0] == [];
    assert Run(c, [first]) == Step(c, Empty(), first);
    assert Returned(c, Run(c, ops[..1]), ops[1]) == f(x);
  }

  /** Exactly when the decorator is invisible for a pure function: iff its key
      pattern tells apart every two calls with different results. */
  lemma CacheIsTransparentIff<A(!new), V(!new)>(c: Config<A>, f: A -> V)
    requires c.ttl > 0
    ensures (forall ops: seq<Op<A, V>> :: Pure(f, ops) ==> Agrees(c, f, ops)) <==> KeyDetermines(c, f)
  {
    if KeyDetermines(c, f) {
      forall ops: seq<Op<A, V>> | Pure(f, ops)
        ensures Agrees(c, f, ops)
      {
        KeyedCacheAgrees(c, f, ops);
      }
    }
    if forall ops: seq<Op<A, V>> :: Pure(f, ops) ==> Agrees(c, f, ops) {
      forall x, y | c.keyOf(x) == c.keyOf(y)
        ensures f(x) == f(y)
      {
        SecondCallSeesTheFirst(c, f, x, y);
      }
    }
  }

  // ---------- get_recommendations ----------

  /** Arguments of `DiscoveryService.get_recommendations`. */
  datatype RecommendationArgs = RecommendationArgs(userId: string, strategy: nat, limit: nat)

  /** key_pattern="recommendations:{user_id}", ttl=3600. */
  function RecommendationConfig(): Config<RecommendationArgs> {
    Config((a: RecommendationArgs) => "recommendations:" + a.userId, 3600)
  }

  lemma PrefixedKeysDiffer(prefix: string, a: string, b: string)
    requires prefix + a == prefix + b
    ensures a == b
  {
    assert (prefix + a)[|prefix|..] == a && (prefix + b)[|prefix|..] == b;
  }

  /** The recommendation cache is invisible exactly for engines whose answer does
      not depend on the strategy or the limit, which the key leaves out. */
  lemma RecommendationsAgreeIff<V(!new)>(f: RecommendationArgs -> V)
    ensures (forall ops: seq<Op<RecommendationArgs, V>> :: Pure(f, ops) ==> Agrees(RecommendationConfig(), f, ops)) <==>
            (forall u, s, l, s', l' :: f(RecommendationArgs(u, s, l)) == f(RecommendationArgs(u, s', l')))
  {
    var c := RecommendationConfig();
    CacheIsTransparentIff(c, f);
    if KeyDetermines(c, f) {
      forall u, s: nat, l: nat, s': nat, l': nat | true
        ensures f(RecommendationArgs(u, s, l)) == f(RecommendationArgs(u, s', l'))
      {
        assert c.keyOf(RecommendationArgs(u, s, l)) == c.keyOf(RecommendationArgs(u, s', l'));
      }
    }
    if forall u, s: nat, l: nat, s': nat, l': nat :: f(RecommendationArgs(u, s, l)) == f(RecommendationArgs(u, s', l')) {
      forall x, y | c.keyOf(x) == c.keyOf(y)
        ensures f(x) == f(y)
      {
        PrefixedKeysDiffer("recommendations:", x.userId, y.userId);
        assert f(RecommendationArgs(x.userId, x.strategy, x.limit)) == f(RecommendationArgs(x.userId, y.strategy, y.limit));
      }
    }
  }
}
