/** Metering of the AI reading coach
    (backend/app/domains/ai_assistant/service.py and repository.py): usage ledger,
    daily and monthly caps, the prep-card cache and the once-only guides. */
module Metering {
  import opened Prelude

  type UserId = nat
  type BookId = nat

  // ---------- UTC time, as `datetime.replace` sees it ----------

  datatype RawStamp = Stamp(month: int, day: int, instant: int)

  /** `month` counts months since an epoch, `day` is the day of the month, `instant` the time of day. */
  type Stamp = s: RawStamp | s.day >= 1 && s.instant >= 0 witness RawStamp.Stamp(0, 1, 0)

  predicate AtLeast(t: Stamp, since: Stamp) {
    t.month > since.month ||
    (t.month == since.month && (t.day > since.day || (t.day == since.day && t.instant >= since.instant)))
  }

  function TodayStart(now: Stamp): Stamp {
    RawStamp.Stamp(now.month, now.day, 0)
  }

  function MonthStart(now: Stamp): Stamp {
    RawStamp.Stamp(now.month, 1, 0)
  }

  predicate SameDay(a: Stamp, b: Stamp) {
    a.month == b.month && a.day == b.day
  }

  // ---------- tables ----------

  datatype Feature = PrepCard | Reflection | AudioIntro

  const PREP_DAILY_LIMIT := 5
  const FREE_REFLECTION_MONTHLY_LIMIT := 1
  const AUDIO_INTRO_FREE_DAILY_LIMIT := 1

  datatype Content = Content(text: nat, tokens: nat)

  /** One row of ai_usage_logs. */
  datatype Usage = Usage(user: UserId, feature: Feature, book: BookId, tokens: nat, at: Stamp)

  /** One call of the generator, as an observer of the AI provider would see it. */
  datatype Call = Call(user: UserId, feature: Feature, book: BookId, style: string, content: Content, at: Stamp, pro: bool)

  datatype State = State(
    prefs: map<UserId, string>,
    prepCache: map<(BookId, string), Content>,
    guides: map<(UserId, BookId), Content>,
    ledger: seq<Usage>,
    calls: seq<Call>)

  const EMPTY := State(map[], map[], map[], [], [])

  predicate ValidStyle(style: string) {
    style == "motivational" || style == "analytical" || style == "reflective"
  }

  function ResolveStyle(s: State, user: UserId): string {
    if user in s.prefs && ValidStyle(s.prefs[user]) then s.prefs[user] else "motivational"
  }

  function CountSince(ledger: seq<Usage>, user: UserId, feature: Feature, since: Stamp): nat {
    Count(ledger, (r: Usage) => r.user == user && r.feature == feature && AtLeast(r.at, since))
  }

  function RowFor(c: Call): Usage {
    Usage(c.user, c.feature, c.book, c.content.tokens, c.at)
  }

  /** Call the generator and record the call: one ledger row per generation. */
  function Generated(s: State, c: Call): State {
    s.(ledger := s.ledger + [RowFor(c)], calls := s.calls + [c])
  }

  // ---------- operations ----------

  datatype Error = PrepDailyLimit | AudioIntroDailyLimit | ProRequired | BookNotFound | UserBookNotFound | InvalidCardStyle

  datatype Answer = Served(content: Content) | Refused(error: Error) | Done

  /** What lies outside: whether the book exists, whether the user is Pro, whether
      Redis can be read (an expired entry reads as absent) and written, and what
      the generator would produce. `dbNow` is the start of the transaction, which
      stamps the ledger row; `now` is the application clock, which places the window. */
  datatype Op =
    | SetCardStyle(user: UserId, style: string)
    | GetPrepCard(user: UserId, book: BookId, known: bool, readable: bool, writable: bool, pro: bool, made: Content,
                  dbNow: Stamp, now: Stamp)
    | GetAudioIntro(user: UserId, book: BookId, known: bool, pro: bool, made: Content, dbNow: Stamp, now: Stamp)
    | CreateReflection(user: UserId, owned: Option<BookId>, pro: bool, made: Content, dbNow: Stamp, now: Stamp)

  datatype Reply = Reply(state: State, answer: Answer)

  function PrepCall(s: State, op: Op): Call
    requires op.GetPrepCard?
  {
    Call(op.user, PrepCard, op.book, ResolveStyle(s, op.user), op.made, op.dbNow, op.pro)
  }

  function StepPrepCard(s: State, op: Op): Reply
    requires op.GetPrepCard?
  {
    var key := (op.book, ResolveStyle(s, op.user));
    if op.readable && key in s.prepCache then Reply(s, Served(s.prepCache[key]))
    else if CountSince(s.ledger, op.user, PrepCard, TodayStart(op.now)) >= PREP_DAILY_LIMIT then
      Reply(s, Refused(PrepDailyLimit))
    else if !op.known then Reply(s, Refused(BookNotFound))
    else
      var t := if op.writable then s.(prepCache := s.prepCache[key := op.made]) else s;
      Reply(Generated(t, PrepCall(s, op)), Served(op.made))
  }

  function StepAudioIntro(s: State, op: Op): Reply
    requires op.GetAudioIntro?
  {
    if !op.pro && CountSince(s.ledger, op.user, AudioIntro, TodayStart(op.now)) >= AUDIO_INTRO_FREE_DAILY_LIMIT then
      Reply(s, Refused(AudioIntroDailyLimit))
    else if !op.known then Reply(s, Refused(BookNotFound))
    else Reply(Generated(s, Call(op.user, AudioIntro, op.book, "", op.made, op.dbNow, op.pro)), Served(op.made))
  }

  function StepReflection(s: State, op: Op): Reply
    requires op.CreateReflection?
  {
    if op.owned.None? then Reply(s, Refused(UserBookNotFound))
    else
      var key := (op.user, op.owned.value);
      if key in s.guides then Reply(s, Served(s.guides[key]))
      else if !op.pro && CountSince(s.ledger, op.user, Reflection, MonthStart(op.now)) >= FREE_REFLECTION_MONTHLY_LIMIT then
        Reply(s, Refused(ProRequired))
      else
        var t := s.(guides := s.guides[key := op.made]);
        Reply(Generated(t, Call(op.user, Reflection, op.owned.value, "", op.made, op.dbNow, op.pro)), Served(op.made))
  }

  function Step(s: State, op: Op): Reply {
    match op
    case SetCardStyle(u, style) =>
      if !ValidStyle(style) then Reply(s, Refused(InvalidCardStyle))
      else Reply(s.(prefs := s.prefs[u := style]), Done)
    case GetPrepCard(_, _, _, _, _, _, _, _, _) => StepPrepCard(s, op)
    case GetAudioIntro(_, _, _, _, _, _, _) => StepAudioIntro(s, op)
    case CreateReflection(_, _, _, _, _, _) => StepReflection(s, op)
  }

  function Run(start: State, ops: seq<Op>): State {
    if ops == [] then start else Step(Run(start, ops[..|ops| - 1]), ops[|ops| - 1]).state
  }

  // ---------- the code ----------

  class AIAssistantService {
    var prefs: map<UserId, string>
    var prepCache: map<(BookId, string), Content>
    var guides: map<(UserId, BookId), Content>
    var ledger: seq<Usage>
    ghost var calls: seq<Call>

    ghost function Current(): State
      reads this
    {
      State(prefs, prepCache, guides, ledger, calls)
    }

    constructor ()
      ensures Current() == EMPTY
    {
      prefs, prepCache, guides, ledger, calls := map[], map[], map[], [], [];
    }

    /** `count_since`: scan the ledger. */
    method CountUsage(user: UserId, feature: Feature, since: Stamp) returns (count: nat)
      ensures count == CountSince(ledger, user, feature, since)
    {
      count := 0;
      var i := 0;
      while i < |ledger|
        invariant i <= |ledger|
        invariant count == CountSince(ledger[..i], user, feature, since)
      {
        assert ledger[..i + 1][..i] == ledger[..i];
        if ledger[i].user == user && ledger[i].feature == feature && AtLeast(ledger[i].at, since) {
          count := count + 1;
        }
        i := i + 1;
      }
      assert ledger[..|ledger|] == ledger;
    }

    method Resolve(user: UserId) returns (style: string)
      ensures style == ResolveStyle(Current(), user)
    {
      style := "motivational";
      if user in prefs && ValidStyle(prefs[user]) {
        style := prefs[user];
      }
    }

    /** A generator call followed by `usage.record`. */
    method Record(c: Call)
      modifies this`ledger, this`calls
      ensures Current() == Generated(old(Current()), c)
    {
      calls := calls + [c];
      ledger := ledger + [Usage(c.user, c.feature, c.book, c.content.tokens, c.at)];
    }

    method SetStyle(user: UserId, style: string) returns (answer: Answer)
      modifies this`prefs
      ensures Reply(Current(), answer) == Step(old(Current()), SetCardStyle(user, style))
    {
      if !ValidStyle(style) {
        return Refused(InvalidCardStyle);
      }
      prefs := prefs[user := style];
      return Done;
    }

    method PrepCardFor(user: UserId, book: BookId, known: bool, readable: bool, writable: bool, pro: bool,
                       made: Content, dbNow: Stamp, now: Stamp) returns (answer: Answer)
      modifies this`prepCache, this`ledger, this`calls
      ensures Reply(Current(), answer) ==
              Step(old(Current()), GetPrepCard(user, book, known, readable, writable, pro, made, dbNow, now))
    {
      var style := Resolve(user);
      if readable && (book, style) in prepCache {
        return Served(prepCache[(book, style)]);
      }
      var usedToday := CountUsage(user, PrepCard, TodayStart(now));
      if usedToday >= PREP_DAILY_LIMIT {
        return Refused(PrepDailyLimit);
      }
      if !known {
        return Refused(BookNotFound);
      }
      if writable {
        prepCache := prepCache[(book, style) := made];
      }
      Record(Call(user, PrepCard, book, style, made, dbNow, pro));
      return Served(made);
    }

    method AudioIntroFor(user: UserId, book: BookId, known: bool, pro: bool, made: Content, dbNow: Stamp, now: Stamp)
      returns (answer: Answer)
      modifies this`ledger, this`calls
      ensures Reply(Current(), answer) == Step(old(Current()), GetAudioIntro(user, book, known, pro, made, dbNow, now))
    {
      if !pro {
        var usedToday := CountUsage(user, AudioIntro, TodayStart(now));
        if usedToday >= AUDIO_INTRO_FREE_DAILY_LIMIT {
          return Refused(AudioIntroDailyLimit);
        }
      }
      if !known {
        return Refused(BookNotFound);
      }
      Record(Call(user, AudioIntro, book, "", made, dbNow, pro));
      return Served(made);
    }

    method ReflectionFor(user: UserId, owned: Option<BookId>, pro: bool, made: Content, dbNow: Stamp, now: Stamp)
      returns (answer: Answer)
      modifies this`guides, this`ledger, this`calls
      ensures Reply(Current(), answer) == Step(old(Current()), CreateReflection(user, owned, pro, made, dbNow, now))
    {
      if owned.None? {
        return Refused(UserBookNotFound);
      }
      var key := (user, owned.value);
      if key in guides {
        return Served(guides[key]);
      }
      if !pro {
        var used := CountUsage(user, Reflection, MonthStart(now));
        if used >= FREE_REFLECTION_MONTHLY_LIMIT {
          return Refused(ProRequired);
        }
      }
      guides := guides[key := made];
      Record(Call(user, Reflection, owned.value, "", made, dbNow, pro));
      return Served(made);
    }
  }

  // ---------- ledger rows are generator calls ----------

  function LedgerOf(calls: seq<Call>): seq<Usage> {
    seq(|calls|, i requires 0 <= i < |calls| => RowFor(calls[i]))
  }

  lemma LedgerOfAppend(calls: seq<Call>, c: Call)
    ensures LedgerOf(calls + [c]) == LedgerOf(calls) + [RowFor(c)]
  {
  }

  /** What a step adds to the calls: nothing, or one call stamped with the transaction time. */
  lemma StepCalls(s: State, op: Op)
    ensures var t := Step(s, op).state;
            (t.calls == s.calls && t.ledger == s.ledger) ||
            (!op.SetCardStyle? && |t.calls| == |s.calls| + 1 && t.calls[..|s.calls|] == s.calls &&
             t.calls[|s.calls|].at == op.dbNow && t.ledger == s.ledger + [RowFor(t.calls[|s.calls|])])
  {
  }

  /** Over every run the ledger is, row for row and in order, the generator calls. */
  lemma {:induction false} LedgerRecordsEveryCall(ops: seq<Op>)
    ensures Run(EMPTY, ops).ledger == LedgerOf(Run(EMPTY, ops).calls)
    ensures var s := Run(EMPTY, ops);
            |s.ledger| == |s.calls| && forall i :: 0 <= i < |s.calls| ==>
              var c := s.calls[i];
              s.ledger[i] == Usage(c.user, c.feature, c.book, c.content.tokens, c.at)
  {
    if ops != [] {
      var s, last := Run(EMPTY, ops[..|ops| - 1]), ops[|ops| - 1];
      LedgerRecordsEveryCall(ops[..|ops| - 1]);
      StepCalls(s, last);
      var calls := Step(s, last).state.calls;
      if calls != s.calls {
        LedgerOfAppend(s.calls, calls[|s.calls|]);
        assert calls == s.calls + [calls[|s.calls|]];
      }
    }
  }

  lemma {:induction false} CountLedgerOf(calls: seq<Call>, p: Usage -> bool)
    ensures Count(LedgerOf(calls), p) == Count(calls, (c: Call) => p(RowFor(c)))
  {
    if calls != [] {
      var front, last := calls[..|calls| - 1], calls[|calls| - 1];
      assert calls == front + [last];
      CountLedgerOf(front, p);
      LedgerOfAppend(front, last);
      CountAppend(LedgerOf(front), RowFor(last), p);
    }
  }

  /** The calls that a cap limits are among the rows its count sees. */
  lemma CallsWithinCount(s: State, p: Call -> bool, user: UserId, feature: Feature, since: Stamp)
    requires s.ledger == LedgerOf(s.calls)
    requires forall c :: p(c) ==> c.user == user && c.feature == feature && AtLeast(c.at, since)
    ensures Count(s.calls, p) <= CountSince(s.ledger, user, feature, since)
  {
    var counted := (r: Usage) => r.user == user && r.feature == feature && AtLeast(r.at, since);
    CountLedgerOf(s.calls, counted);
    CountMonotone(s.calls, p, (c: Call) => counted(RowFor(c)));
  }

  // ---------- caps over whole runs ----------

  /** Prep cards generated for a user on the day of `day`. */
  function PrepOn(user: UserId, day: Stamp): Call -> bool {
    (c: Call) => c.user == user && c.feature == PrepCard && SameDay(c.at, day)
  }

  function FreeAudioOn(user: UserId, day: Stamp): Call -> bool {
    (c: Call) => c.user == user && c.feature == AudioIntro && !c.pro && SameDay(c.at, day)
  }

  function FreeReflectionIn(user: UserId, month: int): Call -> bool {
    (c: Call) => c.user == user && c.feature == Reflection && !c.pro && c.at.month == month
  }

  ghost predicate CapsOk(s: State) {
    && s.ledger == LedgerOf(s.calls)
    && (forall u, day :: Count(s.calls, PrepOn(u, day)) <= PREP_DAILY_LIMIT)
    && (forall u, day :: Count(s.calls, FreeAudioOn(u, day)) <= AUDIO_INTRO_FREE_DAILY_LIMIT)
    && (forall u, m :: Count(s.calls, FreeReflectionIn(u, m)) <= FREE_REFLECTION_MONTHLY_LIMIT)
  }

  /** The cap that counts this call, if any, has room for it. */
  predicate HasRoom(s: State, c: Call) {
    match c.feature
    case PrepCard => Count(s.calls, PrepOn(c.user, c.at)) < PREP_DAILY_LIMIT
    case AudioIntro => c.pro || Count(s.calls, FreeAudioOn(c.user, c.at)) < AUDIO_INTRO_FREE_DAILY_LIMIT
    case Reflection => c.pro || Count(s.calls, FreeReflectionIn(c.user, c.at.month)) < FREE_REFLECTION_MONTHLY_LIMIT
  }

  lemma SameDayCounts(calls: seq<Call>, user: UserId, a: Stamp, b: Stamp)
    requires SameDay(a, b)
    ensures Count(calls, PrepOn(user, a)) == Count(calls, PrepOn(user, b))
    ensures Count(calls, FreeAudioOn(user, a)) == Count(calls, FreeAudioOn(user, b))
  {
    CountMonotone(calls, PrepOn(user, a), PrepOn(user, b));
    CountMonotone(calls, PrepOn(user, b), PrepOn(user, a));
    CountMonotone(calls, FreeAudioOn(user, a), FreeAudioOn(user, b));
    CountMonotone(calls, FreeAudioOn(user, b), FreeAudioOn(user, a));
  }

  lemma RoomKeepsDailyCaps(s: State, c: Call, u: UserId, day: Stamp)
    requires CapsOk(s) && HasRoom(s, c)
    ensures Count(s.calls + [c], PrepOn(u, day)) <= PREP_DAILY_LIMIT
    ensures Count(s.calls + [c], FreeAudioOn(u, day)) <= AUDIO_INTRO_FREE_DAILY_LIMIT
  {
    CountAppend(s.calls, c, PrepOn(u, day));
    CountAppend(s.calls, c, FreeAudioOn(u, day));
    if SameDay(c.at, day) {
      SameDayCounts(s.calls, u, c.at, day);
    }
  }

  /** A generation keeps the caps exactly when its own cap has room. */
  lemma GenerationKeepsCapsIff(s: State, t: State, c: Call)
    requires CapsOk(s) && t.calls == s.calls + [c] && t.ledger == s.ledger + [RowFor(c)]
    ensures CapsOk(t) <==> HasRoom(s, c)
  {
    LedgerOfAppend(s.calls, c);
    if HasRoom(s, c) {
      forall u, day
        ensures Count(t.calls, PrepOn(u, day)) <= PREP_DAILY_LIMIT
        ensures Count(t.calls, FreeAudioOn(u, day)) <= AUDIO_INTRO_FREE_DAILY_LIMIT
      {
        RoomKeepsDailyCaps(s, c, u, day);
      }
      forall u, m
        ensures Count(t.calls, FreeReflectionIn(u, m)) <= FREE_REFLECTION_MONTHLY_LIMIT
      {
        CountAppend(s.calls, c, FreeReflectionIn(u, m));
      }
    } else {
      CountAppend(s.calls, c, PrepOn(c.user, c.at));
      CountAppend(s.calls, c, FreeAudioOn(c.user, c.at));
      CountAppend(s.calls, c, FreeReflectionIn(c.user, c.at.month));
    }
  }

  /** The row that the request would write falls into the window that it counts.
      It does not when the transaction began before midnight (or before the month
      turned, for guides) and the window was placed after. */
  predicate InWindow(op: Op) {
    match op
    case SetCardStyle(_, _) => true
    case GetPrepCard(_, _, _, _, _, _, _, dbNow, now) => AtLeast(dbNow, TodayStart(now))
    case GetAudioIntro(_, _, _, _, _, dbNow, now) => AtLeast(dbNow, TodayStart(now))
    case CreateReflection(_, _, _, _, dbNow, now) => AtLeast(dbNow, MonthStart(now))
  }

  ghost predicate AllInWindow(ops: seq<Op>) {
    forall i :: 0 <= i < |ops| ==> InWindow(ops[i])
  }

  lemma WindowedCallHasRoom(s: State, op: Op)
    requires CapsOk(s) && InWindow(op) && |Step(s, op).state.calls| > |s.calls|
    ensures HasRoom(s, Step(s, op).state.calls[|s.calls|])
  {
    match op
    case GetPrepCard(u, _, _, _, _, _, _, dbNow, now) =>
      CallsWithinCount(s, PrepOn(u, dbNow), u, PrepCard, TodayStart(now));
    case GetAudioIntro(u, _, _, _, _, dbNow, now) =>
      CallsWithinCount(s, FreeAudioOn(u, dbNow), u, AudioIntro, TodayStart(now));
    case CreateReflection(u, _, _, _, dbNow, now) =>
      CallsWithinCount(s, FreeReflectionIn(u, dbNow.month), u, Reflection, MonthStart(now));
  }

  lemma StepKeepsCaps(s: State, op: Op)
    requires CapsOk(s) && InWindow(op)
    ensures CapsOk(Step(s, op).state)
  {
    StepCalls(s, op);
    var t := Step(s, op).state;
    if t.calls != s.calls {
      assert t.calls == s.calls + [t.calls[|s.calls|]];
      WindowedCallHasRoom(s, op);
      GenerationKeepsCapsIff(s, t, t.calls[|s.calls|]);
    }
  }

  /** Over every run of requests whose rows fall into the windows they count: at most
      five prep cards per user and UTC day, at most one audio intro per user and
      day and one reflection guide per user and month generated while the user is
      free. Nothing else is asked of either clock. */
  lemma {:induction false} CapsHold(ops: seq<Op>)
    requires AllInWindow(ops)
    ensures CapsOk(Run(EMPTY, ops))
  {
    if ops != [] {
      CapsHold(ops[..|ops| - 1]);
      StepKeepsCaps(Run(EMPTY, ops[..|ops| - 1]), ops[|ops| - 1]);
    } else {
      assert LedgerOf([]) == [];
    }
  }

  // ---------- which request can exceed a cap ----------

  /** The request is answered by a capped generation whenever nothing is stored and the cap allows it. */
  predicate Capped(op: Op) {
    match op
    case SetCardStyle(_, _) => false
    case GetPrepCard(_, _, known, _, _, _, _, _, _) => known
    case GetAudioIntro(_, _, known, pro, _, _, _) => known && !pro
    case CreateReflection(_, owned, pro, _, _, _) => owned.Some? && !pro
  }

  function CapOf(op: Op): nat
    requires Capped(op)
  {
    if op.GetPrepCard? then PREP_DAILY_LIMIT
    else if op.GetAudioIntro? then AUDIO_INTRO_FREE_DAILY_LIMIT
    else FREE_REFLECTION_MONTHLY_LIMIT
  }

  /** An earlier request of the same user that uses up the same cap and leaves no cached answer to `op`. */
  function Filler(op: Op): Op
    requires Capped(op)
  {
    match op
    case GetPrepCard(u, b, _, _, _, pro, made, dbNow, _) => GetPrepCard(u, b, true, false, false, pro, made, dbNow, dbNow)
    case GetAudioIntro(u, b, _, _, made, dbNow, _) => GetAudioIntro(u, b, true, false, made, dbNow, dbNow)
    case CreateReflection(u, owned, _, made, dbNow, _) => CreateReflection(u, Some(owned.value + 1), false, made, dbNow, dbNow)
  }

  function FillerCall(op: Op): Call
    requires Capped(op)
  {
    match op
    case GetPrepCard(u, b, _, _, _, pro, made, dbNow, _) => Call(u, PrepCard, b, "motivational", made, dbNow, pro)
    case GetAudioIntro(u, b, _, _, made, dbNow, _) => Call(u, AudioIntro, b, "", made, dbNow, false)
    case CreateReflection(u, owned, _, made, dbNow, _) => Call(u, Reflection, owned.value + 1, "", made, dbNow, false)
  }

  function Repeated<T>(x: T, n: nat): seq<T> {
    seq(n, _ => x)
  }

  lemma {:induction false} CountRepeated<T>(x: T, n: nat, p: T -> bool)
    ensures Count(Repeated(x, n), p) == if p(x) then n else 0
  {
    if n > 0 {
      CountRepeated(x, n - 1, p);
      assert Repeated(x, n) == Repeated(x, n - 1) + [x];
      CountAppend(Repeated(x, n - 1), x, p);
    }
  }

  lemma FillerGenerates(s: State, op: Op, n: nat)
    requires Capped(op) && n < CapOf(op) && s.prefs == map[]
    requires s.calls == Repeated(FillerCall(op), n) && s.ledger == LedgerOf(s.calls)
    requires op.CreateReflection? && n == 0 ==> s.guides == map[]
    ensures var t := Step(s, Filler(op)).state;
            t.prefs == map[] && t.prepCache == s.prepCache && t.calls == s.calls + [FillerCall(op)] &&
            t.ledger == s.ledger + [RowFor(FillerCall(op))] &&
            (if op.CreateReflection? then t.guides.Keys == s.guides.Keys + {(op.user, op.owned.value + 1)} else t.guides == s.guides)
  {
    var start := if op.CreateReflection? then MonthStart(op.dbNow) else TodayStart(op.dbNow);
    var f := FillerCall(op);
    var counted := (r: Usage) => r.user == f.user && r.feature == f.feature && AtLeast(r.at, start);
    CountLedgerOf(s.calls, counted);
    CountRepeated(f, n, (c: Call) => counted(RowFor(c)));
    assert CountSince(s.ledger, f.user, f.feature, start) == Count(s.ledger, counted);
  }

  /** The cap filled up at the transaction time of `op`. */
  lemma {:induction false} FilledUp(op: Op, n: nat)
    requires Capped(op) && n <= CapOf(op)
    ensures var s := Run(EMPTY, Repeated(Filler(op), n));
            s.prefs == map[] && s.prepCache == map[] && s.calls == Repeated(FillerCall(op), n) &&
            s.ledger == LedgerOf(s.calls) &&
            (s.guides.Keys <= if op.CreateReflection? then {(op.user, op.owned.value + 1)} else {}) &&
            (n == 0 ==> s.guides == map[])
  {
    if n > 0 {
      FilledUp(op, n - 1);
      var ops := Repeated(Filler(op), n);
      assert ops[..n - 1] == Repeated(Filler(op), n - 1) && ops[n - 1] == Filler(op);
      var s := Run(EMPTY, Repeated(Filler(op), n - 1));
      FillerGenerates(s, op, n - 1);
      assert Repeated(FillerCall(op), n) == s.calls + [FillerCall(op)];
      LedgerOfAppend(s.calls, FillerCall(op));
    }
  }

  /** Outside its window the request does not see the rows of its own day. */
  lemma StraddlingCallIsGenerated(s: State, op: Op, n: nat)
    requires Capped(op) && !InWindow(op) && s.prefs == map[] && s.prepCache == map[]
    requires s.calls == Repeated(FillerCall(op), n) && s.ledger == LedgerOf(s.calls)
    requires s.guides.Keys <= if op.CreateReflection? then {(op.user, op.owned.value + 1)} else {}
    ensures var t := Step(s, op).state;
            |t.calls| == n + 1 && t.calls[..n] == s.calls && t.calls[n].user == op.user &&
            t.calls[n].feature == FillerCall(op).feature && t.calls[n].at == op.dbNow &&
            (!op.GetPrepCard? ==> !t.calls[n].pro) && t.ledger == s.ledger + [RowFor(t.calls[n])]
  {
    var start := if op.CreateReflection? then MonthStart(op.now) else TodayStart(op.now);
    var f := FillerCall(op);
    var counted := (r: Usage) => r.user == f.user && r.feature == f.feature && AtLeast(r.at, start);
    CountLedgerOf(s.calls, counted);
    CountRepeated(f, n, (c: Call) => counted(RowFor(c)));
    assert CountSince(s.ledger, f.user, f.feature, start) == Count(s.ledger, counted);
  }

  /** A capped request whose row falls outside its window does exceed the cap, after
      earlier requests that all kept to theirs. */
  lemma StraddlingRequestExceedsTheCap(op: Op)
    requires Capped(op) && !InWindow(op)
    ensures var ops := Repeated(Filler(op), CapOf(op));
            AllInWindow(ops) && CapsOk(Run(EMPTY, ops)) && !CapsOk(Step(Run(EMPTY, ops), op).state)
  {
    var n := CapOf(op);
    var ops := Repeated(Filler(op), n);
    CapsHold(ops);
    FilledUp(op, n);
    var s := Run(EMPTY, ops);
    StraddlingCallIsGenerated(s, op, n);
    var t := Step(s, op).state;
    assert t.calls == s.calls + [t.calls[n]];
    CountRepeated(FillerCall(op), n, PrepOn(op.user, op.dbNow));
    CountRepeated(FillerCall(op), n, FreeAudioOn(op.user, op.dbNow));
    CountRepeated(FillerCall(op), n, FreeReflectionIn(op.user, op.dbNow.month));
    GenerationKeepsCapsIff(s, t, t.calls[n]);
  }

  lemma UncappedStepKeepsCaps(s: State, op: Op)
    requires CapsOk(s) && !Capped(op)
    ensures CapsOk(Step(s, op).state)
  {
    StepCalls(s, op);
    var t := Step(s, op).state;
    if t.calls != s.calls {
      assert t.calls == s.calls + [t.calls[|s.calls|]];
      GenerationKeepsCapsIff(s, t, t.calls[|s.calls|]);
    }
  }

  /** Exactly which request can exceed a cap, after some run in which every row fell
      into its window: a capped one whose own row does not. */
  lemma ExceedsACapIff(op: Op)
    ensures (exists ops :: AllInWindow(ops) && !CapsOk(Step(Run(EMPTY, ops), op).state)) <==>
            Capped(op) && !InWindow(op)
  {
    if ops :| AllInWindow(ops) && !CapsOk(Step(Run(EMPTY, ops), op).state) {
      CapsHold(ops);
      if InWindow(op) {
        StepKeepsCaps(Run(EMPTY, ops), op);
      } else if !Capped(op) {
        UncappedStepKeepsCaps(Run(EMPTY, ops), op);
      }
    }
    if Capped(op) && !InWindow(op) {
      StraddlingRequestExceedsTheCap(op);
    }
  }

  // ---------- exactly when a request is refused ----------

  /** Generations of one feature for a user on the day of `day`, free or Pro. */
  function MadeOn(user: UserId, feature: Feature, day: Stamp): Call -> bool {
    (c: Call) => c.user == user && c.feature == feature && SameDay(c.at, day)
  }

  function MadeIn(user: UserId, feature: Feature, month: int): Call -> bool {
    (c: Call) => c.user == user && c.feature == feature && c.at.month == month
  }

  /** The application clock is not behind the row of any earlier generation. */
  ghost predicate ClockCaughtUp(ops: seq<Op>, now: Stamp) {
    forall c :: c in Run(EMPTY, ops).calls ==> AtLeast(now, c.at)
  }

  lemma {:induction false} CountPositive<T>(s: seq<T>, p: T -> bool)
    ensures Count(s, p) > 0 <==> exists x :: x in s && p(x)
  {
    if s != [] {
      assert s == s[..|s| - 1] + [s[|s| - 1]];
      CountPositive(s[..|s| - 1], p);
    }
  }

  /** What the day's window counts is what was made that day. */
  lemma WindowCountsTheDay(ops: seq<Op>, user: UserId, feature: Feature, now: Stamp)
    requires ClockCaughtUp(ops, now)
    ensures CountSince(Run(EMPTY, ops).ledger, user, feature, TodayStart(now)) ==
            Count(Run(EMPTY, ops).calls, MadeOn(user, feature, now))
  {
    LedgerRecordsEveryCall(ops);
    var s, since := Run(EMPTY, ops), TodayStart(now);
    var counted := (r: Usage) => r.user == user && r.feature == feature && AtLeast(r.at, since);
    CallsWithinCount(s, MadeOn(user, feature, now), user, feature, since);
    CountLedgerOf(s.calls, counted);
    CountMonotone(s.calls, (c: Call) => counted(RowFor(c)), MadeOn(user, feature, now));
  }

  lemma WindowCountsTheMonth(ops: seq<Op>, user: UserId, feature: Feature, now: Stamp)
    requires ClockCaughtUp(ops, now)
    ensures CountSince(Run(EMPTY, ops).ledger, user, feature, MonthStart(now)) ==
            Count(Run(EMPTY, ops).calls, MadeIn(user, feature, now.month))
  {
    LedgerRecordsEveryCall(ops);
    var s, since := Run(EMPTY, ops), MonthStart(now);
    var counted := (r: Usage) => r.user == user && r.feature == feature && AtLeast(r.at, since);
    CallsWithinCount(s, MadeIn(user, feature, now.month), user, feature, since);
    CountLedgerOf(s.calls, counted);
    CountMonotone(s.calls, (c: Call) => counted(RowFor(c)), MadeIn(user, feature, now.month));
  }

  /** The style last accepted for a user, motivational before any. */
  function StyleOf(ops: seq<Op>, user: UserId): string {
    if ops == [] then "motivational"
    else
      var front, last := ops[..|ops| - 1], ops[|ops| - 1];
      if last.SetCardStyle? && last.user == user && Step(Run(EMPTY, front), last).answer == Done then last.style
      else StyleOf(front, user)
  }

  lemma {:induction false} StylesFollowRequests(ops: seq<Op>, user: UserId)
    ensures ResolveStyle(Run(EMPTY, ops), user) == StyleOf(ops, user)
  {
    if ops != [] {
      StylesFollowRequests(ops[..|ops| - 1], user);
    }
  }

  /** A style is accepted exactly when it is one of the three. */
  lemma StyleAcceptedIff(s: State, user: UserId, style: string)
    ensures Step(s, SetCardStyle(user, style)).answer ==
            if style in {"motivational", "analytical", "reflective"} then Done else Refused(InvalidCardStyle)
  {
  }

  /** The last request called the generator. */
  predicate Generates(ops: seq<Op>)
    requires ops != []
  {
    |Run(EMPTY, ops).calls| > |Run(EMPTY, ops[..|ops| - 1]).calls|
  }

  /** What a generation records of its request: whose it is, for which book, in the user's
      style for a prep card, what was made, and when the transaction began. */
  lemma GenerationRecordsTheRequest(ops: seq<Op>)
    requires ops != [] && Generates(ops)
    ensures var front, op, calls := ops[..|ops| - 1], ops[|ops| - 1], Run(EMPTY, ops).calls;
            calls == Run(EMPTY, front).calls + [
              match op
              case GetPrepCard(u, b, _, _, _, pro, made, dbNow, _) => Call(u, PrepCard, b, StyleOf(front, u), made, dbNow, pro)
              case GetAudioIntro(u, b, _, pro, made, dbNow, _) => Call(u, AudioIntro, b, "", made, dbNow, pro)
              case CreateReflection(u, owned, pro, made, dbNow, _) =>
                Call(u, Reflection, if owned.Some? then owned.value else 0, "", made, dbNow, pro)
              case SetCardStyle(u, _) => calls[|calls| - 1]]
  {
    var op := ops[|ops| - 1];
    if op.GetPrepCard? {
      StylesFollowRequests(ops[..|ops| - 1], op.user);
    }
  }

  /** The card last generated for the book in the style and written to the cache. */
  function CardOf(ops: seq<Op>, book: BookId, style: string): Option<Content> {
    if ops == [] then None
    else
      var front, last := ops[..|ops| - 1], ops[|ops| - 1];
      if Generates(ops) && last.GetPrepCard? && last.writable && last.book == book && StyleOf(front, last.user) == style
      then Some(last.made)
      else CardOf(front, book, style)
  }

  lemma {:induction false} CardsFollowRequests(ops: seq<Op>, book: BookId, style: string)
    ensures var cache := Run(EMPTY, ops).prepCache;
            CardOf(ops, book, style) == if (book, style) in cache then Some(cache[(book, style)]) else None
  {
    if ops != [] {
      var front, last := ops[..|ops| - 1], ops[|ops| - 1];
      CardsFollowRequests(front, book, style);
      if last.GetPrepCard? {
        StylesFollowRequests(front, last.user);
      }
    }
  }

  /** The guide generated for the user and book. */
  function GuideOf(ops: seq<Op>, user: UserId, book: BookId): Option<Content> {
    if ops == [] then None
    else
      var front, last := ops[..|ops| - 1], ops[|ops| - 1];
      if Generates(ops) && last.CreateReflection? && last.user == user && last.owned == Some(book) then Some(last.made)
      else GuideOf(front, user, book)
  }

  lemma {:induction false} GuidesFollowRequests(ops: seq<Op>, user: UserId, book: BookId)
    ensures var guides := Run(EMPTY, ops).guides;
            GuideOf(ops, user, book) == if (user, book) in guides then Some(guides[(user, book)]) else None
  {
    if ops != [] {
      GuidesFollowRequests(ops[..|ops| - 1], user, book);
    }
  }

  /** With an application clock that is not behind any row, an uncached prep card is
      refused exactly when five were generated for the user today. */
  lemma PrepRefusedIffFiveToday(ops: seq<Op>, op: Op)
    requires op.GetPrepCard? && ClockCaughtUp(ops, op.now)
    requires var s := Run(EMPTY, ops); !(op.readable && (op.book, ResolveStyle(s, op.user)) in s.prepCache)
    ensures var s := Run(EMPTY, ops);
            Step(s, op).answer == Refused(PrepDailyLimit) <==> Count(s.calls, MadeOn(op.user, PrepCard, op.now)) >= 5
  {
    WindowCountsTheDay(ops, op.user, PrepCard, op.now);
  }

  /** The whole answer to a prep-card request: the card last written for the book in the
      user's style when the cache can be read; else a refusal when five were made today;
      else a refusal for an unknown book; else the fresh card. */
  lemma PrepAnswered(ops: seq<Op>, op: Op)
    requires op.GetPrepCard? && ClockCaughtUp(ops, op.now)
    ensures var card := CardOf(ops, op.book, StyleOf(ops, op.user));
            Step(Run(EMPTY, ops), op).answer ==
            if op.readable && card.Some? then Served(card.value)
            else if Count(Run(EMPTY, ops).calls, MadeOn(op.user, PrepCard, op.now)) >= 5 then Refused(PrepDailyLimit)
            else if !op.known then Refused(BookNotFound)
            else Served(op.made)
  {
    StylesFollowRequests(ops, op.user);
    CardsFollowRequests(ops, op.book, StyleOf(ops, op.user));
    WindowCountsTheDay(ops, op.user, PrepCard, op.now);
  }

  /** Audio intros: a Pro user is never refused for the cap, whatever the clocks; a free user
      exactly when an intro was made today, while free or Pro. */
  lemma AudioAnswered(ops: seq<Op>, op: Op)
    requires op.GetAudioIntro?
    ensures op.pro ==>
              Step(Run(EMPTY, ops), op).answer == if op.known then Served(op.made) else Refused(BookNotFound)
    ensures !op.pro && ClockCaughtUp(ops, op.now) ==>
              Step(Run(EMPTY, ops), op).answer ==
              if exists c :: c in Run(EMPTY, ops).calls && MadeOn(op.user, AudioIntro, op.now)(c) then Refused(AudioIntroDailyLimit)
              else if op.known then Served(op.made) else Refused(BookNotFound)
  {
    if !op.pro && ClockCaughtUp(ops, op.now) {
      WindowCountsTheDay(ops, op.user, AudioIntro, op.now);
      CountPositive(Run(EMPTY, ops).calls, MadeOn(op.user, AudioIntro, op.now));
    }
  }

  /** Guides: a book that is not in the library is refused; a stored guide is served; a
      Pro user is never refused for the cap; a free user exactly when a guide was made
      this month, while free or Pro. */
  lemma ReflectionAnswered(ops: seq<Op>, op: Op)
    requires op.CreateReflection?
    ensures op.owned.None? ==> Step(Run(EMPTY, ops), op).answer == Refused(UserBookNotFound)
    ensures op.owned.Some? && GuideOf(ops, op.user, op.owned.value).Some? ==>
              Step(Run(EMPTY, ops), op).answer == Served(GuideOf(ops, op.user, op.owned.value).value)
    ensures op.owned.Some? && GuideOf(ops, op.user, op.owned.value).None? && op.pro ==>
              Step(Run(EMPTY, ops), op).answer == Served(op.made)
    ensures op.owned.Some? && GuideOf(ops, op.user, op.owned.value).None? && !op.pro && ClockCaughtUp(ops, op.now) ==>
              Step(Run(EMPTY, ops), op).answer ==
              if exists c :: c in Run(EMPTY, ops).calls && MadeIn(op.user, Reflection, op.now.month)(c) then Refused(ProRequired)
              else Served(op.made)
  {
    if op.owned.Some? {
      GuidesFollowRequests(ops, op.user, op.owned.value);
      if !op.pro && ClockCaughtUp(ops, op.now) {
        WindowCountsTheMonth(ops, op.user, Reflection, op.now);
        CountPositive(Run(EMPTY, ops).calls, MadeIn(op.user, Reflection, op.now.month));
      }
    }
  }

  // ---------- guides: once per user and book ----------

  function GuideCall(user: UserId, book: BookId): Call -> bool {
    (c: Call) => c.user == user && c.feature == Reflection && c.book == book
  }

  ghost predicate GuidesOk(s: State) {
    forall u: UserId, b: BookId :: Count(s.calls, GuideCall(u, b)) == if (u, b) in s.guides then 1 else 0
  }

  lemma CallKeepsGuides(s: State, t: State, c: Call)
    requires GuidesOk(s) && t.calls == s.calls + [c]
    requires c.feature == Reflection ==> (c.user, c.book) !in s.guides
    requires t.guides == if c.feature == Reflection then s.guides[(c.user, c.book) := c.content] else s.guides
    ensures GuidesOk(t)
  {
    forall u: UserId, b: BookId | true
      ensures Count(t.calls, GuideCall(u, b)) == if (u, b) in t.guides then 1 else 0
    {
      CountAppend(s.calls, c, GuideCall(u, b));
      assert Count(s.calls, GuideCall(u, b)) == if (u, b) in s.guides then 1 else 0;
    }
  }

  lemma StepKeepsGuides(s: State, op: Op)
    requires GuidesOk(s)
    ensures GuidesOk(Step(s, op).state)
  {
    var t := Step(s, op).state;
    if t.calls != s.calls {
      CallKeepsGuides(s, t, t.calls[|s.calls|]);
    }
  }

  /** Over every run the generator is called once for each stored guide and never
      for a (user, book) without one. */
  lemma {:induction false} OneGenerationPerGuide(ops: seq<Op>)
    ensures GuidesOk(Run(EMPTY, ops))
  {
    if ops != [] {
      OneGenerationPerGuide(ops[..|ops| - 1]);
      StepKeepsGuides(Run(EMPTY, ops[..|ops| - 1]), ops[|ops| - 1]);
    }
  }

  lemma StepKeepsStoredGuide(s: State, op: Op, user: UserId, book: BookId)
    requires (user, book) in s.guides
    ensures (user, book) in Step(s, op).state.guides && Step(s, op).state.guides[(user, book)] == s.guides[(user, book)]
  {
  }

  lemma {:induction false} RunKeepsStoredGuide(start: State, more: seq<Op>, user: UserId, book: BookId)
    requires (user, book) in start.guides
    ensures (user, book) in Run(start, more).guides
    ensures Run(start, more).guides[(user, book)] == start.guides[(user, book)]
  {
    if more != [] {
      RunKeepsStoredGuide(start, more[..|more| - 1], user, book);
      StepKeepsStoredGuide(Run(start, more[..|more| - 1]), more[|more| - 1], user, book);
    }
  }

  /** A guide never changes: every later request for it, in any later state, Pro or
      not, is served the first content and leaves the state as it was. */
  lemma RepeatsReturnTheFirstGuide(start: State, more: seq<Op>, user: UserId, book: BookId,
                                   pro: bool, made: Content, dbNow: Stamp, now: Stamp)
    requires (user, book) in start.guides
    ensures Step(Run(start, more), CreateReflection(user, Some(book), pro, made, dbNow, now)) ==
            Reply(Run(start, more), Served(start.guides[(user, book)]))
  {
    RunKeepsStoredGuide(start, more, user, book);
  }

  // ---------- cached prep cards ----------

  /** Every cached card was generated for that very book and style. */
  ghost predicate CacheOk(s: State) {
    forall k :: k in s.prepCache ==>
      exists c :: c in s.calls && c.feature == PrepCard && c.book == k.0 && c.style == k.1 && c.content == s.prepCache[k]
  }

  lemma StepKeepsCache(s: State, op: Op)
    requires CacheOk(s)
    ensures CacheOk(Step(s, op).state)
  {
    var t := Step(s, op).state;
    forall k | k in t.prepCache
      ensures exists c :: c in t.calls && c.feature == PrepCard && c.book == k.0 && c.style == k.1 && c.content == t.prepCache[k]
    {
      if k in s.prepCache && t.prepCache[k] == s.prepCache[k] {
        var c :| c in s.calls && c.feature == PrepCard && c.book == k.0 && c.style == k.1 && c.content == s.prepCache[k];
        assert c in t.calls;
      } else {
        assert PrepCall(s, op) in t.calls;
      }
    }
  }

  lemma {:induction false} CacheHolds(ops: seq<Op>)
    ensures CacheOk(Run(EMPTY, ops))
  {
    if ops != [] {
      CacheHolds(ops[..|ops| - 1]);
      StepKeepsCache(Run(EMPTY, ops[..|ops| - 1]), ops[|ops| - 1]);
    }
  }

  /** A served prep card, cached or fresh, was generated for the requested book in
      the reader's own style: readers of different styles never share a card. */
  lemma ServedCardMatchesReader(ops: seq<Op>, op: Op)
    requires op.GetPrepCard?
    ensures var s := Run(EMPTY, ops);
            var r := Step(s, op);
            r.answer.Served? ==>
              exists c :: c in r.state.calls && c.feature == PrepCard && c.book == op.book &&
                          c.style == ResolveStyle(s, op.user) && c.content == r.answer.content
  {
    CacheHolds(ops);
    var s := Run(EMPTY, ops);
    var r := Step(s, op);
    if r.answer.Served? && r.state.calls != s.calls {
      assert PrepCall(s, op) in r.state.calls;
    }
  }

  /** An answer costs at most one generation, and costs one exactly when it hands
      out the fresh content to a miss; hits and refusals leave the ledger, the
      calls, the cache and the guides as they were. */
  lemma OnlyFreshAnswersCost(s: State, op: Op)
    requires !op.SetCardStyle?
    ensures var r := Step(s, op);
            |r.state.calls| == |s.calls| + (if r.state != s then 1 else 0) &&
            (r.answer.Refused? ==> r.state == s) &&
            (r.state != s ==> r.answer == Served(op.made))
  {
    var r := Step(s, op);
    if r.state.calls == s.calls {
      assert r.state == s;
    }
  }
}
