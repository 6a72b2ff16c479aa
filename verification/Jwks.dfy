/** The JWKS key cache: TTL plus rate-limited refetch for unknown key ids (backend/internal/auth/jwt.go). */
module Jwks {
  import opened Wrappers
  import opened Spacing

  type Kid = string
  type PublicKey = string
  type Time = int

  datatype Config = Config(ttl: int, minRefetchInterval: int)

  /** None for the zero time. */
  datatype Cache = Cache(keys: map<Kid, PublicKey>, fetchedAt: Option<Time>, lastRefetch: Option<Time>)

  /** A parsed document, or a failed fetch. */
  datatype Fetched = Doc(keys: map<Kid, PublicKey>) | Failed

  predicate WithinTtl(c: Cache, now: Time, cfg: Config) {
    c.fetchedAt.Some? && now - c.fetchedAt.value <= cfg.ttl
  }

  predicate Fresh(c: Cache, now: Time, cfg: Config) {
    c.keys != map[] && WithinTtl(c, now, cfg)
  }

  predicate RateLimited(c: Cache, now: Time, cfg: Config) {
    c.lastRefetch.Some? && now - c.lastRefetch.value < cfg.minRefetchInterval
  }

  function Stored(c: Cache, keys: map<Kid, PublicKey>, now: Time): Cache {
    c.(keys := keys, fetchedAt := Some(now))
  }

  // ----- Interleaved calls -----

  type Caller = nat

  /** Where a keyForKid call is between two of its atomic sections. */
  datatype Phase = Ensure | TtlFetching | FirstRead | Refetch | KidFetching | LastRead

  /**
   * checkedAt: for a call in TtlFetching, when it set out to replace the cache; afterwards, when it last found the
   * cache within its TTL or replaced it.
   */
  datatype Call = Call(kid: Kid, phase: Phase, checkedAt: Time)

  datatype Event =
    | TtlFetch(caller: Caller, at: Time)
    | KidFetch(caller: Caller, at: Time)
    | Replaced(keys: map<Kid, PublicKey>, at: Time)
    | Returned(kid: Kid, key: PublicKey, at: Time, checkedAt: Time)

  datatype State = State(now: Time, cache: Cache, calls: map<Caller, Call>, log: seq<Event>)

  datatype Action =
    | Tick(d: nat)
    | Begin(caller: Caller, kid: Kid)              // the fast path, under the read lock
    | CheckFresh(caller: Caller)                   // ensureFresh
    | FetchEnds(caller: Caller, result: Fetched)   // fetch returns and replaces the cache
    | Read(caller: Caller)                         // look the kid up after ensureFresh
    | CheckRefetch(caller: Caller)                 // refetchForUnknownKid, check and mark under the lock
    | ReadLast(caller: Caller)                     // the final lookup

  predicate In(s: State, c: Caller, p: Phase) {
    c in s.calls && s.calls[c].phase == p
  }

  predicate Enabled(s: State, a: Action) {
    match a
    case Tick(_) => true
    case Begin(c, _) => c !in s.calls
    case CheckFresh(c) => In(s, c, Ensure)
    case FetchEnds(c, _) => In(s, c, TtlFetching) || In(s, c, KidFetching)
    case Read(c) => In(s, c, FirstRead)
    case CheckRefetch(c) => In(s, c, Refetch)
    case ReadLast(c) => In(s, c, LastRead)
  }

  function Goto(s: State, c: Caller, p: Phase): State
    requires c in s.calls
  {
    s.(calls := s.calls[c := s.calls[c].(phase := p)])
  }

  function Leave(s: State, c: Caller): State {
    s.(calls := s.calls - {c})
  }

  function Return(s: State, c: Caller): State
    requires c in s.calls && s.calls[c].kid in s.cache.keys
  {
    var call := s.calls[c];
    Leave(s, c).(log := s.log + [Returned(call.kid, s.cache.keys[call.kid], s.now, call.checkedAt)])
  }

  function Step(s: State, a: Action, cfg: Config): State
    requires Enabled(s, a)
  {
    match a
    case Tick(d) => s.(now := s.now + d)
    case Begin(c, kid) =>
      if WithinTtl(s.cache, s.now, cfg) && kid in s.cache.keys then
        s.(log := s.log + [Returned(kid, s.cache.keys[kid], s.now, s.now)])
      else s.(calls := s.calls[c := Call(kid, Ensure, s.now)])
    case CheckFresh(c) =>
      var checked := s.(calls := s.calls[c := s.calls[c].(checkedAt := s.now)]);
      if Fresh(s.cache, s.now, cfg) then Goto(checked, c, FirstRead)
      else Goto(checked, c, TtlFetching).(log := s.log + [TtlFetch(c, s.now)])
    case FetchEnds(c, result) =>
      if result.Failed? then Leave(s, c)
      else
        var done := s.calls[c].(phase := if s.calls[c].phase.TtlFetching? then FirstRead else LastRead,
                                checkedAt := s.now);
        s.(calls := s.calls[c := done], cache := Stored(s.cache, result.keys, s.now),
           log := s.log + [Replaced(result.keys, s.now)])
    case Read(c) =>
      if s.calls[c].kid in s.cache.keys then Return(s, c) else Goto(s, c, Refetch)
    case CheckRefetch(c) =>
      if RateLimited(s.cache, s.now, cfg) then Goto(s, c, LastRead)
      else
        Goto(s, c, KidFetching)
        .(cache := s.cache.(lastRefetch := Some(s.now)), log := s.log + [KidFetch(c, s.now)])
    case ReadLast(c) =>
      if s.calls[c].kid in s.cache.keys then Return(s, c) else Leave(s, c)
  }

  function Init(now: Time): State {
    State(now, Cache(map[], None, None), map[], [])
  }

  /** The state after actions, or None if some action was not enabled at its turn. */
  function Run(now: Time, actions: seq<Action>, cfg: Config): Option<State>
    decreases |actions|
  {
    if actions == [] then Some(Init(now))
    else
      var before := Run(now, actions[..|actions| - 1], cfg);
      var a := actions[|actions| - 1];
      if before.Some? && Enabled(before.value, a) then Some(Step(before.value, a, cfg)) else None
  }

  // ----- Where returned keys come from -----

  /** The last replacement of the cache in the log. */
  function LastReplaced(log: seq<Event>): (r: Option<Event>)
    ensures r.Some? ==> r.value.Replaced?
  {
    if log == [] then None
    else if log[|log| - 1].Replaced? then Some(log[|log| - 1])
    else LastReplaced(log[..|log| - 1])
  }

  lemma LastReplacedAppend(log: seq<Event>, e: Event)
    ensures LastReplaced(log + [e]) == if e.Replaced? then Some(e) else LastReplaced(log)
  {
    assert (log + [e])[..|log|] == log;
  }

  /** The cache holds the last document fetched; calls past their check found it within its TTL then. */
  predicate CacheIsLast(s: State, cfg: Config) {
    && (s.cache.fetchedAt.None? ==> s.cache.keys == map[] && LastReplaced(s.log).None?)
    && (s.cache.fetchedAt.Some? ==> LastReplaced(s.log) == Some(Replaced(s.cache.keys, s.cache.fetchedAt.value)))
    && (s.cache.fetchedAt.Some? ==> s.cache.fetchedAt.value <= s.now)
    && (forall c :: c in s.calls ==> s.calls[c].checkedAt <= s.now)
    && (forall c :: c in s.calls && (s.calls[c].phase.FirstRead? || s.calls[c].phase.LastRead?
                                     || s.calls[c].phase.Refetch? || s.calls[c].phase.KidFetching?) ==>
                      WithinTtl(s.cache, s.calls[c].checkedAt, cfg))
  }

  /**
   * The key was in the last document fetched before, and is older than the TTL by no more than the time since the call
   * last found the cache within its TTL or replaced it.
   */
  predicate GoodReturn(log: seq<Event>, i: nat, cfg: Config)
    requires i < |log| && log[i].Returned?
  {
    var last := LastReplaced(log[..i]);
    && last.Some? && log[i].kid in last.value.keys && last.value.keys[log[i].kid] == log[i].key
    && last.value.at <= log[i].at && log[i].checkedAt <= log[i].at
    && log[i].at - last.value.at <= cfg.ttl + (log[i].at - log[i].checkedAt)
  }

  predicate GoodReturns(s: State, cfg: Config) {
    forall i :: 0 <= i < |s.log| && s.log[i].Returned? ==> GoodReturn(s.log, i, cfg)
  }

  lemma CacheStep(s: State, a: Action, cfg: Config)
    requires CacheIsLast(s, cfg) && Enabled(s, a) && cfg.ttl >= 0
    ensures CacheIsLast(Step(s, a, cfg), cfg)
  {
    hide LastReplaced;
    var t := Step(s, a, cfg);
    if |t.log| > |s.log| {
      assert t.log == s.log + [t.log[|s.log|]];
      LastReplacedAppend(s.log, t.log[|s.log|]);
    } else {
      assert t.log == s.log;
    }
  }

  lemma ReturnsStep(s: State, a: Action, cfg: Config)
    requires CacheIsLast(s, cfg) && GoodReturns(s, cfg) && Enabled(s, a) && cfg.ttl >= 0
    ensures GoodReturns(Step(s, a, cfg), cfg)
  {
    var t := Step(s, a, cfg);
    forall i | 0 <= i < |t.log| && t.log[i].Returned? ensures GoodReturn(t.log, i, cfg) {
      assert s.log <= t.log;
      assert t.log[..i] == s.log[..i];
      if i < |s.log| {
        assert GoodReturn(s.log, i, cfg);
      } else {
        assert s.log[..i] == s.log;
      }
    }
  }

  /**
   * Every key returned, in every interleaving, is from the last document fetched, and exceeds the TTL by at most the
   * time its call let pass after last finding the cache within its TTL or replacing it.
   */
  lemma {:induction false} ReturnedKeysAreFresh(now: Time, actions: seq<Action>, cfg: Config)
    requires Run(now, actions, cfg).Some? && cfg.ttl >= 0
    ensures CacheIsLast(Run(now, actions, cfg).value, cfg) && GoodReturns(Run(now, actions, cfg).value, cfg)
    decreases |actions|
  {
    if actions != [] {
      var init, a := actions[..|actions| - 1], actions[|actions| - 1];
      ReturnedKeysAreFresh(now, init, cfg);
      CacheStep(Run(now, init, cfg).value, a, cfg);
      ReturnsStep(Run(now, init, cfg).value, a, cfg);
    }
  }

  // ----- When a returned key is still within its TTL -----

  predicate WithinAtReturn(log: seq<Event>, i: nat, cfg: Config)
    requires i < |log|
  {
    log[i].Returned? ==>
      var last := LastReplaced(log[..i]);
      last.Some? && log[i].at - last.value.at <= cfg.ttl
  }

  predicate AllWithinAtReturn(log: seq<Event>, cfg: Config) {
    forall i :: 0 <= i < |log| ==> WithinAtReturn(log, i, cfg)
  }

  /** A lookup after ensureFresh or after the refetch that finds its kid does so within the TTL; nothing checks that. */
  predicate ReadsInTime(s: State, a: Action, cfg: Config)
    requires Enabled(s, a)
  {
    (a.Read? || a.ReadLast?) && s.calls[a.caller].kid in s.cache.keys ==> WithinTtl(s.cache, s.now, cfg)
  }

  predicate AlwaysInTime(now: Time, actions: seq<Action>, cfg: Config)
    requires Run(now, actions, cfg).Some?
    decreases |actions|
  {
    actions == []
    || (AlwaysInTime(now, actions[..|actions| - 1], cfg)
        && ReadsInTime(Run(now, actions[..|actions| - 1], cfg).value, actions[|actions| - 1], cfg))
  }

  lemma WithinStep(s: State, a: Action, cfg: Config)
    requires CacheIsLast(s, cfg) && Enabled(s, a)
    ensures AllWithinAtReturn(Step(s, a, cfg).log, cfg)
            <==> AllWithinAtReturn(s.log, cfg) && ReadsInTime(s, a, cfg)
  {
    var t := Step(s, a, cfg);
    hide LastReplaced;
    forall i | 0 <= i < |s.log| ensures WithinAtReturn(t.log, i, cfg) == WithinAtReturn(s.log, i, cfg) {
      assert t.log[..i] == s.log[..i] && t.log[i] == s.log[i];
    }
    if |t.log| > |s.log| {
      assert t.log[..|s.log|] == s.log;
      assert WithinAtReturn(t.log, |s.log|, cfg) <==> ReadsInTime(s, a, cfg);
      hide WithinAtReturn, ReadsInTime;
      assert AllWithinAtReturn(t.log, cfg) ==> WithinAtReturn(t.log, |s.log|, cfg);
    } else {
      assert t.log == s.log && ReadsInTime(s, a, cfg);
    }
  }

  lemma {:induction false} WithinIfInTime(now: Time, actions: seq<Action>, cfg: Config)
    requires Run(now, actions, cfg).Some? && cfg.ttl >= 0
    ensures AllWithinAtReturn(Run(now, actions, cfg).value.log, cfg) <==> AlwaysInTime(now, actions, cfg)
    decreases |actions|
  {
    if actions != [] {
      var init, a := actions[..|actions| - 1], actions[|actions| - 1];
      WithinIfInTime(now, init, cfg);
      ReturnedKeysAreFresh(now, init, cfg);
      hide CacheIsLast, AllWithinAtReturn, Step, GoodReturns, ReadsInTime;
      WithinStep(Run(now, init, cfg).value, a, cfg);
    }
  }

  /** The time that has passed since the last document arrived. */
  function SinceDoc(actions: seq<Action>): Option<nat>
    decreases |actions|
  {
    if actions == [] then None
    else
      var before := SinceDoc(actions[..|actions| - 1]);
      match actions[|actions| - 1]
      case FetchEnds(_, Doc(_)) => Some(0)
      case Tick(d) => if before.Some? then Some(before.value + d) else None
      case _ => before
  }

  function LastDoc(actions: seq<Action>): map<Kid, PublicKey>
    decreases |actions|
  {
    if actions == [] then map[]
    else
      match actions[|actions| - 1]
      case FetchEnds(_, Doc(keys)) => keys
      case _ => LastDoc(actions[..|actions| - 1])
  }

  /** What the caller's last call asked for. */
  function KidOf(actions: seq<Action>, c: Caller): Option<Kid>
    decreases |actions|
  {
    if actions == [] then None
    else
      match actions[|actions| - 1]
      case Begin(d, kid) => if d == c then Some(kid) else KidOf(actions[..|actions| - 1], c)
      case _ => KidOf(actions[..|actions| - 1], c)
  }

  /** A lookup of a kid that the last document has comes at most the TTL after that document. */
  predicate Prompt(before: seq<Action>, a: Action, cfg: Config) {
    (a.Read? || a.ReadLast?) && KidOf(before, a.caller).Some? && KidOf(before, a.caller).value in LastDoc(before) ==>
      SinceDoc(before).Some? && SinceDoc(before).value <= cfg.ttl
  }

  predicate AlwaysPrompt(actions: seq<Action>, cfg: Config)
    decreases |actions|
  {
    actions == []
    || (AlwaysPrompt(actions[..|actions| - 1], cfg)
        && Prompt(actions[..|actions| - 1], actions[|actions| - 1], cfg))
  }

  /** What the cache and the calls hold can be read off the actions. */
  predicate FollowsActions(s: State, actions: seq<Action>) {
    && s.cache.keys == LastDoc(actions)
    && (s.cache.fetchedAt.Some? <==> SinceDoc(actions).Some?)
    && (s.cache.fetchedAt.Some? ==> s.now - s.cache.fetchedAt.value == SinceDoc(actions).value)
    && (forall c :: c in s.calls ==> KidOf(actions, c) == Some(s.calls[c].kid))
  }

  lemma {:induction false} RunFollows(now: Time, actions: seq<Action>, cfg: Config)
    requires Run(now, actions, cfg).Some?
    ensures FollowsActions(Run(now, actions, cfg).value, actions)
    decreases |actions|
  {
    if actions != [] {
      RunFollows(now, actions[..|actions| - 1], cfg);
    }
  }

  lemma {:induction false} PromptIsInTime(now: Time, actions: seq<Action>, cfg: Config)
    requires Run(now, actions, cfg).Some?
    ensures AlwaysInTime(now, actions, cfg) <==> AlwaysPrompt(actions, cfg)
    decreases |actions|
  {
    if actions != [] {
      PromptIsInTime(now, actions[..|actions| - 1], cfg);
      RunFollows(now, actions[..|actions| - 1], cfg);
      hide SinceDoc, LastDoc, KidOf;
    }
  }

  /**
   * Every key of a run is within the TTL when returned exactly if, as the actions are scheduled, no lookup past the checks
   * of a kid that the last document has comes more than the TTL after that document.
   */
  lemma WithinTtlExactly(now: Time, actions: seq<Action>, cfg: Config)
    requires Run(now, actions, cfg).Some? && cfg.ttl >= 0
    ensures AllWithinAtReturn(Run(now, actions, cfg).value.log, cfg) <==> AlwaysPrompt(actions, cfg)
  {
    WithinIfInTime(now, actions, cfg);
    PromptIsInTime(now, actions, cfg);
  }

  /** It is waiting after the fetch that makes a returned key old, without bound: here by wait. */
  lemma WaitBeforeRead(now: Time, kid: Kid, key: PublicKey, wait: nat, cfg: Config)
    ensures var doc := map[kid := key];
            var run := Run(now, [Begin(0, kid), CheckFresh(0), FetchEnds(0, Doc(doc)), Tick(wait), Read(0)], cfg);
            && run.Some?
            && run.value.log == [TtlFetch(0, now), Replaced(doc, now), Returned(kid, key, now + wait, now)]
            && (wait > cfg.ttl ==> !AllWithinAtReturn(run.value.log, cfg))
  {
    var doc := map[kid := key];
    var r2, s2 := StartFetch(now, kid, cfg);
    var s3 := RunAppend(now, r2, s2, FetchEnds(0, Doc(doc)), cfg);
    var r3 := r2 + [FetchEnds(0, Doc(doc))];
    var s4 := RunAppend(now, r3, s3, Tick(wait), cfg);
    var r4 := r3 + [Tick(wait)];
    var s1 := RunAppend(now, r4, s4, Read(0), cfg);
    assert r4 + [Read(0)] == [Begin(0, kid), CheckFresh(0), FetchEnds(0, Doc(doc)), Tick(wait), Read(0)];
    assert s1.log[..2] == [TtlFetch(0, now)] + [Replaced(doc, now)];
    LastReplacedAppend([TtlFetch(0, now)], Replaced(doc, now));
    assert wait > cfg.ttl ==> !WithinAtReturn(s1.log, 2, cfg);
  }

  /** The bound on the age is reached: a check that just passes, and a wait. */
  lemma AgeBoundReached(now: Time, kid: Kid, key: PublicKey, wait: nat, cfg: Config) returns (actions: seq<Action>)
    requires cfg.ttl >= 0
    ensures var run := Run(now, actions, cfg);
            && run.Some?
            && var log := run.value.log;
               && |log| == 3 && log[2].Returned? && LastReplaced(log[..2]) == Some(Replaced(map[kid := key], now))
               && log[2].at - log[2].checkedAt == wait && log[2].at - now == cfg.ttl + wait
  {
    var doc := map[kid := key];
    assert kid in doc;
    var r4, s4 := OneWaitsOneFetches(now, kid, doc, cfg);
    var s5 := RunAppend(now, r4, s4, Tick(cfg.ttl), cfg);
    var r5 := r4 + [Tick(cfg.ttl)];
    var s6 := RunAppend(now, r5, s5, CheckFresh(1), cfg);
    var r6 := r5 + [CheckFresh(1)];
    var s7 := RunAppend(now, r6, s6, Tick(wait), cfg);
    var r7 := r6 + [Tick(wait)];
    var s8 := RunAppend(now, r7, s7, Read(1), cfg);
    actions := r7 + [Read(1)];
    hide Run, Step;
    assert s8.log[..2] == [TtlFetch(0, now)] + [Replaced(doc, now)];
    LastReplacedAppend([TtlFetch(0, now)], Replaced(doc, now));
  }

  lemma OneWaitsOneFetches(now: Time, kid: Kid, doc: map<Kid, PublicKey>, cfg: Config)
    returns (r: seq<Action>, s: State)
    ensures Run(now, r, cfg) == Some(s)
    ensures s.now == now && s.cache == Cache(doc, Some(now), None) && s.log == [TtlFetch(0, now), Replaced(doc, now)]
    ensures 1 in s.calls && s.calls[1] == Call(kid, Ensure, now)
  {
    var r0: seq<Action> := [];
    var s1 := RunAppend(now, r0, Init(now), Begin(1, kid), cfg);
    var r1 := r0 + [Begin(1, kid)];
    var s2 := RunAppend(now, r1, s1, Begin(0, kid), cfg);
    var r2 := r1 + [Begin(0, kid)];
    var s3 := RunAppend(now, r2, s2, CheckFresh(0), cfg);
    var r3 := r2 + [CheckFresh(0)];
    s := RunAppend(now, r3, s3, FetchEnds(0, Doc(doc)), cfg);
    r := r3 + [FetchEnds(0, Doc(doc))];
  }

  /** A slow fetch does not: a key read right after a fetch that took wait has age 0. */
  lemma SlowFetchIsFresh(now: Time, kid: Kid, key: PublicKey, wait: nat, cfg: Config)
    ensures var doc := map[kid := key];
            var run := Run(now, [Begin(0, kid), CheckFresh(0), Tick(wait), FetchEnds(0, Doc(doc)), Read(0)], cfg);
            && run.Some?
            && run.value.log
               == [TtlFetch(0, now), Replaced(doc, now + wait), Returned(kid, key, now + wait, now + wait)]
  {
    var doc := map[kid := key];
    var r2, s2 := StartFetch(now, kid, cfg);
    var s3 := RunAppend(now, r2, s2, Tick(wait), cfg);
    var r3 := r2 + [Tick(wait)];
    var s4 := RunAppend(now, r3, s3, FetchEnds(0, Doc(doc)), cfg);
    var r4 := r3 + [FetchEnds(0, Doc(doc))];
    var s5 := RunAppend(now, r4, s4, Read(0), cfg);
    assert r4 + [Read(0)] == [Begin(0, kid), CheckFresh(0), Tick(wait), FetchEnds(0, Doc(doc)), Read(0)];
  }

  lemma StartFetch(now: Time, kid: Kid, cfg: Config) returns (r: seq<Action>, s: State)
    ensures r == [Begin(0, kid), CheckFresh(0)] && Run(now, r, cfg) == Some(s)
    ensures s == Init(now).(calls := map[0 := Call(kid, TtlFetching, now)], log := [TtlFetch(0, now)])
  {
    var r0: seq<Action> := [];
    var s1 := RunAppend(now, r0, Init(now), Begin(0, kid), cfg);
    var r1 := r0 + [Begin(0, kid)];
    s := RunAppend(now, r1, s1, CheckFresh(0), cfg);
    r := r1 + [CheckFresh(0)];
  }

  // ----- How often the endpoint is asked -----

  function KidTimes(log: seq<Event>): seq<Time> {
    if log == [] then []
    else KidTimes(log[..|log| - 1]) + if log[|log| - 1].KidFetch? then [log[|log| - 1].at] else []
  }

  function TtlTimes(log: seq<Event>, c: Caller): seq<Time> {
    if log == [] then []
    else
      TtlTimes(log[..|log| - 1], c)
      + if log[|log| - 1].TtlFetch? && log[|log| - 1].caller == c then [log[|log| - 1].at] else []
  }

  lemma TimesAppend(log: seq<Event>, e: Event, c: Caller)
    ensures KidTimes(log + [e]) == KidTimes(log) + if e.KidFetch? then [e.at] else []
    ensures TtlTimes(log + [e], c) == TtlTimes(log, c) + if e.TtlFetch? && e.caller == c then [e.at] else []
  {
    assert (log + [e])[..|log|] == log;
  }

  predicate AllUpTo(ts: seq<Time>, t: Time) {
    forall i :: 0 <= i < |ts| ==> ts[i] <= t
  }

  predicate KidSpaced(s: State, cfg: Config) {
    var ts, last := KidTimes(s.log), s.cache.lastRefetch;
    Spaced(ts, cfg.minRefetchInterval) && (ts == [] || (last.Some? && AllUpTo(ts, last.value)))
  }

  /** A step logs at most one event: a fetch exactly when a check asks for one. */
  lemma LogEffect(s: State, a: Action, cfg: Config) returns (more: seq<Event>)
    requires Enabled(s, a)
    ensures Step(s, a, cfg).log == s.log + more && |more| <= 1
    ensures if a.CheckFresh? && !Fresh(s.cache, s.now, cfg) then more == [TtlFetch(a.caller, s.now)]
            else if a.CheckRefetch? && !RateLimited(s.cache, s.now, cfg) then more == [KidFetch(a.caller, s.now)]
            else more != [] ==> !more[0].TtlFetch? && !more[0].KidFetch?
  {
    var t := Step(s, a, cfg);
    more := if |t.log| > |s.log| then [t.log[|s.log|]] else [];
  }

  lemma TimesMore(log: seq<Event>, more: seq<Event>, c: Caller)
    requires |more| <= 1
    ensures KidTimes(log + more) == KidTimes(log) + if more != [] && more[0].KidFetch? then [more[0].at] else []
    ensures TtlTimes(log + more, c)
            == TtlTimes(log, c) + if more != [] && more[0].TtlFetch? && more[0].caller == c then [more[0].at] else []
  {
    if more == [] {
      assert log + more == log;
    } else {
      assert more == [more[0]];
      TimesAppend(log, more[0], c);
    }
  }

  lemma KidEffect(s: State, a: Action, cfg: Config)
    requires Enabled(s, a)
    ensures var t := Step(s, a, cfg);
            t.now >= s.now
            && if a.CheckRefetch? && !RateLimited(s.cache, s.now, cfg)
               then KidTimes(t.log) == KidTimes(s.log) + [s.now] && t.cache.lastRefetch == Some(s.now)
               else KidTimes(t.log) == KidTimes(s.log) && t.cache.lastRefetch == s.cache.lastRefetch
  {
    hide KidTimes, TtlTimes;
    CacheEffect(s, a, cfg);
    var more := LogEffect(s, a, cfg);
    hide Step, Enabled;
    TimesMore(s.log, more, 0);
  }

  lemma CacheEffect(s: State, a: Action, cfg: Config)
    requires Enabled(s, a)
    ensures Step(s, a, cfg).now >= s.now
    ensures Step(s, a, cfg).cache.lastRefetch
            == if a.CheckRefetch? && !RateLimited(s.cache, s.now, cfg) then Some(s.now) else s.cache.lastRefetch
  {
  }

  lemma KidStep(s: State, a: Action, cfg: Config)
    requires KidSpaced(s, cfg) && Enabled(s, a) && cfg.minRefetchInterval >= 1
    ensures KidSpaced(Step(s, a, cfg), cfg)
  {
    KidEffect(s, a, cfg);
    hide Step, KidTimes, Spaced;
    if a.CheckRefetch? && !RateLimited(s.cache, s.now, cfg) {
      SpacedAppend(KidTimes(s.log), cfg.minRefetchInterval, s.now);
    }
  }

  lemma {:induction false} KidRun(now: Time, actions: seq<Action>, cfg: Config)
    requires Run(now, actions, cfg).Some? && cfg.minRefetchInterval >= 1
    ensures KidSpaced(Run(now, actions, cfg).value, cfg)
    decreases |actions|
  {
    if actions != [] {
      KidRun(now, actions[..|actions| - 1], cfg);
      KidStep(Run(now, actions[..|actions| - 1], cfg).value, actions[|actions| - 1], cfg);
    }
  }

  /** Unknown key ids cause at most span / minRefetchInterval + 1 fetches, however many calls are under way. */
  lemma KidFetchesBounded(now: Time, actions: seq<Action>, cfg: Config, lo: Time, span: nat)
    requires Run(now, actions, cfg).Some? && cfg.minRefetchInterval >= 1
    ensures CountIn(KidTimes(Run(now, actions, cfg).value.log), lo, lo + span)
            <= span / cfg.minRefetchInterval + 1
  {
    KidRun(now, actions, cfg);
    SpacedBound(KidTimes(Run(now, actions, cfg).value.log), cfg.minRefetchInterval, lo, span);
  }

  /** The last time marked is that of the latest fetch for an unknown key id. */
  predicate LastMarked(s: State) {
    var ts, last := KidTimes(s.log), s.cache.lastRefetch;
    if last.None? then ts == [] else last.value in ts && AllUpTo(ts, last.value) && last.value <= s.now
  }

  lemma {:induction false} LastMarkedRun(now: Time, actions: seq<Action>, cfg: Config)
    requires Run(now, actions, cfg).Some?
    ensures LastMarked(Run(now, actions, cfg).value)
    decreases |actions|
  {
    if actions != [] {
      var init, a := actions[..|actions| - 1], actions[|actions| - 1];
      LastMarkedRun(now, init, cfg);
      var s := Run(now, init, cfg).value;
      KidEffect(s, a, cfg);
      hide Step, KidTimes;
      var ts := KidTimes(s.log);
      assert (ts + [s.now])[|ts|] == s.now;
    }
  }

  /**
   * After any run, a call that misses its key id asks the endpoint exactly if no call has done so for less than the
   * interval; otherwise it goes on with what is cached.
   */
  lemma RefetchExactly(now: Time, actions: seq<Action>, cfg: Config, c: Caller)
    requires Run(now, actions, cfg).Some? && Enabled(Run(now, actions, cfg).value, CheckRefetch(c))
    ensures var s := Run(now, actions, cfg).value;
            var t := Step(s, CheckRefetch(c), cfg);
            if forall at :: at in KidTimes(s.log) ==> s.now - at >= cfg.minRefetchInterval
            then t.log == s.log + [KidFetch(c, s.now)] && In(t, c, KidFetching)
            else t.log == s.log && In(t, c, LastRead) && t.cache == s.cache
  {
    LastMarkedRun(now, actions, cfg);
    hide Run, KidTimes;
    var s := Run(now, actions, cfg).value;
    if !s.cache.lastRefetch.Some? || s.now - s.cache.lastRefetch.value >= cfg.minRefetchInterval {
      forall at | at in KidTimes(s.log) ensures s.now - at >= cfg.minRefetchInterval {
      }
    }
  }

  /** After any run, a call's check asks the endpoint exactly if no keys have arrived, or none within the TTL. */
  lemma TtlFetchExactly(now: Time, actions: seq<Action>, cfg: Config, c: Caller)
    requires Run(now, actions, cfg).Some? && Enabled(Run(now, actions, cfg).value, CheckFresh(c)) && cfg.ttl >= 0
    ensures var s := Run(now, actions, cfg).value;
            var t, last := Step(s, CheckFresh(c), cfg), LastReplaced(s.log);
            if last.Some? && last.value.keys != map[] && s.now - last.value.at <= cfg.ttl
            then t.log == s.log && In(t, c, FirstRead)
            else t.log == s.log + [TtlFetch(c, s.now)] && In(t, c, TtlFetching)
  {
    ReturnedKeysAreFresh(now, actions, cfg);
    hide Run, LastReplaced;
  }

  /** Every fetch of the run succeeds with a non-empty document. */
  predicate Healthy(actions: seq<Action>) {
    forall a :: a in actions && a.FetchEnds? ==> a.result.Doc? && a.result.keys != map[]
  }

  predicate TtlSpaced(s: State, c: Caller, cfg: Config) {
    var ts, f := TtlTimes(s.log, c), s.cache.fetchedAt;
    && Spaced(ts, cfg.ttl) && AllUpTo(ts, s.now)
    && (!In(s, c, TtlFetching) ==> ts == [] || (f.Some? && AllUpTo(ts, f.value)))
    && (f.Some? ==> s.cache.keys != map[] && f.value <= s.now)
  }

  lemma TtlLogEffect(s: State, a: Action, c: Caller, cfg: Config)
    requires Enabled(s, a)
    ensures TtlTimes(Step(s, a, cfg).log, c)
            == TtlTimes(s.log, c) + if a == CheckFresh(c) && !Fresh(s.cache, s.now, cfg) then [s.now] else []
  {
    var more := LogEffect(s, a, cfg);
    hide Step, Enabled, KidTimes, TtlTimes;
    TimesMore(s.log, more, c);
  }

  lemma TtlEffect(s: State, a: Action, c: Caller, cfg: Config)
    requires Enabled(s, a)
    ensures var t := Step(s, a, cfg);
            && t.now >= s.now
            && (if a.FetchEnds? && a.result.Doc?
                then t.cache.keys == a.result.keys && t.cache.fetchedAt == Some(s.now) && t.now == s.now
                else t.cache.keys == s.cache.keys && t.cache.fetchedAt == s.cache.fetchedAt)
            && (a == CheckFresh(c) ==> !In(s, c, TtlFetching) && t.now == s.now)
            && (In(t, c, TtlFetching) <==>
                  || (a == CheckFresh(c) && !Fresh(s.cache, s.now, cfg))
                  || (In(s, c, TtlFetching) && !(a.FetchEnds? && a.caller == c)))
  {
  }

  lemma UpToAppend(ts: seq<Time>, gap: int, last: Time, x: Time)
    requires Spaced(ts, gap) && AllUpTo(ts, last) && x - last >= gap >= 1
    ensures Spaced(ts + [x], gap) && AllUpTo(ts + [x], x)
  {
    SpacedAppend(ts, gap, x);
  }

  lemma UpToLater(ts: seq<Time>, t: Time, u: Time)
    requires AllUpTo(ts, t) && t <= u
    ensures AllUpTo(ts, u)
  {
  }

  lemma TtlStep(s: State, a: Action, c: Caller, cfg: Config)
    requires TtlSpaced(s, c, cfg) && Enabled(s, a) && cfg.ttl >= 1
    requires a.FetchEnds? ==> a.result.Doc? && a.result.keys != map[]
    ensures TtlSpaced(Step(s, a, cfg), c, cfg)
  {
    TtlEffect(s, a, c, cfg);
    TtlLogEffect(s, a, c, cfg);
    var ts, t := TtlTimes(s.log, c), Step(s, a, cfg);
    assert ts == [] ==> AllUpTo(ts, s.now - cfg.ttl);
    assert ts + [] == ts;
    hide Step, TtlTimes, In, Enabled, AllUpTo, Spaced;
    if a == CheckFresh(c) && !Fresh(s.cache, s.now, cfg) {
      UpToAppend(ts, cfg.ttl, if ts == [] then s.now - cfg.ttl else s.cache.fetchedAt.value, s.now);
    } else {
      UpToLater(ts, s.now, t.now);
      if s.cache.fetchedAt.Some? && t.cache.fetchedAt.Some? && AllUpTo(ts, s.cache.fetchedAt.value) {
        UpToLater(ts, s.cache.fetchedAt.value, t.cache.fetchedAt.value);
      }
    }
  }

  lemma {:induction false} TtlRun(now: Time, actions: seq<Action>, c: Caller, cfg: Config)
    requires Run(now, actions, cfg).Some? && Healthy(actions) && cfg.ttl >= 1
    ensures TtlSpaced(Run(now, actions, cfg).value, c, cfg)
    decreases |actions|
  {
    if actions != [] {
      var init, a := actions[..|actions| - 1], actions[|actions| - 1];
      TtlRun(now, init, c, cfg);
      assert a in actions;
      TtlStep(Run(now, init, cfg).value, a, c, cfg);
    }
  }

  /**
   * While fetches bring non-empty documents, each caller makes at most span / ttl + 1 TTL-driven fetches in any
   * interval of that length, whatever the other callers do.
   */
  lemma TtlFetchesBounded(now: Time, actions: seq<Action>, c: Caller, cfg: Config, lo: Time, span: nat)
    requires Run(now, actions, cfg).Some? && Healthy(actions) && cfg.ttl >= 1
    ensures CountIn(TtlTimes(Run(now, actions, cfg).value.log, c), lo, lo + span) <= span / cfg.ttl + 1
  {
    TtlRun(now, actions, c, cfg);
    SpacedBound(TtlTimes(Run(now, actions, cfg).value.log, c), cfg.ttl, lo, span);
  }

  // ----- All callers together -----

  function AllTtlTimes(log: seq<Event>): seq<Time> {
    if log == [] then []
    else AllTtlTimes(log[..|log| - 1]) + if log[|log| - 1].TtlFetch? then [log[|log| - 1].at] else []
  }

  /** A call that sets out to replace a stale cache finds no other doing so for less than the TTL. */
  predicate AloneInTtl(s: State, a: Action, cfg: Config)
    requires Enabled(s, a)
  {
    a.CheckFresh? && !Fresh(s.cache, s.now, cfg) ==>
      forall c :: c in s.calls && s.calls[c].phase.TtlFetching? ==> s.now - s.calls[c].checkedAt >= cfg.ttl
  }

  predicate AlwaysAlone(now: Time, actions: seq<Action>, cfg: Config)
    requires Run(now, actions, cfg).Some?
    decreases |actions|
  {
    actions == []
    || (AlwaysAlone(now, actions[..|actions| - 1], cfg)
        && AloneInTtl(Run(now, actions[..|actions| - 1], cfg).value, actions[|actions| - 1], cfg))
  }

  /** Some call set out at t to replace the cache and is still fetching. */
  predicate UnderWay(s: State, t: Time) {
    exists c :: c in s.calls && s.calls[c] == Call(s.calls[c].kid, TtlFetching, t)
  }

  predicate Ordered(ts: seq<Time>, now: Time) {
    AllUpTo(ts, now) && forall i, j :: 0 <= i < j < |ts| ==> ts[i] <= ts[j]
  }

  /** Each TTL-driven fetch came before the cache's document or is under way, and each under way is among them. */
  predicate Accounted(s: State, ts: seq<Time>) {
    && (forall i :: 0 <= i < |ts| ==> (s.cache.fetchedAt.Some? && ts[i] <= s.cache.fetchedAt.value) || UnderWay(s, ts[i]))
    && (forall c :: c in s.calls && s.calls[c].phase.TtlFetching? ==> s.calls[c].checkedAt in ts)
    && (s.cache.fetchedAt.Some? ==> s.cache.keys != map[] && s.cache.fetchedAt.value <= s.now)
  }

  lemma AllTtlEffect(s: State, a: Action, cfg: Config)
    requires Enabled(s, a)
    ensures AllTtlTimes(Step(s, a, cfg).log)
            == AllTtlTimes(s.log) + if a.CheckFresh? && !Fresh(s.cache, s.now, cfg) then [s.now] else []
    ensures Step(s, a, cfg).now >= s.now
  {
    CacheEffect(s, a, cfg);
    var more := LogEffect(s, a, cfg);
    hide Step, Enabled, AllTtlTimes;
    if more == [] {
      assert s.log + more == s.log;
    } else {
      assert more == [more[0]];
      AllTimesAppend(s.log, more[0]);
    }
  }

  lemma AllTimesAppend(log: seq<Event>, e: Event)
    ensures AllTtlTimes(log + [e]) == AllTtlTimes(log) + if e.TtlFetch? then [e.at] else []
  {
    assert (log + [e])[..|log|] == log;
  }

  lemma OrderedStep(ts: seq<Time>, now: Time, later: Time)
    requires Ordered(ts, now) && now <= later
    ensures Ordered(ts, later) && Ordered(ts + [now], later)
  {
  }

  lemma UnderWayStep(s: State, a: Action, cfg: Config, t: Time)
    requires Enabled(s, a) && UnderWay(s, t) && t <= s.now
    requires a.FetchEnds? ==> a.result.Doc?
    ensures var u := Step(s, a, cfg);
            UnderWay(u, t) || (u.cache.fetchedAt.Some? && t <= u.cache.fetchedAt.value)
  {
    var c :| c in s.calls && s.calls[c] == Call(s.calls[c].kid, TtlFetching, t);
    var u := Step(s, a, cfg);
    if !a.FetchEnds? {
      assert c in u.calls && u.calls[c] == s.calls[c];
    }
  }

  lemma AccountedStep(s: State, a: Action, cfg: Config, ts: seq<Time>)
    requires Accounted(s, ts) && AllUpTo(ts, s.now) && Enabled(s, a)
    requires a.FetchEnds? ==> a.result.Doc? && a.result.keys != map[]
    ensures Accounted(Step(s, a, cfg), ts + if a.CheckFresh? && !Fresh(s.cache, s.now, cfg) then [s.now] else [])
  {
    var u := Step(s, a, cfg);
    var more := ts + if a.CheckFresh? && !Fresh(s.cache, s.now, cfg) then [s.now] else [];
    forall i | 0 <= i < |more|
      ensures (u.cache.fetchedAt.Some? && more[i] <= u.cache.fetchedAt.value) || UnderWay(u, more[i])
    {
      if i == |ts| {
        assert u.calls[a.caller] == Call(u.calls[a.caller].kid, TtlFetching, s.now);
      } else if UnderWay(s, ts[i]) {
        UnderWayStep(s, a, cfg, ts[i]);
      }
    }
    hide UnderWay;
    forall c | c in u.calls && u.calls[c].phase.TtlFetching? ensures u.calls[c].checkedAt in more {
      if c in s.calls && s.calls[c].phase.TtlFetching? {
        assert u.calls[c] == s.calls[c] && s.calls[c].checkedAt in ts;
      } else {
        assert more[|ts|] == s.now == u.calls[c].checkedAt;
      }
    }
  }

  /** The new fetch keeps its distance from the earlier ones exactly if it keeps it from those under way. */
  lemma SpacedStep(s: State, a: Action, cfg: Config, ts: seq<Time>)
    requires Accounted(s, ts) && Enabled(s, a) && cfg.ttl >= 1
    requires a.CheckFresh? && !Fresh(s.cache, s.now, cfg)
    ensures Spaced(ts + [s.now], cfg.ttl) <==> Spaced(ts, cfg.ttl) && AloneInTtl(s, a, cfg)
  {
    var more := ts + [s.now];
    if Spaced(more, cfg.ttl) {
      forall i, j | 0 <= i < j < |ts| ensures ts[j] - ts[i] >= cfg.ttl {
        assert more[j] - more[i] >= cfg.ttl;
      }
      forall c | c in s.calls && s.calls[c].phase.TtlFetching? ensures s.now - s.calls[c].checkedAt >= cfg.ttl {
        var i :| 0 <= i < |ts| && ts[i] == s.calls[c].checkedAt;
        assert more[|ts|] - more[i] >= cfg.ttl;
      }
    }
    if Spaced(ts, cfg.ttl) && AloneInTtl(s, a, cfg) {
      forall i | 0 <= i < |ts| ensures s.now - ts[i] >= cfg.ttl {
      }
      SpacedAppend(ts, cfg.ttl, s.now);
    }
  }

  lemma {:induction false} AllTtlRun(now: Time, actions: seq<Action>, cfg: Config)
    requires Run(now, actions, cfg).Some? && Healthy(actions) && cfg.ttl >= 1
    ensures var s := Run(now, actions, cfg).value;
            var ts := AllTtlTimes(s.log);
            Accounted(s, ts) && Ordered(ts, s.now) && (Spaced(ts, cfg.ttl) <==> AlwaysAlone(now, actions, cfg))
    decreases |actions|
  {
    if actions != [] {
      var init, a := actions[..|actions| - 1], actions[|actions| - 1];
      AllTtlRun(now, init, cfg);
      assert a in actions;
      var s := Run(now, init, cfg).value;
      AllTtlEffect(s, a, cfg);
      var ts := AllTtlTimes(s.log);
      AccountedStep(s, a, cfg, ts);
      OrderedStep(ts, s.now, Step(s, a, cfg).now);
      hide Step, AllTtlTimes, Ordered, Spaced, Enabled, Fresh, Accounted;
      if a.CheckFresh? && !Fresh(s.cache, s.now, cfg) {
        SpacedStep(s, a, cfg, ts);
      } else {
        assert ts + [] == ts;
      }
    }
  }

  /**
   * While fetches bring non-empty documents, all callers together keep to span / ttl + 1 TTL-driven fetches on every
   * interval exactly if no call sets out to replace a stale cache while another has been at it for less than the TTL.
   */
  lemma AllTtlFetchesExactly(now: Time, actions: seq<Action>, cfg: Config)
    requires Run(now, actions, cfg).Some? && Healthy(actions) && cfg.ttl >= 1
    ensures CountBounded(AllTtlTimes(Run(now, actions, cfg).value.log), cfg.ttl) <==> AlwaysAlone(now, actions, cfg)
  {
    AllTtlRun(now, actions, cfg);
    BoundedExactly(AllTtlTimes(Run(now, actions, cfg).value.log), cfg.ttl);
  }

  /** Nothing keeps calls alone: two that meet a stale cache together both fetch, at one and the same time. */
  lemma CallersFetchTogether(now: Time, kid: Kid, cfg: Config)
    ensures var run := Run(now, [Begin(0, kid), Begin(1, kid), CheckFresh(0), CheckFresh(1)], cfg);
            run.Some? && run.value.log == [TtlFetch(0, now), TtlFetch(1, now)]
  {
    var r0: seq<Action> := [];
    var s1 := RunAppend(now, r0, Init(now), Begin(0, kid), cfg);
    var r1 := r0 + [Begin(0, kid)];
    var s2 := RunAppend(now, r1, s1, Begin(1, kid), cfg);
    var r2 := r1 + [Begin(1, kid)];
    var s3 := RunAppend(now, r2, s2, CheckFresh(0), cfg);
    var r3 := r2 + [CheckFresh(0)];
    var s4 := RunAppend(now, r3, s3, CheckFresh(1), cfg);
    assert r3 + [CheckFresh(1)] == [Begin(0, kid), Begin(1, kid), CheckFresh(0), CheckFresh(1)];
  }

  lemma RunAppend(now: Time, actions: seq<Action>, s: State, a: Action, cfg: Config) returns (t: State)
    requires Run(now, actions, cfg) == Some(s) && Enabled(s, a)
    ensures t == Step(s, a, cfg) && Run(now, actions + [a], cfg) == Some(t)
  {
    t := Step(s, a, cfg);
    assert (actions + [a])[..|actions|] == actions;
  }

  // ----- A single call -----

  /** keyForKid with nobody else moving; first and second are what its fetches return if it makes them. */
  function Alone(c: Cache, kid: Kid, now: Time, cfg: Config, first: Fetched, second: Fetched)
    : (Cache, Option<PublicKey>)
  {
    if WithinTtl(c, now, cfg) && kid in c.keys then (c, Some(c.keys[kid]))
    else if Fresh(c, now, cfg) then AloneRead(c, kid, now, cfg, second)
    else if first.Failed? then (c, None)
    else AloneRead(Stored(c, first.keys, now), kid, now, cfg, second)
  }

  /** The part after ensureFresh. */
  function AloneRead(c: Cache, kid: Kid, now: Time, cfg: Config, second: Fetched): (Cache, Option<PublicKey>) {
    if kid in c.keys then (c, Some(c.keys[kid]))
    else if RateLimited(c, now, cfg) then (c, None)
    else
      var marked := c.(lastRefetch := Some(now));
      if second.Failed? then (marked, None)
      else (Stored(marked, second.keys, now), if kid in second.keys then Some(second.keys[kid]) else None)
  }

  /** The cache has keys, and they are within the TTL. */
  predicate Usable(c: Cache, now: Time, cfg: Config) {
    c.keys != map[] && c.fetchedAt.Some? && now - c.fetchedAt.value <= cfg.ttl
  }

  predicate MayRefetch(c: Cache, now: Time, cfg: Config) {
    c.lastRefetch.None? || now - c.lastRefetch.value >= cfg.minRefetchInterval
  }

  predicate Offers(f: Fetched, kid: Kid, key: PublicKey) {
    f.Doc? && kid in f.keys && f.keys[kid] == key
  }

  /**
   * An undisturbed call finds a key exactly if a usable cache has it; or the first fetch brings it, the cache not being
   * usable; or neither has the id, refetching is allowed and the second fetch brings it.
   */
  lemma FoundExactly(c: Cache, kid: Kid, now: Time, cfg: Config, first: Fetched, second: Fetched, key: PublicKey)
    ensures var missed := if Usable(c, now, cfg) then kid !in c.keys else first.Doc? && kid !in first.keys;
            Alone(c, kid, now, cfg, first, second).1 == Some(key)
            <==> || (Usable(c, now, cfg) && kid in c.keys && c.keys[kid] == key)
                 || (!Usable(c, now, cfg) && Offers(first, kid, key))
                 || (missed && MayRefetch(c, now, cfg) && Offers(second, kid, key))
  {
  }

  class Verifier {
    const cfg: Config
    var keys: map<Kid, PublicKey>
    var fetchedAt: Option<Time>
    var lastRefetch: Option<Time>

    function View(): Cache
      reads this
    {
      Cache(keys, fetchedAt, lastRefetch)
    }

    constructor (cfg: Config)
      ensures this.cfg == cfg && View() == Init(0).cache
    {
      this.cfg := cfg;
      keys, fetchedAt, lastRefetch := map[], None, None;
    }

    method KeyForKid(kid: Kid, now: Time, first: Fetched, second: Fetched) returns (key: Option<PublicKey>)
      modifies this
      ensures (View(), key) == Alone(old(View()), kid, now, cfg, first, second)
    {
      if fetchedAt.Some? && now - fetchedAt.value <= cfg.ttl {
        if kid in keys {
          return Some(keys[kid]);
        }
      }
      var ok := EnsureFresh(now, first);
      if !ok {
        return None;
      }
      if kid in keys {
        return Some(keys[kid]);
      }
      ok := RefetchForUnknownKid(now, second);
      if !ok {
        return None;
      }
      if kid !in keys {
        return None;
      }
      return Some(keys[kid]);
    }

    method EnsureFresh(now: Time, result: Fetched) returns (ok: bool)
      modifies this
      ensures ok <==> Fresh(old(View()), now, cfg) || result.Doc?
      ensures View() == if !Fresh(old(View()), now, cfg) && result.Doc? then Stored(old(View()), result.keys, now)
                        else old(View())
    {
      var isFresh := |keys| > 0 && fetchedAt.Some? && now - fetchedAt.value <= cfg.ttl;
      if isFresh {
        return true;
      }
      ok := Fetch(now, result);
    }

    method RefetchForUnknownKid(now: Time, result: Fetched) returns (ok: bool)
      modifies this
      ensures RateLimited(old(View()), now, cfg) ==> ok && View() == old(View())
      ensures !RateLimited(old(View()), now, cfg) ==>
                ok == result.Doc?
                && var marked := old(View()).(lastRefetch := Some(now));
                   View() == if result.Doc? then Stored(marked, result.keys, now) else marked
    {
      if lastRefetch.Some? && now - lastRefetch.value < cfg.minRefetchInterval {
        return true;
      }
      lastRefetch := Some(now);
      ok := Fetch(now, result);
    }

    method Fetch(now: Time, result: Fetched) returns (ok: bool)
      modifies this
      ensures ok == result.Doc?
      ensures View() == if result.Doc? then Stored(old(View()), result.keys, now) else old(View())
    {
      if result.Failed? {
        return false;
      }
      keys := result.keys;
      fetchedAt := Some(now);
      return true;
    }
  }

  /** The steps of one call taken without interruption. */
  function AloneSteps(s: State, c: Caller, kid: Kid, first: Fetched, second: Fetched, cfg: Config): State
    requires c !in s.calls
  {
    var s1 := Step(s, Begin(c, kid), cfg);
    if c !in s1.calls then s1
    else
      var s2 := Step(s1, CheckFresh(c), cfg);
      var s3 := if In(s2, c, TtlFetching) then Step(s2, FetchEnds(c, first), cfg) else s2;
      if c !in s3.calls then s3 else ReadSteps(s3, c, second, cfg)
  }

  function ReadSteps(s: State, c: Caller, second: Fetched, cfg: Config): State
    requires In(s, c, FirstRead)
  {
    var s1 := Step(s, Read(c), cfg);
    if c !in s1.calls then s1
    else
      var s2 := Step(s1, CheckRefetch(c), cfg);
      var s3 := if In(s2, c, KidFetching) then Step(s2, FetchEnds(c, second), cfg) else s2;
      if c !in s3.calls then s3 else Step(s3, ReadLast(c), cfg)
  }

  /** end is where s gets by a call of c at now: the given cache, and the key in the log if there is one. */
  predicate Ends(end: State, s: State, c: Caller, kid: Kid, checkedAt: Time, res: (Cache, Option<PublicKey>)) {
    && end.cache == res.0 && end.calls == s.calls - {c} && end.now == s.now
    && (res.1.Some? ==> end.log != [] && end.log[|end.log| - 1] == Returned(kid, res.1.value, s.now, checkedAt))
  }

  lemma ReadRefines(s: State, c: Caller, second: Fetched, cfg: Config)
    requires In(s, c, FirstRead) && s.calls[c].checkedAt == s.now
    ensures Ends(ReadSteps(s, c, second, cfg), s, c, s.calls[c].kid, s.now,
                 AloneRead(s.cache, s.calls[c].kid, s.now, cfg, second))
  {
  }

  /** The method is what the interleaved steps of one undisturbed call amount to. */
  lemma AloneRefines(s: State, c: Caller, kid: Kid, first: Fetched, second: Fetched, cfg: Config)
    requires c !in s.calls
    ensures Ends(AloneSteps(s, c, kid, first, second, cfg), s, c, kid, s.now,
                 Alone(s.cache, kid, s.now, cfg, first, second))
  {
    hide ReadSteps;
    var s1 := Step(s, Begin(c, kid), cfg);
    if c in s1.calls {
      var s2 := Step(s1, CheckFresh(c), cfg);
      var s3 := if In(s2, c, TtlFetching) then Step(s2, FetchEnds(c, first), cfg) else s2;
      if c in s3.calls {
        ReadRefines(s3, c, second, cfg);
      }
      assert s3.calls - {c} == s.calls - {c};
    }
  }

  /** An undisturbed call returns only keys that are at most one TTL old. */
  lemma AloneWithinTtl(c: Cache, kid: Kid, now: Time, cfg: Config, first: Fetched, second: Fetched)
    requires cfg.ttl >= 0
    ensures var (cache, key) := Alone(c, kid, now, cfg, first, second);
            key.Some? ==> WithinTtl(cache, now, cfg) && kid in cache.keys && cache.keys[kid] == key.value
  {
  }
}
