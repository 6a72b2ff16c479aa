/**
 * Transparent token refresh (refreshAuthMiddleware in backend/internal/api/auth_handlers.go) against a proxy that
 * rotates refresh tokens single-use (RefreshTokens in backend/internal/auth/sso.go).
 */
module RefreshAuth {
  import opened Wrappers

  type Token = string

  /** Nanoseconds since the epoch; token expiry is in whole seconds. */
  type Time = int

  const SECOND := 1_000_000_000
  const REFRESH_THRESHOLD := 300 * SECOND

  datatype Pair = Pair(access: string, refresh: Token)

  datatype AccessCookie = NoCookie | Malformed | WellFormed(exp: int)

  /** What the request carries; an empty refresh cookie counts as none. */
  datatype Req = Req(access: AccessCookie, refresh: Option<Token>)

  datatype RefreshError = Revoked | Transient

  /** What the response does to the cookies; the request is always passed on. */
  datatype Outcome = Unchanged | Cleared | Wrote(pair: Pair)

  /** Either decided at once, or the tokens have to be refreshed. */
  datatype Decision = Decided(outcome: Outcome) | NeedsRefresh(token: Token, exp: int)

  predicate IsExpired(exp: int, now: Time) {
    now / SECOND > exp
  }

  /** The access token, if well formed, is past its expiry. */
  predicate Dead(access: AccessCookie, now: Time) {
    match access
    case NoCookie => false
    case Malformed => true
    case WellFormed(exp) => IsExpired(exp, now)
  }

  /** A well-formed, unexpired access token with at most five minutes left, a refresh token to renew it, and SSO. */
  predicate WantsRefresh(req: Req, now: Time, ssoEnabled: bool) {
    && req.access.WellFormed? && now / 1_000_000_000 <= req.access.exp
    && req.access.exp * 1_000_000_000 - now <= 300_000_000_000
    && req.refresh.Some? && ssoEnabled
  }

  function Decide(req: Req, now: Time, ssoEnabled: bool): Decision {
    if req.access.NoCookie? then Decided(Unchanged)
    else if Dead(req.access, now) then Decided(Cleared)
    else if req.access.exp * SECOND - now > REFRESH_THRESHOLD then Decided(Unchanged)
    else if req.refresh.None? || !ssoEnabled then Decided(Unchanged)
    else NeedsRefresh(req.refresh.value, req.access.exp)
  }

  function Finish(exp: int, res: Result<Pair, RefreshError>, now: Time): Outcome {
    match res
    case Ok(pair) => Wrote(pair)
    case Err(e) => if e.Revoked? && IsExpired(exp, now) then Cleared else Unchanged
  }

  /** The middleware for one request; res is what the single-flighted refresh returns if it is joined. */
  method RefreshAuthMiddleware(req: Req, ssoEnabled: bool, res: Result<Pair, RefreshError>, now: Time, later: Time)
    returns (outcome: Outcome)
    ensures outcome == match Decide(req, now, ssoEnabled)
                       case Decided(o) => o
                       case NeedsRefresh(_, exp) => Finish(exp, res, later)
    ensures forall pair :: outcome == Wrote(pair) <==> WantsRefresh(req, now, ssoEnabled) && res == Ok(pair)
    ensures outcome.Cleared?
            <==> || req.access.Malformed?
                 || (req.access.WellFormed? && now / 1_000_000_000 > req.access.exp)
                 || (WantsRefresh(req, now, ssoEnabled) && res == Err(Revoked) && later / 1_000_000_000 > req.access.exp)
  {
    outcome := Unchanged;
    if req.access.NoCookie? {
      return;
    }
    if req.access.Malformed? || IsExpired(req.access.exp, now) {
      outcome := Cleared;
      return;
    }
    if req.access.exp * SECOND - now > REFRESH_THRESHOLD {
      return;
    }
    if req.refresh.None? {
      return;
    }
    if !ssoEnabled {
      return;
    }
    if res.Err? {
      if res.error.Revoked? && IsExpired(req.access.exp, later) {
        outcome := Cleared;
      }
      return;
    }
    outcome := Wrote(res.value);
  }

  // ----- Concurrent requests -----

  type Id = nat

  /** A refresh call under way: not yet seen by the proxy, or answered. */
  datatype Flight = Flight(id: nat, answer: Option<Result<Pair, RefreshError>>)

  datatype Landed = Landed(token: Token, result: Result<Pair, RefreshError>)

  /** A request about to enter the group, or waiting for a flight. */
  datatype Wait = AtDo(req: Req, token: Token, exp: int) | OnFlight(req: Req, token: Token, exp: int, id: nat)

  datatype Event =
    | Rotated(token: Token, pair: Pair)
    | Responded(req: Req, presented: Option<Token>, outcome: Outcome, at: Time)

  /**
   * live: the refresh tokens the proxy accepts; used: all it ever issued; minted: the pair each rotated token
   * was exchanged for.
   */
  datatype State = State(
    now: Time, live: set<Token>, used: set<Token>, minted: map<Token, Pair>,
    flights: map<Token, Flight>, landed: map<nat, Landed>, nextId: nat,
    waits: map<Id, Wait>, log: seq<Event>)

  datatype Action =
    | Tick(d: nat)
    | Login(token: Token)                          // the proxy issues a refresh token
    | Revoke(token: Token)                         // ban, logout or expiry at the proxy
    | Arrive(id: Id, req: Req, ssoEnabled: bool)
    | Enter(id: Id)                                // refreshGroup.Do: join the token's flight or start one
    | ProxyAnswers(token: Token, pair: Pair)       // pair is the fresh pair, if the proxy rotates
    | FlightEnds(token: Token, delivered: bool)    // the answer arrives, or the call fails on the way
    | Collect(id: Id)                              // Do returns to one of its callers

  predicate Enabled(s: State, a: Action) {
    match a
    case Login(t) => t !in s.used
    case Arrive(id, _, _) => id !in s.waits
    case Enter(id) => id in s.waits && s.waits[id].AtDo?
    case ProxyAnswers(t, pair) => t in s.flights && s.flights[t].answer.None? && pair.refresh !in s.used
    case FlightEnds(t, delivered) => t in s.flights && (delivered ==> s.flights[t].answer.Some?)
    case Collect(id) => id in s.waits && s.waits[id].OnFlight? && s.waits[id].id in s.landed
    case _ => true
  }

  function Step(s: State, a: Action): State
    requires Enabled(s, a)
  {
    match a
    case Tick(d) => s.(now := s.now + d)
    case Login(t) => s.(live := s.live + {t}, used := s.used + {t})
    case Revoke(t) => s.(live := s.live - {t})
    case Arrive(id, req, ssoEnabled) =>
      (match Decide(req, s.now, ssoEnabled)
       case Decided(o) => s.(log := s.log + [Responded(req, None, o, s.now)])
       case NeedsRefresh(token, exp) => s.(waits := s.waits[id := AtDo(req, token, exp)]))
    case Enter(id) =>
      var w := s.waits[id];
      if w.token in s.flights then
        s.(waits := s.waits[id := OnFlight(w.req, w.token, w.exp, s.flights[w.token].id)])
      else
        s.(flights := s.flights[w.token := Flight(s.nextId, None)],
           waits := s.waits[id := OnFlight(w.req, w.token, w.exp, s.nextId)],
           nextId := s.nextId + 1)
    case ProxyAnswers(t, pair) =>
      var f := s.flights[t];
      if t in s.live then
        s.(live := s.live - {t} + {pair.refresh}, used := s.used + {pair.refresh}, minted := s.minted[t := pair],
           flights := s.flights[t := f.(answer := Some(Ok(pair)))], log := s.log + [Rotated(t, pair)])
      else s.(flights := s.flights[t := f.(answer := Some(Err(Revoked)))])
    case FlightEnds(t, delivered) =>
      s.(flights := s.flights - {t},
         landed := s.landed[s.flights[t].id :=
           Landed(t, if delivered then s.flights[t].answer.value else Err(Transient))])
    case Collect(id) =>
      var w := s.waits[id];
      var o := Finish(w.exp, s.landed[w.id].result, s.now);
      s.(waits := s.waits - {id}, log := s.log + [Responded(w.req, Some(w.token), o, s.now)])
  }

  function Init(now: Time): State {
    State(now, {}, {}, map[], map[], map[], 0, map[], [])
  }

  /** The state after actions, or None if some action was not enabled at its turn. */
  function Run(now: Time, actions: seq<Action>): Option<State>
    decreases |actions|
  {
    if actions == [] then Some(Init(now))
    else
      var before := Run(now, actions[..|actions| - 1]);
      var a := actions[|actions| - 1];
      if before.Some? && Enabled(before.value, a) then Some(Step(before.value, a)) else None
  }

  // ----- What always holds -----

  /** A result for a token is the one pair it was exchanged for, or an error. */
  predicate FromRotation(s: State, t: Token, r: Result<Pair, RefreshError>) {
    r.Ok? ==> t in s.minted && s.minted[t] == r.value
  }

  predicate Answers(s: State) {
    && (forall t :: t in s.flights && s.flights[t].answer.Some? ==> FromRotation(s, t, s.flights[t].answer.value))
    && (forall id :: id in s.landed ==> FromRotation(s, s.landed[id].token, s.landed[id].result))
  }

  predicate Boarding(s: State) {
    && DistinctFlights(s)
    && (forall i :: i in s.waits && s.waits[i].OnFlight? ==> Boarded(s, s.waits[i].token, s.waits[i].id))
  }

  predicate DistinctFlights(s: State) {
    DistinctIds(s.flights, s.landed, s.nextId)
  }

  predicate DistinctIds(flights: map<Token, Flight>, landed: map<nat, Landed>, nextId: nat) {
    && (forall t :: t in flights ==> flights[t].id < nextId && flights[t].id !in landed)
    && (forall t, u :: t in flights && u in flights && t != u ==> flights[t].id != flights[u].id)
    && (forall id :: id in landed ==> id < nextId)
  }

  predicate Boarded(s: State, t: Token, id: nat) {
    (t in s.flights && s.flights[t].id == id) || (id in s.landed && s.landed[id].token == t)
  }

  /** Rotated tokens are out of use, so no token is rotated twice. */
  predicate SingleUse(s: State) {
    && s.live <= s.used
    && (forall t :: t in s.minted ==> t in s.used && t !in s.live)
  }

  /** A pending request carries a well-formed access token with the expiry it remembers. */
  predicate Remembered(s: State) {
    forall i :: i in s.waits ==> s.waits[i].req.access == WellFormed(s.waits[i].exp)
  }

  predicate GoodEvent(s: State, e: Event) {
    match e
    case Rotated(t, pair) => t in s.minted && s.minted[t] == pair
    case Responded(req, t, o, at) =>
      && at <= s.now
      && (o.Wrote? ==> t.Some? && t.value in s.minted && s.minted[t.value] == o.pair)
      && (o.Cleared? ==> Dead(req.access, at))
  }

  predicate GoodLog(s: State) {
    forall i :: 0 <= i < |s.log| ==> GoodEvent(s, s.log[i])
  }

  predicate Inv(s: State) {
    Answers(s) && Boarding(s) && SingleUse(s) && Remembered(s) && GoodLog(s)
  }

  /** Once minted, a token's pair never changes. */
  lemma MintedStays(s: State, a: Action, t: Token)
    requires SingleUse(s) && Enabled(s, a) && t in s.minted
    ensures t in Step(s, a).minted && Step(s, a).minted[t] == s.minted[t]
  {
  }

  lemma AnswersStep(s: State, a: Action)
    requires Answers(s) && SingleUse(s) && Enabled(s, a)
    ensures Answers(Step(s, a))
  {
  }

  lemma DistinctStep(s: State, a: Action)
    requires DistinctFlights(s) && Enabled(s, a)
    ensures DistinctFlights(Step(s, a))
  {
    hide Decide, Finish, DistinctIds;
    match a
    case Enter(id) => TakesOff(s.flights, s.landed, s.nextId, s.waits[id].token);
    case ProxyAnswers(t, _) =>
      var answer := Step(s, a).flights[t].answer;
      assert Step(s, a).flights == s.flights[t := s.flights[t].(answer := answer)];
      Answered(s.flights, s.landed, s.nextId, t, answer);
    case FlightEnds(t, _) => Lands(s.flights, s.landed, s.nextId, t, Step(s, a).landed[s.flights[t].id]);
    case _ =>
  }

  lemma TakesOff(flights: map<Token, Flight>, landed: map<nat, Landed>, nextId: nat, t: Token)
    requires DistinctIds(flights, landed, nextId)
    ensures t !in flights ==> DistinctIds(flights[t := Flight(nextId, None)], landed, nextId + 1)
  {
  }

  lemma Answered(flights: map<Token, Flight>, landed: map<nat, Landed>, nextId: nat, t: Token,
                 answer: Option<Result<Pair, RefreshError>>)
    requires DistinctIds(flights, landed, nextId) && t in flights
    ensures DistinctIds(flights[t := flights[t].(answer := answer)], landed, nextId)
  {
  }

  lemma Lands(flights: map<Token, Flight>, landed: map<nat, Landed>, nextId: nat, t: Token, l: Landed)
    requires DistinctIds(flights, landed, nextId) && t in flights
    ensures DistinctIds(flights - {t}, landed[flights[t].id := l], nextId)
  {
  }

  lemma StaysBoarded(s: State, a: Action, t: Token, id: nat)
    requires DistinctFlights(s) && Enabled(s, a) && Boarded(s, t, id)
    ensures Boarded(Step(s, a), t, id)
  {
  }

  lemma BoardingStep(s: State, a: Action)
    requires Boarding(s) && Enabled(s, a)
    ensures Boarding(Step(s, a))
  {
    DistinctStep(s, a);
    var t := Step(s, a);
    hide DistinctFlights;
    forall i | i in t.waits && t.waits[i].OnFlight? ensures Boarded(t, t.waits[i].token, t.waits[i].id) {
      if i in s.waits && s.waits[i].OnFlight? {
        StaysBoarded(s, a, s.waits[i].token, s.waits[i].id);
      }
    }
  }

  lemma SingleUseStep(s: State, a: Action)
    requires SingleUse(s) && Enabled(s, a)
    ensures SingleUse(Step(s, a))
  {
  }

  lemma LogStep(s: State, a: Action)
    requires Inv(s) && Enabled(s, a)
    ensures GoodLog(Step(s, a)) && Remembered(Step(s, a))
  {
    var t := Step(s, a);
    forall i | 0 <= i < |t.log| ensures GoodEvent(t, t.log[i]) {
      if i < |s.log| {
        EventStays(s, a, i);
      } else if a.Collect? {
        assert Boarded(s, s.waits[a.id].token, s.waits[a.id].id);
      }
    }
  }

  lemma EventStays(s: State, a: Action, i: nat)
    requires SingleUse(s) && GoodLog(s) && Enabled(s, a) && i < |s.log|
    ensures i < |Step(s, a).log| && Step(s, a).log[i] == s.log[i] && GoodEvent(Step(s, a), s.log[i])
  {
    hide Decide, Finish, Dead;
    assert GoodEvent(s, s.log[i]);
  }

  lemma StepKeeps(s: State, a: Action)
    requires Inv(s) && Enabled(s, a)
    ensures Inv(Step(s, a))
  {
    AnswersStep(s, a);
    BoardingStep(s, a);
    SingleUseStep(s, a);
    LogStep(s, a);
  }

  lemma {:induction false} EveryRun(now: Time, actions: seq<Action>)
    requires Run(now, actions).Some?
    ensures Inv(Run(now, actions).value)
    decreases |actions|
  {
    hide Step, Enabled;
    if actions != [] {
      EveryRun(now, actions[..|actions| - 1]);
      StepKeeps(Run(now, actions[..|actions| - 1]).value, actions[|actions| - 1]);
    } else {
      assert Inv(Init(now));
    }
  }

  /** However requests with one refresh token interleave, all that write cookies write the same pair. */
  lemma SamePairForAll(now: Time, actions: seq<Action>, i: nat, j: nat)
    requires Run(now, actions).Some?
    requires var log := Run(now, actions).value.log;
             && i < |log| && j < |log| && log[i].Responded? && log[j].Responded?
             && log[i].presented == log[j].presented && log[i].outcome.Wrote? && log[j].outcome.Wrote?
    ensures var log := Run(now, actions).value.log;
            log[i].outcome.pair == log[j].outcome.pair
  {
    EveryRun(now, actions);
    var s := Run(now, actions).value;
    assert GoodEvent(s, s.log[i]) && GoodEvent(s, s.log[j]);
  }

  /** No request clears the cookies while its well-formed access token is unexpired, lost race or not. */
  lemma NeverLogsOutEarly(now: Time, actions: seq<Action>, i: nat, exp: int)
    requires Run(now, actions).Some?
    requires var log := Run(now, actions).value.log;
             i < |log| && log[i].Responded? && log[i].req.access == WellFormed(exp) && log[i].outcome.Cleared?
    ensures IsExpired(exp, Run(now, actions).value.log[i].at)
  {
    EveryRun(now, actions);
    var s := Run(now, actions).value;
    assert GoodEvent(s, s.log[i]);
  }

  /** A step adds at most one event, and none that rotates a token rotated before. */
  lemma LogGrows(s: State, a: Action)
    requires SingleUse(s) && Enabled(s, a)
    ensures s.log <= Step(s, a).log && |Step(s, a).log| <= |s.log| + 1
    ensures |Step(s, a).log| > |s.log| && Step(s, a).log[|s.log|].Rotated?
            ==> Step(s, a).log[|s.log|].token !in s.minted
  {
    hide Decide, Finish;
  }

  /** No refresh token is exchanged twice, and an exchange is where every written pair comes from. */
  lemma {:induction false} RotatedOnce(now: Time, actions: seq<Action>, i: nat, j: nat)
    requires Run(now, actions).Some?
    requires var log := Run(now, actions).value.log;
             i < j < |log| && log[i].Rotated? && log[j].Rotated?
    ensures Run(now, actions).value.log[i].token != Run(now, actions).value.log[j].token
    decreases |actions|
  {
    if actions != [] {
      var init, a := actions[..|actions| - 1], actions[|actions| - 1];
      var s := Run(now, init).value;
      EveryRun(now, init);
      LogGrows(s, a);
      hide Step, Answers, Boarding, Remembered, SingleUse;
      if j < |s.log| {
        RotatedOnce(now, init, i, j);
      } else {
        assert GoodEvent(s, s.log[i]);
      }
    }
  }

  predicate HasRotation(log: seq<Event>, t: Token, pair: Pair) {
    exists k :: 0 <= k < |log| && log[k] == Rotated(t, pair)
  }

  lemma {:induction false} MintedRotated(now: Time, actions: seq<Action>, t: Token)
    requires Run(now, actions).Some? && t in Run(now, actions).value.minted
    ensures HasRotation(Run(now, actions).value.log, t, Run(now, actions).value.minted[t])
    decreases |actions|
  {
    if actions != [] {
      var init, a := actions[..|actions| - 1], actions[|actions| - 1];
      var s, u := Run(now, init).value, Run(now, actions).value;
      EveryRun(now, init);
      if t in s.minted {
        MintedRotated(now, init, t);
        MintedStays(s, a, t);
        var k :| 0 <= k < |s.log| && s.log[k] == Rotated(t, s.minted[t]);
        assert u.log[k] == s.log[k];
      } else {
        assert u.log[|s.log|] == Rotated(t, u.minted[t]);
      }
    }
  }

  /** A written pair is the proxy's answer to the one exchange of the presented token. */
  lemma WrittenPairIsTheRotation(now: Time, actions: seq<Action>, i: nat)
    requires Run(now, actions).Some?
    requires var log := Run(now, actions).value.log;
             i < |log| && log[i].Responded? && log[i].outcome.Wrote?
    ensures var log := Run(now, actions).value.log;
            log[i].presented.Some? && HasRotation(log, log[i].presented.value, log[i].outcome.pair)
  {
    EveryRun(now, actions);
    var s := Run(now, actions).value;
    assert GoodEvent(s, s.log[i]);
    MintedRotated(now, actions, s.log[i].presented.value);
  }

  // ----- What every request gets -----

  predicate Expired(req: Req, now: Time) {
    req.access.WellFormed? && now / 1_000_000_000 > req.access.exp
  }

  /** An arriving request waits exactly if it wants a refresh; otherwise only a dead access token clears the cookies. */
  lemma ArrivalExactly(s: State, id: Id, req: Req, ssoEnabled: bool)
    requires Enabled(s, Arrive(id, req, ssoEnabled))
    ensures var t := Step(s, Arrive(id, req, ssoEnabled));
            if WantsRefresh(req, s.now, ssoEnabled) then
              t == s.(waits := s.waits[id := AtDo(req, req.refresh.value, req.access.exp)])
            else
              t == s.(log := s.log + [Responded(req, None,
                                                if req.access.Malformed? || Expired(req, s.now) then Cleared else Unchanged,
                                                s.now)])
  {
  }

  /**
   * A request that waited is answered by what its flight landed with: a pair is written, a revocation clears the cookies
   * exactly if the access token has expired by now, and anything else changes nothing.
   */
  lemma CollectExactly(s: State, id: Id)
    requires Remembered(s) && Enabled(s, Collect(id))
    ensures var w, t := s.waits[id], Step(s, Collect(id));
            var outcome := match s.landed[w.id].result
                           case Ok(pair) => Wrote(pair)
                           case Err(Revoked) => if Expired(w.req, s.now) then Cleared else Unchanged
                           case Err(Transient) => Unchanged;
            t == s.(waits := s.waits - {id}, log := s.log + [Responded(w.req, Some(w.token), outcome, s.now)])
  {
  }

  lemma {:induction false} RunPrefix(now: Time, actions: seq<Action>, n: nat)
    requires Run(now, actions).Some? && n <= |actions|
    ensures Run(now, actions[..n]).Some? && Run(now, actions[..n]).value.log <= Run(now, actions).value.log
    decreases |actions|
  {
    hide Step, Enabled;
    if n == |actions| {
      assert actions[..n] == actions;
    } else {
      var init, a := actions[..|actions| - 1], actions[|actions| - 1];
      RunPrefix(now, init, n);
      assert init[..n] == actions[..n];
      EveryRun(now, init);
      LogGrows(Run(now, init).value, a);
    }
  }

  predicate Logged(log: seq<Event>, e: Event) {
    exists k :: 0 <= k < |log| && log[k] == e
  }

  /** In every run, a request that collects a landed pair writes it, and the pair is its own token's rotation. */
  lemma CollectedPairIsWritten(now: Time, actions: seq<Action>, n: nat, id: Id, pair: Pair)
    requires Run(now, actions).Some? && n < |actions| && actions[n] == Collect(id)
    requires Run(now, actions[..n]).Some?
    requires var s := Run(now, actions[..n]).value;
             id in s.waits && s.waits[id].OnFlight? && s.waits[id].id in s.landed
             && s.landed[s.waits[id].id].result == Ok(pair)
    ensures var s, log := Run(now, actions[..n]).value, Run(now, actions).value.log;
            var w := s.waits[id];
            Logged(log, Responded(w.req, Some(w.token), Wrote(pair), s.now)) && HasRotation(log, w.token, pair)
  {
    var init, m := actions[..n], n + 1;
    var s := Run(now, init).value;
    assert actions[..m][..n] == init && actions[..m][n] == Collect(id);
    RunPrefix(now, actions, m);
    EveryRun(now, init);
    CollectExactly(s, id);
    var t := Run(now, actions[..m]).value;
    var w := s.waits[id];
    var e := Responded(w.req, Some(w.token), Wrote(pair), s.now);
    var log := Run(now, actions).value.log;
    assert t.log == s.log + [e];
    assert log[|s.log|] == t.log[|s.log|] == e;
    assert Boarded(s, w.token, w.id);
    assert w.token in s.minted && s.minted[w.token] == pair;
    MintedRotated(now, init, w.token);
    var k :| 0 <= k < |s.log| && s.log[k] == Rotated(w.token, pair);
    assert t.log[k] == s.log[k] && log[k] == t.log[k];
  }

  /** Whoever asks for a token that is being exchanged joins the flight. */
  lemma JoinsTheFlight(s: State, id: Id)
    requires Enabled(s, Enter(id)) && s.waits[id].token in s.flights
    ensures var w, t := s.waits[id], Step(s, Enter(id));
            t == s.(waits := s.waits[id := OnFlight(w.req, w.token, w.exp, s.flights[w.token].id)])
  {
  }

  /** When the answer to a flight arrives, every request on that flight can collect, and writes the pair. */
  lemma AllWritten(s: State, t: Token, pair: Pair, id: Id)
    requires Inv(s) && t in s.flights && s.flights[t].answer == Some(Ok(pair))
    requires id in s.waits && s.waits[id].OnFlight? && s.waits[id].id == s.flights[t].id
    ensures Enabled(s, FlightEnds(t, true))
    ensures var u, w := Step(s, FlightEnds(t, true)), s.waits[id];
            Enabled(u, Collect(id))
            && Step(u, Collect(id)).log == u.log + [Responded(w.req, Some(t), Wrote(pair), s.now)]
  {
    var u := Step(s, FlightEnds(t, true));
    assert Boarded(s, s.waits[id].token, s.waits[id].id);
    assert Remembered(u);
    CollectExactly(u, id);
  }

  lemma RunAppend(now: Time, actions: seq<Action>, s: State, a: Action) returns (t: State)
    requires Run(now, actions) == Some(s) && Enabled(s, a)
    ensures t == Step(s, a) && Run(now, actions + [a]) == Some(t)
  {
    t := Step(s, a);
    assert (actions + [a])[..|actions|] == actions;
  }

  /** A request whose token is not being exchanged starts a flight. */
  lemma TakesOffAlone(now: Time, actions: seq<Action>, s: State, id: Id, req: Req) returns (u: State)
    requires Run(now, actions) == Some(s) && id !in s.waits && WantsRefresh(req, s.now, true)
    requires req.refresh.value !in s.flights
    ensures Run(now, actions + [Arrive(id, req, true)] + [Enter(id)]) == Some(u)
    ensures u == s.(flights := s.flights[req.refresh.value := Flight(s.nextId, None)], nextId := s.nextId + 1,
                    waits := s.waits[id := OnFlight(req, req.refresh.value, req.access.exp, s.nextId)])
  {
    ArrivalExactly(s, id, req, true);
    var s1 := RunAppend(now, actions, s, Arrive(id, req, true));
    hide Decide;
    u := RunAppend(now, actions + [Arrive(id, req, true)], s1, Enter(id));
  }

  /**
   * After any run, a request that wants a refresh and whose token is live and not being exchanged gets the fresh pair
   * once the proxy's answer arrives, and that pair's refresh token is live from then on in place of its own.
   */
  lemma LoneRefresh(now: Time, actions: seq<Action>, s: State, id: Id, req: Req, pair: Pair) returns (more: seq<Action>)
    requires Run(now, actions) == Some(s) && id !in s.waits && WantsRefresh(req, s.now, true)
    requires req.refresh.value in s.live && req.refresh.value !in s.flights && pair.refresh !in s.used
    ensures Run(now, actions + more).Some?
    ensures var u, t := Run(now, actions + more).value, req.refresh.value;
            && u.log == s.log + [Rotated(t, pair)] + [Responded(req, Some(t), Wrote(pair), s.now)]
            && u.live == s.live - {t} + {pair.refresh} && u.flights == s.flights && u.waits == s.waits
  {
    var t := req.refresh.value;
    var s2 := TakesOffAlone(now, actions, s, id, req);
    var r2 := actions + [Arrive(id, req, true)] + [Enter(id)];
    hide Decide;
    var s3 := RunAppend(now, r2, s2, ProxyAnswers(t, pair));
    var r3 := r2 + [ProxyAnswers(t, pair)];
    var s4 := RunAppend(now, r3, s3, FlightEnds(t, true));
    var r4 := r3 + [FlightEnds(t, true)];
    hide Run;
    var s5 := RunAppend(now, r4, s4, Collect(id));
    more := [Arrive(id, req, true), Enter(id), ProxyAnswers(t, pair), FlightEnds(t, true), Collect(id)];
    assert actions + more == r4 + [Collect(id)];
  }

  /** If its token is not live the session ends exactly if the access token expires before the answer is there. */
  lemma LoneRefusal(now: Time, actions: seq<Action>, s: State, id: Id, req: Req, pair: Pair, wait: nat)
    returns (more: seq<Action>)
    requires Run(now, actions) == Some(s) && id !in s.waits && WantsRefresh(req, s.now, true)
    requires req.refresh.value !in s.live && req.refresh.value !in s.flights && pair.refresh !in s.used
    ensures Run(now, actions + more).Some?
    ensures var u, t := Run(now, actions + more).value, req.refresh.value;
            && u.log == s.log + [Responded(req, Some(t), if Expired(req, s.now + wait) then Cleared else Unchanged,
                                           s.now + wait)]
            && u.live == s.live && u.flights == s.flights && u.waits == s.waits && u.minted == s.minted
  {
    var t := req.refresh.value;
    var s2 := TakesOffAlone(now, actions, s, id, req);
    var r2 := actions + [Arrive(id, req, true)] + [Enter(id)];
    hide Decide;
    var r5, s5 := Refused(now, r2, s2, t, pair, wait);
    hide Run;
    assert s5.waits == s2.waits && s5.live == s.live && s5.log == s.log;
    var s6 := RunAppend(now, r5, s5, Collect(id));
    more := [Arrive(id, req, true), Enter(id), ProxyAnswers(t, pair), Tick(wait), FlightEnds(t, true), Collect(id)];
    assert actions + more == r5 + [Collect(id)];
  }

  /** The proxy refuses a token that is not live, and the answer arrives after wait. */
  lemma Refused(now: Time, actions: seq<Action>, s: State, t: Token, pair: Pair, wait: nat)
    returns (after: seq<Action>, u: State)
    requires Run(now, actions) == Some(s) && t in s.flights && s.flights[t].answer == None
    requires t !in s.live && pair.refresh !in s.used
    ensures after == actions + [ProxyAnswers(t, pair)] + [Tick(wait)] + [FlightEnds(t, true)]
    ensures Run(now, after) == Some(u)
    ensures u == s.(now := s.now + wait, flights := s.flights - {t},
                    landed := s.landed[s.flights[t].id := Landed(t, Err(Revoked))])
  {
    var s1 := RunAppend(now, actions, s, ProxyAnswers(t, pair));
    var r1 := actions + [ProxyAnswers(t, pair)];
    var s2 := RunAppend(now, r1, s1, Tick(wait));
    var r2 := r1 + [Tick(wait)];
    u := RunAppend(now, r2, s2, FlightEnds(t, true));
    after := r2 + [FlightEnds(t, true)];
  }

  /** When the call fails on the way, every request on the flight can collect, and nothing happens to its cookies. */
  lemma AllUnchanged(s: State, t: Token, id: Id)
    requires Inv(s) && t in s.flights
    requires id in s.waits && s.waits[id].OnFlight? && s.waits[id].id == s.flights[t].id
    ensures Enabled(s, FlightEnds(t, false))
    ensures var u, w := Step(s, FlightEnds(t, false)), s.waits[id];
            Enabled(u, Collect(id))
            && Step(u, Collect(id)).log == u.log + [Responded(w.req, Some(w.token), Unchanged, s.now)]
  {
    var u := Step(s, FlightEnds(t, false));
    assert Remembered(u);
    CollectExactly(u, id);
  }

  // ----- Which refresh tokens are live -----

  /** The n-th action makes t live: the proxy issues it, or mints it in exchange for a live token. */
  predicate IssuedAt(now: Time, actions: seq<Action>, n: nat, t: Token)
    requires Run(now, actions).Some? && n < |actions|
  {
    || actions[n] == Login(t)
    || (actions[n].ProxyAnswers? && actions[n].pair.refresh == t
        && Run(now, actions[..n]).Some? && actions[n].token in Run(now, actions[..n]).value.live)
  }

  /** t is neither revoked nor presented to the proxy in any of the actions. */
  predicate Spared(actions: seq<Action>, t: Token) {
    forall a :: a in actions ==> a != Revoke(t) && !(a.ProxyAnswers? && a.token == t)
  }

  predicate LiveSince(now: Time, actions: seq<Action>, n: nat, t: Token)
    requires Run(now, actions).Some?
  {
    n < |actions| && IssuedAt(now, actions, n, t) && Spared(actions[n + 1..], t)
  }

  lemma LiveStep(s: State, a: Action, t: Token)
    requires SingleUse(s) && Enabled(s, a)
    ensures t in Step(s, a).live
            <==> || a == Login(t) || (a.ProxyAnswers? && a.pair.refresh == t && a.token in s.live)
                 || (t in s.live && a != Revoke(t) && !(a.ProxyAnswers? && a.token == t))
  {
  }

  lemma LiveSinceLast(now: Time, actions: seq<Action>, n: nat, t: Token)
    requires Run(now, actions).Some? && n < |actions| - 1
    ensures var last := |actions| - 1;
            && Run(now, actions[..last]).Some?
            && (LiveSince(now, actions, n, t)
                <==> LiveSince(now, actions[..last], n, t) && actions[last] != Revoke(t)
                     && !(actions[last].ProxyAnswers? && actions[last].token == t))
  {
    hide Enabled, Step;
    var last := |actions| - 1;
    var init := actions[..last];
    assert init[..n] == actions[..n] && init[n] == actions[n];
    assert actions[n + 1..] == init[n + 1..] + [actions[last]];
  }

  /** A refresh token is live exactly if it was issued or minted and has been neither revoked nor exchanged since. */
  lemma {:induction false} LiveExactly(now: Time, actions: seq<Action>, t: Token)
    requires Run(now, actions).Some?
    ensures t in Run(now, actions).value.live <==> exists n :: 0 <= n < |actions| && LiveSince(now, actions, n, t)
    decreases |actions|
  {
    if actions != [] {
      var last := |actions| - 1;
      var init, a := actions[..last], actions[last];
      LiveExactly(now, init, t);
      EveryRun(now, init);
      LiveStep(Run(now, init).value, a, t);
      assert actions[last + 1..] == [];
      assert LiveSince(now, actions, last, t) <==> IssuedAt(now, actions, last, t);
      hide Step, Enabled, LiveSince, Inv;
      forall n | 0 <= n < last
        ensures LiveSince(now, actions, n, t)
                <==> LiveSince(now, init, n, t) && a != Revoke(t) && !(a.ProxyAnswers? && a.token == t)
      {
        LiveSinceLast(now, actions, n, t);
      }
    }
  }
}
