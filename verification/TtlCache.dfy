/**
 * The double-checked cache inside a single-flight group (backend/internal/api/cache/cache.go), as a state machine
 * over the atomic steps of concurrent callers. Eviction and expiry are steps of the environment.
 */
module TtlCache {
  import opened Wrappers

  type Key = string
  type Caller = nat

  /** Where the flight of a key is: before the second lookup, inside fetch, or about to add to the LRU. */
  datatype Phase<V> = Recheck | Fetching | Storing(v: V)

  datatype Flight<V> = Flight(id: nat, phase: Phase<V>)

  datatype Landed<V, E> = Landed(key: Key, result: Result<V, E>)

  /** A caller has missed and is about to enter the group, or waits for a flight. */
  datatype Wait = AtDo(key: Key) | OnFlight(key: Key, id: nat)

  datatype Event<V, E> =
    | FetchStarted(key: Key)
    | FetchEnded(key: Key, result: Result<V, E>)
    | Evicted(key: Key)
    | Returned(caller: Caller, key: Key, result: Result<V, E>)

  datatype State<V, E> = State(
    lru: map<Key, V>, flights: map<Key, Flight<V>>, landed: map<nat, Landed<V, E>>, nextId: nat,
    waits: map<Caller, Wait>, log: seq<Event<V, E>>)

  datatype Action<V, E> =
    | Call(caller: Caller, key: Key)          // the first lookup
    | Enter(caller: Caller)                   // sf.Do: join the flight of the key or start one
    | SecondLookup(key: Key)                  // the lookup inside the flight
    | FetchReturns(key: Key, result: Result<V, E>)
    | Store(key: Key)                         // lru.Add, and the flight lands
    | Collect(caller: Caller)                 // sf.Do returns to one of its callers
    | Evict(key: Key)                         // TTL expiry or LRU eviction

  predicate Enabled<V, E>(s: State<V, E>, a: Action<V, E>) {
    match a
    case Call(c, _) => c !in s.waits
    case Enter(c) => c in s.waits && s.waits[c].AtDo?
    case SecondLookup(k) => k in s.flights && s.flights[k].phase.Recheck?
    case FetchReturns(k, _) => k in s.flights && s.flights[k].phase.Fetching?
    case Store(k) => k in s.flights && s.flights[k].phase.Storing?
    case Collect(c) => c in s.waits && s.waits[c].OnFlight? && s.waits[c].id in s.landed
    case Evict(k) => k in s.lru
  }

  function Land<V, E>(s: State<V, E>, k: Key, r: Result<V, E>): State<V, E>
    requires k in s.flights
  {
    s.(flights := s.flights - {k}, landed := s.landed[s.flights[k].id := Landed(k, r)])
  }

  function Log<V, E>(s: State<V, E>, e: Event<V, E>): State<V, E> {
    s.(log := s.log + [e])
  }

  /** One step; checkTwice says whether the flight looks the key up again before it fetches. */
  function Step<V, E>(s: State<V, E>, a: Action<V, E>, checkTwice: bool): State<V, E>
    requires Enabled(s, a)
  {
    match a
    case Call(c, k) =>
      if k in s.lru then Log(s, Returned(c, k, Ok(s.lru[k])))
      else s.(waits := s.waits[c := AtDo(k)])
    case Enter(c) =>
      var k := s.waits[c].key;
      if k in s.flights then s.(waits := s.waits[c := OnFlight(k, s.flights[k].id)])
      else s.(flights := s.flights[k := Flight(s.nextId, Recheck)],
              waits := s.waits[c := OnFlight(k, s.nextId)],
              nextId := s.nextId + 1)
    case SecondLookup(k) =>
      if checkTwice && k in s.lru then Land(s, k, Ok(s.lru[k]))
      else Log(s.(flights := s.flights[k := s.flights[k].(phase := Fetching)]), FetchStarted(k))
    case FetchReturns(k, r) =>
      var s' := Log(s, FetchEnded(k, r));
      if r.Ok? then s'.(flights := s.flights[k := s.flights[k].(phase := Storing(r.value))])
      else Land(s', k, r)
    case Store(k) =>
      Land(s.(lru := s.lru[k := s.flights[k].phase.v]), k, Ok(s.flights[k].phase.v))
    case Collect(c) =>
      var w := s.waits[c];
      Log(s.(waits := s.waits - {c}), Returned(c, w.key, s.landed[w.id].result))
    case Evict(k) =>
      Log(s.(lru := s.lru - {k}), Evicted(k))
  }

  function Init<V, E>(): State<V, E> {
    State(map[], map[], map[], 0, map[], [])
  }

  /** The state after actions from the empty cache, or None if some action was not enabled at its turn. */
  function Run<V, E>(actions: seq<Action<V, E>>, checkTwice: bool): Option<State<V, E>>
    decreases |actions|
  {
    if actions == [] then Some(Init())
    else
      var before := Run(actions[..|actions| - 1], checkTwice);
      var a := actions[|actions| - 1];
      if before.Some? && Enabled(before.value, a) then Some(Step(before.value, a, checkTwice)) else None
  }

  // ----- What the log of a run looks like -----

  /** r is the outcome of some fetch for k. */
  predicate Fetched<V(==), E(==)>(log: seq<Event<V, E>>, k: Key, r: Result<V, E>) {
    FetchEnded(k, r) in log
  }

  /** Started but not yet ended fetches for k. */
  function Running<V, E>(log: seq<Event<V, E>>, k: Key): int {
    if log == [] then 0
    else
      var n := Running(log[..|log| - 1], k);
      match log[|log| - 1]
      case FetchStarted(l) => if l == k then n + 1 else n
      case FetchEnded(l, _) => if l == k then n - 1 else n
      case _ => n
  }

  predicate Succeeded<V, E>(e: Event<V, E>, k: Key) {
    e.FetchEnded? && e.key == k && e.result.Ok?
  }

  /** Between the success at i and any later start of a fetch for the same key there is an eviction of the key. */
  ghost predicate RefetchOnlyAfterEviction<V(!new), E(!new)>(log: seq<Event<V, E>>) {
    forall i, j, k: Key ::
      0 <= i < j < |log| && Succeeded(log[i], k) && log[j] == FetchStarted(k)
      ==> EvictedBetween(log, i, j, k)
  }

  predicate EvictedBetween<V, E>(log: seq<Event<V, E>>, i: nat, j: nat, k: Key) {
    exists m :: i < m < j && m < |log| && log[m] == Evicted(k)
  }

  // ----- The invariant -----

  ghost predicate Safe<V(!new), E(!new)>(s: State<V, E>) {
    ValuesFetched(s) && ReturnsFetched(s) && FlightsDistinct(s) && AllBoarded(s) && OneFetch(s)
  }

  /** Whatever is stored, about to be stored, or has landed is the outcome of a fetch for its key. */
  ghost predicate ValuesFetched<V, E>(s: State<V, E>) {
    && (forall k :: k in s.lru ==> Fetched(s.log, k, Ok(s.lru[k])))
    && (forall k :: k in s.flights && s.flights[k].phase.Storing?
                    ==> Fetched(s.log, k, Ok(s.flights[k].phase.v)))
    && (forall id :: id in s.landed ==> Fetched(s.log, s.landed[id].key, s.landed[id].result))
  }

  ghost predicate ReturnsFetched<V, E>(s: State<V, E>) {
    forall i :: 0 <= i < |s.log| && s.log[i].Returned? ==> Fetched(s.log, s.log[i].key, s.log[i].result)
  }

  ghost predicate FlightsDistinct<V, E>(s: State<V, E>) {
    && (forall k :: k in s.flights ==> s.flights[k].id < s.nextId && s.flights[k].id !in s.landed)
    && (forall k, l :: k in s.flights && l in s.flights && k != l ==> s.flights[k].id != s.flights[l].id)
    && (forall id :: id in s.landed ==> id < s.nextId)
  }

  ghost predicate AllBoarded<V, E>(s: State<V, E>) {
    forall c :: c in s.waits && s.waits[c].OnFlight? ==> Boarded(s, s.waits[c])
  }

  /** A key has one running fetch while its flight is inside fetch, and none otherwise. */
  ghost predicate OneFetch<V(!new), E(!new)>(s: State<V, E>) {
    forall k: Key :: Running(s.log, k) == if InFetch(s, k) then 1 else 0
  }

  /** A waiting caller's flight is in the air or has landed, with the caller's key. */
  ghost predicate Boarded<V, E>(s: State<V, E>, w: Wait)
    requires w.OnFlight?
  {
    || (w.key in s.flights && s.flights[w.key].id == w.id)
    || (w.id in s.landed && s.landed[w.id].key == w.key)
  }

  /** A success not followed by an eviction is still in the LRU, or about to be added to it. */
  ghost predicate Remembered<V(!new), E(!new)>(s: State<V, E>) {
    forall i, k: Key :: 0 <= i < |s.log| && Succeeded(s.log[i], k) && !EvictedBetween(s.log, i, |s.log|, k)
                        ==> k in s.lru || (k in s.flights && s.flights[k].phase.Storing?)
  }

  /** What the second lookup buys: a fetch runs only for a key the LRU does not hold. */
  ghost predicate FetchingMissing<V, E>(s: State<V, E>) {
    forall k :: k in s.flights && s.flights[k].phase.Fetching? ==> k !in s.lru
  }

  /** Any two successes for a key have an eviction of it between them. */
  ghost predicate SuccessesApart<V(!new), E(!new)>(log: seq<Event<V, E>>) {
    forall i, j, k: Key ::
      0 <= i < j < |log| && Succeeded(log[i], k) && Succeeded(log[j], k) ==> EvictedBetween(log, i, j, k)
  }

  lemma RunningStep<V, E>(log: seq<Event<V, E>>, e: Event<V, E>, k: Key)
    ensures Running(log + [e], k)
            == Running(log, k) + (if e == FetchStarted(k) then 1 else 0)
               - (if e.FetchEnded? && e.key == k then 1 else 0)
  {
    assert (log + [e])[..|log|] == log;
  }

  lemma LogGrows<V, E>(s: State<V, E>, a: Action<V, E>, checkTwice: bool)
    requires Enabled(s, a)
    ensures s.log <= Step(s, a, checkTwice).log
    ensures |Step(s, a, checkTwice).log| <= |s.log| + 1
  {
  }

  lemma FetchedStays<V, E>(log: seq<Event<V, E>>, more: seq<Event<V, E>>, k: Key, r: Result<V, E>)
    requires log <= more && Fetched(log, k, r)
    ensures Fetched(more, k, r)
  {
    var i :| 0 <= i < |log| && log[i] == FetchEnded(k, r);
    assert more[i] == FetchEnded(k, r);
  }

  lemma ValuesStep<V, E>(s: State<V, E>, a: Action<V, E>, checkTwice: bool)
    requires ValuesFetched(s) && Enabled(s, a)
    ensures ValuesFetched(Step(s, a, checkTwice))
  {
    var t := Step(s, a, checkTwice);
    forall k | k in t.lru ensures Fetched(t.log, k, Ok(t.lru[k])) {
      LruValue(s, a, checkTwice, k);
    }
    forall k | k in t.flights && t.flights[k].phase.Storing?
      ensures Fetched(t.log, k, Ok(t.flights[k].phase.v))
    {
      FlightValue(s, a, checkTwice, k);
    }
    forall id | id in t.landed ensures Fetched(t.log, t.landed[id].key, t.landed[id].result) {
      LandedValue(s, a, checkTwice, id);
    }
  }

  lemma LruValue<V, E>(s: State<V, E>, a: Action<V, E>, checkTwice: bool, k: Key)
    requires ValuesFetched(s) && Enabled(s, a) && k in Step(s, a, checkTwice).lru
    ensures Fetched(Step(s, a, checkTwice).log, k, Ok(Step(s, a, checkTwice).lru[k]))
  {
    LogGrows(s, a, checkTwice);
    FetchedStays(s.log, Step(s, a, checkTwice).log, k, Ok(Step(s, a, checkTwice).lru[k]));
  }

  lemma FlightValue<V, E>(s: State<V, E>, a: Action<V, E>, checkTwice: bool, k: Key)
    requires ValuesFetched(s) && Enabled(s, a)
    requires k in Step(s, a, checkTwice).flights && Step(s, a, checkTwice).flights[k].phase.Storing?
    ensures Fetched(Step(s, a, checkTwice).log, k, Ok(Step(s, a, checkTwice).flights[k].phase.v))
  {
    var t := Step(s, a, checkTwice);
    LogGrows(s, a, checkTwice);
    if a.FetchReturns? && a.key == k {
      assert t.log[|s.log|] == FetchEnded(k, a.result);
    } else {
      FetchedStays(s.log, t.log, k, Ok(t.flights[k].phase.v));
    }
  }

  lemma LandedValue<V, E>(s: State<V, E>, a: Action<V, E>, checkTwice: bool, id: nat)
    requires ValuesFetched(s) && Enabled(s, a) && id in Step(s, a, checkTwice).landed
    ensures var t := Step(s, a, checkTwice);
            Fetched(t.log, t.landed[id].key, t.landed[id].result)
  {
    var t := Step(s, a, checkTwice);
    LogGrows(s, a, checkTwice);
    if a.FetchReturns? && a.result.Err? && id == s.flights[a.key].id {
      assert t.log[|s.log|] == FetchEnded(a.key, a.result);
    } else {
      FetchedStays(s.log, t.log, t.landed[id].key, t.landed[id].result);
    }
  }

  lemma ReturnsStep<V, E>(s: State<V, E>, a: Action<V, E>, checkTwice: bool)
    requires ValuesFetched(s) && ReturnsFetched(s) && AllBoarded(s) && FlightsDistinct(s) && Enabled(s, a)
    ensures ReturnsFetched(Step(s, a, checkTwice))
  {
    LogGrows(s, a, checkTwice);
    var t := Step(s, a, checkTwice);
    forall i | 0 <= i < |t.log| && t.log[i].Returned? ensures Fetched(t.log, t.log[i].key, t.log[i].result) {
      if i < |s.log| {
        assert t.log[i] == s.log[i];
      } else if a.Collect? {
        assert Boarded(s, s.waits[a.caller]);
      }
    }
  }

  lemma FlightsStep<V, E>(s: State<V, E>, a: Action<V, E>, checkTwice: bool)
    requires FlightsDistinct(s) && Enabled(s, a)
    ensures FlightsDistinct(Step(s, a, checkTwice))
  {
  }

  lemma BoardedStep<V, E>(s: State<V, E>, a: Action<V, E>, checkTwice: bool)
    requires FlightsDistinct(s) && AllBoarded(s) && Enabled(s, a)
    ensures AllBoarded(Step(s, a, checkTwice))
  {
    var t := Step(s, a, checkTwice);
    forall c | c in t.waits && t.waits[c].OnFlight? ensures Boarded(t, t.waits[c]) {
      if c in s.waits && s.waits[c].OnFlight? {
        StaysBoarded(s, a, checkTwice, s.waits[c]);
      }
    }
  }

  lemma StaysBoarded<V, E>(s: State<V, E>, a: Action<V, E>, checkTwice: bool, w: Wait)
    requires FlightsDistinct(s) && Enabled(s, a) && w.OnFlight? && Boarded(s, w)
    ensures Boarded(Step(s, a, checkTwice), w)
  {
  }

  lemma OneFetchStep<V(!new), E(!new)>(s: State<V, E>, a: Action<V, E>, checkTwice: bool)
    requires OneFetch(s) && Enabled(s, a)
    ensures OneFetch(Step(s, a, checkTwice))
  {
    var t := Step(s, a, checkTwice);
    forall k: Key ensures Running(t.log, k) == if InFetch(t, k) then 1 else 0 {
      RunningAfter(s, a, checkTwice, k);
    }
  }

  predicate InFetch<V, E>(s: State<V, E>, k: Key) {
    k in s.flights && s.flights[k].phase.Fetching?
  }

  /** A key's flight goes into fetch as the log says so, and comes out of it likewise. */
  lemma FetchEffect<V, E>(s: State<V, E>, a: Action<V, E>, checkTwice: bool, k: Key) returns (more: seq<Event<V, E>>)
    requires Enabled(s, a)
    ensures var t := Step(s, a, checkTwice);
            && |more| <= 1 && t.log == s.log + more
            && (if more != [] && more[0] == FetchStarted(k) then !InFetch(s, k) && InFetch(t, k)
                else if more != [] && more[0].FetchEnded? && more[0].key == k then InFetch(s, k) && !InFetch(t, k)
                else InFetch(s, k) == InFetch(t, k))
  {
    LogGrows(s, a, checkTwice);
    more := Step(s, a, checkTwice).log[|s.log|..];
  }

  lemma RunningAfter<V, E>(s: State<V, E>, a: Action<V, E>, checkTwice: bool, k: Key)
    requires Enabled(s, a) && Running(s.log, k) == if InFetch(s, k) then 1 else 0
    ensures Running(Step(s, a, checkTwice).log, k) == if InFetch(Step(s, a, checkTwice), k) then 1 else 0
  {
    hide Step, Running, InFetch;
    var more := FetchEffect(s, a, checkTwice, k);
    if more != [] {
      assert more == [more[0]];
      RunningStep(s.log, more[0], k);
    } else {
      assert s.log + [] == s.log;
    }
  }

  lemma SafeStep<V(!new), E(!new)>(s: State<V, E>, a: Action<V, E>, checkTwice: bool)
    requires Safe(s) && Enabled(s, a)
    ensures Safe(Step(s, a, checkTwice))
  {
    hide Step;
    ValuesStep(s, a, checkTwice);
    ReturnsStep(s, a, checkTwice);
    FlightsStep(s, a, checkTwice);
    BoardedStep(s, a, checkTwice);
    OneFetchStep(s, a, checkTwice);
  }

  // ----- One success per key and eviction -----

  lemma EvictionStays<V, E>(log: seq<Event<V, E>>, more: seq<Event<V, E>>, i: nat, k: Key)
    requires log <= more
    ensures EvictedBetween(log, i, |log|, k) <==> EvictedBetween(more, i, |log|, k)
    ensures EvictedBetween(more, i, |log|, k) ==> EvictedBetween(more, i, |more|, k)
  {
  }

  lemma RememberedStep<V(!new), E(!new)>(s: State<V, E>, a: Action<V, E>, checkTwice: bool)
    requires Remembered(s) && Enabled(s, a)
    ensures Remembered(Step(s, a, checkTwice))
  {
    var t := Step(s, a, checkTwice);
    LogGrows(s, a, checkTwice);
    if a.Evict? {
      assert t.log[|s.log|] == Evicted(a.key);
    }
    forall i, k: Key | 0 <= i < |t.log| && Succeeded(t.log[i], k) && !EvictedBetween(t.log, i, |t.log|, k)
      ensures k in t.lru || (k in t.flights && t.flights[k].phase.Storing?)
    {
      if i < |s.log| {
        assert Succeeded(s.log[i], k);
        EvictionStays(s.log, t.log, i, k);
      }
    }
  }

  lemma MissingStep<V, E>(s: State<V, E>, a: Action<V, E>)
    requires FetchingMissing(s) && Enabled(s, a)
    ensures FetchingMissing(Step(s, a, true))
  {
  }

  /** A success or a start of a fetch at the end of the log: every earlier success of its key was evicted since. */
  lemma ApartStep<V(!new), E(!new)>(s: State<V, E>, a: Action<V, E>)
    requires SuccessesApart(s.log) && RefetchOnlyAfterEviction(s.log) && Remembered(s) && FetchingMissing(s)
    requires Enabled(s, a)
    ensures SuccessesApart(Step(s, a, true).log) && RefetchOnlyAfterEviction(Step(s, a, true).log)
  {
    var t := Step(s, a, true);
    LogGrows(s, a, true);
    forall i, j, k: Key | 0 <= i < j < |t.log| && Succeeded(t.log[i], k)
                          && (Succeeded(t.log[j], k) || t.log[j] == FetchStarted(k))
      ensures EvictedBetween(t.log, i, j, k)
    {
      assert Succeeded(s.log[i], k);
      if j < |s.log| {
        assert t.log[j] == s.log[j];
        assert EvictedBetween(s.log, i, j, k);
        var m :| i < m < j && s.log[m] == Evicted(k);
        assert t.log[m] == Evicted(k);
      } else {
        EvictionStays(s.log, t.log, i, k);
        if a.FetchReturns? {
          assert a.key == k;
        } else {
          assert a == SecondLookup(k);
        }
      }
    }
  }

  ghost predicate Inv<V(!new), E(!new)>(s: State<V, E>) {
    && Safe(s) && Remembered(s) && FetchingMissing(s)
    && SuccessesApart(s.log) && RefetchOnlyAfterEviction(s.log)
  }

  /**
   * Every interleaving, at every point of it (a prefix of a run is a run): one fetch per key at a time, everything
   * stored or returned was fetched for that key, and a key is fetched again after a success only once evicted.
   */
  lemma {:induction false} EveryRun<V(!new), E(!new)>(actions: seq<Action<V, E>>)
    requires Run(actions, true).Some?
    ensures Inv(Run(actions, true).value)
    decreases |actions|
  {
    if actions == [] {
      assert Run(actions, true).value == Init();
    } else {
      var init, a := actions[..|actions| - 1], actions[|actions| - 1];
      EveryRun(init);
      var s := Run(init, true).value;
      SafeStep(s, a, true);
      RememberedStep(s, a, true);
      MissingStep(s, a);
      ApartStep(s, a);
    }
  }

  /** Without evictions of a key there is one successful fetch, and all callers that get a value get that one. */
  lemma OneValue<V(!new), E(!new)>(actions: seq<Action<V, E>>, k: Key, c: Caller, d: Caller, v: V, w: V)
    requires Run(actions, true).Some? && Evicted(k) !in Run(actions, true).value.log
    requires Returned(c, k, Ok(v)) in Run(actions, true).value.log
    requires Returned(d, k, Ok(w)) in Run(actions, true).value.log
    ensures v == w
  {
    EveryRun(actions);
    var log := Run(actions, true).value.log;
    var x :| 0 <= x < |log| && log[x] == Returned(c, k, Ok(v));
    var y :| 0 <= y < |log| && log[y] == Returned(d, k, Ok(w));
    assert Fetched(log, k, Ok(v)) && Fetched(log, k, Ok(w));
    var i :| 0 <= i < |log| && log[i] == FetchEnded(k, Ok(v));
    var j :| 0 <= j < |log| && log[j] == FetchEnded(k, Ok(w));
    assert Succeeded(log[i], k) && Succeeded(log[j], k);
    assert !EvictedBetween(log, i, j, k) && !EvictedBetween(log, j, i, k);
  }

  /** Nobody is stuck: a caller in the middle of Get can move, or its flight can. */
  lemma AlwaysMoves<V(!new), E(!new)>(actions: seq<Action<V, E>>, c: Caller, anyResult: Result<V, E>)
    requires Run(actions, true).Some? && c in Run(actions, true).value.waits
    ensures var s := Run(actions, true).value;
            var k := s.waits[c].key;
            || Enabled(s, Enter(c)) || Enabled(s, Collect(c))
            || Enabled(s, SecondLookup(k)) || Enabled(s, FetchReturns(k, anyResult)) || Enabled(s, Store(k))
  {
    EveryRun(actions);
    var s := Run(actions, true).value;
    if s.waits[c].OnFlight? {
      assert Boarded(s, s.waits[c]);
    }
  }

  // ----- What the LRU holds -----

  /** The value of the latest successful fetch for k. */
  function LastSuccess<V, E>(log: seq<Event<V, E>>, k: Key): Option<V> {
    if log == [] then None
    else
      match log[|log| - 1]
      case FetchEnded(l, Ok(v)) => if l == k then Some(v) else LastSuccess(log[..|log| - 1], k)
      case _ => LastSuccess(log[..|log| - 1], k)
  }

  lemma LastSuccessAppend<V, E>(log: seq<Event<V, E>>, e: Event<V, E>, k: Key)
    ensures LastSuccess(log + [e], k) == if Succeeded(e, k) then Some(e.result.value) else LastSuccess(log, k)
  {
    assert (log + [e])[..|log|] == log;
  }

  ghost predicate StoringLatest<V, E>(s: State<V, E>) {
    forall k :: k in s.flights && s.flights[k].phase.Storing? ==> LastSuccess(s.log, k) == Some(s.flights[k].phase.v)
  }

  lemma LatestStep<V, E>(s: State<V, E>, a: Action<V, E>)
    requires StoringLatest(s) && Enabled(s, a)
    ensures StoringLatest(Step(s, a, true))
  {
    hide LastSuccess;
    var t := Step(s, a, true);
    LogGrows(s, a, true);
    forall k | k in t.flights && t.flights[k].phase.Storing? ensures LastSuccess(t.log, k) == Some(t.flights[k].phase.v) {
      if |t.log| > |s.log| {
        assert t.log == s.log + [t.log[|s.log|]];
        LastSuccessAppend(s.log, t.log[|s.log|], k);
      } else {
        assert t.log == s.log;
      }
    }
  }

  lemma {:induction false} LatestRun<V(!new), E(!new)>(actions: seq<Action<V, E>>)
    requires Run(actions, true).Some?
    ensures StoringLatest(Run(actions, true).value)
    decreases |actions|
  {
    if actions != [] {
      var init, a := actions[..|actions| - 1], actions[|actions| - 1];
      LatestRun(init);
      LatestStep(Run(init, true).value, a);
    }
  }

  /** The n-th action adds v for k, the value of the latest success for k, and k has not been evicted since. */
  ghost predicate KeptSince<V, E>(actions: seq<Action<V, E>>, n: nat, k: Key, v: V) {
    && n < |actions| && actions[n] == Store(k)
    && Run(actions[..n], true).Some? && LastSuccess(Run(actions[..n], true).value.log, k) == Some(v)
    && (forall j :: n < j < |actions| ==> actions[j] != Store(k) && actions[j] != Evict(k))
  }

  lemma KeptSinceLast<V, E>(actions: seq<Action<V, E>>, n: nat, k: Key, v: V)
    requires n < |actions| - 1
    ensures var last := |actions| - 1;
            KeptSince(actions, n, k, v)
            <==> KeptSince(actions[..last], n, k, v) && actions[last] != Store(k) && actions[last] != Evict(k)
  {
    hide Run, LastSuccess;
    var last := |actions| - 1;
    var init := actions[..last];
    assert init[..n] == actions[..n];
    if KeptSince(init, n, k, v) && actions[last] != Store(k) && actions[last] != Evict(k) {
      forall j | n < j < |actions| ensures actions[j] != Store(k) && actions[j] != Evict(k) {
        assert j < last ==> actions[j] == init[j];
      }
    }
    if KeptSince(actions, n, k, v) {
      forall j | n < j < last ensures init[j] != Store(k) && init[j] != Evict(k) {
        assert actions[j] == init[j];
      }
    }
  }

  lemma LruStep<V, E>(s: State<V, E>, a: Action<V, E>, k: Key, v: V)
    requires Enabled(s, a) && StoringLatest(s)
    ensures var t := Step(s, a, true);
            (k in t.lru && t.lru[k] == v)
            <==> || (a == Store(k) && LastSuccess(s.log, k) == Some(v))
                 || (k in s.lru && s.lru[k] == v && a != Store(k) && a != Evict(k))
  {
    hide LastSuccess;
  }

  /** In every run the LRU holds a value exactly if it was added as the key's latest success and not evicted since. */
  lemma {:induction false} LruExactly<V(!new), E(!new)>(actions: seq<Action<V, E>>, k: Key, v: V)
    requires Run(actions, true).Some?
    ensures var lru := Run(actions, true).value.lru;
            (k in lru && lru[k] == v) <==> exists n :: 0 <= n < |actions| && KeptSince(actions, n, k, v)
    decreases |actions|
  {
    if actions != [] {
      var last := |actions| - 1;
      var init, a := actions[..last], actions[last];
      LruExactly(init, k, v);
      LatestRun(init);
      LruStep(Run(init, true).value, a, k, v);
      assert KeptSince(actions, last, k, v) <==> a == Store(k) && LastSuccess(Run(init, true).value.log, k) == Some(v);
      hide Step, Enabled, KeptSince, StoringLatest, LastSuccess;
      forall n | 0 <= n < last
        ensures KeptSince(actions, n, k, v) <==> KeptSince(init, n, k, v) && a != Store(k) && a != Evict(k)
      {
        KeptSinceLast(actions, n, k, v);
      }
    }
  }

  // ----- Every call is answered once -----

  function Calls<V, E>(actions: seq<Action<V, E>>, c: Caller): nat {
    if actions == [] then 0
    else
      var last := actions[|actions| - 1];
      Calls(actions[..|actions| - 1], c) + if last.Call? && last.caller == c then 1 else 0
  }

  function Answers<V, E>(log: seq<Event<V, E>>, c: Caller): nat {
    if log == [] then 0
    else
      var last := log[|log| - 1];
      Answers(log[..|log| - 1], c) + if last.Returned? && last.caller == c then 1 else 0
  }

  lemma AnswersAppend<V, E>(log: seq<Event<V, E>>, e: Event<V, E>, c: Caller)
    ensures Answers(log + [e], c) == Answers(log, c) + if e.Returned? && e.caller == c then 1 else 0
  {
    assert (log + [e])[..|log|] == log;
  }

  lemma AnswersStep<V, E>(s: State<V, E>, a: Action<V, E>, c: Caller)
    requires Enabled(s, a)
    ensures var t := Step(s, a, true);
            Answers(t.log, c) + (if c in t.waits then 1 else 0)
            == Answers(s.log, c) + (if c in s.waits then 1 else 0) + if a.Call? && a.caller == c then 1 else 0
  {
    hide Answers;
    var t := Step(s, a, true);
    LogGrows(s, a, true);
    if |t.log| > |s.log| {
      assert t.log == s.log + [t.log[|s.log|]];
      AnswersAppend(s.log, t.log[|s.log|], c);
    } else {
      assert t.log == s.log;
    }
  }

  /** Each call of a caller has returned, but for the one it may be in. */
  lemma {:induction false} AnsweredOnce<V(!new), E(!new)>(actions: seq<Action<V, E>>, c: Caller)
    requires Run(actions, true).Some?
    ensures var s := Run(actions, true).value;
            Calls(actions, c) == Answers(s.log, c) + if c in s.waits then 1 else 0
    decreases |actions|
  {
    if actions != [] {
      var init, a := actions[..|actions| - 1], actions[|actions| - 1];
      AnsweredOnce(init, c);
      AnswersStep(Run(init, true).value, a, c);
    }
  }

  /** A flight in the air lands within three steps. */
  lemma FlightLands<V(!new), E(!new)>(s: State<V, E>, k: Key, outcome: Result<V, E>)
    returns (more: seq<Action<V, E>>, t: State<V, E>)
    requires k in s.flights
    ensures |more| <= 3 && RunFrom(s, more) == Some(t)
    ensures t.waits == s.waits && s.flights[k].id in t.landed
  {
    hide RunFrom;
    var a, s1, s2 := SecondLookup(k), s, s;
    var m1, m2: seq<Action<V, E>> := [], [];
    if s.flights[k].phase.Recheck? {
      s1 := Step(s, a, true);
      m1 := [a];
    }
    s2 := s1;
    if k in s1.flights && s1.flights[k].phase.Fetching? {
      s2 := Step(s1, FetchReturns(k, outcome), true);
      m2 := [FetchReturns(k, outcome)];
    }
    t := s2;
    var m3: seq<Action<V, E>> := [];
    if k in s2.flights {
      t := Step(s2, Store(k), true);
      m3 := [Store(k)];
    }
    MaybeStep(s2, m3, t, []);
    MaybeStep(s1, m2, s2, m3 + []);
    MaybeStep(s, m1, s1, m2 + (m3 + []));
    NoSteps(t);
    more := m1 + (m2 + (m3 + []));
  }

  lemma NoSteps<V, E>(s: State<V, E>)
    ensures RunFrom(s, []) == Some(s)
  {
  }

  lemma MaybeStep<V, E>(s: State<V, E>, m: seq<Action<V, E>>, t: State<V, E>, rest: seq<Action<V, E>>)
    requires (m == [] && t == s) || (|m| == 1 && Enabled(s, m[0]) && t == Step(s, m[0], true))
    ensures RunFrom(s, m + rest) == RunFrom(t, rest)
  {
    if m == [] {
      assert m + rest == rest;
    } else {
      assert m == [m[0]];
      RunFromCons(s, m[0], rest);
    }
  }

  lemma {:induction false} RunFromConcat<V, E>(s: State<V, E>, a: seq<Action<V, E>>, b: seq<Action<V, E>>)
    requires RunFrom(s, a).Some?
    ensures RunFrom(s, a + b) == RunFrom(RunFrom(s, a).value, b)
    decreases |a|
  {
    if a == [] {
      assert a + b == b;
    } else {
      assert (a + b)[0] == a[0] && (a + b)[1..] == a[1..] + b;
      RunFromConcat(Step(s, a[0], true), a[1..], b);
    }
  }

  /** From any reachable state a caller inside Get can have its answer within five steps of its own and its flight. */
  lemma CanFinish<V(!new), E(!new)>(actions: seq<Action<V, E>>, c: Caller, outcome: Result<V, E>)
    returns (more: seq<Action<V, E>>, r: Result<V, E>)
    requires Run(actions, true).Some? && c in Run(actions, true).value.waits
    ensures |more| <= 5
    ensures var s := Run(actions, true).value;
            var end := RunFrom(s, more);
            && end.Some? && c !in end.value.waits && end.value.log != []
            && end.value.log[|end.value.log| - 1] == Returned(c, s.waits[c].key, r)
  {
    hide RunFrom, Run;
    EveryRun(actions);
    var s := Run(actions, true).value;
    var k := s.waits[c].key;
    var s1 := s;
    var m1: seq<Action<V, E>> := [];
    if s.waits[c].AtDo? {
      s1 := Step(s, Enter(c), true);
      m1 := [Enter(c)];
      SafeStep(s, Enter(c), true);
    }
    assert s1.waits[c].OnFlight? && s1.waits[c].key == k && Boarded(s1, s1.waits[c]);
    var m2: seq<Action<V, E>>, s2 := [], s1;
    NoSteps(s1);
    if s1.waits[c].id !in s1.landed {
      m2, s2 := FlightLands(s1, k, outcome);
    }
    LastCollect(s2, c);
    RunFromConcat(s1, m2, [Collect(c)]);
    MaybeStep(s, m1, s1, m2 + [Collect(c)]);
    more := m1 + (m2 + [Collect(c)]);
    r := s2.landed[s2.waits[c].id].result;
  }

  /**
   * Why the flight looks the key up again: without it, two callers that miss at first and enter the group one
   * after the other both fetch, although the first fetch succeeded and nothing was evicted.
   */
  lemma WithoutSecondLookup(k: Key)
    ensures var run := [Call(0, k), Call(1, k), Enter(0), SecondLookup(k), FetchReturns(k, Ok(7)), Store(k),
                        Enter(1), SecondLookup(k)];
            && Run<int, int>(run, false).Some?
            && !RefetchOnlyAfterEviction(Run<int, int>(run, false).value.log)
  {
    var r6, s6 := FirstCallerDone(k);
    var r7 := r6 + [Enter(1)];
    var s7 := RunAppend(r6, s6, Enter(1), false);
    var s8 := RunAppend(r7, s7, SecondLookup(k), false);
    assert s8.log == [FetchStarted(k), FetchEnded(k, Ok(7)), FetchStarted(k)];
    assert Succeeded(s8.log[1], k) && !EvictedBetween(s8.log, 1, 2, k);
    assert r7 + [SecondLookup(k)]
           == [Call(0, k), Call(1, k), Enter(0), SecondLookup(k), FetchReturns(k, Ok(7)), Store(k),
               Enter(1), SecondLookup(k)];
  }

  lemma FirstCallerDone(k: Key) returns (r: seq<Action<int, int>>, s: State<int, int>)
    ensures r == [Call(0, k), Call(1, k), Enter(0), SecondLookup(k), FetchReturns(k, Ok(7)), Store(k)]
    ensures Run(r, false) == Some(s) && s.flights == map[] && 1 in s.waits && s.waits[1] == AtDo(k)
    ensures s.log == [FetchStarted(k), FetchEnded(k, Ok(7))]
  {
    var r0: seq<Action<int, int>> := [];
    var r1 := r0 + [Call(0, k)];
    var r2 := r1 + [Call(1, k)];
    var r3 := r2 + [Enter(0)];
    var r4 := r3 + [SecondLookup(k)];
    var r5 := r4 + [FetchReturns(k, Ok(7))];
    r := r5 + [Store(k)];
    hide Run;
    EmptyRun();
    var s1 := RunAppend(r0, Init(), Call(0, k), false);
    var s2 := RunAppend(r1, s1, Call(1, k), false);
    var s3 := RunAppend(r2, s2, Enter(0), false);
    var s4 := RunAppend(r3, s3, SecondLookup(k), false);
    var s5 := RunAppend(r4, s4, FetchReturns(k, Ok(7)), false);
    s := RunAppend(r5, s5, Store(k), false);
    assert s.flights == map[];
  }

  lemma EmptyRun()
    ensures Run<int, int>([], false) == Some(Init())
  {
  }

  lemma RunAppend<V, E>(actions: seq<Action<V, E>>, s: State<V, E>, a: Action<V, E>, checkTwice: bool)
    returns (t: State<V, E>)
    requires Run(actions, checkTwice) == Some(s) && Enabled(s, a)
    ensures t == Step(s, a, checkTwice) && Run(actions + [a], checkTwice) == Some(t)
  {
    t := Step(s, a, checkTwice);
    assert (actions + [a])[..|actions|] == actions;
  }

  // ----- One caller's view -----

  /**
   * The cache object as one caller meets it. Between its two lookups other callers may have changed the LRU to
   * interim; outcome is what fetch returns if it is called.
   */
  class TTLCache<V, E> {
    var lru: map<Key, V>

    constructor ()
      ensures lru == map[]
    {
      lru := map[];
    }

    method Get(key: Key, interim: map<Key, V>, outcome: Result<V, E>) returns (r: Result<V, E>)
      modifies this
      ensures key in old(lru) ==> lru == old(lru) && r == Ok(old(lru)[key])
      ensures key !in old(lru) ==> (lru, r) == Flown(interim, key, outcome)
      ensures key !in old(lru) && key in interim ==> lru == interim && r == Ok(interim[key])
      ensures key !in old(lru) && key !in interim ==>
                r == outcome && lru == if outcome.Ok? then interim[key := outcome.value] else interim
    {
      if key in lru {
        return Ok(lru[key]);
      }
      lru := interim;
      if key in lru {
        return Ok(lru[key]);
      }
      if outcome.Err? {
        return outcome;
      }
      lru := lru[key := outcome.value];
      return outcome;
    }
  }

  function Flown<V, E>(lru: map<Key, V>, key: Key, outcome: Result<V, E>): (map<Key, V>, Result<V, E>) {
    if key in lru then (lru, Ok(lru[key]))
    else if outcome.Err? then (lru, outcome)
    else (lru[key := outcome.value], outcome)
  }

  function RunFrom<V, E>(s: State<V, E>, actions: seq<Action<V, E>>): Option<State<V, E>>
    decreases |actions|
  {
    if actions == [] then Some(s)
    else if Enabled(s, actions[0]) then RunFrom(Step(s, actions[0], true), actions[1..]) else None
  }

  lemma RunFromCons<V, E>(s: State<V, E>, a: Action<V, E>, rest: seq<Action<V, E>>)
    requires Enabled(s, a)
    ensures RunFrom(s, [a] + rest) == RunFrom(Step(s, a, true), rest)
  {
    assert ([a] + rest)[1..] == rest;
  }

  /** The steps of the flight a caller starts and collects, with nobody else moving. */
  function FlightActions<V, E>(hit: bool, c: Caller, key: Key, outcome: Result<V, E>): seq<Action<V, E>> {
    [Enter(c)] + ([SecondLookup(key)] + FlightTail(hit, c, key, outcome))
  }

  function FlightTail<V, E>(hit: bool, c: Caller, key: Key, outcome: Result<V, E>): seq<Action<V, E>> {
    if hit then [Collect(c)]
    else [FetchReturns(key, outcome)] + if outcome.Ok? then [Store(key)] + [Collect(c)] else [Collect(c)]
  }

  /** What one caller sees is what the steps of its flight amount to. */
  lemma FlightRefines<V(!new), E(!new)>(s: State<V, E>, c: Caller, key: Key, outcome: Result<V, E>)
    requires c in s.waits && s.waits[c] == AtDo(key) && key !in s.flights
    ensures EndsWith(RunFrom(s, FlightActions(key in s.lru, c, key, outcome)), s, c, key,
                     Flown(s.lru, key, outcome))
  {
    hide RunFrom;
    var s2 := Step(s, Enter(c), true);
    var s3 := Step(s2, SecondLookup(key), true);
    var tail := FlightTail(key in s.lru, c, key, outcome);
    RunFromCons(s, Enter(c), [SecondLookup(key)] + tail);
    RunFromCons(s2, SecondLookup(key), tail);
    if key in s.lru {
      LastCollect(s3, c);
    } else {
      FetchRefines(s, s3, c, key, outcome);
    }
  }

  ghost predicate EndsWith<V, E>(end: Option<State<V, E>>, s: State<V, E>, c: Caller, key: Key,
                                 seen: (map<Key, V>, Result<V, E>))
  {
    && end.Some? && end.value.lru == seen.0 && end.value.flights == s.flights
    && end.value.log != [] && end.value.log[|end.value.log| - 1] == Returned(c, key, seen.1)
  }

  lemma FetchRefines<V(!new), E(!new)>(s: State<V, E>, s3: State<V, E>, c: Caller, key: Key, outcome: Result<V, E>)
    requires key !in s.lru && key !in s.flights && s3.lru == s.lru
    requires key in s3.flights && s3.flights[key].phase.Fetching? && s3.flights - {key} == s.flights
    requires c in s3.waits && s3.waits[c] == OnFlight(key, s3.flights[key].id)
    ensures EndsWith(RunFrom(s3, FlightTail(false, c, key, outcome)), s, c, key, Flown(s.lru, key, outcome))
  {
    hide RunFrom;
    var s4 := Step(s3, FetchReturns(key, outcome), true);
    if outcome.Ok? {
      var s5 := Step(s4, Store(key), true);
      RunFromCons(s3, FetchReturns(key, outcome), [Store(key)] + [Collect(c)]);
      RunFromCons(s4, Store(key), [Collect(c)]);
      LastCollect(s5, c);
      assert s5.flights == s3.flights - {key};
    } else {
      RunFromCons(s3, FetchReturns(key, outcome), [Collect(c)]);
      LastCollect(s4, c);
    }
  }

  lemma LastCollect<V, E>(s: State<V, E>, c: Caller)
    requires Enabled(s, Collect(c))
    ensures RunFrom(s, [Collect(c)]) == Some(Step(s, Collect(c), true))
  {
    var last: seq<Action<V, E>> := [Collect(c)];
    RunFromCons(s, Collect(c), []);
    assert last + [] == last;
  }
}
