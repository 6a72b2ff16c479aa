/** The single-use OAuth states (backend/internal/auth/sso.go). */
module StateStore {
  import opened Wrappers

  type State = string
  /** Nanoseconds, as Go's durations. */
  type Time = int

  datatype Entry = Entry(returnURL: string, expiresAt: Time)

  type Store = map<State, Entry>

  const STATE_EXPIRATION: Time := 600_000_000_000
  const MAX_STATE_ENTRIES := 1000

  datatype Error = NoRandomness | AtCapacity

  /** random is the state the random source yields, if it does; now is the instant of the operation. */
  datatype Op = Generate(random: Option<State>, returnURL: string, now: Time)
              | Validate(state: State, now: Time)
              | Cleanup(now: Time)

  // ----- One step -----

  function Swept(store: Store, now: Time): Store {
    map s | s in store && now <= store[s].expiresAt :: store[s]
  }

  /** What op issues on a store holding size entries, if anything. */
  function IssuedBy(size: nat, op: Op): Option<(State, Entry)> {
    if op.Generate? && op.random.Some? && size < MAX_STATE_ENTRIES
    then Some((op.random.value, Entry(op.returnURL, op.now + STATE_EXPIRATION)))
    else None
  }

  function Step(store: Store, op: Op): Store {
    match op
    case Generate(_, _, _) =>
      (match IssuedBy(|store|, op)
       case Some(e) => store[e.0 := e.1]
       case None => store)
    case Validate(state, _) => store - {state}
    case Cleanup(now) => Swept(store, now)
  }

  /** The return URL a validation of state at now yields. */
  function Answer(store: Store, state: State, now: Time): Option<string> {
    if state in store && now <= store[state].expiresAt then Some(store[state].returnURL) else None
  }

  // ----- The code -----

  class SSOClient {
    var stateStore: Store

    constructor ()
      ensures stateStore == map[]
    {
      stateStore := map[];
    }

    method GenerateState(random: Option<State>, returnURL: string, now: Time) returns (r: Result<State, Error>)
      modifies this
      ensures stateStore == Step(old(stateStore), Generate(random, returnURL, now))
      ensures r.Ok? ==> stateStore == old(stateStore)[r.value := Entry(returnURL, now + 600_000_000_000)]
      ensures r.Err? ==> stateStore == old(stateStore)
      ensures r == if random == None then Err(NoRandomness)
                   else if |old(stateStore)| >= 1000 then Err(AtCapacity)
                   else Ok(random.value)
      ensures |old(stateStore)| <= MAX_STATE_ENTRIES ==> |stateStore| <= MAX_STATE_ENTRIES
    {
      if random == None {
        return Err(NoRandomness);
      }
      var state := random.value;
      if |stateStore| >= MAX_STATE_ENTRIES {
        return Err(AtCapacity);
      }
      stateStore := stateStore[state := Entry(returnURL, now + STATE_EXPIRATION)];
      r := Ok(state);
    }

    method ValidateState(state: State, now: Time) returns (returnURL: string, ok: bool)
      modifies this
      ensures stateStore == Step(old(stateStore), Validate(state, now)) == old(stateStore) - {state}
      ensures ok == Answer(old(stateStore), state, now).Some?
      ensures ok <==> state in old(stateStore) && now <= old(stateStore)[state].expiresAt
      ensures ok ==> returnURL == old(stateStore)[state].returnURL
      ensures returnURL == Answer(old(stateStore), state, now).GetOr("")
    {
      if state !in stateStore {
        return "", false;
      }
      var entry := stateStore[state];
      stateStore := stateStore - {state};
      if now > entry.expiresAt {
        return "", false;
      }
      return entry.returnURL, true;
    }

    /** One tick of cleanupStates. */
    method CleanupStates(now: Time)
      modifies this
      ensures stateStore == Step(old(stateStore), Cleanup(now))
      ensures forall s :: s in stateStore <==> s in old(stateStore) && now <= old(stateStore)[s].expiresAt
      ensures forall s :: s in stateStore ==> stateStore[s] == old(stateStore)[s]
    {
      var rest := stateStore.Keys;
      while rest != {}
        invariant rest <= stateStore.Keys <= old(stateStore).Keys
        invariant forall s :: s in stateStore ==> stateStore[s] == old(stateStore)[s]
        invariant forall s :: s in old(stateStore) && s !in rest
                              ==> (s in stateStore <==> now <= old(stateStore)[s].expiresAt)
      {
        var state :| state in rest;
        if now > stateStore[state].expiresAt {
          stateStore := stateStore - {state};
        }
        rest := rest - {state};
      }
    }
  }

  // ----- Timed runs -----

  function After(ops: seq<Op>): Store
    decreases |ops|
  {
    if ops == [] then map[] else Step(After(ops[..|ops| - 1]), ops[|ops| - 1])
  }

  predicate InOrder(ops: seq<Op>, now: Time) {
    && (forall i, j :: 0 <= i <= j < |ops| ==> ops[i].now <= ops[j].now)
    && (forall i :: 0 <= i < |ops| ==> ops[i].now <= now)
  }

  lemma SmallerMap(small: Store, big: Store)
    requires small.Keys <= big.Keys
    ensures |small| <= |big|
  {
    SmallerSet(small.Keys, big.Keys);
    assert |small| == |small.Keys| && |big| == |big.Keys|;
  }

  lemma {:induction false} SmallerSet(small: set<State>, big: set<State>)
    requires small <= big
    ensures |small| <= |big|
  {
    if small != {} {
      var s :| s in small;
      SmallerSet(small - {s}, big - {s});
    }
  }

  /** The store never holds more than 1000 entries. */
  lemma {:induction false} Bounded(ops: seq<Op>)
    ensures |After(ops)| <= MAX_STATE_ENTRIES
    decreases |ops|
  {
    if ops != [] {
      var init, last := ops[..|ops| - 1], ops[|ops| - 1];
      Bounded(init);
      if !last.Generate? {
        SmallerMap(After(ops), After(init));
      }
    }
  }

  // ----- The history alone -----

  /** The entry the i-th operation issued, if it did. */
  function Issued(ops: seq<Op>, i: nat): Option<(State, Entry)>
    requires i < |ops|
  {
    IssuedBy(|After(ops[..i])|, ops[i])
  }

  predicate Changes(ops: seq<Op>, i: nat, state: State)
    requires i < |ops|
  {
    || (ops[i].Validate? && ops[i].state == state)
    || (Issued(ops, i).Some? && Issued(ops, i).value.0 == state)
  }

  predicate IssuedAt(ops: seq<Op>, i: nat, state: State, e: Entry) {
    && i < |ops| && Issued(ops, i) == Some((state, e))
    && forall j :: i < j < |ops| ==> !Changes(ops, j, state)
  }

  /** Some operation issued state with entry e, and nothing has validated or re-issued it since. */
  predicate Standing(ops: seq<Op>, state: State, e: Entry) {
    exists i :: 0 <= i < |ops| && IssuedAt(ops, i, state, e)
  }

  lemma SamePrefix(ops: seq<Op>, n: nat, i: nat, state: State)
    requires i < n <= |ops|
    ensures Issued(ops[..n], i) == Issued(ops, i) && Changes(ops[..n], i, state) == Changes(ops, i, state)
  {
    hide After, IssuedBy;
    assert ops[..n][..i] == ops[..i];
  }

  lemma IssuedAtInit(ops: seq<Op>, i: nat, state: State, e: Entry)
    requires i < |ops| - 1
    ensures var n := |ops| - 1;
            IssuedAt(ops, i, state, e) <==> IssuedAt(ops[..n], i, state, e) && !Changes(ops, n, state)
  {
    var n := |ops| - 1;
    SamePrefix(ops, n, i, state);
    forall j | i < j < n ensures Changes(ops[..n], j, state) == Changes(ops, j, state) {
      SamePrefix(ops, n, j, state);
    }
    hide Issued, Changes;
    if IssuedAt(ops[..n], i, state, e) && !Changes(ops, n, state) {
      forall j | i < j < |ops| ensures !Changes(ops, j, state) {
        assert j < n ==> !Changes(ops[..n], j, state);
      }
    }
  }

  lemma StandingStep(ops: seq<Op>, state: State, e: Entry)
    requires ops != []
    ensures var n := |ops| - 1;
            Standing(ops, state, e)
            <==> Issued(ops, n) == Some((state, e)) || (Standing(ops[..n], state, e) && !Changes(ops, n, state))
  {
    hide Issued, Changes;
    var n := |ops| - 1;
    if Issued(ops, n) == Some((state, e)) {
      assert IssuedAt(ops, n, state, e);
    }
    hide IssuedAt;
    if Standing(ops[..n], state, e) {
      var i :| 0 <= i < n && IssuedAt(ops[..n], i, state, e);
      IssuedAtInit(ops, i, state, e);
    }
    if Standing(ops, state, e) && Issued(ops, n) != Some((state, e)) {
      var i :| 0 <= i < |ops| && IssuedAt(ops, i, state, e);
      assert i != n by { AtTheEnd(ops, i, state, e); }
      IssuedAtInit(ops, i, state, e);
    }
  }

  lemma AtTheEnd(ops: seq<Op>, i: nat, state: State, e: Entry)
    requires IssuedAt(ops, i, state, e)
    ensures Issued(ops, i) == Some((state, e))
  {
  }

  /** What is stored stands, and what stands but is not stored is past its expiry. */
  lemma {:induction false} StoredExactly(ops: seq<Op>, state: State, e: Entry, now: Time)
    requires InOrder(ops, now)
    ensures var stored := state in After(ops) && After(ops)[state] == e;
            && (stored ==> Standing(ops, state, e))
            && (Standing(ops, state, e) && now <= e.expiresAt ==> stored)
    decreases |ops|
  {
    if ops != [] {
      var n := |ops| - 1;
      StoredExactly(ops[..n], state, e, ops[n].now);
      StandingStep(ops, state, e);
      hide Standing;
    } else {
      assert !Standing(ops, state, e);
    }
  }

  /** The i-th operation asks for a state, gets this one from the random source and finds fewer than 1000 stored. */
  predicate Issues(ops: seq<Op>, i: nat, state: State)
    requires i < |ops|
  {
    ops[i].Generate? && ops[i].random == Some(state) && |After(ops[..i])| < 1000
  }

  /** Nothing after the i-th operation validates the state or issues it again. */
  predicate Untouched(ops: seq<Op>, i: nat, state: State) {
    forall j :: i < j < |ops| ==> ops[j] != Validate(state, ops[j].now) && !Issues(ops, j, state)
  }

  predicate IssuedFor(ops: seq<Op>, i: nat, state: State, returnURL: string, now: Time) {
    && i < |ops| && Issues(ops, i, state) && ops[i].returnURL == returnURL
    && now <= ops[i].now + 600_000_000_000 && Untouched(ops, i, state)
  }

  lemma ChangesMeans(ops: seq<Op>, j: nat, state: State)
    requires j < |ops|
    ensures Changes(ops, j, state) <==> ops[j] == Validate(state, ops[j].now) || Issues(ops, j, state)
  {
    hide After;
  }

  lemma IssuedForMeans(ops: seq<Op>, i: nat, state: State, returnURL: string, now: Time)
    requires i < |ops|
    ensures IssuedFor(ops, i, state, returnURL, now)
            <==> && ops[i].Generate? && now <= ops[i].now + 600_000_000_000
                 && IssuedAt(ops, i, state, Entry(returnURL, ops[i].now + 600_000_000_000))
    ensures forall e :: IssuedAt(ops, i, state, e) ==>
                          ops[i].Generate? && e == Entry(ops[i].returnURL, ops[i].now + 600_000_000_000)
  {
    hide After;
    forall j | i < j < |ops|
      ensures Changes(ops, j, state) <==> ops[j] == Validate(state, ops[j].now) || Issues(ops, j, state)
    {
      ChangesMeans(ops, j, state);
    }
    hide Changes;
    assert Issued(ops, i) == IssuedBy(|After(ops[..i])|, ops[i]);
  }

  /**
   * In every timed run, cleanups included, validating a state yields a return URL exactly if some request for a state
   * with that URL got this one while fewer than 1000 were stored, at most ten minutes ago, and it has not been validated
   * or issued again since.
   */
  lemma ValidateExactly(ops: seq<Op>, state: State, now: Time, returnURL: string)
    requires InOrder(ops, now)
    ensures Answer(After(ops), state, now) == Some(returnURL)
            <==> exists i :: 0 <= i < |ops| && IssuedFor(ops, i, state, returnURL, now)
  {
    hide IssuedFor, IssuedAt;
    if exists i :: 0 <= i < |ops| && IssuedFor(ops, i, state, returnURL, now) {
      var i :| 0 <= i < |ops| && IssuedFor(ops, i, state, returnURL, now);
      IssuedForMeans(ops, i, state, returnURL, now);
      StoredExactly(ops, state, Entry(returnURL, ops[i].now + 600_000_000_000), now);
    }
    if Answer(After(ops), state, now) == Some(returnURL) {
      var e := After(ops)[state];
      StoredExactly(ops, state, e, now);
      var i :| 0 <= i < |ops| && IssuedAt(ops, i, state, e);
      IssuedForMeans(ops, i, state, returnURL, now);
    }
  }

  // ----- Single use -----

  /** The random source never yields a state twice. */
  predicate FreshStates(ops: seq<Op>) {
    forall i, j :: 0 <= i < j < |ops| && ops[i].Generate? && ops[j].Generate? && ops[i].random.Some?
                   ==> ops[i].random != ops[j].random
  }

  predicate Succeeds(ops: seq<Op>, i: nat, state: State) {
    i < |ops| && ops[i].Validate? && ops[i].state == state && Answer(After(ops[..i]), state, ops[i].now).Some?
  }

  /** In every timed run a state validates at most once. */
  lemma AtMostOnce(ops: seq<Op>, i: nat, j: nat, state: State, now: Time)
    requires FreshStates(ops) && InOrder(ops, now) && i < j < |ops|
    requires Succeeds(ops, i, state)
    ensures !Succeeds(ops, j, state)
  {
    IssuedBefore(ops, i, state);
    var p :| 0 <= p < i && Issued(ops, p).Some? && Issued(ops, p).value.0 == state;
    forall q | i < q < |ops| && Issued(ops, q).Some? ensures Issued(ops, q).value.0 != state {
      assert ops[p].random != ops[q].random;
    }
    assert Changes(ops, i, state) && Issued(ops, i) == None;
    if Succeeds(ops, j, state) {
      IssuedBefore(ops, j, state);
    }
  }

  /** A successful validation was preceded by the issue, with nothing touching the state in between. */
  lemma IssuedBefore(ops: seq<Op>, i: nat, state: State)
    requires i < |ops| && Succeeds(ops, i, state) && InOrder(ops, ops[|ops| - 1].now)
    ensures exists p :: 0 <= p < i && Issued(ops, p).Some? && Issued(ops, p).value.0 == state
                        && forall m :: p < m < i ==> !Changes(ops, m, state)
  {
    var init := ops[..i];
    var e := After(init)[state];
    StoredExactly(init, state, e, ops[i].now);
    var p :| 0 <= p < |init| && IssuedAt(init, p, state, e);
    forall m | 0 <= m < i
      ensures Issued(init, m) == Issued(ops, m) && Changes(init, m, state) == Changes(ops, m, state)
    {
      SamePrefix(ops, i, m, state);
    }
    assert 0 <= p < i;
  }

  // ----- Where cleaning up does show -----

  /** Some entry is past its expiry but not yet swept. */
  predicate HoldsExpired(store: Store, now: Time) {
    exists s :: s in store && store[s].expiresAt < now
  }

  lemma SweepShrinks(store: Store, now: Time)
    ensures |Swept(store, now)| <= |store|
    ensures |Swept(store, now)| < |store| <==> HoldsExpired(store, now)
  {
    var swept := Swept(store, now);
    SmallerMap(swept, store);
    if HoldsExpired(store, now) {
      var s :| s in store && store[s].expiresAt < now;
      SmallerMap(swept, store - {s});
      assert store.Keys == (store - {s}).Keys + {s};
      assert |store.Keys| == |store| && |(store - {s}).Keys| == |store - {s}|;
    } else {
      assert swept == store;
    }
  }

  /**
   * In every run, a cleanup changes whether a state is issued next exactly if the store holds 1000 entries and some of
   * them is past its expiry: it is then refused without the cleanup and issued after it.
   */
  lemma CleanupShowsExactly(ops: seq<Op>, now: Time, random: State, returnURL: string)
    ensures var next := Generate(Some(random), returnURL, now);
            var without, swept := IssuedBy(|After(ops)|, next), IssuedBy(|After(ops + [Cleanup(now)])|, next);
            && (without != swept <==> |After(ops)| == MAX_STATE_ENTRIES && HoldsExpired(After(ops), now))
            && (without != swept ==> without == None && swept.Some?)
  {
    assert (ops + [Cleanup(now)])[..|ops|] == ops;
    Bounded(ops);
    SweepShrinks(After(ops), now);
    hide Swept, HoldsExpired;
  }

  /** Different states for different numbers. */
  function Name(k: nat): (name: State)
    ensures |name| == k
  {
    seq(k, _ => 'a')
  }

  /** n states issued at one instant. */
  function Fill(n: nat, at: Time): (ops: seq<Op>)
    ensures |ops| == n && forall i :: 0 <= i < n ==> ops[i] == Generate(Some(Name(i)), "", at)
  {
    if n == 0 then [] else Fill(n - 1, at) + [Generate(Some(Name(n - 1)), "", at)]
  }

  lemma {:induction false} Filled(n: nat, at: Time)
    requires n <= MAX_STATE_ENTRIES
    ensures |After(Fill(n, at))| == n
    ensures forall s :: s in After(Fill(n, at)) ==> |s| < n && After(Fill(n, at))[s].expiresAt == at + STATE_EXPIRATION
  {
    if n > 0 {
      Filled(n - 1, at);
      var init := Fill(n - 1, at);
      assert Fill(n, at)[..n - 1] == init;
      assert Name(n - 1) !in After(init);
    }
  }

  /** The case is reached: 1000 fresh states issued at once, and their ten minutes gone by. */
  lemma FullOfExpired(at: Time, now: Time, random: State, returnURL: string) returns (ops: seq<Op>)
    requires at + STATE_EXPIRATION < now
    ensures InOrder(ops, now) && FreshStates(ops)
    ensures var next := Generate(Some(random), returnURL, now);
            IssuedBy(|After(ops)|, next) == None && IssuedBy(|After(ops + [Cleanup(now)])|, next).Some?
  {
    ops := Fill(MAX_STATE_ENTRIES, at);
    Filled(MAX_STATE_ENTRIES, at);
    forall i, j | 0 <= i < j < |ops| ensures ops[i].random != ops[j].random {
      assert |Name(i)| != |Name(j)|;
    }
    hide Fill;
    var s := SomeKey(After(ops));
    CleanupShowsExactly(ops, now, random, returnURL);
    assert HoldsExpired(After(ops), now);
  }

  lemma SomeKey(store: Store) returns (s: State)
    requires |store| > 0
    ensures s in store
  {
    assert |store.Keys| == |store|;
    s :| s in store.Keys;
  }
}
