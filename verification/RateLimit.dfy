/** The per-key window limiter with background cleanup (backend/internal/publicapi/ratelimit.go). */
module RateLimit {

  type Key = string
  type Time = int

  datatype Entry = Entry(count: nat, windowEnd: Time)

  type Store = map<Key, Entry>

  datatype Config = Config(limit: int, window: int)

  /** admitted: passed on; remaining and reset are the response headers. */
  datatype Reply = Reply(admitted: bool, remaining: nat, reset: Time)

  // ----- One request, one cleanup -----

  /** The key's entry after a request at now: a fresh window if there is none or it is over. */
  function Touch(store: Store, key: Key, now: Time, cfg: Config): Entry {
    if key in store && now <= store[key].windowEnd then Entry(store[key].count + 1, store[key].windowEnd)
    else Entry(1, now + cfg.window)
  }

  function ReplyFor(e: Entry, cfg: Config): Reply {
    Reply(e.count <= cfg.limit, if cfg.limit < e.count then 0 else cfg.limit - e.count, e.windowEnd)
  }

  function Swept(store: Store, now: Time): Store {
    map k | k in store && now <= store[k].windowEnd :: store[k]
  }

  class RateLimiter {
    const limit: int
    const window: int
    var store: Store

    constructor (limit: int, window: int)
      ensures this.limit == limit && this.window == window && store == map[]
    {
      this.limit, this.window, store := limit, window, map[];
    }

    method Middleware(ip: Key, now: Time) returns (reply: Reply)
      requires window >= 0
      modifies this
      ensures var e := Touch(old(store), ip, now, Config(limit, window));
              store == old(store)[ip := e] && reply == ReplyFor(e, Config(limit, window))
      ensures store.Keys == old(store).Keys + {ip} && forall k :: k in old(store) && k != ip ==> store[k] == old(store)[k]
      ensures if ip in old(store) && now <= old(store)[ip].windowEnd
              then store[ip] == Entry(old(store)[ip].count + 1, old(store)[ip].windowEnd)
              else store[ip] == Entry(1, now + window)
      ensures reply.admitted <==> store[ip].count <= limit
      ensures reply.remaining == (if store[ip].count < limit then limit - store[ip].count else 0)
      ensures reply.reset == store[ip].windowEnd
    {
      if ip !in store {
        store := store[ip := Entry(0, now + window)];
      }
      var entry := store[ip];
      if now > entry.windowEnd {
        entry := Entry(0, now + window);
      }
      entry := entry.(count := entry.count + 1);
      store := store[ip := entry];
      var remaining := limit - entry.count;
      if remaining < 0 {
        remaining := 0;
      }
      reply := Reply(!(entry.count > limit), remaining, entry.windowEnd);
    }

    method Cleanup(now: Time)
      modifies this
      ensures store == Swept(old(store), now)
      ensures forall k :: k in store <==> k in old(store) && now <= old(store)[k].windowEnd
      ensures forall k :: k in store ==> store[k] == old(store)[k]
    {
      var rest := store.Keys;
      while rest != {}
        invariant rest <= store.Keys <= old(store).Keys
        invariant forall k :: k in store ==> store[k] == old(store)[k]
        invariant forall k :: k in old(store) && k !in rest ==> (k in store <==> now <= old(store)[k].windowEnd)
      {
        var k :| k in rest;
        if now > store[k].windowEnd {
          store := store - {k};
        }
        rest := rest - {k};
      }
    }
  }

  // ----- Timed runs -----

  /**
   * What is done at now. A sweep looks at one entry after the other with the clock reading swept that it began with, and
   * deletes the entry in a second step; requests come in between.
   */
  datatype Op = Request(key: Key, now: Time) | Check(key: Key, swept: Time, now: Time) | Delete(key: Key, now: Time)

  /** over: the entries found to be over and not deleted yet. */
  datatype State = State(store: Store, over: set<Key>)

  /** One step; a limiter that never deletes ignores the sweep. */
  function Step(s: State, op: Op, cfg: Config, deletes: bool): State {
    match op
    case Request(k, now) => s.(store := s.store[k := Touch(s.store, k, now, cfg)])
    case Check(k, swept, now) =>
      if deletes && k in s.store && swept > s.store[k].windowEnd then s.(over := s.over + {k}) else s
    case Delete(k, now) => if deletes && k in s.over then State(s.store - {k}, s.over - {k}) else s
  }

  function After(ops: seq<Op>, cfg: Config, deletes: bool): State
    decreases |ops|
  {
    if ops == [] then State(map[], {})
    else Step(After(ops[..|ops| - 1], cfg, deletes), ops[|ops| - 1], cfg, deletes)
  }

  /** What a request for key at now is answered when it comes after ops. */
  function Answer(ops: seq<Op>, key: Key, now: Time, cfg: Config, deletes: bool): Reply {
    ReplyFor(Touch(After(ops, cfg, deletes).store, key, now, cfg), cfg)
  }

  predicate Monotone(ops: seq<Op>) {
    && (forall i, j :: 0 <= i <= j < |ops| ==> ops[i].now <= ops[j].now)
    && (forall i :: 0 <= i < |ops| && ops[i].Check? ==> ops[i].swept <= ops[i].now)
  }

  predicate OrderedUpTo(ops: seq<Op>, t: Time) {
    Monotone(ops) && forall i :: 0 <= i < |ops| ==> ops[i].now <= t
  }

  /** The steps of a sweep that nothing comes in between of. */
  function SweepOps(keys: seq<Key>, now: Time): seq<Op> {
    if keys == [] then []
    else SweepOps(keys[..|keys| - 1], now) + [Check(keys[|keys| - 1], now, now), Delete(keys[|keys| - 1], now)]
  }

  /** The store without the entries of the given keys whose window is over. */
  function SweptOf(store: Store, keys: seq<Key>, now: Time): Store {
    map k | k in store && (k in keys ==> now <= store[k].windowEnd) :: store[k]
  }

  lemma SweptOfLast(s: State, keys: seq<Key>, k: Key, now: Time, cfg: Config)
    requires s.over == {}
    ensures Step(Step(s, Check(k, now, now), cfg, true), Delete(k, now), cfg, true)
            == State(SweptOf(s.store, [k], now), {})
    ensures SweptOf(SweptOf(s.store, keys, now), [k], now) == SweptOf(s.store, keys + [k], now)
  {
  }

  lemma TwoMore(ops: seq<Op>, more: seq<Op>, a: Op, b: Op)
    ensures ops + (more + [a, b]) == ops + more + [a] + [b]
  {
  }

  lemma {:induction false} SweepSteps(ops: seq<Op>, keys: seq<Key>, now: Time, cfg: Config)
    requires After(ops, cfg, true).over == {}
    ensures After(ops + SweepOps(keys, now), cfg, true) == State(SweptOf(After(ops, cfg, true).store, keys, now), {})
  {
    if keys == [] {
      assert ops + [] == ops;
    } else {
      var init, k := keys[..|keys| - 1], keys[|keys| - 1];
      assert keys == init + [k];
      var before := ops + SweepOps(init, now);
      TwoMore(ops, SweepOps(init, now), Check(k, now, now), Delete(k, now));
      assert ops + SweepOps(keys, now) == before + [Check(k, now, now)] + [Delete(k, now)];
      hide After, SweepOps, Step, SweptOf;
      SweepSteps(ops, init, now, cfg);
      AfterLast(before, Check(k, now, now), cfg);
      AfterLast(before + [Check(k, now, now)], Delete(k, now), cfg);
      SweptOfLast(After(before, cfg, true), init, k, now, cfg);
      SweptOfLast(After(ops, cfg, true), init, k, now, cfg);
    }
  }

  /** A sweep of all entries that nothing comes in between of is the method's. */
  lemma SweepIsCleanup(ops: seq<Op>, keys: seq<Key>, now: Time, cfg: Config)
    requires After(ops, cfg, true).over == {} && forall k :: k in After(ops, cfg, true).store ==> k in keys
    ensures After(ops + SweepOps(keys, now), cfg, true).store == Swept(After(ops, cfg, true).store, now)
  {
    SweepSteps(ops, keys, now, cfg);
    hide After, SweepOps;
  }

  lemma AfterLast(ops: seq<Op>, op: Op, cfg: Config)
    ensures After(ops + [op], cfg, true) == Step(After(ops, cfg, true), op, cfg, true)
  {
    assert (ops + [op])[..|ops|] == ops;
  }

  // ----- When the sweep is invisible -----

  /** The cleaned store lacks at most entries whose window was already over at now. */
  predicate Hidden(cleaned: Store, full: Store, now: Time) {
    && (forall k :: k in cleaned ==> k in full && cleaned[k] == full[k])
    && (forall k :: k in full && k !in cleaned ==> full[k].windowEnd < now)
  }

  /** The entry that is deleted, if any, is still over. */
  predicate DeletesOver(s: State, op: Op) {
    op.Delete? && op.key in s.over && op.key in s.store ==> s.store[op.key].windowEnd < op.now
  }

  lemma HiddenStep(cleaned: State, full: State, before: Time, op: Op, cfg: Config)
    requires Hidden(cleaned.store, full.store, before) && before <= op.now
    ensures Hidden(Step(cleaned, op, cfg, true).store, Step(full, op, cfg, false).store, op.now)
            <==> DeletesOver(cleaned, op)
  {
  }

  lemma HiddenAnswer(cleaned: Store, full: Store, before: Time, key: Key, now: Time, cfg: Config)
    requires Hidden(cleaned, full, before) && before <= now
    ensures Touch(cleaned, key, now, cfg) == Touch(full, key, now, cfg)
  {
  }

  /** No entry is deleted that a request has given a new window since it was found to be over. */
  predicate Timely(ops: seq<Op>, cfg: Config)
    decreases |ops|
  {
    ops == []
    || (Timely(ops[..|ops| - 1], cfg) && DeletesOver(After(ops[..|ops| - 1], cfg, true), ops[|ops| - 1]))
  }

  lemma OrderedSplit(ops: seq<Op>, t: Time)
    requires ops != [] && OrderedUpTo(ops, t)
    ensures OrderedUpTo(ops[..|ops| - 1], ops[|ops| - 1].now) && ops[|ops| - 1].now <= t
    ensures OrderedUpTo(ops, ops[|ops| - 1].now)
    ensures ops[|ops| - 1].Check? ==> ops[|ops| - 1].swept <= ops[|ops| - 1].now
  {
  }

  lemma {:induction false} HiddenRun(ops: seq<Op>, cfg: Config, now: Time)
    requires OrderedUpTo(ops, now) && Timely(ops, cfg)
    ensures Hidden(After(ops, cfg, true).store, After(ops, cfg, false).store, now)
    decreases |ops|
  {
    if ops != [] {
      var init, last := ops[..|ops| - 1], ops[|ops| - 1];
      OrderedSplit(ops, now);
      HiddenRun(init, cfg, last.now);
      HiddenStep(After(init, cfg, true), After(init, cfg, false), last.now, last, cfg);
    }
  }

  /** At no point of the run, the end included, could a request be answered otherwise than without the sweeps. */
  ghost predicate NeverShows(ops: seq<Op>, cfg: Config)
    decreases |ops|
  {
    && (forall key, now :: OrderedUpTo(ops, now) ==>
          Answer(ops, key, now, cfg, true) == Answer(ops, key, now, cfg, false))
    && (ops != [] ==> NeverShows(ops[..|ops| - 1], cfg))
  }

  /** The sweeps are invisible throughout a run exactly if every entry they delete is still over when it is deleted. */
  lemma {:induction false} CleanupInvisibleExactly(ops: seq<Op>, cfg: Config)
    requires Monotone(ops) && cfg.limit >= 1
    ensures NeverShows(ops, cfg) <==> Timely(ops, cfg)
    decreases |ops|
  {
    if ops != [] {
      CleanupInvisibleExactly(ops[..|ops| - 1], cfg);
    }
    if Timely(ops, cfg) {
      forall key, now | OrderedUpTo(ops, now)
        ensures Answer(ops, key, now, cfg, true) == Answer(ops, key, now, cfg, false)
      {
        CleanupInvisible(ops, key, now, cfg);
      }
    } else if Timely(ops[..|ops| - 1], cfg) {
      LateDeleteShows(ops, cfg);
    }
  }

  /** If every entry deleted is still over, the limiter answers as one that never deletes. */
  lemma CleanupInvisible(ops: seq<Op>, key: Key, now: Time, cfg: Config)
    requires OrderedUpTo(ops, now) && Timely(ops, cfg)
    ensures Answer(ops, key, now, cfg, true) == Answer(ops, key, now, cfg, false)
  {
    HiddenRun(ops, cfg, now);
    HiddenAnswer(After(ops, cfg, true).store, After(ops, cfg, false).store, now, key, now, cfg);
  }

  /** A request right after the deletion of a new window starts yet another one. */
  lemma LateDeleteShows(ops: seq<Op>, cfg: Config)
    requires Monotone(ops) && cfg.limit >= 1 && ops != []
    requires Timely(ops[..|ops| - 1], cfg) && !Timely(ops, cfg)
    ensures var last := ops[|ops| - 1];
            OrderedUpTo(ops, last.now)
            && Answer(ops, last.key, last.now, cfg, true) != Answer(ops, last.key, last.now, cfg, false)
  {
    var init, last := ops[..|ops| - 1], ops[|ops| - 1];
    OrderedSplit(ops, last.now);
    HiddenRun(init, cfg, last.now);
    EntriesCount(init, cfg, false);
  }

  /** An entry has counted at least the request that made it. */
  lemma {:induction false} EntriesCount(ops: seq<Op>, cfg: Config, deletes: bool)
    ensures Counted(After(ops, cfg, deletes).store)
    decreases |ops|
  {
    if ops != [] {
      EntriesCount(ops[..|ops| - 1], cfg, deletes);
      CountedStep(After(ops[..|ops| - 1], cfg, deletes), ops[|ops| - 1], cfg, deletes);
    }
  }

  predicate Counted(store: Store) {
    forall k :: k in store ==> store[k].count >= 1
  }

  lemma CountedStep(s: State, op: Op, cfg: Config, deletes: bool)
    requires Counted(s.store)
    ensures Counted(Step(s, op, cfg, deletes).store)
  {
  }

  predicate FoundOver(ops: seq<Op>, i: nat, key: Key, cfg: Config)
    requires i < |ops|
  {
    && ops[i].Check? && ops[i].key == key
    && var store := After(ops[..i], cfg, true).store;
       key in store && ops[i].swept > store[key].windowEnd
  }

  predicate ToDelete(ops: seq<Op>, i: nat, key: Key, cfg: Config) {
    i < |ops| && FoundOver(ops, i, key, cfg) && forall j :: i < j < |ops| ==> ops[j] != Delete(key, ops[j].now)
  }

  /** An entry awaits deletion exactly if some check has found it over and it has not been deleted since. */
  lemma {:induction false} OverExactly(ops: seq<Op>, key: Key, cfg: Config)
    ensures key in After(ops, cfg, true).over <==> exists i :: 0 <= i < |ops| && ToDelete(ops, i, key, cfg)
    decreases |ops|
  {
    if ops != [] {
      var n := |ops| - 1;
      var init, op := ops[..n], ops[n];
      OverExactly(init, key, cfg);
      assert key in After(ops, cfg, true).over
             <==> FoundOver(ops, n, key, cfg) || (key in After(init, cfg, true).over && op != Delete(key, op.now));
      assert FoundOver(ops, n, key, cfg) <==> ToDelete(ops, n, key, cfg);
      forall i | 0 <= i < n
        ensures ToDelete(ops, i, key, cfg) <==> ToDelete(init, i, key, cfg) && op != Delete(key, op.now)
      {
        ToDeleteLast(ops, i, key, cfg);
      }
      hide ToDelete, FoundOver, After;
    }
  }

  lemma ToDeleteLast(ops: seq<Op>, i: nat, key: Key, cfg: Config)
    requires i < |ops| - 1
    ensures var n := |ops| - 1;
            ToDelete(ops, i, key, cfg) <==> ToDelete(ops[..n], i, key, cfg) && ops[n] != Delete(key, ops[n].now)
  {
    hide After;
    var n := |ops| - 1;
    assert ops[..n][..i] == ops[..i];
    assert FoundOver(ops[..n], i, key, cfg) == FoundOver(ops, i, key, cfg);
    hide FoundOver;
    if ToDelete(ops[..n], i, key, cfg) && ops[n] != Delete(key, ops[n].now) {
      forall j | i < j < |ops| ensures ops[j] != Delete(key, ops[j].now) {
        assert j < n ==> ops[j] == ops[..n][j];
      }
    }
    if ToDelete(ops, i, key, cfg) {
      forall j | i < j < n ensures ops[..n][j] != Delete(key, ops[..n][j].now) {
        assert ops[j] == ops[..n][j];
      }
    }
  }

  /** No request comes between the check of its key's entry and the deletion. */
  predicate Undisturbed(ops: seq<Op>, cfg: Config)
    decreases |ops|
  {
    ops == []
    || (Undisturbed(ops[..|ops| - 1], cfg)
        && (ops[|ops| - 1].Request? ==> ops[|ops| - 1].key !in After(ops[..|ops| - 1], cfg, true).over))
  }

  lemma {:induction false} UndisturbedIsTimely(ops: seq<Op>, cfg: Config, now: Time)
    requires OrderedUpTo(ops, now) && Undisturbed(ops, cfg)
    ensures Timely(ops, cfg)
    ensures StillOver(After(ops, cfg, true), now)
    decreases |ops|
  {
    if ops != [] {
      OrderedSplit(ops, now);
      UndisturbedIsTimely(ops[..|ops| - 1], cfg, ops[|ops| - 1].now);
      StillOverStep(After(ops[..|ops| - 1], cfg, true), ops[|ops| - 1], cfg, now);
    }
  }

  predicate StillOver(s: State, now: Time) {
    forall k :: k in s.over && k in s.store ==> s.store[k].windowEnd < now
  }

  lemma StillOverStep(s: State, op: Op, cfg: Config, now: Time)
    requires StillOver(s, op.now) && op.now <= now && (op.Check? ==> op.swept <= op.now)
    requires op.Request? ==> op.key !in s.over
    ensures DeletesOver(s, op) && StillOver(Step(s, op, cfg, true), now)
  {
  }

  // ----- What a request is answered, from the history -----

  /** How many requests of key there are from position i on. */
  function RequestsFrom(ops: seq<Op>, i: nat, key: Key): nat
    decreases |ops|
  {
    if |ops| <= i then 0
    else
      var last := ops[|ops| - 1];
      RequestsFrom(ops[..|ops| - 1], i, key) + if last.Request? && last.key == key then 1 else 0
  }

  /** The latest window of key is one window length from its request at i, which came after the previous window. */
  predicate WindowSince(ops: seq<Op>, i: nat, key: Key, cfg: Config)
    decreases |ops|
  {
    && i < |ops| && ops[i] == Request(key, ops[i].now)
    && (forall j :: i <= j < |ops| && ops[j] == Request(key, ops[j].now) ==> ops[j].now <= ops[i].now + cfg.window)
    && (NoRequest(ops[..i], key)
        || exists h :: 0 <= h < i && WindowSince(ops[..i], h, key, cfg) && ops[i].now > ops[h].now + cfg.window)
  }

  predicate NoRequest(ops: seq<Op>, key: Key) {
    forall j :: 0 <= j < |ops| ==> ops[j] != Request(key, ops[j].now)
  }

  predicate EntryIs(ops: seq<Op>, i: nat, key: Key, store: Store, cfg: Config)
    requires i < |ops|
  {
    key in store && store[key] == Entry(RequestsFrom(ops, i, key), ops[i].now + cfg.window)
  }

  lemma WindowKept(ops: seq<Op>, i: nat, op: Op, key: Key, cfg: Config)
    requires WindowSince(ops, i, key, cfg)
    requires op == Request(key, op.now) ==> op.now <= ops[i].now + cfg.window
    ensures WindowSince(ops + [op], i, key, cfg)
  {
    assert (ops + [op])[..i] == ops[..i];
    forall h | 0 <= h < i ensures (ops + [op])[h] == ops[h] {
    }
  }

  lemma WindowStarts(ops: seq<Op>, now: Time, key: Key, cfg: Config)
    requires cfg.window >= 0
    requires NoRequest(ops, key)
             || exists h :: 0 <= h < |ops| && WindowSince(ops, h, key, cfg) && now > ops[h].now + cfg.window
    ensures WindowSince(ops + [Request(key, now)], |ops|, key, cfg)
    ensures RequestsFrom(ops + [Request(key, now)], |ops|, key) == 1
  {
    var all := ops + [Request(key, now)];
    assert all[..|ops|] == ops;
    if h :| 0 <= h < |ops| && WindowSince(ops, h, key, cfg) && now > ops[h].now + cfg.window {
      assert all[h] == ops[h];
    }
  }

  /** A key has an entry exactly if it has made a request, and the entry counts the requests of its latest window. */
  lemma {:induction false} EntryExactly(ops: seq<Op>, key: Key, cfg: Config) returns (i: nat)
    requires cfg.window >= 0
    ensures var store := After(ops, cfg, false).store;
            if NoRequest(ops, key) then key !in store
            else i < |ops| && WindowSince(ops, i, key, cfg) && EntryIs(ops, i, key, store, cfg)
    decreases |ops|
  {
    i := 0;
    if ops != [] {
      var init, op := ops[..|ops| - 1], ops[|ops| - 1];
      assert ops == init + [op];
      i := EntryExactly(init, key, cfg);
      NoRequestLast(init, op, key);
      hide WindowSince, NoRequest;
      var store := After(init, cfg, false).store;
      if op == Request(key, op.now) {
        if NoRequest(init, key) || op.now > init[i].now + cfg.window {
          WindowStarts(init, op.now, key, cfg);
          i := |init|;
        } else {
          WindowKept(init, i, op, key, cfg);
        }
      } else if !NoRequest(init, key) {
        WindowKept(init, i, op, key, cfg);
      }
    }
  }

  lemma NoRequestLast(ops: seq<Op>, op: Op, key: Key)
    ensures NoRequest(ops + [op], key) <==> NoRequest(ops, key) && op != Request(key, op.now)
  {
    var all := ops + [op];
    assert all[|ops|] == op;
    if NoRequest(all, key) {
      forall j | 0 <= j < |ops| ensures ops[j] != Request(key, ops[j].now) {
        assert all[j] == ops[j];
      }
    }
  }

  /**
   * In every run whose sweeps delete only entries that are still over, a request is told its number in its window: it
   * passes exactly if that is at most the limit, and what is left and when the window ends are as the history has it.
   */
  lemma AnswerExactly(ops: seq<Op>, key: Key, now: Time, cfg: Config) returns (i: nat)
    requires OrderedUpTo(ops, now) && Timely(ops, cfg) && cfg.window >= 0
    ensures var all, reply := ops + [Request(key, now)], Answer(ops, key, now, cfg, true);
            && i < |all| && WindowSince(all, i, key, cfg)
            && var number := RequestsFrom(all, i, key);
               && (reply.admitted <==> number <= cfg.limit)
               && reply.remaining == (if number < cfg.limit then cfg.limit - number else 0)
               && reply.reset == all[i].now + cfg.window
  {
    CleanupInvisible(ops, key, now, cfg);
    var all := ops + [Request(key, now)];
    i := EntryExactly(all, key, cfg);
    assert all[|ops|] == Request(key, now) && all[..|ops|] == ops;
    assert !NoRequest(all, key);
    hide WindowSince, NoRequest, Timely, OrderedUpTo;
    assert EntryIs(all, i, key, After(all, cfg, false).store, cfg);
  }

  // ----- How many requests pass -----

  predicate Passes(ops: seq<Op>, op: Op, key: Key, cfg: Config, deletes: bool) {
    op.Request? && op.key == key && Answer(ops, key, op.now, cfg, deletes).admitted
  }

  /** Admitted requests of key with lo <= time <= hi. */
  function Count(ops: seq<Op>, key: Key, lo: Time, hi: Time, cfg: Config, deletes: bool): nat
    decreases |ops|
  {
    if ops == [] then 0
    else
      var init, last := ops[..|ops| - 1], ops[|ops| - 1];
      Count(init, key, lo, hi, cfg, deletes)
      + if lo <= last.now <= hi && Passes(init, last, key, cfg, deletes) then 1 else 0
  }

  lemma {:induction false} NoneLater(ops: seq<Op>, key: Key, lo: Time, hi: Time, cfg: Config)
    requires forall i :: 0 <= i < |ops| ==> ops[i].now < lo
    ensures Count(ops, key, lo, hi, cfg, false) == 0
    decreases |ops|
  {
    if ops != [] {
      NoneLater(ops[..|ops| - 1], key, lo, hi, cfg);
    }
  }

  function Min(a: int, b: int): int {
    if a < b then a else b
  }

  /**
   * Where the limiter stands: after the start of the current window fewer than its count have passed (the request
   * that started it came at the start), and since one window length before that start at most a window's worth more.
   */
  lemma {:induction false} Recent(ops: seq<Op>, key: Key, a: Time, hi: Time, cfg: Config)
    requires Monotone(ops) && cfg.window >= 0 && cfg.limit >= 1
    ensures var store := After(ops, cfg, false).store;
            var n := Count(ops, key, a, hi, cfg, false);
            if key in store then
              var e := store[key];
              var start := e.windowEnd - cfg.window;
              && 1 <= e.count && ops != [] && start <= ops[|ops| - 1].now
              && (a > start ==> n <= Min(e.count, cfg.limit) - 1)
              && (a >= start - cfg.window ==> n <= Min(e.count, cfg.limit) + cfg.limit - 1)
            else n == 0
    decreases |ops|
  {
    if ops != [] {
      var init, last := ops[..|ops| - 1], ops[|ops| - 1];
      Recent(init, key, a, hi, cfg);
      var store := After(init, cfg, false).store;
      if last.Request? && last.key == key && !(key in store && last.now <= store[key].windowEnd) {
        if a > last.now {
          NoneLater(init, key, a, hi, cfg);
        }
      }
    }
  }

  lemma {:induction false} NonePass(ops: seq<Op>, key: Key, lo: Time, hi: Time, cfg: Config)
    requires cfg.limit <= 0
    ensures Count(ops, key, lo, hi, cfg, false) == 0
    decreases |ops|
  {
    if ops != [] {
      NonePass(ops[..|ops| - 1], key, lo, hi, cfg);
    }
  }

  function Most(cfg: Config): nat {
    if cfg.limit >= 1 then 2 * cfg.limit - 1 else 0
  }

  lemma {:induction false} WindowBoundFull(ops: seq<Op>, key: Key, a: Time, cfg: Config)
    requires Monotone(ops) && cfg.window >= 0
    ensures Count(ops, key, a, a + cfg.window, cfg, false) <= Most(cfg)
    decreases |ops|
  {
    if cfg.limit <= 0 {
      NonePass(ops, key, a, a + cfg.window, cfg);
    } else if ops != [] {
      WindowBoundFull(ops[..|ops| - 1], key, a, cfg);
      Recent(ops, key, a, a + cfg.window, cfg);
    }
  }

  lemma {:induction false} SameCount(ops: seq<Op>, key: Key, lo: Time, hi: Time, cfg: Config)
    requires Monotone(ops) && Timely(ops, cfg)
    ensures Count(ops, key, lo, hi, cfg, true) == Count(ops, key, lo, hi, cfg, false)
    decreases |ops|
  {
    if ops != [] {
      var init, last := ops[..|ops| - 1], ops[|ops| - 1];
      SameCount(init, key, lo, hi, cfg);
      if last.Request? {
        OrderedSplit(ops, last.now);
        CleanupInvisible(init, key, last.now, cfg);
      }
    }
  }

  /**
   * In every timed run whose sweeps delete only entries that are still over, any closed interval of one window length
   * admits at most 2 * limit - 1 requests of a key (none if the limit is not positive).
   */
  lemma WindowBound(ops: seq<Op>, key: Key, a: Time, cfg: Config)
    requires Monotone(ops) && Timely(ops, cfg) && cfg.window >= 0
    ensures Count(ops, key, a, a + cfg.window, cfg, true) <= if cfg.limit >= 1 then 2 * cfg.limit - 1 else 0
  {
    SameCount(ops, key, a, a + cfg.window, cfg);
    WindowBoundFull(ops, key, a, cfg);
  }

  // ----- The bound is reached -----

  /** ops followed by n requests of key at t. */
  function Burst(ops: seq<Op>, key: Key, t: Time, n: nat): seq<Op> {
    if n == 0 then ops else Burst(ops, key, t, n - 1) + [Request(key, t)]
  }

  lemma Append(ops: seq<Op>, op: Op, key: Key, lo: Time, hi: Time, cfg: Config)
    ensures After(ops + [op], cfg, true) == Step(After(ops, cfg, true), op, cfg, true)
    ensures Timely(ops, cfg) && !op.Delete? ==> Timely(ops + [op], cfg)
    ensures Count(ops + [op], key, lo, hi, cfg, true)
            == Count(ops, key, lo, hi, cfg, true)
               + if lo <= op.now <= hi && Passes(ops, op, key, cfg, true) then 1 else 0
  {
    assert (ops + [op])[..|ops|] == ops;
  }

  lemma {:induction false} BurstOrdered(ops: seq<Op>, key: Key, t: Time, n: nat)
    requires OrderedUpTo(ops, t)
    ensures OrderedUpTo(Burst(ops, key, t, n), t)
  {
    if n > 0 {
      BurstOrdered(ops, key, t, n - 1);
    }
  }

  lemma {:induction false} BurstPasses(ops: seq<Op>, key: Key, t: Time, n: nat, lo: Time, hi: Time, cfg: Config)
    requires Timely(ops, cfg)
    requires var store := After(ops, cfg, true).store;
             key in store && t <= store[key].windowEnd && store[key].count + n <= cfg.limit
    ensures var all, e := Burst(ops, key, t, n), After(ops, cfg, true).store[key];
            && Timely(all, cfg)
            && key in After(all, cfg, true).store
            && After(all, cfg, true).store[key] == Entry(e.count + n, e.windowEnd)
            && Count(all, key, lo, hi, cfg, true)
               == Count(ops, key, lo, hi, cfg, true) + if lo <= t <= hi then n else 0
  {
    hide After, Count, Timely;
    if n > 0 {
      BurstPasses(ops, key, t, n - 1, lo, hi, cfg);
      Append(Burst(ops, key, t, n - 1), Request(key, t), key, lo, hi, cfg);
    }
  }

  /** One request at 0 and limit - 1 at the end of its window. */
  lemma FirstWindow(key: Key, cfg: Config) returns (ops: seq<Op>)
    requires cfg.limit >= 1 && cfg.window >= 1
    ensures OrderedUpTo(ops, cfg.window)
    ensures Timely(ops, cfg) && key in After(ops, cfg, true).store
    ensures After(ops, cfg, true).store[key] == Entry(cfg.limit, cfg.window)
    ensures Count(ops, key, 1, 1 + cfg.window, cfg, true) == cfg.limit - 1
  {
    Append([], Request(key, 0), key, 1, 1 + cfg.window, cfg);
    var first := [] + [Request(key, 0)];
    assert Count([], key, 1, 1 + cfg.window, cfg, true) == 0;
    assert After([], cfg, true) == State(map[], {}) && Timely([], cfg);
    hide After, Count, Timely, Passes;
    BurstOrdered(first, key, cfg.window, cfg.limit - 1);
    BurstPasses(first, key, cfg.window, cfg.limit - 1, 1, 1 + cfg.window, cfg);
    ops := Burst(first, key, cfg.window, cfg.limit - 1);
  }

  /** The same, and the first request of the next window right after it. */
  lemma NextWindow(key: Key, cfg: Config) returns (ops: seq<Op>)
    requires cfg.limit >= 1 && cfg.window >= 1
    ensures var t := cfg.window + 1;
            && OrderedUpTo(ops, t)
            && Timely(ops, cfg) && key in After(ops, cfg, true).store
            && After(ops, cfg, true).store[key] == Entry(1, t + cfg.window)
            && Count(ops, key, 1, t, cfg, true) == cfg.limit
  {
    var t := cfg.window + 1;
    var window1 := FirstWindow(key, cfg);
    hide After, Count, Timely;
    Append(window1, Request(key, t), key, 1, t, cfg);
    ops := window1 + [Request(key, t)];
  }

  /** The bound is reached: all but the first of one window and all of the next in one interval. */
  lemma WindowBoundReached(key: Key, cfg: Config) returns (ops: seq<Op>)
    requires cfg.limit >= 1 && cfg.window >= 1
    ensures Monotone(ops) && Timely(ops, cfg)
    ensures Count(ops, key, 1, 1 + cfg.window, cfg, true) == 2 * cfg.limit - 1
  {
    var t := cfg.window + 1;
    hide After, Count, Timely, Burst, OrderedUpTo, Monotone;
    var turn := NextWindow(key, cfg);
    BurstOrdered(turn, key, t, cfg.limit - 1);
    BurstPasses(turn, key, t, cfg.limit - 1, 1, t, cfg);
    ops := Burst(turn, key, t, cfg.limit - 1);
    OrderedMonotone(ops, t);
  }

  lemma OrderedMonotone(ops: seq<Op>, t: Time)
    requires OrderedUpTo(ops, t)
    ensures Monotone(ops)
  {
  }

  /**
   * The deletion of an entry that a request has just given a new window breaks the bound: with a limit of one, two
   * requests pass at one instant.
   */
  lemma LateDeleteExceeds(key: Key, window: int) returns (ops: seq<Op>)
    requires window >= 0
    ensures var cfg := Config(1, window);
            Monotone(ops) && !Timely(ops, cfg) && Count(ops, key, window + 1, 2 * window + 1, cfg, true) == 2
  {
    var cfg, t := Config(1, window), window + 1;
    var ops1 := [] + [Request(key, 0)];
    var ops2 := ops1 + [Check(key, t, t)];
    var ops3 := ops2 + [Request(key, t)];
    var ops4 := ops3 + [Delete(key, t)];
    ops := ops4 + [Request(key, t)];
    var hi := t + window;
    assert Count([], key, t, hi, cfg, true) == 0 && After([], cfg, true) == State(map[], {});
    assert ops[..4] == ops4 && ops4[..3] == ops3;
    Append([], Request(key, 0), key, t, hi, cfg);
    Append(ops1, Check(key, t, t), key, t, hi, cfg);
    Append(ops2, Request(key, t), key, t, hi, cfg);
    Append(ops3, Delete(key, t), key, t, hi, cfg);
    Append(ops4, Request(key, t), key, t, hi, cfg);
    hide After, Count;
    assert !DeletesOver(After(ops3, cfg, true), Delete(key, t));
  }
}
