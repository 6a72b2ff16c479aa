/** The bounded, lossy publish/subscribe bus (backend/internal/events/bus.go). */
module EventBus {
  import opened Wrappers

  type EventType = string

  const BLOCK_NEW: EventType := "block:new"
  const TX_NEW: EventType := "tx:new"
  const ADDRESS_ACTIVITY: EventType := "address:activity"
  const PRICE_UPDATE: EventType := "price:update"
  const SYNC_STATUS: EventType := "sync:status"

  const ALL_TYPES: seq<EventType> := [BLOCK_NEW, TX_NEW, ADDRESS_ACTIVITY, PRICE_UPDATE, SYNC_STATUS]

  const CAPACITY := 100

  datatype Event = Event(kind: EventType, data: string)

  // ----- The bus as a value -----

  /** C stands for the channels; shut are the closed ones, received what each reader has taken out so far. */
  datatype State<!C(==)> = State(
    subs: map<EventType, seq<C>>, closed: bool,
    buffers: map<C, seq<Event>>, received: map<C, seq<Event>>, shut: set<C>)

  /** c in Subscribe and SubscribeAll is the channel made for the caller. */
  datatype Op<C> = Subscribe(c: C, kind: EventType) | SubscribeAll(c: C) | Unsubscribe(c: C)
                 | Publish(e: Event) | Receive(c: C) | Close

  function Empty<C>(): State<C> {
    State(map[], false, map[], map[], {})
  }

  function Listeners<C>(subs: map<EventType, seq<C>>, kind: EventType): seq<C> {
    if kind in subs then subs[kind] else []
  }

  function Of<C>(m: map<C, seq<Event>>, c: C): seq<Event> {
    if c in m then m[c] else []
  }

  function Add<C>(subs: map<EventType, seq<C>>, c: C, kinds: seq<EventType>): map<EventType, seq<C>> {
    if kinds == [] then subs
    else
      var most, last := Add(subs, c, kinds[..|kinds| - 1]), kinds[|kinds| - 1];
      most[last := Listeners(most, last) + [c]]
  }

  /** list without the first occurrence of c. */
  function Without<C(==)>(list: seq<C>, c: C): seq<C> {
    if list == [] then []
    else if list[0] == c then list[1..]
    else [list[0]] + Without(list[1..], c)
  }

  function Send<C>(buffers: map<C, seq<Event>>, c: C, e: Event): map<C, seq<Event>> {
    if |Of(buffers, c)| < CAPACITY then buffers[c := Of(buffers, c) + [e]] else buffers
  }

  function Offer<C>(buffers: map<C, seq<Event>>, list: seq<C>, e: Event): map<C, seq<Event>> {
    if list == [] then buffers else Send(Offer(buffers, list[..|list| - 1], e), list[|list| - 1], e)
  }

  function Listed<C>(subs: map<EventType, seq<C>>): set<C> {
    set k, c | k in subs && c in subs[k] :: c
  }

  function Step<C>(s: State<C>, op: Op<C>): State<C> {
    match op
    case Subscribe(c, kind) => Joined(s, c, [kind])
    case SubscribeAll(c) => Joined(s, c, ALL_TYPES)
    case Unsubscribe(c) => s.(subs := map k | k in s.subs :: Without(s.subs[k], c))
    case Publish(e) =>
      if s.closed then s else s.(buffers := Offer(s.buffers, Listeners(s.subs, e.kind), e))
    case Receive(c) =>
      if Of(s.buffers, c) == [] then s
      else s.(buffers := s.buffers[c := s.buffers[c][1..]],
              received := s.received[c := Of(s.received, c) + [s.buffers[c][0]]])
    case Close => s.(subs := map[], closed := true, shut := s.shut + Listed(s.subs))
  }

  function Joined<C>(s: State<C>, c: C, kinds: seq<EventType>): State<C> {
    s.(subs := Add(s.subs, c, kinds), buffers := s.buffers[c := []], received := s.received[c := []])
  }

  // ----- The code -----

  /** A channel of capacity 100. Sending on a closed channel and closing it again panic, hence the preconditions. */
  class Chan {
    var buffer: seq<Event>
    var closed: bool
    ghost var received: seq<Event>

    constructor ()
      ensures buffer == [] && received == [] && !closed
    {
      buffer, received, closed := [], [], false;
    }

    /** select with a default branch: a full buffer drops the event. */
    method TrySend(e: Event)
      requires !closed
      modifies this`buffer
      ensures buffer == if |old(buffer)| < CAPACITY then old(buffer) + [e] else old(buffer)
    {
      if |buffer| < CAPACITY {
        buffer := buffer + [e];
      }
    }

    method Close()
      requires !closed
      modifies this`closed
      ensures closed
    {
      closed := true;
    }
  }

  class Bus {
    var subscribers: map<EventType, seq<Chan>>
    var closed: bool
    /** Every channel handed out so far. */
    ghost var known: set<Chan>

    ghost function View(): State<Chan>
      reads this, known
    {
      State(subscribers, closed, map c | c in known :: c.buffer, map c | c in known :: c.received,
            set c | c in known && c.closed)
    }

    ghost predicate Valid()
      reads this, known
    {
      Sound(View())
    }

    constructor ()
      ensures Valid() && View() == Empty() && known == {}
    {
      subscribers, closed, known := map[], false, {};
    }

    method Subscribe(kind: EventType) returns (ch: Chan)
      requires Valid()
      modifies this`subscribers, this`known
      ensures fresh(ch) && known == old(known) + {ch}
      ensures Valid() && View() == Step(old(View()), Op.Subscribe(ch, kind))
    {
      hide Sound, Step, Add;
      ch := NewChan();
      ghost var before := View();
      subscribers := subscribers[kind := Listeners(subscribers, kind) + [ch]];
      AddOne(before.subs, ch, kind);
      JoinIs(old(View()), before, View(), ch, [kind]);
      SubscribeIs(old(View()), ch, kind);
      StepSound(old(View()), Op.Subscribe(ch, kind));
    }

    method NewChan() returns (ch: Chan)
      modifies this`known
      ensures fresh(ch) && known == old(known) + {ch}
      ensures View().subs == old(View()).subs && View().closed == old(View()).closed
      ensures View().shut == old(View()).shut
      ensures View().buffers == old(View()).buffers[ch := []]
      ensures View().received == old(View()).received[ch := []]
    {
      ch := new Chan();
      known := known + {ch};
    }

    method SubscribeAll() returns (ch: Chan)
      requires Valid()
      modifies this`subscribers, this`known
      ensures fresh(ch) && known == old(known) + {ch}
      ensures Valid() && View() == Step(old(View()), Op.SubscribeAll(ch))
    {
      hide Sound, Step, Add;
      ch := NewChan();
      ghost var before := View();
      AppendToAll(ch);
      JoinIs(old(View()), before, View(), ch, ALL_TYPES);
      SubscribeAllIs(old(View()), ch);
      StepSound(old(View()), Op.SubscribeAll(ch));
    }

    /** The loop of SubscribeAll. */
    method AppendToAll(ch: Chan)
      modifies this`subscribers
      ensures subscribers == Add(old(subscribers), ch, ALL_TYPES)
    {
      var eventTypes := [BLOCK_NEW, TX_NEW, ADDRESS_ACTIVITY, PRICE_UPDATE, SYNC_STATUS];
      for i := 0 to |eventTypes|
        invariant subscribers == Add(old(subscribers), ch, eventTypes[..i])
      {
        var et := eventTypes[i];
        assert eventTypes[..i + 1][..i] == eventTypes[..i];
        subscribers := subscribers[et := Listeners(subscribers, et) + [ch]];
      }
      assert eventTypes[..|eventTypes|] == ALL_TYPES;
    }

    method Unsubscribe(ch: Chan)
      requires Valid()
      modifies this`subscribers
      ensures Valid() && View() == Step(old(View()), Op.Unsubscribe(ch))
    {
      hide Sound, Without;
      var rest := subscribers.Keys;
      while rest != {}
        invariant rest <= subscribers.Keys == old(subscribers).Keys
        invariant forall k :: k in subscribers ==>
          subscribers[k] == if k in rest then old(subscribers)[k] else Without(old(subscribers)[k], ch)
      {
        var eventType :| eventType in rest;
        var subs := subscribers[eventType];
        var i := 0;
        while i < |subs| && subs[i] != ch
          invariant i <= |subs| && ch !in subs[..i]
        {
          i := i + 1;
        }
        WithoutAt(subs, ch, i);
        if i < |subs| {
          subscribers := subscribers[eventType := subs[..i] + subs[i + 1..]];
        }
        rest := rest - {eventType};
      }
      assert subscribers == map k | k in old(subscribers) :: Without(old(subscribers)[k], ch);
      assert View() == Step(old(View()), Op.Unsubscribe(ch));
      hide Step;
      StepSound(old(View()), Op.Unsubscribe(ch));
    }

    /** Never blocks, and never sends on a closed channel. */
    method Publish(event: Event)
      requires Valid()
      modifies Listeners(subscribers, event.kind)
      ensures Valid() && View() == Step(old(View()), Op.Publish(event))
    {
      ghost var before := View();
      assert AllOpen(before, Listeners(subscribers, event.kind));
      hide Sound, Offer;
      StepSound(before, Op.Publish(event));
      if closed {
        return;
      }
      if event.kind !in subscribers {
        OfferNobody(before.buffers, event);
        return;
      }
      OfferAll(subscribers[event.kind], event);
      assert View() == Step(before, Op.Publish(event));
    }

    /** The loop of Publish. */
    method OfferAll(subs: seq<Chan>, event: Event)
      requires AllOpen(View(), subs)
      modifies (set c | c in subs)`buffer
      ensures View().buffers == Offer(old(View()).buffers, subs, event)
    {
      hide Offer;
      ghost var before := View().buffers;
      OfferNobody(before, event);
      for i := 0 to |subs|
        invariant View().buffers == Offer(before, subs[..i], event)
      {
        OfferLast(before, subs, i, event);
        ghost var now := View().buffers;
        assert subs[i] in old(View()).buffers;
        subs[i].TrySend(event);
        assert View().buffers == Send(now, subs[i], event);
      }
      assert subs[..|subs|] == subs;
    }

    /** SubscribeAll lists a channel five times; it is closed once. */
    method Close()
      requires Valid()
      modifies this`closed, this`subscribers, Listed(subscribers)
      ensures Valid() && View() == Step(old(View()), Op.Close)
    {
      ghost var before := View();
      assert AllListedOpen();
      hide Sound, AllOpen, AllListedOpen, Listed, Step;
      CloseAll();
      closed, subscribers := true, map[];
      assert View() == before.(subs := map[], closed := true, shut := before.shut + Listed(before.subs));
      CloseIs(before);
      StepSound(before, Op.Close);
    }

    ghost predicate AllListedOpen()
      reads this`subscribers, this`known, known
    {
      forall k, i :: k in subscribers && 0 <= i < |subscribers[k]| ==>
        subscribers[k][i] in known && !subscribers[k][i].closed
    }

    /** The loop of Close. */
    method CloseAll()
      requires AllListedOpen()
      modifies Listed(subscribers)`closed
      ensures View() == old(View()).(shut := old(View()).shut + Listed(subscribers))
    {
      var closedChans := CloseEach();
      assert View().shut == old(View()).shut + closedChans;
    }

    method CloseEach() returns (closedChans: set<Chan>)
      requires AllListedOpen()
      modifies Listed(subscribers)`closed
      ensures closedChans == Listed(subscribers) && closedChans <= known
      ensures forall c :: c in known ==> c.closed == (old(c.closed) || c in closedChans)
    {
      closedChans := {};
      var rest := subscribers.Keys;
      while rest != {}
        invariant rest <= subscribers.Keys
        invariant closedChans == set k, c | k in subscribers.Keys - rest && c in subscribers[k] :: c
        invariant forall c :: c in known ==> c.closed == (old(c.closed) || c in closedChans)
      {
        var k :| k in rest;
        var subs := subscribers[k];
        ghost var before := closedChans;
        for i := 0 to |subs|
          invariant closedChans == before + set c | c in subs[..i]
          invariant forall c :: c in known ==> c.closed == (old(c.closed) || c in closedChans)
        {
          var ch := subs[i];
          assert ch in subs && ch in Listed(subscribers);
          assert subscribers[k][i] in known && !old(ch.closed);
          assert subs[..i + 1] == subs[..i] + [ch];
          if ch !in closedChans {
            ch.Close();
            closedChans := closedChans + {ch};
          }
        }
        assert subs[..|subs|] == subs;
        rest := rest - {k};
      }
    }
  }

  /** after is s with c joined, if it differs from before only in the lists and before only in the new channel. */
  lemma JoinIs<C>(s: State<C>, before: State<C>, after: State<C>, c: C, kinds: seq<EventType>)
    requires before.subs == s.subs && before.closed == s.closed && before.shut == s.shut
    requires before.buffers == s.buffers[c := []] && before.received == s.received[c := []]
    requires after == before.(subs := Add(before.subs, c, kinds))
    ensures after == Joined(s, c, kinds)
  {
  }

  lemma AddOne<C>(subs: map<EventType, seq<C>>, c: C, kind: EventType)
    ensures Add(subs, c, [kind]) == subs[kind := Listeners(subs, kind) + [c]]
  {
    assert [kind][..0] == [];
    assert Add(subs, c, []) == subs;
  }

  lemma SubscribeIs<C>(s: State<C>, c: C, kind: EventType)
    ensures Step(s, Op.Subscribe(c, kind)) == Joined(s, c, [kind])
  {
  }

  lemma SubscribeAllIs<C>(s: State<C>, c: C)
    ensures Step(s, Op.SubscribeAll(c)) == Joined(s, c, ALL_TYPES)
  {
  }

  lemma CloseIs<C>(s: State<C>)
    ensures Step(s, Op.Close) == s.(subs := map[], closed := true, shut := s.shut + Listed(s.subs))
  {
  }

  lemma OfferLast<C>(buffers: map<C, seq<Event>>, list: seq<C>, i: nat, e: Event)
    requires i < |list|
    ensures Offer(buffers, list[..i + 1], e) == Send(Offer(buffers, list[..i], e), list[i], e)
  {
    assert list[..i + 1][..i] == list[..i];
  }

  lemma WithoutOther<C>(list: seq<C>, c: C)
    requires list != [] && list[0] != c
    ensures Without(list, c) == [list[0]] + Without(list[1..], c)
  {
  }

  lemma {:induction false} WithoutAt<C>(list: seq<C>, c: C, i: nat)
    requires i <= |list| && c !in list[..i] && (i < |list| ==> list[i] == c)
    ensures Without(list, c) == if i < |list| then list[..i] + list[i + 1..] else list
  {
    if i > 0 {
      var s, rest := list[0], list[1..];
      assert s == list[..i][0] && rest[..i - 1] == list[..i][1..];
      WithoutAt(rest, c, i - 1);
      hide Without;
      assert list[..i] == [s] + rest[..i - 1];
      assert i < |list| ==> list[i + 1..] == rest[i..];
      WithoutOther(list, c);
    }
  }

  // ----- What every step keeps -----

  predicate NoDuplicates<T(==)>(s: seq<T>) {
    forall i, j :: 0 <= i < j < |s| ==> s[i] != s[j]
  }

  predicate AllOpen<C(==)>(s: State<C>, list: seq<C>) {
    forall i :: 0 <= i < |list| ==> list[i] in s.buffers && list[i] !in s.shut
  }

  /** Every listed channel is a known open one, listed once per type; no buffer is over capacity. */
  predicate Sound<C>(s: State<C>) {
    && (forall k :: k in s.subs ==> NoDuplicates(s.subs[k]) && AllOpen(s, s.subs[k]))
    && (forall c :: c in s.buffers ==> |s.buffers[c]| <= CAPACITY)
    && s.shut <= s.buffers.Keys && s.received.Keys == s.buffers.Keys
  }

  /** The channel op makes. */
  function Made<C>(op: Op<C>): set<C> {
    if op.Subscribe? || op.SubscribeAll? then {op.c} else {}
  }

  /** A channel joins when it is made. */
  predicate FreshFor<C>(s: State<C>, op: Op<C>) {
    (op.Subscribe? || op.SubscribeAll?) ==> op.c !in s.buffers
  }

  lemma {:induction false} AddExactly<C>(subs: map<EventType, seq<C>>, c: C, kinds: seq<EventType>, k: EventType)
    requires NoDuplicates(kinds)
    ensures Listeners(Add(subs, c, kinds), k) == Listeners(subs, k) + if k in kinds then [c] else []
    ensures k in Add(subs, c, kinds) <==> k in subs || k in kinds
  {
    if kinds != [] {
      var most := kinds[..|kinds| - 1];
      AddExactly(subs, c, most, k);
      assert kinds == most + [kinds[|kinds| - 1]];
      assert kinds[|kinds| - 1] !in most;
    }
  }

  lemma {:induction false} WithoutExactly<C>(list: seq<C>, c: C, d: C)
    requires NoDuplicates(list)
    ensures d in Without(list, c) <==> d in list && d != c
  {
    if list != [] {
      assert list == [list[0]] + list[1..] && list[0] !in list[1..];
      if list[0] != c {
        WithoutExactly(list[1..], c, d);
      }
    }
  }

  lemma {:induction false} WithoutDistinct<C>(list: seq<C>, c: C)
    requires NoDuplicates(list)
    ensures NoDuplicates(Without(list, c))
  {
    if list != [] {
      assert list[0] !in list[1..];
      if list[0] != c {
        WithoutDistinct(list[1..], c);
        WithoutExactly(list[1..], c, list[0]);
        assert list[0] !in Without(list[1..], c);
      }
    }
  }

  /** Offering an event to distinct channels appends it to exactly the ones with room. */
  lemma {:induction false} OfferExactly<C>(buffers: map<C, seq<Event>>, list: seq<C>, e: Event, c: C)
    requires NoDuplicates(list)
    ensures Of(Offer(buffers, list, e), c)
            == Of(buffers, c) + if c in list && |Of(buffers, c)| < CAPACITY then [e] else []
    ensures (forall d :: d in list ==> d in buffers) ==> Offer(buffers, list, e).Keys == buffers.Keys
  {
    if list != [] {
      var most := list[..|list| - 1];
      assert list == most + [list[|list| - 1]] && list[|list| - 1] !in most;
      OfferExactly(buffers, most, e, c);
      OfferExactly(buffers, most, e, list[|list| - 1]);
    }
  }

  lemma JoinSound<C>(s: State<C>, c: C, kinds: seq<EventType>)
    requires Sound(s) && c !in s.buffers && NoDuplicates(kinds)
    ensures Sound(Joined(s, c, kinds))
  {
    hide Add;
    var t := Joined(s, c, kinds);
    forall k | k in t.subs
      ensures NoDuplicates(t.subs[k]) && AllOpen(t, t.subs[k])
    {
      AddExactly(s.subs, c, kinds, k);
      assert t.subs[k] == Listeners(t.subs, k);
    }
  }

  lemma BuffersStep<C>(s: State<C>, op: Op<C>)
    requires Sound(s)
    ensures Step(s, op).buffers.Keys == s.buffers.Keys + Made(op)
  {
    hide Add, Without;
    if op.Publish? && !s.closed {
      var list := Listeners(s.subs, op.e.kind);
      assert forall d :: d in list ==> d in s.buffers;
      if list == [] { OfferNobody(s.buffers, op.e); } else { OfferExactly(s.buffers, list, op.e, list[0]); }
    }
  }

  lemma RoomKept<C>(s: State<C>, e: Event, c: C)
    requires Sound(s)
    ensures |Of(Step(s, Op.Publish(e)).buffers, c)| <= CAPACITY
  {
    if !s.closed {
      OfferExactly(s.buffers, Listeners(s.subs, e.kind), e, c);
    }
  }

  lemma StepSound<C>(s: State<C>, op: Op<C>)
    requires Sound(s) && FreshFor(s, op)
    ensures Sound(Step(s, op))
  {
    hide Add, Offer, Without;
    match op
    case Subscribe(c, kind) => JoinSound(s, c, [kind]);
    case SubscribeAll(c) => JoinSound(s, c, ALL_TYPES);
    case Unsubscribe(c) =>
      forall k | k in s.subs ensures NoDuplicates(Without(s.subs[k], c)) && AllOpen(s, Without(s.subs[k], c)) {
        WithoutDistinct(s.subs[k], c);
        var list := Without(s.subs[k], c);
        forall i | 0 <= i < |list| ensures list[i] in s.subs[k] {
          WithoutExactly(s.subs[k], c, list[i]);
        }
      }
    case Publish(e) =>
      BuffersStep(s, op);
      hide NoDuplicates;
      var after := Step(s, op).buffers;
      forall c | c in after ensures |after[c]| <= CAPACITY {
        RoomKept(s, e, c);
      }
    case Receive(c) =>
    case Close =>
  }

  lemma OfferNobody<C>(buffers: map<C, seq<Event>>, e: Event)
    ensures Offer(buffers, [], e) == buffers
  {
  }

  // ----- Whole runs -----

  function After<C>(ops: seq<Op<C>>): State<C>
    decreases |ops|
  {
    if ops == [] then Empty() else Step(After(ops[..|ops| - 1]), ops[|ops| - 1])
  }

  function AllMade<C>(ops: seq<Op<C>>): set<C> {
    set op, c | op in ops && c in Made(op) :: c
  }

  /** Every subscription makes a channel that no earlier one made. */
  predicate FreshChannels<C(==)>(ops: seq<Op<C>>)
    decreases |ops|
  {
    ops == [] ||
    var init, last := ops[..|ops| - 1], ops[|ops| - 1];
    FreshChannels(init) && Made(last) !! AllMade(init)
  }

  lemma AllMadeLast<C>(ops: seq<Op<C>>, op: Op<C>)
    ensures AllMade(ops + [op]) == AllMade(ops) + Made(op)
  {
    forall c | c in Made(op) ensures c in AllMade(ops + [op]) {
      assert op in ops + [op];
    }
  }

  lemma FreshHere<C>(s: State<C>, op: Op<C>)
    ensures FreshFor(s, op) <==> Made(op) !! s.buffers.Keys
  {
  }

  /** In every run every state is sound: nothing is ever sent on, or closes, a channel that is closed. */
  lemma {:induction false} EveryRunSound<C>(ops: seq<Op<C>>)
    requires FreshChannels(ops)
    ensures Sound(After(ops)) && After(ops).buffers.Keys == AllMade(ops)
    decreases |ops|
  {
    if ops != [] {
      var init, last := ops[..|ops| - 1], ops[|ops| - 1];
      EveryRunSound(init);
      assert ops == init + [last];
      hide Sound, Step, Made, AllMade;
      AllMadeLast(init, last);
      BuffersStep(After(init), last);
      FreshHere(After(init), last);
      StepSound(After(init), last);
    }
  }

  // ----- Who is subscribed, from the history alone -----

  predicate Joins<C(==)>(op: Op<C>, c: C, kind: EventType) {
    || op == Op.Subscribe(c, kind)
    || (op == Op.SubscribeAll(c)
        && (kind == "block:new" || kind == "tx:new" || kind == "address:activity" || kind == "price:update"
            || kind == "sync:status"))
  }

  predicate Leaves<C(==)>(op: Op<C>, c: C) {
    op == Op.Unsubscribe(c) || op == Op.Close
  }

  /** Some operation subscribed c to kind, and none since has unsubscribed c or closed the bus. */
  predicate Subscribed<C(==)>(ops: seq<Op<C>>, c: C, kind: EventType) {
    exists i :: 0 <= i < |ops| && Joins(ops[i], c, kind) && StaysAfter(ops, c, i)
  }

  predicate StaysAfter<C(==)>(ops: seq<Op<C>>, c: C, i: nat) {
    forall j :: i < j < |ops| ==> !Leaves(ops[j], c)
  }

  lemma SubscribedStep<C>(ops: seq<Op<C>>, op: Op<C>, c: C, kind: EventType)
    ensures Subscribed(ops + [op], c, kind)
            <==> Joins(op, c, kind) || (Subscribed(ops, c, kind) && !Leaves(op, c))
  {
    var all := ops + [op];
    if Joins(op, c, kind) {
      assert Joins(all[|ops|], c, kind) && StaysAfter(all, c, |ops|);
    } else if Subscribed(ops, c, kind) && !Leaves(op, c) {
      var i :| 0 <= i < |ops| && Joins(ops[i], c, kind) && StaysAfter(ops, c, i);
      assert Joins(all[i], c, kind) && StaysAfter(all, c, i);
    }
    if Subscribed(all, c, kind) && !Joins(op, c, kind) {
      var i :| 0 <= i < |all| && Joins(all[i], c, kind) && StaysAfter(all, c, i);
      assert all[|ops|] == op && !Leaves(op, c);
      assert Joins(ops[i], c, kind);
      forall j | i < j < |ops| ensures !Leaves(ops[j], c) {
        assert !Leaves(all[j], c);
      }
      assert StaysAfter(ops, c, i);
    }
  }

  lemma ListedStep<C>(s: State<C>, op: Op<C>, c: C, kind: EventType)
    requires Sound(s)
    ensures c in Listeners(Step(s, op).subs, kind)
            <==> Joins(op, c, kind) || (c in Listeners(s.subs, kind) && !Leaves(op, c))
  {
    hide Add, Without;
    match op
    case Subscribe(d, k) => AddExactly(s.subs, d, [k], kind);
    case SubscribeAll(d) => AddExactly(s.subs, d, ALL_TYPES, kind);
    case Unsubscribe(d) => if kind in s.subs { WithoutExactly(s.subs[kind], d, c); }
    case _ =>
  }

  /** The bus lists a channel for a type exactly if the history says it is subscribed. */
  lemma {:induction false} ListedExactly<C>(ops: seq<Op<C>>, c: C, kind: EventType)
    requires FreshChannels(ops)
    ensures c in Listeners(After(ops).subs, kind) <==> Subscribed(ops, c, kind)
    decreases |ops|
  {
    if ops != [] {
      var init, last := ops[..|ops| - 1], ops[|ops| - 1];
      assert ops == init + [last];
      ListedExactly(init, c, kind);
      EveryRunSound(init);
      hide Step, Subscribed, Sound;
      ListedStep(After(init), last, c, kind);
      SubscribedStep(init, last, c, kind);
    }
  }

  lemma {:induction false} ClosedExactly<C>(ops: seq<Op<C>>)
    ensures After(ops).closed <==> Op.Close in ops
    decreases |ops|
  {
    if ops != [] {
      var init, last := ops[..|ops| - 1], ops[|ops| - 1];
      assert ops == init + [last];
      ClosedExactly(init);
    }
  }

  // ----- What a reader gets -----

  /** The i-th operation publishes an event, on an open bus, of a type c is subscribed to. */
  predicate MeantFor<C(==)>(ops: seq<Op<C>>, c: C, i: nat)
    requires i < |ops|
  {
    ops[i].Publish? && Op.Close !in ops[..i] && Subscribed(ops[..i], c, ops[i].e.kind)
  }

  predicate HasRoom<C(==)>(ops: seq<Op<C>>, c: C, i: nat)
    requires i < |ops|
  {
    |Of(After(ops[..i]).buffers, c)| < 100
  }

  /** Received by the reader, then still buffered. */
  function Delivered<C>(s: State<C>, c: C): seq<Event> {
    Of(s.received, c) + Of(s.buffers, c)
  }

  predicate PublishedAt<C>(ops: seq<Op<C>>, log: seq<nat>) {
    forall i :: 0 <= i < |log| ==> log[i] < |ops| && ops[log[i]].Publish?
  }

  /** The positions of the events that got through to c. */
  function Log<C(==)>(ops: seq<Op<C>>, c: C): (log: seq<nat>)
    ensures PublishedAt(ops, log)
    decreases |ops|
  {
    if ops == [] then []
    else
      var n := |ops| - 1;
      Log(ops[..n], c) + if MeantFor(ops, c, n) && HasRoom(ops, c, n) then [n] else []
  }

  function EventsAt<C>(ops: seq<Op<C>>, log: seq<nat>): seq<Event>
    requires PublishedAt(ops, log)
  {
    if log == [] then [] else EventsAt(ops, log[..|log| - 1]) + [ops[log[|log| - 1]].e]
  }

  lemma DeliveredStep<C>(s: State<C>, op: Op<C>, c: C)
    requires Sound(s) && FreshFor(s, op)
    ensures Delivered(Step(s, op), c) == Delivered(s, c) + if Takes(s, op, c) then [op.e] else []
  {
    hide Add, Without;
    if op.Publish? && !s.closed {
      OfferExactly(s.buffers, Listeners(s.subs, op.e.kind), op.e, c);
    } else if op == Receive(c) && Of(s.buffers, c) != [] {
      assert [s.buffers[c][0]] + s.buffers[c][1..] == s.buffers[c];
    }
  }

  lemma HitPrefix<C>(ops: seq<Op<C>>, c: C, n: nat, i: nat)
    requires i < n <= |ops|
    ensures MeantFor(ops, c, i) == MeantFor(ops[..n], c, i) && HasRoom(ops, c, i) == HasRoom(ops[..n], c, i)
  {
    hide After, Subscribed;
    assert ops[..i] == ops[..n][..i];
  }

  lemma {:induction false} LogExactly<C>(ops: seq<Op<C>>, c: C, i: nat)
    requires i < |ops|
    ensures i in Log(ops, c) <==> MeantFor(ops, c, i) && HasRoom(ops, c, i)
    decreases |ops|
  {
    hide MeantFor, HasRoom;
    var n := |ops| - 1;
    if i < n {
      LogExactly(ops[..n], c, i);
      HitPrefix(ops, c, n, i);
    }
  }

  lemma {:induction false} LogOrdered<C>(ops: seq<Op<C>>, c: C)
    ensures forall i, j :: 0 <= i < j < |Log(ops, c)| ==> Log(ops, c)[i] < Log(ops, c)[j]
    decreases |ops|
  {
    hide MeantFor, HasRoom;
    if ops != [] {
      LogOrdered(ops[..|ops| - 1], c);
    }
  }

  predicate Takes<C(==)>(s: State<C>, op: Op<C>, c: C) {
    op.Publish? && !s.closed && c in Listeners(s.subs, op.e.kind) && |Of(s.buffers, c)| < CAPACITY
  }

  lemma LastTaken<C>(ops: seq<Op<C>>, c: C)
    requires FreshChannels(ops) && ops != []
    ensures var n := |ops| - 1;
            Takes(After(ops[..n]), ops[n], c) <==> MeantFor(ops, c, n) && HasRoom(ops, c, n)
  {
    hide After, Subscribed;
    var n := |ops| - 1;
    var init, last := ops[..n], ops[n];
    ClosedExactly(init);
    if last.Publish? {
      ListedExactly(init, c, last.e.kind);
    }
  }

  lemma EventsAtLast<C>(ops: seq<Op<C>>, c: C)
    requires ops != []
    ensures var n := |ops| - 1;
            EventsAt(ops, Log(ops, c))
            == EventsAt(ops[..n], Log(ops[..n], c))
               + if MeantFor(ops, c, n) && HasRoom(ops, c, n) then [ops[n].e] else []
  {
    hide HasRoom, Subscribed;
    var n := |ops| - 1;
    var init := Log(ops[..n], c);
    EventsAtInit(ops, n, init);
    if MeantFor(ops, c, n) && HasRoom(ops, c, n) {
      assert Log(ops, c) == init + [n] && (init + [n])[..|init|] == init;
    } else {
      assert Log(ops, c) == init;
    }
  }

  lemma {:induction false} EventsAtInit<C>(ops: seq<Op<C>>, n: nat, log: seq<nat>)
    requires n <= |ops| && PublishedAt(ops[..n], log)
    ensures PublishedAt(ops, log) && EventsAt(ops, log) == EventsAt(ops[..n], log)
  {
    if log != [] {
      EventsAtInit(ops, n, log[..|log| - 1]);
    }
  }

  lemma {:induction false} DeliveredExactly<C>(ops: seq<Op<C>>, c: C)
    requires FreshChannels(ops)
    ensures Delivered(After(ops), c) == EventsAt(ops, Log(ops, c))
    decreases |ops|
  {
    if ops != [] {
      var n := |ops| - 1;
      DeliveredExactly(ops[..n], c);
      EveryRunSound(ops[..n]);
      FreshHere(After(ops[..n]), ops[n]);
      DeliveredStep(After(ops[..n]), ops[n], c);
      LastTaken(ops, c);
      EventsAtLast(ops, c);
      hide Step, Sound, Delivered, Takes, MeantFor, HasRoom, EventsAt, Log, PublishedAt;
    }
  }

  /**
   * In every run, what a channel's reader has received followed by what is buffered is the list of events at the
   * positions in its log: in publish order, none twice, and with nothing missing of what was published on the open
   * bus for a type it was subscribed to except where its buffer held 100 at that moment.
   */
  lemma Delivery<C>(ops: seq<Op<C>>, c: C)
    requires FreshChannels(ops)
    ensures Delivered(After(ops), c) == EventsAt(ops, Log(ops, c))
    ensures forall i, j :: 0 <= i < j < |Log(ops, c)| ==> Log(ops, c)[i] < Log(ops, c)[j]
    ensures forall i :: 0 <= i < |ops| ==> (i in Log(ops, c) <==> MeantFor(ops, c, i) && HasRoom(ops, c, i))
    ensures |Of(After(ops).buffers, c)| <= 100
  {
    DeliveredExactly(ops, c);
    LogOrdered(ops, c);
    forall i | 0 <= i < |ops| ensures i in Log(ops, c) <==> MeantFor(ops, c, i) && HasRoom(ops, c, i) {
      LogExactly(ops, c, i);
    }
    EveryRunSound(ops);
  }

  // ----- Closing -----

  /** How many Close operations closed c. */
  function Closings<C(==)>(ops: seq<Op<C>>, c: C): nat
    decreases |ops|
  {
    if ops == [] then 0
    else
      var init, last := ops[..|ops| - 1], ops[|ops| - 1];
      Closings(init, c) + if last == Op.Close && c in Listed(After(init).subs) then 1 else 0
  }

  /** No channel is closed twice in any run, though SubscribeAll lists it five times. */
  lemma {:induction false} ClosedOnce<C>(ops: seq<Op<C>>, c: C)
    requires FreshChannels(ops)
    ensures Closings(ops, c) == if c in After(ops).shut then 1 else 0
    decreases |ops|
  {
    if ops != [] {
      var init := ops[..|ops| - 1];
      ClosedOnce(init, c);
      EveryRunSound(init);
    }
  }
}
