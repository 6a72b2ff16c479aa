/**
 * Publishers that share the bus (backend/internal/events/bus.go): publishing takes the lock for reading, so publishers
 * offer their events to one channel after the other in between each other, while subscribing, unsubscribing and closing
 * wait for all of them.
 */
module BusConcurrency {
  import opened EventBus
  import opened Wrappers

  type Publisher = nat

  /** A publish under way: its event and the channels still to come. */
  datatype Sending<C> = Sending(e: Event, rest: seq<C>)

  datatype Shared<!C(==)> = Shared(bus: State<C>, publishing: map<Publisher, Sending<C>>)

  datatype Action<C> =
    | Locked(op: Op<C>)                // subscribing, unsubscribing or closing, under the write lock
    | Begin(p: Publisher, e: Event)    // the read lock is taken and the list is looked up
    | SendNext(p: Publisher)
    | End(p: Publisher)
    | Take(c: C)                       // a reader receives

  predicate Enabled<C>(s: Shared<C>, a: Action<C>) {
    match a
    case Locked(op) => !op.Publish? && !op.Receive? && s.publishing == map[] && FreshFor(s.bus, op)
    case Begin(p, _) => p !in s.publishing
    case SendNext(p) => p in s.publishing && s.publishing[p].rest != []
    case End(p) => p in s.publishing && s.publishing[p].rest == []
    case Take(_) => true
  }

  /** The channels an event is going to be offered to. */
  function Targets<C>(bus: State<C>, e: Event): seq<C> {
    if bus.closed then [] else Listeners(bus.subs, e.kind)
  }

  function Next<C>(s: Shared<C>, a: Action<C>): Shared<C>
    requires Enabled(s, a)
  {
    match a
    case Locked(op) => s.(bus := Step(s.bus, op))
    case Begin(p, e) => s.(publishing := s.publishing[p := Sending(e, Targets(s.bus, e))])
    case SendNext(p) =>
      var m := s.publishing[p];
      Shared(s.bus.(buffers := Send(s.bus.buffers, m.rest[0], m.e)), s.publishing[p := Sending(m.e, m.rest[1..])])
    case End(p) => s.(publishing := s.publishing - {p})
    case Take(c) => s.(bus := Step(s.bus, Op.Receive(c)))
  }

  /** The state after actions, or None if some action was not enabled at its turn. */
  function Run<C(==)>(actions: seq<Action<C>>): Option<Shared<C>>
    decreases |actions|
  {
    if actions == [] then Some(Shared(Empty(), map[]))
    else
      var before := Run(actions[..|actions| - 1]);
      var a := actions[|actions| - 1];
      if before.Some? && Enabled(before.value, a) then Some(Next(before.value, a)) else None
  }

  // ----- The run as one channel sees it -----

  /** A publish happens for c when it offers its event to c, or when it begins if c is not among its targets. */
  function OpsFor<C(==)>(s: Shared<C>, a: Action<C>, c: C): seq<Op<C>>
    requires Enabled(s, a)
  {
    match a
    case Locked(op) => [op]
    case Begin(_, e) => if c in Targets(s.bus, e) then [] else [Op.Publish(e)]
    case SendNext(p) => if s.publishing[p].rest[0] == c then [Op.Publish(s.publishing[p].e)] else []
    case End(_) => []
    case Take(d) => if d == c then [Op.Receive(c)] else []
  }

  function SeenBy<C(==)>(actions: seq<Action<C>>, c: C): seq<Op<C>>
    requires Run(actions).Some?
    decreases |actions|
  {
    if actions == [] then []
    else
      var init := actions[..|actions| - 1];
      SeenBy(init, c) + OpsFor(Run(init).value, actions[|actions| - 1], c)
  }

  /** No difference for c, nor in who is subscribed. */
  predicate Agree<C>(s: State<C>, t: State<C>, c: C) {
    && s.subs == t.subs && s.closed == t.closed && s.shut == t.shut && s.buffers.Keys == t.buffers.Keys
    && Of(s.buffers, c) == Of(t.buffers, c) && Of(s.received, c) == Of(t.received, c)
  }

  /** What is still to come of a publish is subscribed, each channel once, and the bus is open. */
  predicate StillTargets<C>(bus: State<C>, m: Sending<C>) {
    && NoDuplicates(m.rest) && (m.rest != [] ==> !bus.closed)
    && forall i :: 0 <= i < |m.rest| ==> m.rest[i] in Listeners(bus.subs, m.e.kind)
  }

  predicate AllStillTargets<C>(s: Shared<C>) {
    forall p :: p in s.publishing ==> StillTargets(s.bus, s.publishing[p])
  }

  lemma TargetsHold<C>(bus: State<C>, e: Event)
    requires Sound(bus)
    ensures StillTargets(bus, Sending(e, Targets(bus, e)))
  {
  }

  lemma TailHolds<C>(bus: State<C>, m: Sending<C>)
    requires StillTargets(bus, m) && m.rest != []
    ensures StillTargets(bus, Sending(m.e, m.rest[1..])) && m.rest[0] !in m.rest[1..]
  {
  }

  lemma SendSound<C>(bus: State<C>, m: Sending<C>)
    requires Sound(bus) && StillTargets(bus, m) && m.rest != []
    ensures Sound(bus.(buffers := Send(bus.buffers, m.rest[0], m.e)))
    ensures Send(bus.buffers, m.rest[0], m.e).Keys == bus.buffers.Keys
  {
    var k := m.e.kind;
    assert m.rest[0] in Listeners(bus.subs, k);
    assert AllOpen(bus, bus.subs[k]);
    var after := bus.(buffers := Send(bus.buffers, m.rest[0], m.e));
    forall j | j in after.subs ensures NoDuplicates(after.subs[j]) && AllOpen(after, after.subs[j]) {
      assert AllOpen(bus, bus.subs[j]);
    }
  }

  lemma NextSound<C>(s: Shared<C>, a: Action<C>)
    requires Sound(s.bus) && AllStillTargets(s) && Enabled(s, a)
    ensures Sound(Next(s, a).bus) && AllStillTargets(Next(s, a))
  {
    hide Sound, StillTargets, Step, FreshFor;
    match a
    case Locked(op) => StepSound(s.bus, op);
    case Begin(p, e) => TargetsHold(s.bus, e);
    case SendNext(p) => SendNextSound(s, p);
    case End(p) =>
    case Take(c) =>
      TakeIsFree(s.bus, c);
      StepSound(s.bus, Op.Receive(c));
      TargetsStay(s, Step(s.bus, Op.Receive(c)));
  }

  lemma TakeIsFree<C>(bus: State<C>, c: C)
    ensures FreshFor(bus, Op.Receive(c))
    ensures Step(bus, Op.Receive(c)).subs == bus.subs && Step(bus, Op.Receive(c)).closed == bus.closed
  {
  }

  lemma SendNextSound<C>(s: Shared<C>, p: Publisher)
    requires Sound(s.bus) && AllStillTargets(s) && Enabled(s, SendNext(p))
    ensures Sound(Next(s, SendNext(p)).bus) && AllStillTargets(Next(s, SendNext(p)))
  {
    hide Sound, Send;
    var m := s.publishing[p];
    var after := s.bus.(buffers := Send(s.bus.buffers, m.rest[0], m.e));
    SendSound(s.bus, m);
    TailHolds(s.bus, m);
    TargetsStay(s.(publishing := s.publishing[p := Sending(m.e, m.rest[1..])]), after);
  }

  /** The targets depend on the lists and on whether the bus is closed only. */
  lemma TargetsStay<C>(s: Shared<C>, bus: State<C>)
    requires AllStillTargets(s) && bus.subs == s.bus.subs && bus.closed == s.bus.closed
    ensures AllStillTargets(s.(bus := bus))
  {
    forall p | p in s.publishing ensures StillTargets(bus, s.publishing[p]) {
      assert StillTargets(s.bus, s.publishing[p]);
    }
  }

  // ----- Steps -----

  lemma AgreeLocked<C>(s: State<C>, t: State<C>, op: Op<C>, c: C)
    requires Agree(s, t, c) && (!op.Receive? || op.c == c) && !op.Publish?
    ensures Agree(Step(s, op), Step(t, op), c)
  {
    hide Add, Without, Listed;
  }

  lemma AgreeTake<C>(s: State<C>, t: State<C>, d: C, c: C)
    requires Agree(s, t, c) && d != c
    ensures Agree(Step(s, Op.Receive(d)), t, c)
  {
  }

  /** An event that is not meant for c. */
  lemma AgreeElsewhere<C>(s: State<C>, t: State<C>, e: Event, c: C)
    requires Agree(s, t, c) && Sound(t) && c !in Targets(s, e)
    ensures Agree(s, Step(t, Op.Publish(e)), c)
  {
    BuffersStep(t, Op.Publish(e));
    if !t.closed {
      OfferExactly(t.buffers, Listeners(t.subs, e.kind), e, c);
    }
  }

  lemma AgreeSend<C>(s: State<C>, t: State<C>, m: Sending<C>, c: C)
    requires Agree(s, t, c) && Sound(s) && Sound(t) && StillTargets(s, m) && m.rest != []
    ensures var after := s.(buffers := Send(s.buffers, m.rest[0], m.e));
            Agree(after, if m.rest[0] == c then Step(t, Op.Publish(m.e)) else t, c)
  {
    SendSound(s, m);
    if m.rest[0] == c {
      BuffersStep(t, Op.Publish(m.e));
      OfferExactly(t.buffers, Listeners(t.subs, m.e.kind), m.e, c);
    }
    hide Sound, Offer;
  }

  /** What a step of the shared bus is for c. */
  lemma AgreeNext<C>(s: Shared<C>, t: State<C>, a: Action<C>, c: C)
    requires Sound(s.bus) && AllStillTargets(s) && Enabled(s, a) && Sound(t) && Agree(s.bus, t, c)
    ensures var ops := OpsFor(s, a, c);
            && |ops| <= 1 && (ops != [] ==> FreshFor(t, ops[0]))
            && Agree(Next(s, a).bus, if ops == [] then t else Step(t, ops[0]), c)
  {
    hide Sound, Step, StillTargets;
    match a
    case Locked(op) => AgreeLocked(s.bus, t, op, c);
    case Begin(_, e) => if c !in Targets(s.bus, e) { AgreeElsewhere(s.bus, t, e, c); }
    case SendNext(p) => AgreeSend(s.bus, t, s.publishing[p], c);
    case End(_) =>
    case Take(d) => if d == c { AgreeLocked(s.bus, t, Op.Receive(c), c); } else { AgreeTake(s.bus, t, d, c); }
  }

  lemma OneMore<C>(ops: seq<Op<C>>, op: Op<C>)
    requires FreshChannels(ops) && FreshFor(After(ops), op)
    ensures FreshChannels(ops + [op]) && After(ops + [op]) == Step(After(ops), op)
  {
    assert (ops + [op])[..|ops|] == ops;
    EveryRunSound(ops);
    FreshHere(After(ops), op);
    hide Step;
  }

  /**
   * In every run of the shared bus each channel sees a run of the bus with the publishes in some order: its buffer, what
   * its reader has received and who is subscribed are the same.
   */
  lemma {:induction false} EachChannelSeesARun<C>(actions: seq<Action<C>>, c: C)
    requires Run(actions).Some?
    ensures var s, ops := Run(actions).value, SeenBy(actions, c);
            Sound(s.bus) && AllStillTargets(s) && FreshChannels(ops) && Agree(s.bus, After(ops), c)
    decreases |actions|
  {
    if actions != [] {
      var init, a := actions[..|actions| - 1], actions[|actions| - 1];
      EachChannelSeesARun(init, c);
      hide Sound, AllStillTargets, FreshChannels, Agree, Step, After, Next, OpsFor;
      var s, ops := Run(init).value, SeenBy(init, c);
      EveryRunSound(ops);
      NextSound(s, a);
      AgreeNext(s, After(ops), a, c);
      var more := OpsFor(s, a, c);
      if more == [] {
        assert ops + more == ops;
      } else {
        assert more == [more[0]];
        OneMore(ops, more[0]);
      }
    }
  }

  /**
   * Whatever the publishers do in between each other, what a channel's reader has received followed by what is buffered
   * is, in the order in which the channel sees the publishes, the events for a type it was subscribed to, with nothing
   * missing but what met a full buffer.
   */
  lemma SharedDelivery<C>(actions: seq<Action<C>>, c: C)
    requires Run(actions).Some?
    ensures var s, ops := Run(actions).value, SeenBy(actions, c);
            && Delivered(s.bus, c) == EventsAt(ops, Log(ops, c)) && |Of(s.bus.buffers, c)| <= 100
            && (forall i, j :: 0 <= i < j < |Log(ops, c)| ==> Log(ops, c)[i] < Log(ops, c)[j])
            && (forall i :: 0 <= i < |ops| ==> (i in Log(ops, c) <==> MeantFor(ops, c, i) && HasRoom(ops, c, i)))
  {
    EachChannelSeesARun(actions, c);
    hide Run, SeenBy, Sound, FreshChannels, MeantFor, HasRoom, After, EventsAt, Log;
    Delivery(SeenBy(actions, c), c);
  }

  // ----- No publish is seen twice or not at all -----

  /** How often e has been published, as far as c has seen. */
  function Seen<C>(ops: seq<Op<C>>, e: Event): nat {
    if ops == [] then 0 else Seen(ops[..|ops| - 1], e) + if ops[|ops| - 1] == Op.Publish(e) then 1 else 0
  }

  function Begun<C>(actions: seq<Action<C>>, e: Event): nat {
    if actions == [] then 0
    else
      var last := actions[|actions| - 1];
      Begun(actions[..|actions| - 1], e) + if last.Begin? && last.e == e then 1 else 0
  }

  predicate HasComing<C(==)>(s: Shared<C>, p: Publisher, c: C, e: Event) {
    p in s.publishing && s.publishing[p].e == e && c in s.publishing[p].rest
  }

  /** The publishes of e that have c still to come. */
  function Coming<C>(s: Shared<C>, c: C, e: Event): set<Publisher> {
    set p | p in s.publishing && HasComing(s, p, c, e)
  }

  lemma {:induction false} SeenConcat<C>(ops: seq<Op<C>>, more: seq<Op<C>>, e: Event)
    requires |more| <= 1
    ensures Seen(ops + more, e) == Seen(ops, e) + if more == [Op.Publish(e)] then 1 else 0
  {
    if more == [] {
      assert ops + more == ops;
    } else {
      assert (ops + more)[..|ops|] == ops;
    }
  }

  lemma SeenStep<C>(s: Shared<C>, a: Action<C>, c: C, e: Event)
    requires Enabled(s, a) && AllStillTargets(s)
    ensures var ops := OpsFor(s, a, c);
            && |ops| <= 1
            && (if ops == [Op.Publish(e)] then 1 else 0) + |Coming(Next(s, a), c, e)|
               == |Coming(s, c, e)| + if a.Begin? && a.e == e then 1 else 0
  {
    match a
    case Locked(_) => NotMoved(s, Next(s, a), c, e);
    case Begin(p, f) => ComingBegins(s, p, f, c, e);
    case SendNext(p) =>
      assert StillTargets(s.bus, s.publishing[p]);
      ComingSent(s, p, c, e);
    case End(p) => NotMoved(s, Next(s, a), c, e);
    case Take(_) => NotMoved(s, Next(s, a), c, e);
  }

  lemma NotMoved<C>(s: Shared<C>, t: Shared<C>, c: C, e: Event)
    requires forall p :: HasComing(s, p, c, e) <==> HasComing(t, p, c, e)
    ensures Coming(s, c, e) == Coming(t, c, e)
  {
    forall p ensures p in Coming(s, c, e) <==> p in Coming(t, c, e) {
      assert HasComing(s, p, c, e) <==> HasComing(t, p, c, e);
    }
  }

  lemma ComingBegins<C>(s: Shared<C>, p: Publisher, f: Event, c: C, e: Event)
    requires p !in s.publishing
    ensures var t, more := Next(s, Begin(p, f)), f == e && c in Targets(s.bus, e);
            |Coming(t, c, e)| == |Coming(s, c, e)| + if more then 1 else 0
  {
    hide Targets;
    ComingPlus(s, Next(s, Begin(p, f)), p, f == e && c in Targets(s.bus, e), c, e);
  }

  lemma ComingPlus<C>(s: Shared<C>, t: Shared<C>, p: Publisher, more: bool, c: C, e: Event)
    requires p !in s.publishing && (HasComing(t, p, c, e) <==> more)
    requires forall q :: q != p ==> (HasComing(t, q, c, e) <==> HasComing(s, q, c, e))
    ensures |Coming(t, c, e)| == |Coming(s, c, e)| + if more then 1 else 0
  {
    var before, after := Coming(s, c, e), Coming(t, c, e);
    forall q ensures q in after <==> q in before || (q == p && more) {
      assert q in before <==> HasComing(s, q, c, e);
      assert q in after <==> HasComing(t, q, c, e);
    }
    hide HasComing, Coming;
    assert p !in before;
    assert after == if more then before + {p} else before;
  }

  lemma ComingSent<C>(s: Shared<C>, p: Publisher, c: C, e: Event)
    requires Enabled(s, SendNext(p)) && StillTargets(s.bus, s.publishing[p])
    ensures var t, m := Next(s, SendNext(p)), s.publishing[p];
            |Coming(t, c, e)| + (if m.rest[0] == c && m.e == e then 1 else 0) == |Coming(s, c, e)|
  {
    var t, m := Next(s, SendNext(p)), s.publishing[p];
    TailHolds(s.bus, m);
    assert m.rest == [m.rest[0]] + m.rest[1..];
    hide Send, StillTargets;
    if m.rest[0] == c && m.e == e {
      assert p in Coming(s, c, e);
      assert Coming(t, c, e) == Coming(s, c, e) - {p};
    } else {
      assert Coming(t, c, e) == Coming(s, c, e);
    }
  }

  /** Every publish begun is seen by c exactly once: already, or when it gets to c. */
  lemma {:induction false} EachPublishSeenOnce<C>(actions: seq<Action<C>>, c: C, e: Event)
    requires Run(actions).Some?
    ensures Seen(SeenBy(actions, c), e) + |Coming(Run(actions).value, c, e)| == Begun(actions, e)
    ensures Run(actions).value.publishing == map[] ==> Seen(SeenBy(actions, c), e) == Begun(actions, e)
    decreases |actions|
  {
    if actions != [] {
      var init, a := actions[..|actions| - 1], actions[|actions| - 1];
      EachPublishSeenOnce(init, c, e);
      EachChannelSeesARun(init, c);
      hide Sound, AllStillTargets, FreshChannels, Agree, After, Next, OpsFor, Coming;
      SeenStep(Run(init).value, a, c, e);
      SeenConcat(SeenBy(init, c), OpsFor(Run(init).value, a, c), e);
    }
    if Run(actions).value.publishing == map[] {
      NoneComing(Run(actions).value, c, e);
    }
  }

  lemma NoneComing<C>(s: Shared<C>, c: C, e: Event)
    requires s.publishing == map[]
    ensures Coming(s, c, e) == {}
  {
  }

  // ----- A publisher that nobody disturbs -----

  /** p's publish from where it is to its end. */
  function Finish<C>(s: Shared<C>, p: Publisher): Shared<C>
    requires p in s.publishing
    decreases |s.publishing[p].rest|
  {
    if s.publishing[p].rest == [] then Next(s, End(p)) else Finish(Next(s, SendNext(p)), p)
  }

  lemma {:induction false} OfferFirst<C>(buffers: map<C, seq<Event>>, list: seq<C>, e: Event)
    requires list != []
    ensures Offer(buffers, list, e) == Offer(Send(buffers, list[0], e), list[1..], e)
  {
    var n := |list| - 1;
    if n > 0 {
      OfferFirst(buffers, list[..n], e);
      assert list[..n][1..] == list[1..][..n - 1];
    } else {
      assert Offer(buffers, list[..n], e) == buffers;
    }
  }

  lemma {:induction false} FinishOffers<C>(s: Shared<C>, p: Publisher)
    requires p in s.publishing
    ensures var m := s.publishing[p];
            Finish(s, p) == Shared(s.bus.(buffers := Offer(s.bus.buffers, m.rest, m.e)), s.publishing - {p})
    decreases |s.publishing[p].rest|
  {
    var m := s.publishing[p];
    if m.rest == [] {
      OfferNobody(s.bus.buffers, m.e);
    } else {
      OfferFirst(s.bus.buffers, m.rest, m.e);
      FinishOffers(Next(s, SendNext(p)), p);
      hide Offer, Send;
    }
  }

  /** A publish that nothing comes in between of is the method's. */
  lemma PublishAloneRefines<C>(s: Shared<C>, p: Publisher, e: Event)
    requires p !in s.publishing
    ensures Finish(Next(s, Begin(p, e)), p) == s.(bus := Step(s.bus, Op.Publish(e)))
  {
    var t := Next(s, Begin(p, e));
    FinishOffers(t, p);
    OfferNobody(s.bus.buffers, e);
    hide Offer, Finish;
    assert t.publishing - {p} == s.publishing;
  }

  // ----- Two channels may disagree -----

  lemma RunAppend<C>(actions: seq<Action<C>>, s: Shared<C>, a: Action<C>) returns (t: Shared<C>)
    requires Run(actions) == Some(s) && Enabled(s, a)
    ensures t == Next(s, a) && Run(actions + [a]) == Some(t)
  {
    t := Next(s, a);
    assert (actions + [a])[..|actions|] == actions;
  }

  lemma TwoSubscribe<C>(a: C, b: C, kind: EventType) returns (actions: seq<Action<C>>, s: Shared<C>)
    requires a != b
    ensures Run(actions) == Some(s) && s.publishing == map[]
    ensures !s.bus.closed && Listeners(s.bus.subs, kind) == [a, b]
    ensures s.bus.buffers == map[a := [], b := []] == s.bus.received
  {
    var none: seq<Action<C>> := [];
    AddOne(map[], a, kind);
    var s1 := RunAppend(none, Shared(Empty(), map[]), Locked(Op.Subscribe(a, kind)));
    AddOne(s1.bus.subs, b, kind);
    s := RunAppend(none + [Locked(Op.Subscribe(a, kind))], s1, Locked(Op.Subscribe(b, kind)));
    actions := none + [Locked(Op.Subscribe(a, kind))] + [Locked(Op.Subscribe(b, kind))];
  }

  /** There is no one order for all: two events published at the same time reach two channels in opposite orders. */
  lemma OppositeOrders<C>(a: C, b: C, e: Event, f: Event) returns (actions: seq<Action<C>>)
    requires a != b && e.kind == f.kind
    ensures Run(actions).Some?
    ensures var s := Run(actions).value; Delivered(s.bus, a) == [e, f] && Delivered(s.bus, b) == [f, e]
  {
    var r0, s0 := TwoSubscribe(a, b, e.kind);
    var s1 := RunAppend(r0, s0, Begin(0, e));
    var r1 := r0 + [Begin(0, e)];
    var s2 := RunAppend(r1, s1, Begin(1, f));
    var r2 := r1 + [Begin(1, f)];
    var s3 := RunAppend(r2, s2, SendNext(0));
    var r3 := r2 + [SendNext(0)];
    var s4 := RunAppend(r3, s3, SendNext(1));
    var r4 := r3 + [SendNext(1)];
    var s5 := RunAppend(r4, s4, SendNext(1));
    var r5 := r4 + [SendNext(1)];
    var s6 := RunAppend(r5, s5, SendNext(0));
    actions := r5 + [SendNext(0)];
  }
}
