/** The server's topic index (backend/internal/websocket/hub.go) and the connection half of client.go. */
module Hub {
  import opened Topics

  // ----- The index as a value -----

  /** C stands for the connections; subs is each connection's own topic set, closed the ones whose channel is closed. */
  datatype Index<!C(==)> = Index(
    clients: set<C>, topics: map<Topic, set<C>>, subs: map<C, set<Topic>>, closed: set<C>)

  datatype Op<C> = Register(c: C) | Unregister(c: C) | Sub(c: C, t: Topic) | Unsub(c: C, t: Topic)

  function Members<C>(x: Index<C>, t: Topic): set<C> {
    if t in x.topics then x.topics[t] else {}
  }

  function SubsOf<C>(x: Index<C>, c: C): set<Topic> {
    if c in x.subs then x.subs[c] else {}
  }

  /** topics without c, and without the entries that become empty. */
  function Purge<C>(topics: map<Topic, set<C>>, c: C): map<Topic, set<C>> {
    map t | t in topics && topics[t] - {c} != {} :: topics[t] - {c}
  }

  function Step<C>(x: Index<C>, op: Op<C>, maxConnections: int): Index<C> {
    match op
    case Register(c) =>
      if |x.clients| >= maxConnections then x.(closed := x.closed + {c})
      else x.(clients := x.clients + {c})
    case Unregister(c) =>
      if c in x.clients then
        x.(clients := x.clients - {c}, topics := Purge(x.topics, c), closed := x.closed + {c})
      else x
    case Sub(c, t) =>
      x.(topics := x.topics[t := Members(x, t) + {c}], subs := x.subs[c := SubsOf(x, c) + {t}])
    case Unsub(c, t) =>
      x.(topics := if t in x.topics
                   then (if x.topics[t] - {c} == {} then x.topics - {t} else x.topics[t := x.topics[t] - {c}])
                   else x.topics,
         subs := x.subs[c := SubsOf(x, c) - {t}])
  }

  // ----- What the index should satisfy -----

  predicate Consistent<C>(x: Index<C>, maxConnections: int) {
    && (|x.clients| <= maxConnections || x.clients == {})
    && (forall t :: t in x.topics ==> x.topics[t] != {} && x.topics[t] <= x.clients)
    && (forall c, t :: c in x.clients && t in x.topics && c in x.topics[t] ==> t in SubsOf(x, c))
    && (forall c, t :: c in x.clients && t in SubsOf(x, c) ==> c in Members(x, t))
    && x.clients !! x.closed
  }

  /** What the callers have to respect: register a connection while it is new, subscribe only registered ones. */
  predicate Allowed<C>(x: Index<C>, op: Op<C>, maxConnections: int) {
    match op
    case Register(c) =>
      if |x.clients| >= maxConnections then c !in x.clients
      else c in x.clients || (c !in x.closed && SubsOf(x, c) == {})
    case Sub(c, _) => c in x.clients
    case _ => true
  }

  lemma RegisterExactly<C>(x: Index<C>, c: C, max: int)
    requires Consistent(x, max)
    ensures Consistent(Step(x, Register(c), max), max) <==> Allowed(x, Register(c), max)
  {
    var y := Step(x, Register(c), max);
    if |x.clients| < max {
      if c in x.clients {
        assert y == x;
      } else {
        assert |y.clients| == |x.clients| + 1;
        assert y.clients == x.clients + {c} && c !in x.clients;
        if SubsOf(x, c) != {} {
          var t :| t in SubsOf(x, c);
          assert c in y.clients && t in SubsOf(y, c) && c !in Members(y, t);
        } else {
          forall d, t | d in y.clients && t in SubsOf(y, d) ensures d in Members(y, t) {
            assert d != c && t in SubsOf(x, d) && d in Members(x, t);
          }
          assert c !in x.closed ==> Consistent(y, max);
        }
      }
    } else {
      assert c in y.closed && y.clients == x.clients;
      if c !in x.clients {
        assert y.clients !! y.closed;
        forall d, t | d in y.clients && t in SubsOf(y, d) ensures d in Members(y, t) {
          assert d in Members(x, t);
        }
      }
    }
  }

  lemma UnregisterKeeps<C>(x: Index<C>, c: C, max: int)
    requires Consistent(x, max)
    ensures Consistent(Step(x, Unregister(c), max), max)
  {
    var y := Step(x, Unregister(c), max);
    if c in x.clients {
      assert |y.clients| == |x.clients| - 1;
      forall d, t | d in y.clients && t in SubsOf(y, d) ensures d in Members(y, t) {
        assert d in Members(x, t) && d in x.topics[t] - {c};
      }
    }
  }

  lemma SubExactly<C>(x: Index<C>, c: C, t: Topic, max: int)
    requires Consistent(x, max)
    ensures Consistent(Step(x, Sub(c, t), max), max) <==> Allowed(x, Sub(c, t), max)
  {
    var y := Step(x, Sub(c, t), max);
    assert t in y.topics && c in y.topics[t];
    if c in x.clients {
      forall d, u | d in y.clients && u in SubsOf(y, d) ensures d in Members(y, u) {
        assert u in SubsOf(x, d) ==> d in Members(x, u);
      }
    }
  }

  lemma UnsubKeeps<C>(x: Index<C>, c: C, t: Topic, max: int)
    requires Consistent(x, max)
    ensures Consistent(Step(x, Unsub(c, t), max), max)
  {
    var y := Step(x, Unsub(c, t), max);
    forall d, u | d in y.clients && u in SubsOf(y, d) ensures d in Members(y, u) {
      assert u in SubsOf(x, d) && d in Members(x, u);
    }
  }

  /** One operation keeps the index consistent exactly if its caller respects the rule. */
  lemma StepExactly<C>(x: Index<C>, op: Op<C>, max: int)
    requires Consistent(x, max)
    ensures Consistent(Step(x, op, max), max) <==> Allowed(x, op, max)
  {
    match op
    case Register(c) => RegisterExactly(x, c, max);
    case Unregister(c) => UnregisterKeeps(x, c, max);
    case Sub(c, t) => SubExactly(x, c, t, max);
    case Unsub(c, t) => UnsubKeeps(x, c, t, max);
  }

  // ----- Whole runs -----

  function Run<C>(x: Index<C>, ops: seq<Op<C>>, maxConnections: int): Index<C>
    decreases |ops|
  {
    if ops == [] then x else Step(Run(x, ops[..|ops| - 1], maxConnections), ops[|ops| - 1], maxConnections)
  }

  predicate AlwaysConsistent<C>(x: Index<C>, ops: seq<Op<C>>, maxConnections: int) {
    forall n :: 0 <= n <= |ops| ==> Consistent(Run(x, ops[..n], maxConnections), maxConnections)
  }

  predicate AlwaysAllowed<C>(x: Index<C>, ops: seq<Op<C>>, maxConnections: int) {
    forall n :: 0 <= n < |ops| ==> Allowed(Run(x, ops[..n], maxConnections), ops[n], maxConnections)
  }

  function Empty<C>(): Index<C> {
    Index({}, map[], map[], {})
  }

  lemma RunStep<C>(x: Index<C>, ops: seq<Op<C>>, n: nat, max: int)
    requires n < |ops|
    ensures Run(x, ops[..n + 1], max) == Step(Run(x, ops[..n], max), ops[n], max)
  {
    assert ops[..n + 1][..n] == ops[..n];
  }

  lemma {:induction false} ConsistentUpTo<C>(ops: seq<Op<C>>, n: nat, max: int)
    requires n <= |ops| && AlwaysAllowed(Empty(), ops, max)
    ensures Consistent(Run(Empty(), ops[..n], max), max)
  {
    if n > 0 {
      ConsistentUpTo(ops, n - 1, max);
      RunStep(Empty(), ops, n - 1, max);
      StepExactly(Run(Empty(), ops[..n - 1], max), ops[n - 1], max);
    } else {
      assert Run<C>(Empty(), ops[..0], max) == Empty();
    }
  }

  /** A run keeps the index consistent throughout exactly if every one of its operations respects the rule. */
  lemma RunsExactly<C>(ops: seq<Op<C>>, max: int)
    ensures AlwaysConsistent(Empty(), ops, max) <==> AlwaysAllowed(Empty(), ops, max)
  {
    if AlwaysAllowed(Empty(), ops, max) {
      forall n | 0 <= n <= |ops| ensures Consistent(Run(Empty(), ops[..n], max), max) {
        ConsistentUpTo(ops, n, max);
      }
    }
    if AlwaysConsistent(Empty(), ops, max) {
      forall n | 0 <= n < |ops| ensures Allowed(Run(Empty(), ops[..n], max), ops[n], max) {
        RunStep(Empty(), ops, n, max);
        var m := n + 1;
        assert Consistent(Run(Empty(), ops[..m], max), max);
        StepExactly(Run(Empty(), ops[..n], max), ops[n], max);
      }
    }
  }

  // ----- Who is registered and whose channel is closed, from the history -----

  predicate Admitted<C(==)>(ops: seq<Op<C>>, n: nat, c: C, max: int)
    requires n < |ops|
  {
    ops[n] == Register(c) && |Run(Empty(), ops[..n], max).clients| < max
  }

  predicate AdmittedForGood<C(==)>(ops: seq<Op<C>>, n: nat, c: C, max: int) {
    n < |ops| && Admitted(ops, n, c, max) && Unregister(c) !in ops[n + 1..]
  }

  /** Turned away at the cap, or unregistered while registered. */
  predicate ShutAt<C(==)>(ops: seq<Op<C>>, n: nat, c: C, max: int) {
    && n < |ops|
    && var x := Run(Empty(), ops[..n], max);
       (ops[n] == Register(c) && |x.clients| >= max) || (ops[n] == Unregister(c) && c in x.clients)
  }

  lemma SameBefore<C>(ops: seq<Op<C>>, op: Op<C>, n: nat, c: C, max: int)
    requires n < |ops|
    ensures var all := ops + [op];
            && ShutAt(all, n, c, max) == ShutAt(ops, n, c, max)
            && AdmittedForGood(all, n, c, max) == (AdmittedForGood(ops, n, c, max) && op != Unregister(c))
  {
    var all := ops + [op];
    assert all[..n] == ops[..n] && all[n] == ops[n];
    assert all[n + 1..] == ops[n + 1..] + [op];
  }

  /** A connection is registered exactly if it was admitted below the cap and has not been unregistered since. */
  lemma {:induction false} RegisteredExactly<C>(ops: seq<Op<C>>, c: C, max: int)
    ensures c in Run(Empty(), ops, max).clients <==> exists n :: 0 <= n < |ops| && AdmittedForGood(ops, n, c, max)
    decreases |ops|
  {
    if ops != [] {
      var init, op := ops[..|ops| - 1], ops[|ops| - 1];
      assert ops == init + [op];
      RegisteredExactly(init, c, max);
      RunLast(Empty(), init, op, max);
      assert AdmittedForGood(ops, |init|, c, max) <==> Admitted(ops, |init|, c, max);
      assert ops[..|init|] == init;
      assert c in Run(Empty(), ops, max).clients
             <==> Admitted(ops, |init|, c, max) || (c in Run(Empty(), init, max).clients && op != Unregister(c));
      hide AdmittedForGood, Admitted, Run;
      forall n | 0 <= n < |init|
        ensures AdmittedForGood(ops, n, c, max) == (AdmittedForGood(init, n, c, max) && op != Unregister(c))
      {
        SameBefore(init, op, n, c, max);
      }
    }
  }

  /** A connection's channel is closed exactly if it was turned away at the cap or unregistered while registered. */
  lemma {:induction false} ShutExactly<C>(ops: seq<Op<C>>, c: C, max: int)
    ensures c in Run(Empty(), ops, max).closed <==> exists n :: 0 <= n < |ops| && ShutAt(ops, n, c, max)
    decreases |ops|
  {
    if ops != [] {
      var init, op := ops[..|ops| - 1], ops[|ops| - 1];
      assert ops == init + [op];
      ShutExactly(init, c, max);
      RunLast(Empty(), init, op, max);
      assert ops[..|init|] == init;
      assert c in Run(Empty(), ops, max).closed
             <==> ShutAt(ops, |init|, c, max) || c in Run(Empty(), init, max).closed;
      hide ShutAt, Run;
      forall n | 0 <= n < |init| ensures ShutAt(ops, n, c, max) == ShutAt(init, n, c, max) {
        SameBefore(init, op, n, c, max);
      }
    }
  }

  // ----- What happens where the rule is broken -----

  /** No subscriber's channel is closed, so a broadcast does not send on a closed channel. */
  predicate SafeToBroadcast<C(==)>(x: Index<C>, t: Topic) {
    Members(x, t) !! x.closed
  }

  lemma ConsistentIsSafe<C>(x: Index<C>, t: Topic, max: int)
    requires Consistent(x, max)
    ensures SafeToBroadcast(x, t)
  {
  }

  function Registers<C>(cs: seq<C>): seq<Op<C>> {
    if cs == [] then [] else Registers(cs[..|cs| - 1]) + [Register(cs[|cs| - 1])]
  }

  lemma {:induction false} CapReached<C>(cs: seq<C>, max: nat)
    requires |cs| <= max && forall i, j :: 0 <= i < j < |cs| ==> cs[i] != cs[j]
    ensures var x := Run(Empty(), Registers(cs), max);
            && |x.clients| == |cs| && (forall c :: c in x.clients <==> c in cs)
            && x.topics == map[] && x.subs == map[] && x.closed == {}
  {
    if cs != [] {
      var n := |cs| - 1;
      CapReached(cs[..n], max);
      RunLast(Empty(), Registers(cs[..n]), Register(cs[n]), max);
      assert cs[n] !in cs[..n];
      assert cs == cs[..n] + [cs[n]];
      hide Registers, Run;
      var x := Run(Empty(), Registers(cs[..n]), max);
      assert |x.clients + {cs[n]}| == |x.clients| + 1;
    }
  }

  /** c is subscribed to t without being registered, and its channel is closed. */
  predicate Stranded<C(==)>(x: Index<C>, c: C, t: Topic) {
    c in Members(x, t) && c in x.closed && c !in x.clients
  }

  lemma StrandedStep<C>(x: Index<C>, op: Op<C>, c: C, t: Topic, max: int)
    requires Stranded(x, c, t) && op != Unsub(c, t) && op != Register(c)
    ensures Stranded(Step(x, op, max), c, t)
  {
  }

  /** Nothing but its own unsubscribing takes it out again. */
  lemma {:induction false} StrandedStays<C>(x: Index<C>, ops: seq<Op<C>>, c: C, t: Topic, max: int)
    requires Stranded(x, c, t) && Unsub(c, t) !in ops && Register(c) !in ops
    ensures Stranded(Run(x, ops, max), c, t)
    decreases |ops|
  {
    if ops != [] {
      var init := ops[..|ops| - 1];
      assert ops == init + [ops[|ops| - 1]];
      StrandedStays(x, init, c, t, max);
      StrandedStep(Run(x, init, max), ops[|ops| - 1], c, t, max);
    }
  }

  /**
   * The rule is not enforced. Reading starts when the hub takes the connection over, not when it has been admitted, so
   * at any cap a connection can subscribe and then be rejected. Whatever follows, unregistering included, its closed
   * channel stays in the index until it unsubscribes itself, and a broadcast to the topic sends on that channel.
   */
  lemma RejectedConnectionStays<C>(others: seq<C>, c: C, t: Topic, later: seq<Op<C>>, max: nat)
    requires |others| == max && c !in others && forall i, j :: 0 <= i < j < |others| ==> others[i] != others[j]
    requires Unsub(c, t) !in later && Register(c) !in later
    ensures var x := Run(Empty(), Registers(others) + [Sub(c, t)] + [Register(c)] + later, max);
            Stranded(x, c, t) && !SafeToBroadcast(x, t)
  {
    var start := Registers(others);
    CapReached(others, max);
    RunLast(Empty(), start, Sub(c, t), max);
    RunLast(Empty(), start + [Sub(c, t)], Register(c), max);
    var x := Run(Empty(), start + [Sub(c, t)] + [Register(c)], max);
    assert Stranded(x, c, t);
    StrandedStays(x, later, c, t, max);
    RunConcat(Empty(), start + [Sub(c, t)] + [Register(c)], later, max);
    hide Run, Step, Registers;
    assert c in Members(Run(x, later, max), t) * Run(x, later, max).closed;
  }

  lemma {:induction false} RunConcat<C>(x: Index<C>, a: seq<Op<C>>, b: seq<Op<C>>, max: int)
    ensures Run(x, a + b, max) == Run(Run(x, a, max), b, max)
    decreases |b|
  {
    if b == [] {
      assert a + b == a;
    } else {
      var n := |b| - 1;
      assert a + b == (a + b[..n]) + [b[n]];
      RunConcat(x, a, b[..n], max);
      RunLast(x, a + b[..n], b[n], max);
    }
  }

  // ----- The code -----

  const SEND_BUFFER := 256

  /** What goes to the browser: an event, or the reply to one topic of a message. */
  datatype Outgoing = Event(message: string) | Success(action: string, topic: Topic) | Failure(message: string)

  function SubReply(t: Topic): Outgoing {
    if IsValidTopic(t) then Success("subscribed", t) else Failure("invalid topic: " + t)
  }

  function Replies(msg: Message): seq<Outgoing> {
    match msg
    case Subscribe(ts) => seq(|ts|, i requires 0 <= i < |ts| => SubReply(ts[i]))
    case Unsubscribe(ts) => seq(|ts|, i requires 0 <= i < |ts| => Success("unsubscribed", ts[i]))
    case Other(action) => [Failure("unknown action: " + action)]
    case Malformed => [Failure("invalid message format")]
  }

  /** The part of a message that is handled before the first reply. */
  function UpToReply(msg: Message): Message {
    match msg
    case Subscribe(ts) => Subscribe(FirstOf(ts))
    case Unsubscribe(ts) => Unsubscribe(FirstOf(ts))
    case _ => msg
  }

  function FirstOf(ts: seq<Topic>): seq<Topic> {
    if |ts| <= 1 then ts else ts[..1]
  }

  /** What has been handled when replying works or does not. */
  function Handled(ts: seq<Topic>, ok: bool): seq<Topic> {
    if ok then ts else FirstOf(ts)
  }

  /**
   * One connection. send is the buffered channel to its write pump; a reply that has to wait for room counts as being
   * in it.
   */
  class Client {
    var topics: set<Topic>
    var send: seq<Outgoing>
    var closed: bool

    constructor ()
      ensures topics == {} && send == [] && !closed
    {
      topics, send, closed := {}, [], false;
    }

    method Close()
      modifies this`closed
      ensures closed
    {
      if closed {
        return;
      }
      closed := true;
    }

    /** sendSuccess and sendError; sending on a closed channel panics, which ok tells. */
    method Reply(r: Outgoing) returns (ok: bool)
      modifies this`send
      ensures ok == !closed
      ensures send == if ok then old(send) + [r] else old(send)
    {
      ok := !closed;
      if ok {
        send := send + [r];
      }
    }

    /**
     * If the channel is open every topic is handled and answered. If it is closed the first reply panics, with its
     * topic already handled.
     */
    method HandleMessage(hub: Hub, msg: Message) returns (ok: bool)
      requires this in hub.known
      modifies hub`topics, this`topics, this`send
      ensures ok <==> !closed || Replies(msg) == []
      ensures send == if closed then old(send) else old(send) + Replies(msg)
      ensures var done := if ok then msg else UpToReply(msg);
              && topics == Apply(old(topics), done)
              && hub.View() == Run(old(hub.View()), OpsOf(this, done), hub.maxConnections)
      ensures AnswersTo(msg, Replies(msg)) && FirstPart(msg, UpToReply(msg))
    {
      AnswersMean(msg);
      match msg {
        case Subscribe(ts) =>
          ok := SubscribeAll(hub, ts);
        case Unsubscribe(ts) =>
          ok := UnsubscribeAll(hub, ts);
        case Other(action) =>
          ok := Reply(Failure("unknown action: " + action));
        case Malformed =>
          ok := Reply(Failure("invalid message format"));
      }
    }

    method SubscribeOne(hub: Hub, t: Topic) returns (ok: bool)
      requires this in hub.known
      modifies hub`topics, this`topics, this`send
      ensures ok == !closed
      ensures send == if closed then old(send) else old(send) + [SubReply(t)]
      ensures topics == old(topics) + Valid({t})
      ensures hub.View() == if IsValidTopic(t) then Step(old(hub.View()), Sub(this, t), hub.maxConnections)
                            else old(hub.View())
    {
      hide Step;
      ValidSingle(t);
      if IsValidTopic(t) {
        hub.Subscribe(this, t);
      }
      ok := Reply(SubReply(t));
    }

    method SubscribeAll(hub: Hub, ts: seq<Topic>) returns (ok: bool)
      requires this in hub.known
      modifies hub`topics, this`topics, this`send
      ensures ok <==> !closed || ts == []
      ensures send == if closed then old(send) else old(send) + Replies(Subscribe(ts))
      ensures topics == old(topics) + Valid(Elements(Handled(ts, ok)))
      ensures hub.View() == Run(old(hub.View()), SubOps(this, Handled(ts, ok)), hub.maxConnections)
    {
      hide Step, Valid, Elements, Run, SubOps, Replies, SubReply;
      NoReplies();
      ghost var start := hub.View();
      StartOfRun(this, start, hub.maxConnections);
      for i := 0 to |ts|
        invariant closed ==> i == 0
        invariant send == old(send) + Replies(Subscribe(ts[..i]))
        invariant topics == old(topics) + Valid(Elements(ts[..i]))
        invariant hub.View() == Run(start, SubOps(this, ts[..i]), hub.maxConnections)
      {
        PrefixElements(ts, i);
        SubOpsLast(this, ts, i);
        RepliesLast(ts, i);
        RunLast(start, SubOps(this, ts[..i]), Sub(this, ts[i]), hub.maxConnections);
        ok := SubscribeOne(hub, ts[i]);
        if !ok {
          assert FirstOf(ts) == ts[..i + 1];
          return;
        }
      }
      assert ts[..|ts|] == ts;
      ok := true;
    }

    method UnsubscribeAll(hub: Hub, ts: seq<Topic>) returns (ok: bool)
      requires this in hub.known
      modifies hub`topics, this`topics, this`send
      ensures ok <==> !closed || ts == []
      ensures send == if closed then old(send) else old(send) + Replies(Unsubscribe(ts))
      ensures topics == old(topics) - Elements(Handled(ts, ok))
      ensures hub.View() == Run(old(hub.View()), UnsubOps(this, Handled(ts, ok)), hub.maxConnections)
    {
      hide Step, Elements, Run, UnsubOps, Replies;
      NoReplies();
      ghost var start := hub.View();
      StartOfRun(this, start, hub.maxConnections);
      for i := 0 to |ts|
        invariant closed ==> i == 0
        invariant send == old(send) + Replies(Unsubscribe(ts[..i]))
        invariant topics == old(topics) - Elements(ts[..i])
        invariant hub.View() == Run(start, UnsubOps(this, ts[..i]), hub.maxConnections)
      {
        PrefixElements(ts, i);
        UnsubOpsLast(this, ts, i);
        RepliesLast(ts, i);
        RunLast(start, UnsubOps(this, ts[..i]), Unsub(this, ts[i]), hub.maxConnections);
        hub.Unsubscribe(this, ts[i]);
        ok := Reply(Success("unsubscribed", ts[i]));
        if !ok {
          assert FirstOf(ts) == ts[..i + 1];
          return;
        }
      }
      assert ts[..|ts|] == ts;
      ok := true;
    }
  }

  /** Each topic of a message has its own answer, in order; every other message has one. */
  predicate AnswersTo(msg: Message, replies: seq<Outgoing>) {
    match msg
    case Subscribe(ts) =>
      |replies| == |ts|
      && forall i :: 0 <= i < |ts| ==>
           if IsValidTopic(ts[i]) then replies[i] == Success("subscribed", ts[i])
           else replies[i] == Failure("invalid topic: " + ts[i])
    case Unsubscribe(ts) =>
      |replies| == |ts| && forall i :: 0 <= i < |ts| ==> replies[i] == Success("unsubscribed", ts[i])
    case Other(action) => replies == [Failure("unknown action: " + action)]
    case Malformed => replies == [Failure("invalid message format")]
  }

  /** What is handled of a message whose first answer cannot be sent: its first topic. */
  predicate FirstPart(msg: Message, part: Message) {
    match msg
    case Subscribe(ts) => part == Subscribe(if ts == [] then [] else [ts[0]])
    case Unsubscribe(ts) => part == Unsubscribe(if ts == [] then [] else [ts[0]])
    case _ => part == msg
  }

  lemma AnswersMean(msg: Message)
    ensures AnswersTo(msg, Replies(msg)) && FirstPart(msg, UpToReply(msg))
  {
  }

  lemma NoReplies()
    ensures Replies(Subscribe([])) == [] == Replies(Unsubscribe([]))
  {
  }

  lemma RepliesLast(ts: seq<Topic>, i: nat)
    requires i < |ts|
    ensures Replies(Subscribe(ts[..i + 1])) == Replies(Subscribe(ts[..i])) + [SubReply(ts[i])]
    ensures Replies(Unsubscribe(ts[..i + 1])) == Replies(Unsubscribe(ts[..i])) + [Success("unsubscribed", ts[i])]
  {
  }

  class Hub {
    var clients: set<Client>
    var topics: map<Topic, set<Client>>
    const maxConnections: int
    /** Every connection accepted so far. */
    ghost var known: set<Client>

    ghost function View(): Index<Client>
      reads this, known
    {
      Index(clients, topics, map c | c in known :: c.topics, set c | c in known && c.closed)
    }

    constructor (maxConnections: int)
      ensures View() == Empty() && known == {} && this.maxConnections == maxConnections
    {
      clients, topics, known := {}, map[], {};
      this.maxConnections := maxConnections;
    }

    /** NewClient: the hub has not heard of the connection yet. */
    method NewClient() returns (client: Client)
      modifies this`known
      ensures fresh(client) && known == old(known) + {client}
      ensures Allowed(View(), Register(client), maxConnections) || client in clients
      ensures View().clients == old(View()).clients && View().topics == old(View()).topics
    {
      client := new Client();
      known := known + {client};
    }

    method RegisterClient(client: Client)
      requires client in known
      modifies this`clients, client`closed
      ensures View() == Step(old(View()), Register(client), maxConnections)
      ensures client in clients <==> client in old(clients) || |old(clients)| < maxConnections
      ensures client.closed <==> old(client.closed) || |old(clients)| >= maxConnections
    {
      if |clients| >= maxConnections {
        client.Close();
        return;
      }
      clients := clients + {client};
    }

    method UnregisterClient(client: Client)
      requires client in known
      modifies this`clients, this`topics, client`closed
      ensures View() == Step(old(View()), Unregister(client), maxConnections)
      ensures clients == old(clients) - {client}
      ensures client.closed <==> old(client.closed) || client in old(clients)
      ensures forall t :: t in topics <==> t in old(topics)
                                           && (client in old(clients) ==> old(topics)[t] - {client} != {})
      ensures client in old(clients) ==> forall t :: t in topics ==> topics[t] == old(topics)[t] - {client}
    {
      if client in clients {
        clients := clients - {client};
        PurgeTopics(client);
        client.Close();
        assert View().closed == old(View()).closed + {client};
      }
    }

    /** The loop over all topics in unregisterClient. */
    method PurgeTopics(client: Client)
      modifies this`topics
      ensures topics == Purge(old(topics), client)
    {
      var rest := topics.Keys;
      ghost var all := topics;
      while rest != {}
        invariant rest <= all.Keys && topics == PurgeExcept(all, client, rest)
      {
        var t :| t in rest;
        PurgeStep(all, client, rest, t);
        topics := topics[t := topics[t] - {client}];
        if |topics[t]| == 0 {
          topics := topics - {t};
        }
        rest := rest - {t};
      }
    }

    method Subscribe(client: Client, topic: Topic)
      requires client in known
      modifies this`topics, client`topics
      ensures View() == Step(old(View()), Sub(client, topic), maxConnections)
      ensures client.topics == old(client.topics) + {topic}
    {
      if topic !in topics {
        topics := topics[topic := {}];
      }
      topics := topics[topic := topics[topic] + {client}];
      client.topics := client.topics + {topic};
    }

    method Unsubscribe(client: Client, topic: Topic)
      requires client in known
      modifies this`topics, client`topics
      ensures View() == Step(old(View()), Unsub(client, topic), maxConnections)
      ensures client.topics == old(client.topics) - {topic}
    {
      if topic in topics {
        topics := topics[topic := topics[topic] - {client}];
        if |topics[topic]| == 0 {
          topics := topics - {topic};
        }
      }
      client.topics := client.topics - {topic};
    }

    /**
     * Offers the message to every subscriber without blocking; the ones whose buffer is full are to be
     * unregistered. It panics, and ok is false, exactly if some subscriber's channel is closed, which a consistent
     * index rules out.
     */
    method BroadcastToTopic(topic: Topic, message: Outgoing) returns (ok: bool, full: set<Client>)
      requires forall c :: c in Members(View(), topic) ==> c in known
      modifies Members(View(), topic)`send
      ensures ok <==> SafeToBroadcast(View(), topic)
      ensures Consistent(View(), maxConnections) ==> ok
      ensures ok ==> full == set c | c in Members(View(), topic) && |old(c.send)| >= 256
      ensures ok ==> forall c :: c in Members(View(), topic) && c !in full ==> c.send == old(c.send) + [message]
      ensures forall c :: c in Members(View(), topic) && c in full ==> c.send == old(c.send)
      ensures forall c :: c in Members(View(), topic) && c.closed ==> c.send == old(c.send)
    {
      full := {};
      ok := true;
      if topic !in topics {
        return;
      }
      ghost var members := topics[topic];
      var rest := topics[topic];
      while rest != {}
        invariant rest <= members && ok
        invariant forall c :: c in members - rest ==> !c.closed
        invariant full == set c | c in members - rest && |old(c.send)| >= SEND_BUFFER
        invariant forall c :: c in members - rest && c !in full ==> c.send == old(c.send) + [message]
        invariant forall c :: c in rest || c in full ==> c.send == old(c.send)
      {
        var c :| c in rest;
        if c.closed {
          assert c in Members(View(), topic) && c in View().closed;
          ok := false;
          return;
        }
        if |c.send| < SEND_BUFFER {
          c.send := c.send + [message];
        } else {
          full := full + {c};
        }
        rest := rest - {c};
      }
    }
  }

  // ----- Messages as index operations -----

  function SubOps<C>(c: C, ts: seq<Topic>): seq<Op<C>> {
    if ts == [] then []
    else SubOps(c, ts[..|ts| - 1]) + if IsValidTopic(ts[|ts| - 1]) then [Sub(c, ts[|ts| - 1])] else []
  }

  function UnsubOps<C>(c: C, ts: seq<Topic>): seq<Op<C>> {
    if ts == [] then [] else UnsubOps(c, ts[..|ts| - 1]) + [Unsub(c, ts[|ts| - 1])]
  }

  function OpsOf<C>(c: C, msg: Message): seq<Op<C>> {
    match msg
    case Subscribe(ts) => SubOps(c, ts)
    case Unsubscribe(ts) => UnsubOps(c, ts)
    case _ => []
  }

  /** The topics map when unregistering has dealt with all topics but the ones in rest. */
  function PurgeExcept<C>(all: map<Topic, set<C>>, c: C, rest: set<Topic>): map<Topic, set<C>> {
    map t | t in all && (t in rest || all[t] - {c} != {}) :: if t in rest then all[t] else all[t] - {c}
  }

  lemma PurgeStep<C>(all: map<Topic, set<C>>, c: C, rest: set<Topic>, t: Topic)
    requires t in rest && rest <= all.Keys
    ensures t in PurgeExcept(all, c, rest) && PurgeExcept(all, c, rest)[t] == all[t]
    ensures all[t] - {c} != {}
            ==> PurgeExcept(all, c, rest - {t}) == PurgeExcept(all, c, rest)[t := all[t] - {c}]
    ensures all[t] - {c} == {}
            ==> PurgeExcept(all, c, rest - {t}) == PurgeExcept(all, c, rest)[t := all[t] - {c}] - {t}
  {
  }

  lemma StartOfRun<C>(c: C, x: Index<C>, max: int)
    ensures Run(x, SubOps(c, []), max) == x == Run(x, UnsubOps(c, []), max)
    ensures Valid(Elements([])) == Elements([]) == {}
  {
  }

  lemma ValidSingle(t: Topic)
    ensures Valid({t}) == if IsValidTopic(t) then {t} else {}
  {
  }

  lemma PrefixElements(ts: seq<Topic>, i: nat)
    requires i < |ts|
    ensures Elements(ts[..i + 1]) == Elements(ts[..i]) + {ts[i]}
    ensures Valid(Elements(ts[..i + 1])) == Valid(Elements(ts[..i])) + Valid({ts[i]})
  {
    assert ts[..i + 1] == ts[..i] + [ts[i]];
  }

  lemma SubOpsLast<C>(c: C, ts: seq<Topic>, i: nat)
    requires i < |ts|
    ensures IsValidTopic(ts[i]) ==> SubOps(c, ts[..i + 1]) == SubOps(c, ts[..i]) + [Sub(c, ts[i])]
    ensures !IsValidTopic(ts[i]) ==> SubOps(c, ts[..i + 1]) == SubOps(c, ts[..i])
  {
    assert ts[..i + 1][..i] == ts[..i];
    assert SubOps(c, ts[..i]) + [] == SubOps(c, ts[..i]);
  }

  lemma UnsubOpsLast<C>(c: C, ts: seq<Topic>, i: nat)
    requires i < |ts|
    ensures UnsubOps(c, ts[..i + 1]) == UnsubOps(c, ts[..i]) + [Unsub(c, ts[i])]
  {
    assert ts[..i + 1][..i] == ts[..i];
  }

  lemma RunLast<C>(x: Index<C>, ops: seq<Op<C>>, op: Op<C>, max: int)
    ensures Run(x, ops + [op], max) == Step(Run(x, ops, max), op, max)
  {
    assert (ops + [op])[..|ops|] == ops;
  }

  /** A connection's own topic set, as the index records it, follows the messages it sends. */
  lemma {:induction false} MessageEffect<C>(x: Index<C>, c: C, msg: Message, max: int)
    ensures SubsOf(Run(x, OpsOf(c, msg), max), c) == Apply(SubsOf(x, c), msg)
  {
    match msg
    case Subscribe(ts) => SubOpsEffect(x, c, ts, max);
    case Unsubscribe(ts) => UnsubOpsEffect(x, c, ts, max);
    case _ =>
  }

  lemma {:induction false} SubOpsEffect<C>(x: Index<C>, c: C, ts: seq<Topic>, max: int)
    ensures SubsOf(Run(x, SubOps(c, ts), max), c) == SubsOf(x, c) + Valid(Elements(ts))
  {
    if ts != [] {
      var n := |ts| - 1;
      SubOpsEffect(x, c, ts[..n], max);
      PrefixElements(ts, n);
      assert ts[..n + 1] == ts;
      SubOpsLast(c, ts, n);
      RunLast(x, SubOps(c, ts[..n]), Sub(c, ts[n]), max);
      assert Valid({ts[n]}) == if IsValidTopic(ts[n]) then {ts[n]} else {};
    }
  }

  lemma {:induction false} UnsubOpsEffect<C>(x: Index<C>, c: C, ts: seq<Topic>, max: int)
    ensures SubsOf(Run(x, UnsubOps(c, ts), max), c) == SubsOf(x, c) - Elements(ts)
  {
    if ts != [] {
      var n := |ts| - 1;
      UnsubOpsEffect(x, c, ts[..n], max);
      PrefixElements(ts, n);
      assert ts[..n + 1] == ts;
      RunLast(x, UnsubOps(c, ts[..n]), Unsub(c, ts[n]), max);
    }
  }
}
