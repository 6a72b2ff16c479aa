/** The browser's subscription client (frontend/src/lib/websocket.ts) and its conversation with the server. */
module WsClient {
  import opened Topics
  import opened Wrappers

  /** Handlers are compared by identity; a number stands for each. */
  type Handler = nat

  /** Closing: no longer usable, but onclose has not run yet. */
  datatype Ready = Connecting | Open | Closing | Closed

  /** out holds the messages sent over this socket so far, in order. */
  datatype Socket = NoSocket | Socket(ready: Ready, out: seq<Message>)

  /** timeouts: how many reconnects are scheduled; scheduling one does not cancel an earlier one. */
  datatype Client = Client(
    handlers: map<Topic, set<Handler>>, pending: set<Topic>, isConnected: bool, reconnectAttempts: nat,
    timeouts: nat, socket: Socket)

  function NewClient(): Client {
    Client(map[], {}, false, 0, 0, NoSocket)
  }

  predicate SocketOpen(c: Client) {
    c.socket.Socket? && c.socket.ready.Open?
  }

  // ----- What each entry point does -----

  /** ws.send, guarded by readyState. */
  function Send(c: Client, m: Message): Client {
    if SocketOpen(c) then c.(socket := Socket(Open, c.socket.out + [m])) else c
  }

  function Connect(c: Client): Client {
    if SocketOpen(c) then c else c.(socket := Socket(Connecting, []))
  }

  /** order is the iteration order of the pending set. */
  function OnOpen(c: Client, order: seq<Topic>): Client
    requires c.socket.Socket?
  {
    var live := c.(socket := Socket(Open, c.socket.out), isConnected := true, reconnectAttempts := 0);
    if c.pending != {} then Send(live, Subscribe(order)) else live
  }

  function OnClose(c: Client, maxReconnectAttempts: nat): Client
    requires c.socket.Socket?
  {
    var closed := c.(socket := Socket(Closed, c.socket.out), isConnected := false);
    if maxReconnectAttempts != 0 && c.reconnectAttempts >= maxReconnectAttempts then closed
    else closed.(timeouts := c.timeouts + 1)
  }

  function TimerFires(c: Client): Client
    requires c.timeouts > 0
  {
    Connect(c.(timeouts := c.timeouts - 1, reconnectAttempts := c.reconnectAttempts + 1))
  }

  function HandlersOf(c: Client, t: Topic): set<Handler> {
    if t in c.handlers then c.handlers[t] else {}
  }

  function AddHandler(c: Client, t: Topic, h: Handler): Client {
    var added := c.(handlers := c.handlers[t := HandlersOf(c, t) + {h}], pending := c.pending + {t});
    if c.isConnected then Send(added, Subscribe([t])) else added
  }

  function Forget(c: Client, t: Topic): Client {
    var dropped := c.(handlers := c.handlers - {t}, pending := c.pending - {t});
    if c.isConnected then Send(dropped, Unsubscribe([t])) else dropped
  }

  function RemoveHandler(c: Client, t: Topic, h: Handler): Client {
    if t !in c.handlers then c
    else if c.handlers[t] - {h} == {} then Forget(c, t)
    else c.(handlers := c.handlers[t := c.handlers[t] - {h}])
  }

  // ----- The conversation -----

  /** received: how many of the socket's messages the server has handled; topics: the connection's topic set there. */
  datatype System = System(client: Client, received: nat, topics: set<Topic>)

  datatype Action =
    | DoConnect
    | DoSubscribe(t: Topic, h: Handler)
    | DoUnsubscribe(t: Topic, h: Handler)
    | DoUnsubscribeAll(t: Topic)
    | SocketOpens(order: seq<Topic>)
    | SocketFails            // the connection is gone, e.g. the server dropped it; onclose still to come
    | SocketCloses
    | Timer
    | Deliver

  predicate Idle(c: Client) {
    c.socket.NoSocket? || c.socket.ready.Closed?
  }

  /** One socket at a time: connecting happens when the previous socket has closed. */
  predicate Enabled(s: System, a: Action) {
    var c := s.client;
    match a
    case DoConnect => Idle(c) || SocketOpen(c)
    case SocketOpens(order) => c.socket.Socket? && c.socket.ready.Connecting? && Elements(order) == c.pending
    case SocketFails => SocketOpen(c)
    case SocketCloses => c.socket.Socket? && !c.socket.ready.Closed?
    case Timer => c.timeouts > 0 && (Idle(c) || SocketOpen(c))
    case Deliver => c.socket.Socket? && s.received < |c.socket.out|
    case _ => true
  }

  function Step(s: System, a: Action, maxReconnectAttempts: nat): System
    requires Enabled(s, a)
  {
    var c := s.client;
    match a
    case DoConnect => if SocketOpen(c) then s else System(Connect(c), 0, {})
    case DoSubscribe(t, h) => s.(client := AddHandler(c, t, h))
    case DoUnsubscribe(t, h) => s.(client := RemoveHandler(c, t, h))
    case DoUnsubscribeAll(t) => s.(client := Forget(c, t))
    case SocketOpens(order) => s.(client := OnOpen(c, order))
    case SocketFails => s.(client := c.(socket := Socket(Closing, c.socket.out)))
    case SocketCloses => s.(client := OnClose(c, maxReconnectAttempts))
    case Timer => if SocketOpen(c) then s.(client := TimerFires(c)) else System(TimerFires(c), 0, {})
    case Deliver => s.(received := s.received + 1, topics := Apply(s.topics, c.socket.out[s.received]))
  }

  predicate Admissible(s: System, actions: seq<Action>, maxReconnectAttempts: nat)
    decreases |actions|
  {
    actions == []
    || (Enabled(s, actions[0])
        && Admissible(Step(s, actions[0], maxReconnectAttempts), actions[1..], maxReconnectAttempts))
  }

  function Run(s: System, actions: seq<Action>, maxReconnectAttempts: nat): System
    requires Admissible(s, actions, maxReconnectAttempts)
    decreases |actions|
  {
    if actions == [] then s
    else Run(Step(s, actions[0], maxReconnectAttempts), actions[1..], maxReconnectAttempts)
  }

  // ----- What always holds -----

  /** The pending set is the set of topics with a handler, and no topic has an empty handler set. */
  predicate Tracked(c: Client) {
    c.pending == c.handlers.Keys && forall t :: t in c.handlers ==> c.handlers[t] != {}
  }

  function Out(c: Client): seq<Message> {
    if c.socket.Socket? then c.socket.out else []
  }

  predicate Inv(s: System) {
    var c := s.client;
    && Tracked(c)
    && (SocketOpen(c) ==> c.isConnected)
    && (c.isConnected ==> c.socket.Socket? && (c.socket.ready.Open? || c.socket.ready.Closing?))
    && (c.socket.Socket? && c.socket.ready.Connecting? ==> c.socket.out == [])
    && (SocketOpen(c) ==> ApplyAll({}, c.socket.out) == Valid(c.pending))
    && s.received <= |Out(c)|
    && s.topics == ApplyAll({}, Out(c)[..s.received])
  }

  lemma SendKeeps(c: Client, m: Message, pending: set<Topic>)
    requires SocketOpen(c) ==> Apply(ApplyAll({}, c.socket.out), m) == Valid(pending)
    ensures SocketOpen(c) ==> ApplyAll({}, Send(c, m).socket.out) == Valid(pending)
    ensures Out(c) <= Out(Send(c, m))
  {
    if SocketOpen(c) {
      ApplyLast({}, c.socket.out, m);
    }
  }

  lemma SubscribeEffect(pending: set<Topic>, t: Topic)
    ensures Apply(Valid(pending), Subscribe([t])) == Valid(pending + {t})
    ensures Apply(Valid(pending), Unsubscribe([t])) == Valid(pending - {t})
  {
    assert Elements([t]) == {t};
  }

  lemma AddHandlerKeeps(s: System, t: Topic, h: Handler)
    requires Inv(s)
    ensures Inv(s.(client := AddHandler(s.client, t, h)))
  {
    hide ApplyAll, Apply, Valid;
    var c := s.client;
    SubscribeEffect(c.pending, t);
    SendKeeps(c, Subscribe([t]), c.pending + {t});
    assert h in HandlersOf(c, t) + {h};
    assert Out(AddHandler(c, t, h))[..s.received] == Out(c)[..s.received];
  }

  lemma ForgetKeeps(s: System, t: Topic)
    requires Inv(s)
    ensures Inv(s.(client := Forget(s.client, t)))
  {
    hide ApplyAll, Apply, Valid;
    var c := s.client;
    SubscribeEffect(c.pending, t);
    SendKeeps(c, Unsubscribe([t]), c.pending - {t});
    assert Out(Forget(c, t))[..s.received] == Out(c)[..s.received];
  }

  lemma OpenKeeps(s: System, order: seq<Topic>, max: nat)
    requires Inv(s) && Enabled(s, SocketOpens(order))
    ensures Inv(Step(s, SocketOpens(order), max))
  {
    var c := s.client;
    ApplyLast({}, [], Subscribe(order));
    assert [] + [Subscribe(order)] == [Subscribe(order)];
    assert Valid({}) == {};
  }

  lemma DeliverKeeps(s: System, max: nat)
    requires Inv(s) && Enabled(s, Deliver)
    ensures Inv(Step(s, Deliver, max))
  {
    var out, n := s.client.socket.out, s.received;
    assert out[..n + 1] == out[..n] + [out[n]];
    ApplyLast({}, out[..n], out[n]);
  }

  lemma StepKeeps(s: System, a: Action, max: nat)
    requires Inv(s) && Enabled(s, a)
    ensures Inv(Step(s, a, max))
  {
    hide Apply, Valid;
    match a
    case DoSubscribe(t, h) => AddHandlerKeeps(s, t, h);
    case DoUnsubscribe(t, h) =>
      if t in s.client.handlers && s.client.handlers[t] - {h} == {} {
        ForgetKeeps(s, t);
      }
    case DoUnsubscribeAll(t) => ForgetKeeps(s, t);
    case SocketOpens(order) => OpenKeeps(s, order, max);
    case Deliver => DeliverKeeps(s, max);
    case _ =>
  }

  lemma {:induction false} RunKeeps(s: System, actions: seq<Action>, max: nat)
    requires Inv(s) && Admissible(s, actions, max)
    ensures Inv(Run(s, actions, max))
    decreases |actions|
  {
    if actions != [] {
      StepKeeps(s, actions[0], max);
      RunKeeps(Step(s, actions[0], max), actions[1..], max);
    }
  }

  function Start(): System {
    System(NewClient(), 0, {})
  }

  /**
   * At every point of every run, across any number of reconnects: the pending set is exactly the topics with a
   * handler; and while the socket is open, the messages still under way turn the server's topic set for this
   * connection into exactly the valid pending topics.
   */
  lemma ServerFollowsClient(actions: seq<Action>, max: nat)
    requires Admissible(Start(), actions, max)
    ensures var s := Run(Start(), actions, max);
            && Tracked(s.client)
            && (SocketOpen(s.client) ==>
                  && s.received <= |s.client.socket.out|
                  && ApplyAll(s.topics, s.client.socket.out[s.received..]) == Valid(s.client.pending))
  {
    RunKeeps(Start(), actions, max);
    var s := Run(Start(), actions, max);
    if SocketOpen(s.client) {
      var out := s.client.socket.out;
      assert out == out[..s.received] + out[s.received..];
      ApplyConcat({}, out[..s.received], out[s.received..]);
    }
  }

  /** Once everything sent has been delivered, the server's topic set is the valid part of the client's. */
  lemma Converged(actions: seq<Action>, max: nat)
    requires Admissible(Start(), actions, max)
    requires var s := Run(Start(), actions, max);
             SocketOpen(s.client) && s.received == |s.client.socket.out|
    ensures Run(Start(), actions, max).topics == Valid(Run(Start(), actions, max).client.pending)
  {
    ServerFollowsClient(actions, max);
  }

  // ----- When the socket is open -----

  predicate LastsOpen(actions: seq<Action>) {
    forall j :: 0 <= j < |actions| ==> !actions[j].SocketFails? && !actions[j].SocketCloses?
  }

  predicate OpenSince(actions: seq<Action>, i: nat) {
    i < |actions| && actions[i].SocketOpens? && LastsOpen(actions[i + 1..])
  }

  /** Some socket opens, and none fails or closes after that. */
  predicate StaysOpen(actions: seq<Action>) {
    exists i :: 0 <= i < |actions| && OpenSince(actions, i)
  }

  lemma StaysOpenCons(a: Action, rest: seq<Action>)
    ensures StaysOpen([a] + rest) <==> StaysOpen(rest) || (a.SocketOpens? && LastsOpen(rest))
    ensures LastsOpen([a] + rest) <==> !a.SocketFails? && !a.SocketCloses? && LastsOpen(rest)
  {
    var all := [a] + rest;
    assert all[1..] == rest && all[0] == a;
    forall i | 0 <= i < |rest| ensures OpenSince(rest, i) == OpenSince(all, i + 1) && rest[i] == all[i + 1] {
      assert all[i + 2..] == rest[i + 1..];
    }
    if LastsOpen(all) {
      forall j | 0 <= j < |rest| ensures !rest[j].SocketFails? && !rest[j].SocketCloses? {
        assert rest[j] == all[j + 1];
      }
    }
    hide LastsOpen;
    if StaysOpen(rest) {
      var i :| 0 <= i < |rest| && OpenSince(rest, i);
      assert OpenSince(all, i + 1);
    }
    if a.SocketOpens? && LastsOpen(rest) {
      assert OpenSince(all, 0);
    }
    if StaysOpen(all) {
      var i :| 0 <= i < |all| && OpenSince(all, i);
      assert i > 0 ==> OpenSince(rest, i - 1);
    }
  }

  lemma OpenStep(s: System, a: Action, max: nat)
    requires Enabled(s, a)
    ensures SocketOpen(Step(s, a, max).client)
            <==> a.SocketOpens? || (SocketOpen(s.client) && !a.SocketFails? && !a.SocketCloses?)
  {
  }

  lemma {:induction false} OpenFrom(s: System, actions: seq<Action>, max: nat)
    requires Admissible(s, actions, max)
    ensures SocketOpen(Run(s, actions, max).client)
            <==> StaysOpen(actions) || (SocketOpen(s.client) && LastsOpen(actions))
    decreases |actions|
  {
    if actions != [] {
      var a, rest := actions[0], actions[1..];
      assert actions == [a] + rest;
      OpenStep(s, a, max);
      hide Step, SocketOpen, StaysOpen, LastsOpen;
      OpenFrom(Step(s, a, max), rest, max);
      StaysOpenCons(a, rest);
    }
  }

  /** In every run the socket is open exactly if one has opened and none has failed or closed since. */
  lemma OpenExactly(actions: seq<Action>, max: nat)
    requires Admissible(Start(), actions, max)
    ensures SocketOpen(Run(Start(), actions, max).client) <==> StaysOpen(actions)
  {
    OpenFrom(Start(), actions, max);
  }

  /**
   * From every reachable state without a socket, connecting, be it by a scheduled reconnect, and opening leads back to
   * where it should: with the one message delivered the server's topics are the valid pending ones, no handler is lost
   * and the whole retry budget is available again.
   */
  lemma Recovers(actions: seq<Action>, max: nat, order: seq<Topic>, byTimer: bool) returns (more: seq<Action>)
    requires Admissible(Start(), actions, max) && Idle(Run(Start(), actions, max).client)
    requires Elements(order) == Run(Start(), actions, max).client.pending
    requires byTimer ==> Run(Start(), actions, max).client.timeouts > 0
    ensures var s := Run(Start(), actions, max);
            && more == [if byTimer then Timer else DoConnect, SocketOpens(order)]
                       + (if s.client.pending != {} then [Deliver] else [])
            && Admissible(s, more, max)
            && var t := Run(s, more, max);
               && SocketOpen(t.client) && t.received == |t.client.socket.out| && t.topics == Valid(s.client.pending)
               && t.client.handlers == s.client.handlers && t.client.reconnectAttempts == 0
  {
    var s := Run(Start(), actions, max);
    RunKeeps(Start(), actions, max);
    hide Run, Admissible, Inv, Step;
    var a, s1, s2 := Reopens(s, max, order, byTimer);
    var last: seq<Action> := if s.client.pending != {} then [Deliver] else [];
    var t := s2;
    if s.client.pending != {} {
      t := DeliversAll(s2, max, order);
      NoActions(t, max);
      RunCons(s2, Deliver, [], max);
      assert [Deliver] + [] == last;
    } else {
      NoActions(t, max);
      NothingSent(s2);
    }
    RunCons(s1, SocketOpens(order), last, max);
    RunCons(s, a, [SocketOpens(order)] + last, max);
    more := [a] + ([SocketOpens(order)] + last);
    assert more == [a, SocketOpens(order)] + last;
  }

  lemma Reopens(s: System, max: nat, order: seq<Topic>, byTimer: bool) returns (a: Action, s1: System, s2: System)
    requires Inv(s) && Idle(s.client) && Elements(order) == s.client.pending && (byTimer ==> s.client.timeouts > 0)
    ensures a == (if byTimer then Timer else DoConnect) && Enabled(s, a) && s1 == Step(s, a, max)
    ensures Enabled(s1, SocketOpens(order)) && s2 == Step(s1, SocketOpens(order), max) && Inv(s2)
    ensures SocketOpen(s2.client) && s2.received == 0 && s2.topics == {} && s2.client.reconnectAttempts == 0
    ensures s2.client.handlers == s.client.handlers && s2.client.pending == s.client.pending
    ensures s2.client.socket.out == if s.client.pending != {} then [Subscribe(order)] else []
  {
    a := if byTimer then Timer else DoConnect;
    StepKeeps(s, a, max);
    s1 := Step(s, a, max);
    StepKeeps(s1, SocketOpens(order), max);
    hide Inv;
    s2 := Step(s1, SocketOpens(order), max);
  }

  lemma DeliversAll(s: System, max: nat, order: seq<Topic>) returns (t: System)
    requires Inv(s) && SocketOpen(s.client) && s.received == 0 && s.client.socket.out == [Subscribe(order)]
    ensures Enabled(s, Deliver) && t == Step(s, Deliver, max)
    ensures t.client == s.client && t.received == 1 && t.topics == Valid(s.client.pending)
  {
    StepKeeps(s, Deliver, max);
    t := Step(s, Deliver, max);
    assert t.client.socket.out[..1] == t.client.socket.out;
    hide ApplyAll, Valid, Apply;
  }

  lemma NothingSent(s: System)
    requires Inv(s) && SocketOpen(s.client) && s.client.socket.out == [] && s.client.pending == {} && s.topics == {}
    ensures s.topics == Valid(s.client.pending)
  {
  }

  lemma NoActions(s: System, max: nat)
    ensures Admissible(s, [], max) && Run(s, [], max) == s
  {
  }

  lemma RunCons(s: System, a: Action, rest: seq<Action>, max: nat)
    requires Enabled(s, a) && Admissible(Step(s, a, max), rest, max)
    ensures Admissible(s, [a] + rest, max) && Run(s, [a] + rest, max) == Run(Step(s, a, max), rest, max)
  {
    assert ([a] + rest)[1..] == rest;
  }

  /** The page can subscribe and unsubscribe at any time; connecting an open socket changes nothing. */
  lemma AnyTime(s: System, t: Topic, h: Handler, max: nat)
    ensures Enabled(s, DoSubscribe(t, h)) && Enabled(s, DoUnsubscribe(t, h)) && Enabled(s, DoUnsubscribeAll(t))
    ensures SocketOpen(s.client) ==> Enabled(s, DoConnect) && Step(s, DoConnect, max) == s
    ensures SocketOpen(s.client) && s.client.timeouts > 0 ==>
              Enabled(s, Timer) && Step(s, Timer, max).received == s.received && Step(s, Timer, max).topics == s.topics
    ensures Enabled(s, SocketFails) <==> SocketOpen(s.client)
  {
  }

  // ----- Whose handlers are called -----

  predicate Drops(a: Action, t: Topic, h: Handler) {
    a == DoUnsubscribe(t, h) || a == DoUnsubscribeAll(t)
  }

  predicate NoDrops(actions: seq<Action>, t: Topic, h: Handler) {
    forall j :: 0 <= j < |actions| ==> !Drops(actions[j], t, h)
  }

  predicate SubscribedAt(actions: seq<Action>, t: Topic, h: Handler, i: nat) {
    i < |actions| && actions[i] == DoSubscribe(t, h) && NoDrops(actions[i + 1..], t, h)
  }

  /** Some action subscribes h to t, and none after it unsubscribes h from t or everything from t. */
  predicate Subscribed(actions: seq<Action>, t: Topic, h: Handler) {
    exists i :: 0 <= i < |actions| && SubscribedAt(actions, t, h, i)
  }

  lemma NoDropsCons(a: Action, rest: seq<Action>, t: Topic, h: Handler)
    ensures NoDrops([a] + rest, t, h) <==> !Drops(a, t, h) && NoDrops(rest, t, h)
  {
    hide Drops;
    var all := [a] + rest;
    if NoDrops(all, t, h) {
      assert !Drops(all[0], t, h);
      forall j | 0 <= j < |rest| ensures !Drops(rest[j], t, h) {
        assert !Drops(all[j + 1], t, h);
      }
    }
  }

  lemma SubscribedCons(a: Action, rest: seq<Action>, t: Topic, h: Handler)
    ensures Subscribed([a] + rest, t, h)
            <==> Subscribed(rest, t, h) || (a == DoSubscribe(t, h) && NoDrops(rest, t, h))
  {
    hide NoDrops;
    var all := [a] + rest;
    assert all[1..] == rest;
    forall i | 0 <= i < |rest| ensures SubscribedAt(rest, t, h, i) == SubscribedAt(all, t, h, i + 1) {
      assert all[i + 2..] == rest[i + 1..];
    }
    if Subscribed(rest, t, h) {
      var i :| 0 <= i < |rest| && SubscribedAt(rest, t, h, i);
      assert SubscribedAt(all, t, h, i + 1);
    }
    if a == DoSubscribe(t, h) && NoDrops(rest, t, h) {
      assert SubscribedAt(all, t, h, 0);
    }
    if Subscribed(all, t, h) {
      var i :| 0 <= i < |all| && SubscribedAt(all, t, h, i);
      assert i > 0 ==> SubscribedAt(rest, t, h, i - 1);
    }
  }

  lemma HandlersStep(s: System, a: Action, max: nat, t: Topic, h: Handler)
    requires Enabled(s, a)
    ensures Handles(Step(s, a, max).client, t, h)
            <==> a == DoSubscribe(t, h) || (Handles(s.client, t, h) && !Drops(a, t, h))
  {
  }

  predicate Handles(c: Client, t: Topic, h: Handler) {
    t in c.handlers && h in c.handlers[t]
  }

  lemma {:induction false} HandlersFrom(s: System, actions: seq<Action>, max: nat, t: Topic, h: Handler)
    requires Admissible(s, actions, max)
    ensures Handles(Run(s, actions, max).client, t, h)
            <==> Subscribed(actions, t, h) || (Handles(s.client, t, h) && NoDrops(actions, t, h))
    decreases |actions|
  {
    if actions != [] {
      var a, rest := actions[0], actions[1..];
      assert actions == [a] + rest;
      HandlersStep(s, a, max, t, h);
      hide Handles, Step, Drops, Subscribed, NoDrops;
      HandlersFrom(Step(s, a, max), rest, max, t, h);
      SubscribedCons(a, rest, t, h);
      NoDropsCons(a, rest, t, h);
    }
  }

  /** In every run a topic has exactly the handlers that were subscribed to it and not unsubscribed since. */
  lemma HandlersExactly(actions: seq<Action>, max: nat, t: Topic, h: Handler)
    requires Admissible(Start(), actions, max)
    ensures var c := Run(Start(), actions, max).client;
            (t in c.handlers && h in c.handlers[t]) <==> Subscribed(actions, t, h)
  {
    hide Admissible, Subscribed, Run;
    HandlersFrom(Start(), actions, max, t, h);
  }

  /** What arrives; topic is empty if the message has none. */
  datatype Incoming = Incoming(kind: string, topic: Topic)

  /** The handlers that a message is passed to. */
  function Called(c: Client, m: Incoming): set<Handler> {
    if m.kind == "event" && m.topic != "" then HandlersOf(c, m.topic) else {}
  }

  /** In every run an event is passed to exactly the handlers subscribed to its topic and not unsubscribed since. */
  lemma CalledExactly(actions: seq<Action>, max: nat, m: Incoming, h: Handler)
    requires Admissible(Start(), actions, max)
    ensures h in Called(Run(Start(), actions, max).client, m)
            <==> m.kind == "event" && m.topic != "" && Subscribed(actions, m.topic, h)
  {
    hide Subscribed, Run, Admissible;
    HandlersExactly(actions, max, m.topic, h);
  }

  // ----- The retry budget -----

  function Fires(actions: seq<Action>): nat {
    if actions == [] then 0 else (if actions[0].Timer? then 1 else 0) + Fires(actions[1..])
  }

  /** Connecting an idle socket while a reconnect is scheduled leaves the schedule as it is: two may end up in it. */
  predicate PoliteStep(s: System, a: Action) {
    a.DoConnect? && Idle(s.client) ==> s.client.timeouts == 0
  }

  predicate Polite(s: System, actions: seq<Action>, max: nat)
    requires Admissible(s, actions, max)
    decreases |actions|
  {
    actions == [] || (PoliteStep(s, actions[0]) && Polite(Step(s, actions[0], max), actions[1..], max))
  }

  predicate NeverOpens(actions: seq<Action>) {
    forall a :: a in actions ==> !a.SocketOpens?
  }

  /** As long as no socket opens and connects are polite, the client never counts beyond its budget. */
  ghost predicate InBudget(s: System, max: nat) {
    forall actions :: Admissible(s, actions, max) && NeverOpens(actions) && Polite(s, actions, max)
                      ==> Run(s, actions, max).client.reconnectAttempts <= max
  }

  /** At most one reconnect is scheduled, only while the socket is idle, and only within the budget. */
  predicate Calm(s: System, max: nat) {
    var c := s.client;
    && c.reconnectAttempts <= max
    && (if Idle(c) then c.timeouts <= 1 && (c.timeouts == 1 ==> c.reconnectAttempts < max) else c.timeouts == 0)
  }

  lemma CalmStep(s: System, a: Action, max: nat)
    requires Calm(s, max) && Enabled(s, a) && max != 0
    ensures Calm(Step(s, a, max), max) <==> PoliteStep(s, a)
  {
  }

  lemma {:induction false} CalmRun(s: System, actions: seq<Action>, max: nat)
    requires Calm(s, max) && Admissible(s, actions, max) && Polite(s, actions, max) && max != 0
    ensures Calm(Run(s, actions, max), max)
    decreases |actions|
  {
    if actions != [] {
      CalmStep(s, actions[0], max);
      CalmRun(Step(s, actions[0], max), actions[1..], max);
    }
  }

  /** From any state that is not calm the budget can be overrun: close, let a timeout fire, and so on. */
  lemma {:induction false} Overrun(s: System, max: nat) returns (actions: seq<Action>)
    requires !Calm(s, max) && max != 0
    ensures Admissible(s, actions, max) && NeverOpens(actions) && Polite(s, actions, max)
    ensures Run(s, actions, max).client.reconnectAttempts > max
    decreases max + 1 - s.client.reconnectAttempts, if Idle(s.client) then 0 else 1
  {
    if s.client.reconnectAttempts > max {
      actions := [];
    } else {
      var a := if Idle(s.client) then Timer else SocketCloses;
      var rest := Overrun(Step(s, a, max), max);
      actions := [a] + rest;
      assert actions[1..] == rest;
    }
  }

  /** The budget holds from a state on exactly if the state is calm. */
  lemma InBudgetExactly(s: System, max: nat)
    requires max != 0
    ensures InBudget(s, max) <==> Calm(s, max)
  {
    hide Calm;
    if Calm(s, max) {
      forall actions | Admissible(s, actions, max) && NeverOpens(actions) && Polite(s, actions, max)
        ensures Run(s, actions, max).client.reconnectAttempts <= max
      {
        CalmRun(s, actions, max);
        CalmCount(Run(s, actions, max), max);
      }
    } else {
      var actions := Overrun(s, max);
    }
  }

  lemma CalmCount(s: System, max: nat)
    requires Calm(s, max)
    ensures s.client.reconnectAttempts <= max
  {
  }

  ghost predicate AlwaysInBudget(s: System, actions: seq<Action>, max: nat)
    requires Admissible(s, actions, max)
    decreases |actions|
  {
    InBudget(s, max) && (actions == [] || AlwaysInBudget(Step(s, actions[0], max), actions[1..], max))
  }

  lemma {:induction false} BudgetFrom(s: System, actions: seq<Action>, max: nat)
    requires max != 0 && Calm(s, max) && Admissible(s, actions, max)
    ensures AlwaysInBudget(s, actions, max) <==> Polite(s, actions, max)
    decreases |actions|
  {
    InBudgetExactly(s, max);
    if actions != [] {
      var t := Step(s, actions[0], max);
      CalmStep(s, actions[0], max);
      InBudgetExactly(t, max);
      hide InBudget, Calm, Step;
      if PoliteStep(s, actions[0]) {
        BudgetFrom(t, actions[1..], max);
      }
    }
  }

  /**
   * The retry budget holds at every point of a run, for whatever follows without a socket opening, exactly if the run
   * never connects an idle socket while a reconnect is scheduled.
   */
  lemma BudgetExactly(actions: seq<Action>, max: nat)
    requires max != 0 && Admissible(Start(), actions, max)
    ensures AlwaysInBudget(Start(), actions, max) <==> Polite(Start(), actions, max)
  {
    BudgetFrom(Start(), actions, max);
  }

  lemma {:induction false} AttemptsCount(s: System, actions: seq<Action>, max: nat)
    requires Admissible(s, actions, max) && NeverOpens(actions)
    ensures Run(s, actions, max).client.reconnectAttempts == s.client.reconnectAttempts + Fires(actions)
    decreases |actions|
  {
    if actions != [] {
      assert actions[0] in actions;
      AttemptsCount(Step(s, actions[0], max), actions[1..], max);
    }
  }

  /** The timeouts fired since a socket last opened, given how many there were before. */
  function FiresSinceOpen(before: nat, actions: seq<Action>): nat
    decreases |actions|
  {
    if actions == [] then before
    else
      match actions[0]
      case SocketOpens(_) => FiresSinceOpen(0, actions[1..])
      case Timer => FiresSinceOpen(before + 1, actions[1..])
      case _ => FiresSinceOpen(before, actions[1..])
  }

  lemma {:induction false} AttemptsFrom(s: System, actions: seq<Action>, max: nat)
    requires Admissible(s, actions, max)
    ensures Run(s, actions, max).client.reconnectAttempts == FiresSinceOpen(s.client.reconnectAttempts, actions)
    decreases |actions|
  {
    if actions != [] {
      AttemptsFrom(Step(s, actions[0], max), actions[1..], max);
    }
  }

  /** In every run the attempts counted are the timeouts fired since a socket last opened. */
  lemma AttemptsExactly(actions: seq<Action>, max: nat)
    requires Admissible(Start(), actions, max)
    ensures Run(Start(), actions, max).client.reconnectAttempts == FiresSinceOpen(0, actions)
  {
    AttemptsFrom(Start(), actions, max);
  }

  /** The reconnects scheduled: one for each close with budget left, or with no limit to it. */
  function Scheduled(before: nat, actions: seq<Action>, max: nat): nat
    decreases |actions|
  {
    if actions == [] then 0
    else
      var now := FiresSinceOpen(before, [actions[0]]);
      (if actions[0].SocketCloses? && (max == 0 || before < max) then 1 else 0) + Scheduled(now, actions[1..], max)
  }

  lemma {:induction false} ScheduledFrom(s: System, actions: seq<Action>, max: nat)
    requires Admissible(s, actions, max)
    ensures Run(s, actions, max).client.timeouts + Fires(actions)
            == s.client.timeouts + Scheduled(s.client.reconnectAttempts, actions, max)
    decreases |actions|
  {
    if actions != [] {
      var t := Step(s, actions[0], max);
      ScheduleStep(s, actions[0], max);
      hide Step;
      ScheduledFrom(t, actions[1..], max);
    }
  }

  lemma ScheduleStep(s: System, a: Action, max: nat)
    requires Enabled(s, a)
    ensures var t := Step(s, a, max);
            && t.client.timeouts + (if a.Timer? then 1 else 0)
               == s.client.timeouts
                  + (if a.SocketCloses? && (max == 0 || s.client.reconnectAttempts < max) then 1 else 0)
            && t.client.reconnectAttempts == FiresSinceOpen(s.client.reconnectAttempts, [a])
  {
    var one := [a];
    assert one[1..] == [];
    var n := s.client.reconnectAttempts;
    assert FiresSinceOpen(0, []) == 0 && FiresSinceOpen(n + 1, []) == n + 1;
  }

  /** In every run, of the reconnects scheduled exactly those whose timeout has not fired are still to come. */
  lemma TimeoutsExactly(actions: seq<Action>, max: nat)
    requires Admissible(Start(), actions, max)
    ensures Run(Start(), actions, max).client.timeouts + Fires(actions) == Scheduled(0, actions, max)
  {
    ScheduledFrom(Start(), actions, max);
  }

  /** However long the outage, in a polite run the timeouts fire at most max times until a socket opens. */
  lemma RetriesBounded(before: seq<Action>, outage: seq<Action>, max: nat)
    requires max != 0 && Admissible(Start(), before, max) && Polite(Start(), before, max)
    requires Admissible(Run(Start(), before, max), outage, max) && NeverOpens(outage)
    requires Polite(Run(Start(), before, max), outage, max)
    ensures Fires(outage) <= max
  {
    var s := Run(Start(), before, max);
    CalmRun(Start(), before, max);
    AttemptsCount(s, outage, max);
    CalmRun(s, outage, max);
    CalmCount(Run(s, outage, max), max);
  }

  /** With a budget of one, an explicit connect while a reconnect is scheduled leads to two. */
  lemma RetriesExceeded()
    ensures var run := [DoConnect, SocketCloses, DoConnect, SocketCloses, Timer, SocketCloses, Timer];
            Admissible(Start(), run, 1) && NeverOpens(run) && Fires(run) == 2 && !Polite(Start(), run, 1)
  {
    var s1 := Step(Start(), DoConnect, 1);
    var s2 := Step(s1, SocketCloses, 1);
    var s3 := Step(s2, DoConnect, 1);
    var s4 := Step(s3, SocketCloses, 1);
    var s5 := Step(s4, Timer, 1);
    var s6 := Step(s5, SocketCloses, 1);
    var s7 := Step(s6, Timer, 1);
    assert !PoliteStep(s2, DoConnect);
    var r7: seq<Action> := [];
    assert Admissible(s7, r7, 1) && Fires(r7) == 0;
    hide Admissible, Polite, Fires, Step, Start;
    var r6 := Prepend(s6, Timer, r7, 1);
    var r5 := Prepend(s5, SocketCloses, r6, 1);
    var r4 := Prepend(s4, Timer, r5, 1);
    var r3 := Prepend(s3, SocketCloses, r4, 1);
    var r2 := Prepend(s2, DoConnect, r3, 1);
    var r1 := Prepend(s1, SocketCloses, r2, 1);
    var r0 := Prepend(Start(), DoConnect, r1, 1);
    assert r0 == [DoConnect, SocketCloses, DoConnect, SocketCloses, Timer, SocketCloses, Timer];
  }

  lemma Prepend(s: System, a: Action, rest: seq<Action>, max: nat) returns (actions: seq<Action>)
    requires Enabled(s, a) && Admissible(Step(s, a, max), rest, max)
    ensures actions == [a] + rest && Admissible(s, actions, max)
    ensures Polite(s, actions, max) <==> PoliteStep(s, a) && Polite(Step(s, a, max), rest, max)
    ensures Fires(actions) == Fires(rest) + if a.Timer? then 1 else 0
  {
    actions := [a] + rest;
    assert actions[1..] == rest;
  }

  // ----- The code -----

  class WSClient {
    var handlers: map<Topic, set<Handler>>
    var pendingSubscriptions: set<Topic>
    var isConnected: bool
    var reconnectAttempts: nat
    /** The timeouts scheduled and not yet fired; the source keeps the handle of the latest. */
    var reconnectTimeouts: nat
    var ws: Socket
    const maxReconnectAttempts: nat

    function View(): Client
      reads this
    {
      Client(handlers, pendingSubscriptions, isConnected, reconnectAttempts, reconnectTimeouts, ws)
    }

    constructor (maxReconnectAttempts: nat)
      ensures View() == NewClient() && this.maxReconnectAttempts == maxReconnectAttempts
    {
      this.maxReconnectAttempts := maxReconnectAttempts;
      handlers, pendingSubscriptions, isConnected := map[], {}, false;
      reconnectAttempts, reconnectTimeouts, ws := 0, 0, NoSocket;
    }

    method SendMessage(data: Message)
      modifies this`ws
      ensures View() == Send(old(View()), data)
    {
      if ws.Socket? && ws.ready.Open? {
        ws := ws.(out := ws.out + [data]);
      }
    }

    method ConnectSocket()
      modifies this`ws
      ensures View() == Connect(old(View()))
    {
      if ws.Socket? && ws.ready.Open? {
        return;
      }
      ws := Socket(Connecting, []);
    }

    /** ws.onopen; the set is iterated in some order. */
    method HandleOpen() returns (topics: seq<Topic>)
      requires ws.Socket?
      modifies this
      ensures Elements(topics) == old(pendingSubscriptions) && |topics| == |old(pendingSubscriptions)|
      ensures View() == OnOpen(old(View()), topics)
      ensures isConnected && reconnectAttempts == 0
      ensures ws == Socket(Open, old(ws).out + if topics != [] then [Subscribe(topics)] else [])
    {
      ws := Socket(Open, ws.out);
      isConnected := true;
      reconnectAttempts := 0;
      topics := ListPending();
      if |pendingSubscriptions| > 0 {
        SendMessage(Subscribe(topics));
      }
    }

    /** Array.from(this.pendingSubscriptions) */
    method ListPending() returns (topics: seq<Topic>)
      ensures Elements(topics) == pendingSubscriptions && |topics| == |pendingSubscriptions|
    {
      topics := [];
      var rest := pendingSubscriptions;
      while rest != {}
        invariant rest !! Elements(topics) && rest + Elements(topics) == pendingSubscriptions
        invariant |rest| + |topics| == |pendingSubscriptions|
      {
        var t :| t in rest;
        topics, rest := topics + [t], rest - {t};
      }
    }

    /** ws.onclose, including scheduleReconnect. */
    method HandleClose()
      requires ws.Socket?
      modifies this
      ensures View() == OnClose(old(View()), maxReconnectAttempts)
      ensures !isConnected && reconnectAttempts == old(reconnectAttempts)
      ensures reconnectTimeouts == old(reconnectTimeouts)
                                   + if maxReconnectAttempts == 0 || reconnectAttempts < maxReconnectAttempts then 1 else 0
    {
      ws := Socket(Closed, ws.out);
      isConnected := false;
      if maxReconnectAttempts != 0 && reconnectAttempts >= maxReconnectAttempts {
        return;
      }
      reconnectTimeouts := reconnectTimeouts + 1;
    }

    method HandleTimer()
      requires reconnectTimeouts > 0
      modifies this
      ensures View() == TimerFires(old(View()))
      ensures reconnectTimeouts == old(reconnectTimeouts) - 1 && reconnectAttempts == old(reconnectAttempts) + 1
    {
      reconnectTimeouts := reconnectTimeouts - 1;
      reconnectAttempts := reconnectAttempts + 1;
      ConnectSocket();
    }

    method SubscribeTopic(topic: Topic, handler: Handler)
      modifies this
      ensures View() == AddHandler(old(View()), topic, handler)
      ensures topic in handlers && handler in handlers[topic]
      ensures forall t, h :: t in handlers && h in handlers[t] <==>
                               (t == topic && h == handler) || (t in old(handlers) && h in old(handlers)[t])
      ensures pendingSubscriptions == old(pendingSubscriptions) + {topic}
    {
      if topic !in handlers {
        handlers := handlers[topic := {}];
      }
      handlers := handlers[topic := handlers[topic] + {handler}];
      pendingSubscriptions := pendingSubscriptions + {topic};
      if isConnected {
        SendMessage(Subscribe([topic]));
      }
    }

    /** One handler, or all of them when none is given. */
    method UnsubscribeTopic(topic: Topic, handler: Option<Handler>)
      modifies this
      ensures handler.Some? ==> View() == RemoveHandler(old(View()), topic, handler.value)
      ensures handler.None? ==> View() == Forget(old(View()), topic)
    {
      if handler.Some? {
        if topic in handlers {
          handlers := handlers[topic := handlers[topic] - {handler.value}];
          if |handlers[topic]| == 0 {
            DropTopic(topic);
          }
        }
      } else {
        DropTopic(topic);
      }
    }

    /** handleMessage; called lists the handlers that run. */
    method HandleMessage(message: Incoming) returns (called: seq<Handler>)
      ensures (set h | h in called) == Called(View(), message)
      ensures |called| == |Called(View(), message)|
    {
      called := [];
      if message.kind == "event" && message.topic != "" && message.topic in handlers {
        var rest := handlers[message.topic];
        while rest != {}
          invariant forall h :: h in called ==> h !in rest
          invariant (set h | h in called) + rest == handlers[message.topic]
          invariant |called| + |rest| == |handlers[message.topic]|
        {
          var h :| h in rest;
          called, rest := called + [h], rest - {h};
        }
      }
    }

    method OnNewBlock(handler: Handler)
      modifies this
      ensures View() == AddHandler(old(View()), "blocks", handler) && IsValidTopic("blocks")
    {
      SubscribeTopic("blocks", handler);
    }

    method OnNewTransaction(handler: Handler)
      modifies this
      ensures View() == AddHandler(old(View()), "transactions", handler) && IsValidTopic("transactions")
    {
      SubscribeTopic("transactions", handler);
    }

    method OnPriceUpdate(handler: Handler)
      modifies this
      ensures View() == AddHandler(old(View()), "price", handler) && IsValidTopic("price")
    {
      SubscribeTopic("price", handler);
    }

    method OnSyncStatus(handler: Handler)
      modifies this
      ensures View() == AddHandler(old(View()), "sync", handler) && IsValidTopic("sync")
    {
      SubscribeTopic("sync", handler);
    }

    /** The server takes the topic of every address but the empty one. */
    method OnAddressActivity(address: string, handler: Handler)
      modifies this
      ensures View() == AddHandler(old(View()), "address:" + address, handler)
      ensures IsValidTopic("address:" + address) <==> address != ""
    {
      ValidExactly("address:" + address);
      SubscribeTopic("address:" + address, handler);
    }

    method DropTopic(topic: Topic)
      modifies this
      ensures View() == Forget(old(View()), topic)
    {
      handlers := handlers - {topic};
      pendingSubscriptions := pendingSubscriptions - {topic};
      if isConnected {
        SendMessage(Unsubscribe([topic]));
      }
    }
  }
}
