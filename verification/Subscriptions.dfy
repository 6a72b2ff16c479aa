/**
 * From the browser's handlers to the server's topic index: what the subscription client (frontend/src/lib/websocket.ts)
 * sends over one connection, and where the hub (backend/internal/websocket/hub.go) has the connection after a run in which
 * all other connections take part.
 */
module Subscriptions {
  import opened Topics
  import Hub
  import WsClient

  // ----- One connection's part of a run -----

  predicate Own<C(==)>(op: Hub.Op<C>, c: C) {
    (op.Sub? || op.Unsub?) && op.c == c
  }

  /** The subscribing and unsubscribing c does in a run. */
  function OwnOps<C(==)>(ops: seq<Hub.Op<C>>, c: C): seq<Hub.Op<C>>
    decreases |ops|
  {
    if ops == [] then []
    else OwnOps(ops[..|ops| - 1], c) + if Own(ops[|ops| - 1], c) then [ops[|ops| - 1]] else []
  }

  /** What handling a stream of messages amounts to. */
  function StreamOps<C>(c: C, ms: seq<Message>): seq<Hub.Op<C>>
    decreases |ms|
  {
    if ms == [] then [] else StreamOps(c, ms[..|ms| - 1]) + Hub.OpsOf(c, ms[|ms| - 1])
  }

  lemma OthersDoNotShow<C>(x: Hub.Index<C>, op: Hub.Op<C>, c: C, max: int)
    requires !Own(op, c)
    ensures Hub.SubsOf(Hub.Step(x, op, max), c) == Hub.SubsOf(x, c)
  {
  }

  lemma OwnStep<C>(x: Hub.Index<C>, y: Hub.Index<C>, op: Hub.Op<C>, c: C, max: int)
    requires Own(op, c) && Hub.SubsOf(x, c) == Hub.SubsOf(y, c)
    ensures Hub.SubsOf(Hub.Step(x, op, max), c) == Hub.SubsOf(Hub.Step(y, op, max), c)
  {
  }

  /** A connection's own topic set depends on its own operations alone, however they are interleaved with others. */
  lemma {:induction false} OwnOpsDecide<C>(x: Hub.Index<C>, ops: seq<Hub.Op<C>>, c: C, max: int)
    ensures Hub.SubsOf(Hub.Run(x, ops, max), c) == Hub.SubsOf(Hub.Run(x, OwnOps(ops, c), max), c)
    decreases |ops|
  {
    if ops != [] {
      var init, op := ops[..|ops| - 1], ops[|ops| - 1];
      OwnOpsDecide(x, init, c, max);
      assert ops == init + [op];
      Hub.RunLast(x, init, op, max);
      hide Hub.Run, Hub.Step, Hub.SubsOf;
      if Own(op, c) {
        Hub.RunLast(x, OwnOps(init, c), op, max);
        OwnStep(Hub.Run(x, init, max), Hub.Run(x, OwnOps(init, c), max), op, c, max);
      } else {
        assert OwnOps(ops, c) == OwnOps(init, c);
        OthersDoNotShow(Hub.Run(x, init, max), op, c, max);
      }
    }
  }

  lemma {:induction false} StreamEffect<C>(x: Hub.Index<C>, c: C, ms: seq<Message>, max: int)
    ensures Hub.SubsOf(Hub.Run(x, StreamOps(c, ms), max), c) == ApplyAll(Hub.SubsOf(x, c), ms)
    decreases |ms|
  {
    if ms != [] {
      var init, m := ms[..|ms| - 1], ms[|ms| - 1];
      StreamEffect(x, c, init, max);
      Hub.RunConcat(x, StreamOps(c, init), Hub.OpsOf(c, m), max);
      Hub.MessageEffect(Hub.Run(x, StreamOps(c, init), max), c, m, max);
      hide Hub.Run, Hub.OpsOf, Hub.SubsOf, Apply;
    }
  }

  /**
   * After a run whose operations respect the rule, and in which c's own are the ones of the messages ms, a topic's entry
   * holds c exactly if c is registered and the messages add up to the topic.
   */
  lemma IndexFollowsMessages<C>(ops: seq<Hub.Op<C>>, c: C, ms: seq<Message>, t: Topic, max: int)
    requires Hub.AlwaysAllowed(Hub.Empty(), ops, max) && OwnOps(ops, c) == StreamOps(c, ms)
    ensures var x := Hub.Run(Hub.Empty(), ops, max);
            && Hub.SafeToBroadcast(x, t)
            && (c in Hub.Members(x, t) <==> c in x.clients && t in ApplyAll({}, ms))
  {
    var x := Hub.Run(Hub.Empty(), ops, max);
    assert ops[..|ops|] == ops;
    Hub.ConsistentUpTo(ops, |ops|, max);
    OwnOpsDecide(Hub.Empty(), ops, c, max);
    StreamEffect(Hub.Empty(), c, ms, max);
    hide Hub.Run, OwnOps, StreamOps, ApplyAll;
    Hub.ConsistentIsSafe(x, t, max);
  }

  // ----- Both ends -----

  /**
   * The browser's run and the server's, the latter having handled the messages delivered so far on the connection c of
   * the browser's open socket: the entry of a topic holds c exactly if c is registered and the messages delivered so far
   * add up to the topic; and once all are delivered, exactly if c is registered and the topic is valid and has a handler.
   */
  lemma BrowserToIndex<C>(actions: seq<WsClient.Action>, retries: nat, ops: seq<Hub.Op<C>>, c: C, t: Topic, max: int)
    requires WsClient.Admissible(WsClient.Start(), actions, retries)
    requires var s := WsClient.Run(WsClient.Start(), actions, retries);
             && WsClient.SocketOpen(s.client) && s.received <= |s.client.socket.out|
             && OwnOps(ops, c) == StreamOps(c, s.client.socket.out[..s.received])
    requires Hub.AlwaysAllowed(Hub.Empty(), ops, max)
    ensures var s, x := WsClient.Run(WsClient.Start(), actions, retries), Hub.Run(Hub.Empty(), ops, max);
            && Hub.SafeToBroadcast(x, t)
            && (c in Hub.Members(x, t) <==> c in x.clients && t in s.topics)
            && (s.received == |s.client.socket.out| ==>
                  (c in Hub.Members(x, t) <==> c in x.clients && IsValidTopic(t) && t in s.client.handlers))
  {
    var s := WsClient.Run(WsClient.Start(), actions, retries);
    IndexFollowsMessages(ops, c, s.client.socket.out[..s.received], t, max);
    WsClient.RunKeeps(WsClient.Start(), actions, retries);
    if s.received == |s.client.socket.out| {
      WsClient.Converged(actions, retries);
    }
  }
}
