/** Subscription messages and what they do to one connection's topic set (backend/internal/websocket/client.go). */
module Topics {

  type Topic = string

  datatype Message = Subscribe(topics: seq<Topic>) | Unsubscribe(topics: seq<Topic>) | Other(action: string)
                   | Malformed

  predicate IsValidTopic(t: Topic) {
    t in {"blocks", "transactions", "price", "sync"} || (|t| > 8 && t[..8] == "address:")
  }

  /** The four feeds, and the activity of any address. */
  lemma ValidExactly(t: Topic)
    ensures IsValidTopic(t)
            <==> t == "blocks" || t == "transactions" || t == "price" || t == "sync"
                 || exists address :: address != "" && t == "address:" + address
    ensures forall address :: t == "address:" + address ==> (IsValidTopic(t) <==> address != "")
  {
    if |t| > 8 && t[..8] == "address:" {
      assert t[8..] != "" && t == "address:" + t[8..];
    }
    forall address | t == "address:" + address ensures IsValidTopic(t) <==> address != "" {
      assert |t| == 8 + |address| && t[..8] == "address:";
      assert t[..3] == "add";
    }
  }

  function Elements(topics: seq<Topic>): set<Topic> {
    set t | t in topics
  }

  function Valid(topics: set<Topic>): set<Topic> {
    set t | t in topics && IsValidTopic(t)
  }

  function Apply(topics: set<Topic>, m: Message): set<Topic> {
    match m
    case Subscribe(ts) => topics + Valid(Elements(ts))
    case Unsubscribe(ts) => topics - Elements(ts)
    case _ => topics
  }

  function ApplyAll(topics: set<Topic>, ms: seq<Message>): set<Topic>
    decreases |ms|
  {
    if ms == [] then topics else Apply(ApplyAll(topics, ms[..|ms| - 1]), ms[|ms| - 1])
  }

  lemma ApplyLast(topics: set<Topic>, ms: seq<Message>, m: Message)
    ensures ApplyAll(topics, ms + [m]) == Apply(ApplyAll(topics, ms), m)
  {
    assert (ms + [m])[..|ms|] == ms;
  }

  /** Messages are applied in order, so a stream can be cut anywhere. */
  lemma {:induction false} ApplyConcat(topics: set<Topic>, a: seq<Message>, b: seq<Message>)
    ensures ApplyAll(topics, a + b) == ApplyAll(ApplyAll(topics, a), b)
    decreases |b|
  {
    if b == [] {
      assert a + b == a;
    } else {
      var init, last := b[..|b| - 1], b[|b| - 1];
      assert a + b == (a + init) + [last];
      ApplyConcat(topics, a, init);
      ApplyLast(topics, a + init, last);
    }
  }
}
