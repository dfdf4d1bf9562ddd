/** The bounded result queue of `connection/MessageCollector.java`: a
    500-slot queue that drops its oldest message to make room, so a producer
    never blocks. */
module MessageCollectors {
  import opened Wrappers
  import opened MessageBuilders
  import opened Filters

  const CAPACITY: nat := 500

  /** A collector; `filter` may be null, which accepts everything. */
  datatype Collector = Collector(filter: Option<Filter>, queue: seq<Message>, cancelled: bool)

  predicate Valid(c: Collector)
  {
    |c.queue| <= CAPACITY
  }

  function NewCollector(filter: Option<Filter>): (c: Collector)
    ensures Valid(c) && c.queue == [] && !c.cancelled && c.filter == filter
  {
    Collector(filter, [], false)
  }

  /** The last `n` elements of `s` (all of them when there are fewer). */
  function Last<T>(s: seq<T>, n: nat): (r: seq<T>)
    ensures |r| == if |s| <= n then |s| else n
    ensures r == s[|s| - |r|..]
  {
    if |s| <= n then s else s[|s| - n..]
  }

  predicate Wants(c: Collector, m: Message)
  {
    c.filter.None? || Accept(c.filter.value, m)
  }

  /** The reference behaviour of `processMessage`: a null or rejected
      message changes nothing; an accepted one is appended and only the
      newest 500 are kept. */
  function Processed(c: Collector, msg: Option<Message>): (r: Collector)
  {
    if msg.None? || !Wants(c, msg.value) then c
    else c.(queue := Last(c.queue + [msg.value], CAPACITY))
  }

  /** `processMessage` as the source writes it: while the offer fails
      because the queue is full, poll the head. */
  method ProcessMessage(c: Collector, msg: Option<Message>) returns (r: Collector)
    requires Valid(c)
    ensures r == Processed(c, msg)
  {
    if msg.None? {
      return c;
    }
    if !(c.filter.None? || Accept(c.filter.value, msg.value)) {
      return c;
    }
    var q := c.queue;
    while |q| >= CAPACITY
      invariant q == c.queue[|c.queue| - |q|..]
      invariant |q| == |c.queue| || |q| >= CAPACITY - 1
      invariant |q| <= CAPACITY
      decreases |q|
    {
      q := q[1..];
    }
    var all := c.queue + [msg.value];
    assert |q| + 1 == if |all| <= CAPACITY then |all| else CAPACITY;
    assert all[|all| - (|q| + 1)..] == q + [msg.value];
    r := c.(queue := q + [msg.value]);
    assert r.queue == Last(all, CAPACITY);
  }

  /** What one accepted message does: the queue stays within 500, the new
      message is at the tail, and the rest is the old queue with at most its
      oldest message dropped, which happens exactly when it was full. */
  lemma ProcessedShape(c: Collector, m: Message)
    requires Valid(c) && Wants(c, m)
    ensures var q := Processed(c, Some(m)).queue;
      && |q| <= CAPACITY
      && q[|q| - 1] == m
      && (|c.queue| < CAPACITY ==> q == c.queue + [m])
      && (|c.queue| == CAPACITY ==> q == c.queue[1..] + [m])
  {
  }

  lemma ProcessedUnchanged(c: Collector, msg: Option<Message>)
    requires msg.None? || !Wants(c, msg.value)
    ensures Processed(c, msg) == c
  {
  }

  /** The messages of `ms` that the collector keeps. */
  function Accepted(c: Collector, ms: seq<Message>): (r: seq<Message>)
    decreases |ms|
  {
    if |ms| == 0 then []
    else (if Wants(c, ms[0]) then [ms[0]] else []) + Accepted(c, ms[1..])
  }

  function ProcessAll(c: Collector, ms: seq<Message>): (r: Collector)
    decreases |ms|
  {
    if |ms| == 0 then c else ProcessAll(Processed(c, Some(ms[0])), ms[1..])
  }

  lemma LastOfLast<T>(a: seq<T>, b: seq<T>, n: nat)
    ensures Last(Last(a, n) + b, n) == Last(a + b, n)
  {
    var la := Last(a, n);
    if |a| > n {
      assert a + b == a[..|a| - n] + (la + b);
      var s := la + b;
      var t := a + b;
      assert Last(s, n) == t[|t| - |Last(t, n)|..];
    }
  }

  /** FIFO with drop-oldest: after any stream of messages the queue holds
      the newest 500 (or fewer) of the old queue followed by the accepted
      messages, in arrival order. */
  lemma {:induction false} QueueIsNewestAccepted(c: Collector, ms: seq<Message>)
    requires Valid(c)
    ensures ProcessAll(c, ms).queue == Last(c.queue + Accepted(c, ms), CAPACITY)
    ensures ProcessAll(c, ms).filter == c.filter && ProcessAll(c, ms).cancelled == c.cancelled
    decreases |ms|
  {
    if |ms| == 0 {
      assert c.queue + [] == c.queue;
    } else {
      var c1 := Processed(c, Some(ms[0]));
      QueueIsNewestAccepted(c1, ms[1..]);
      AcceptedSameFilter(c, c1, ms[1..]);
      var rest := Accepted(c, ms[1..]);
      QueueStep(c, ms[0], rest);
      assert ProcessAll(c, ms) == ProcessAll(c1, ms[1..]);
      assert Accepted(c, ms) == (if Wants(c, ms[0]) then [ms[0]] else []) + rest;
    }
  }

  /** One message, then `rest` appended: trimming once after the message
      and once at the end keeps what trimming only at the end keeps. */
  lemma QueueStep(c: Collector, m: Message, rest: seq<Message>)
    ensures Last(Processed(c, Some(m)).queue + rest, CAPACITY)
      == Last(c.queue + ((if Wants(c, m) then [m] else []) + rest), CAPACITY)
  {
    if Wants(c, m) {
      LastOfLast(c.queue + [m], rest, CAPACITY);
      assert c.queue + ([m] + rest) == (c.queue + [m]) + rest;
    } else {
      assert [] + rest == rest;
    }
  }

  lemma {:induction false} AcceptedSameFilter(c1: Collector, c2: Collector, ms: seq<Message>)
    requires c1.filter == c2.filter
    ensures Accepted(c1, ms) == Accepted(c2, ms)
    decreases |ms|
  {
    if |ms| > 0 {
      AcceptedSameFilter(c1, c2, ms[1..]);
    }
  }

  /** `nextResult`: the head of the queue, or none when the queue stays
      empty for the whole wait. Messages arriving during the wait are
      modelled by processing them first. */
  function NextResult(c: Collector): (r: (Collector, Option<Message>))
    ensures |c.queue| == 0 ==> r.1.None? && r.0 == c
    ensures |c.queue| > 0 ==> r.1 == Some(c.queue[0]) && r.0.queue + [] == c.queue[1..]
    ensures r.0.filter == c.filter && r.0.cancelled == c.cancelled
  {
    if |c.queue| == 0 then (c, None) else (c.(queue := c.queue[1..]), Some(c.queue[0]))
  }

  /** Taking results one after another drains the queue in order. */
  function Drain(c: Collector, n: nat): (r: seq<Message>)
    decreases n
  {
    if n == 0 then [] else
      var (c', m) := NextResult(c);
      match m
      case None => []
      case Some(x) => [x] + Drain(c', n - 1)
  }

  lemma {:induction false} DrainIsQueue(c: Collector)
    ensures Drain(c, |c.queue|) == c.queue
    decreases |c.queue|
  {
    if |c.queue| > 0 {
      var c' := NextResult(c).0;
      DrainIsQueue(c');
      assert c.queue == [c.queue[0]] + c.queue[1..];
    }
  }

  /** A collector without a filter that receives at most 500 messages hands
      them all back, first in first out. */
  lemma FifoUpToCapacity(filter: Option<Filter>, ms: seq<Message>)
    requires filter.None? && |ms| <= CAPACITY
    ensures var c := ProcessAll(NewCollector(filter), ms);
      Drain(c, |c.queue|) == ms
  {
    var c0 := NewCollector(filter);
    QueueIsNewestAccepted(c0, ms);
    AcceptedAll(c0, ms);
    assert [] + ms == ms;
    DrainIsQueue(ProcessAll(c0, ms));
  }

  lemma {:induction false} AcceptedAll(c: Collector, ms: seq<Message>)
    requires c.filter.None?
    ensures Accepted(c, ms) == ms
    decreases |ms|
  {
    if |ms| > 0 {
      AcceptedAll(c, ms[1..]);
      assert ms == [ms[0]] + ms[1..];
    }
  }
}
