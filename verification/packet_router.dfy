/** The dispatcher of `connection/PacketRouter.java`: active collectors,
    listeners keyed by their filter object, and the map that groups the
    fragments of large messages until all have arrived. Object identity
    (of collectors, filters and listeners) is a number. */
module PacketRouters {
  import opened Wrappers
  import opened JavaTypes
  import opened Packets
  import opened MessageBuilders
  import opened Messages
  import opened Filters
  import opened MessageCollectors

  type ObjId = nat

  /** A listener registered under a filter. */
  datatype Wrapper = Wrapper(filter: Filter, listener: ObjId)

  /** The grouping key `pid_sn_msgId_response|normal`; the decimal text
      with separators is injective, so the four fields stand for it. */
  datatype FragmentKey = FragmentKey(pid: int16, sn: int16, msgId: int16, isResponse: bool)

  /** `active` is the collector queue in insertion order; `pool` holds every
      collector ever created, by identity, so a cancelled collector keeps
      its state. */
  datatype Router = Router(
    active: seq<ObjId>,
    pool: map<ObjId, Collector>,
    nextId: ObjId,
    listeners: map<ObjId, Wrapper>,
    partial: map<FragmentKey, seq<Packet>>)

  predicate Valid(r: Router)
  {
    && (forall i :: 0 <= i < |r.active| ==> r.active[i] in r.pool)
    && (forall i, j :: 0 <= i < j < |r.active| ==> r.active[i] != r.active[j])
    && (forall id :: id in r.pool ==> id < r.nextId && MessageCollectors.Valid(r.pool[id]))
  }

  const EmptyRouter: Router := Router([], map[], 0, map[], map[])

  lemma EmptyRouterValid()
    ensures Valid(EmptyRouter)
  {
  }

  /** `createMessageCollector`: a new collector joins the active ones. */
  function CreateCollector(r: Router, filter: Option<Filter>): (res: (Router, ObjId))
    requires Valid(r)
    ensures Valid(res.0)
    ensures res.1 !in r.pool && res.0.active == r.active + [res.1]
    ensures res.0.pool == r.pool[res.1 := NewCollector(filter)]
    ensures res.0.listeners == r.listeners && res.0.partial == r.partial
  {
    var id := r.nextId;
    (r.(active := r.active + [id], pool := r.pool[id := NewCollector(filter)], nextId := id + 1), id)
  }

  /** `Collection.remove`: the first occurrence, if any. */
  function RemoveFirst<T(==)>(s: seq<T>, x: T): (r: seq<T>)
    ensures x in s ==> |r| == |s| - 1
    ensures x !in s ==> r == s
    ensures forall y :: y in r ==> y in s
    decreases |s|
  {
    if |s| == 0 then []
    else if s[0] == x then s[1..]
    else [s[0]] + RemoveFirst(s[1..], x)
  }

  /** Removing the first occurrence takes exactly one copy out of the
      multiset of elements. */
  lemma {:induction false} RemoveFirstCount<T>(s: seq<T>, x: T)
    ensures x in s ==> multiset(RemoveFirst(s, x)) == multiset(s) - multiset{x}
    decreases |s|
  {
    if |s| > 0 {
      RemoveFirstCount(s[1..], x);
      assert s == [s[0]] + s[1..];
    }
  }

  lemma {:induction false} RemoveFirstDistinct(s: seq<ObjId>, x: ObjId)
    requires forall i, j :: 0 <= i < j < |s| ==> s[i] != s[j]
    ensures x !in RemoveFirst(s, x)
    ensures forall y :: y != x ==> (y in RemoveFirst(s, x) <==> y in s)
    ensures forall i, j :: 0 <= i < j < |RemoveFirst(s, x)| ==> RemoveFirst(s, x)[i] != RemoveFirst(s, x)[j]
    decreases |s|
  {
    if |s| > 0 {
      RemoveFirstDistinct(s[1..], x);
      if s[0] != x {
        var t := RemoveFirst(s[1..], x);
        assert RemoveFirst(s, x) == [s[0]] + t;
        assert s[0] !in s[1..];
      } else {
        assert x !in s[1..];
      }
    }
  }

  /** `removeMessageCollector`. */
  function RemoveCollector(r: Router, id: ObjId): (res: Router)
    requires Valid(r)
    ensures Valid(res)
    ensures id !in res.active
    ensures forall y :: y != id ==> (y in res.active <==> y in r.active)
    ensures res.pool == r.pool && res.listeners == r.listeners && res.partial == r.partial
  {
    RemoveFirstDistinct(r.active, id);
    var a := RemoveFirst(r.active, id);
    assert forall i :: 0 <= i < |a| ==> a[i] in r.active;
    r.(active := a)
  }

  /** `MessageCollector.cancel`: the first call marks the collector
      cancelled and removes it from the router; later calls do nothing. */
  function Cancel(r: Router, id: ObjId): (res: Router)
    requires Valid(r) && id in r.pool
    ensures Valid(res) && id in res.pool && res.pool[id].cancelled
    ensures id !in res.active || r.pool[id].cancelled
    ensures res.listeners == r.listeners && res.partial == r.partial
  {
    if r.pool[id].cancelled then r
    else
      var r1 := RemoveCollector(r, id);
      r1.(pool := r1.pool[id := r1.pool[id].(cancelled := true)])
  }

  lemma CancelIdempotent(r: Router, id: ObjId)
    requires Valid(r) && id in r.pool
    ensures Cancel(Cancel(r, id), id) == Cancel(r, id)
  {
  }

  /** Creating a collector and cancelling it leaves the same active
      collectors as before, in the same order. */
  lemma CreateThenCancel(r: Router, filter: Option<Filter>)
    requires Valid(r)
    ensures var (r1, id) := CreateCollector(r, filter);
      Cancel(r1, id).active == r.active
  {
    var (r1, id) := CreateCollector(r, filter);
    assert id !in r.active;
    RemoveFirstAppended(r.active, id);
  }

  lemma {:induction false} RemoveFirstAppended(s: seq<ObjId>, x: ObjId)
    requires x !in s
    ensures RemoveFirst(s + [x], x) == s
    decreases |s|
  {
    if |s| == 0 {
      assert [] + [x] == [x];
    } else {
      assert (s + [x])[1..] == s[1..] + [x];
      RemoveFirstAppended(s[1..], x);
      assert s == [s[0]] + s[1..];
    }
  }

  // ---- listeners ----

  /** `addRcvListener`: a null listener throws; so does a null filter, as
      the listener map does not take null keys. The filter object is the
      key, so registering under the same filter replaces the listener. */
  function AddRcvListener(r: Router, filterKey: Option<ObjId>, filter: Filter, listener: Option<ObjId>): (res: Result<Router>)
    ensures res.Failure? <==> listener.None? || filterKey.None?
    ensures res.Success? ==> res.value == r.(listeners := r.listeners[filterKey.value := Wrapper(filter, listener.value)])
  {
    if listener.None? || filterKey.None? then Failure(NullPointer)
    else Success(r.(listeners := r.listeners[filterKey.value := Wrapper(filter, listener.value)]))
  }

  /** `removeRcvListener`: the listener object is looked up as a filter
      key, so an entry goes only if its filter object is the listener
      itself. */
  function RemoveRcvListener(r: Router, listener: Option<ObjId>): (res: Result<Router>)
    ensures res.Failure? <==> listener.None?
    ensures res.Success? ==> res.value == r.(listeners := r.listeners - {listener.value})
  {
    if listener.None? then Failure(NullPointer)
    else Success(r.(listeners := r.listeners - {listener.value}))
  }

  /** Registering a listener under a filter that is a different object from
      it and then removing that listener leaves the registration in place. */
  lemma RemoveRcvListenerMisses(r: Router, filterKey: ObjId, filter: Filter, listener: ObjId)
    requires filterKey != listener
    ensures var r1 := AddRcvListener(r, Some(filterKey), filter, Some(listener)).value;
      && RemoveRcvListener(r1, Some(listener)).Success?
      && filterKey in RemoveRcvListener(r1, Some(listener)).value.listeners
      && RemoveRcvListener(r1, Some(listener)).value.listeners[filterKey] == Wrapper(filter, listener)
  {
  }

  /** The listener entries through which a message reaches one listener;
      the listener is notified once per entry. */
  function ReachedBy(r: Router, m: Message, listener: ObjId): (keys: set<ObjId>)
    ensures forall k :: k in keys <==> k in Reached(r, m) && r.listeners[k].listener == listener
  {
    set k | k in Reached(r, m) && r.listeners[k].listener == listener
  }

  /** As written, adding a listener again under another filter object keeps
      the first entry beside the new one, so a message both filters accept
      reaches the listener twice, against the documented promise that only
      the new filter is used. */
  lemma AddRcvListenerKeepsOld(r: Router, k1: ObjId, f1: Filter, k2: ObjId, f2: Filter, listener: ObjId, m: Message)
    requires k1 != k2
    requires !m.isResponse && Accept(f1, m) && Accept(f2, m)
    ensures var r1 := AddRcvListener(r, Some(k1), f1, Some(listener)).value;
      var r2 := AddRcvListener(r1, Some(k2), f2, Some(listener)).value;
      && r2.listeners[k1] == Wrapper(f1, listener) && r2.listeners[k2] == Wrapper(f2, listener)
      && |ReachedBy(r2, m, listener)| >= 2
  {
    var r1 := AddRcvListener(r, Some(k1), f1, Some(listener)).value;
    var r2 := AddRcvListener(r1, Some(k2), f2, Some(listener)).value;
    assert k1 in ReachedBy(r2, m, listener) && k2 in ReachedBy(r2, m, listener);
    assert {k1, k2} <= ReachedBy(r2, m, listener);
    assert |{k1, k2}| == 2;
    SubsetCard({k1, k2}, ReachedBy(r2, m, listener));
  }

  lemma SubsetCard<T>(a: set<T>, b: set<T>)
    requires a <= b
    ensures |a| <= |b|
  {
    assert b == a + (b - a);
  }

  /** The registration the documentation of `addRcvListener` describes, and
      that `removeRcvListener`'s lookup by listener presumes: entries keyed
      by the listener itself. */
  predicate KeyedByListener(r: Router)
  {
    forall k :: k in r.listeners ==> r.listeners[k].listener == k
  }

  /** `addRcvListener` keyed by the listener: a null listener throws;
      otherwise the listener's entry, if any, is replaced by one under the
      new filter, and every other entry stays. */
  function AddRcvListenerByListener(r: Router, filter: Filter, listener: Option<ObjId>): (res: Result<Router>)
    ensures res.Failure? <==> listener.None?
    ensures res.Success? ==>
      && res.value.listeners.Keys == r.listeners.Keys + {listener.value}
      && res.value.listeners[listener.value] == Wrapper(filter, listener.value)
      && (forall k :: k in r.listeners && k != listener.value ==> res.value.listeners[k] == r.listeners[k])
      && res.value.active == r.active && res.value.pool == r.pool && res.value.partial == r.partial
    ensures res.Success? && KeyedByListener(r) ==> KeyedByListener(res.value)
  {
    if listener.None? then Failure(NullPointer)
    else Success(r.(listeners := r.listeners[listener.value := Wrapper(filter, listener.value)]))
  }

  /** Keyed by the listener, adding it again under another filter leaves
      the new filter alone in use: a message reaches the listener once
      exactly when the new filter accepts it, and otherwise not at all. */
  lemma ReAddUsesNewFilter(r: Router, f1: Filter, f2: Filter, listener: ObjId, m: Message)
    requires KeyedByListener(r)
    ensures var r1 := AddRcvListenerByListener(r, f1, Some(listener)).value;
      var r2 := AddRcvListenerByListener(r1, f2, Some(listener)).value;
      && KeyedByListener(r2)
      && ReachedBy(r2, m, listener) == if !m.isResponse && Accept(f2, m) then {listener} else {}
  {
    var r1 := AddRcvListenerByListener(r, f1, Some(listener)).value;
    var r2 := AddRcvListenerByListener(r1, f2, Some(listener)).value;
    forall k | k in ReachedBy(r2, m, listener)
      ensures k == listener
    {
      assert r2.listeners[k].listener == k;
    }
  }

  /** Keyed by the listener, `removeRcvListener` finds the entry: once
      removed, the listener is reached by no message. */
  lemma RemoveByListenerHits(r: Router, filter: Filter, listener: ObjId, m: Message)
    requires KeyedByListener(r)
    ensures var r1 := AddRcvListenerByListener(r, filter, Some(listener)).value;
      ReachedBy(RemoveRcvListener(r1, Some(listener)).value, m, listener) == {}
  {
    var r1 := AddRcvListenerByListener(r, filter, Some(listener)).value;
    var r2 := RemoveRcvListener(r1, Some(listener)).value;
    assert KeyedByListener(r2);
  }

  // ---- dispatch ----

  /** The listener entries a message reaches: none for a response, else
      every entry whose filter accepts it. */
  function Reached(r: Router, m: Message): (keys: set<ObjId>)
    ensures m.isResponse ==> keys == {}
    ensures !m.isResponse ==> forall k :: k in keys <==> k in r.listeners && Accept(r.listeners[k].filter, m)
  {
    if m.isResponse then {}
    else set k | k in r.listeners && Accept(r.listeners[k].filter, m)
  }

  /** `handlerMessage`: the message is offered to every active collector,
      then handed to the reached listeners. */
  function Dispatch(r: Router, m: Message): (res: (Router, set<ObjId>))
    requires Valid(r)
  {
    var pool := map id | id in r.pool :: if id in r.active then Processed(r.pool[id], Some(m)) else r.pool[id];
    (r.(pool := pool), Reached(r, m))
  }

  /** Every active collector has processed the message, every other one is
      untouched, and nothing else in the router changes. */
  lemma DispatchEffect(r: Router, m: Message)
    requires Valid(r)
    ensures var (r1, reached) := Dispatch(r, m);
      && Valid(r1)
      && r1.pool.Keys == r.pool.Keys
      && (forall id :: id in r.active ==> r1.pool[id] == Processed(r.pool[id], Some(m)))
      && (forall id :: id in r.pool && id !in r.active ==> r1.pool[id] == r.pool[id])
      && r1.active == r.active && r1.listeners == r.listeners && r1.partial == r.partial
      && reached == Reached(r, m)
  {
    var (r1, _) := Dispatch(r, m);
    forall id | id in r1.pool
      ensures id < r1.nextId && MessageCollectors.Valid(r1.pool[id])
    {
      if id in r.active {
        ProcessedBound(r.pool[id], m);
      }
    }
  }

  lemma ProcessedBound(c: Collector, m: Message)
    requires MessageCollectors.Valid(c)
    ensures MessageCollectors.Valid(Processed(c, Some(m)))
  {
  }

  // ---- received frames ----

  function KeyOf(p: Packet): FragmentKey
  {
    FragmentKey(p.header.pid, p.sn, p.msgId, p.isResponse)
  }

  /** What one received frame caused: the new router state, the message
      dispatched if any, and the listener entries it reached. */
  datatype Delivery = Delivery(router: Router, dispatched: Option<Message>, reached: set<ObjId>)

  /** Decoding and dispatch; a message that fails to decode is dropped. */
  function Deliver(r: Router, decoded: Result<Message>): (d: Delivery)
    requires Valid(r)
  {
    match decoded
    case Failure(_) => Delivery(r, None, {})
    case Success(m) =>
      var (r1, reached) := Dispatch(r, m);
      Delivery(r1, Some(m), reached)
  }

  /** `onDataReceive` after the frame was decoded. A frame that is not large
      is a message on its own. A large one joins the group of its key; a
      new group with a negative count is an IllegalArgumentException; once
      the group has as many frames as the count, it is reassembled,
      dispatched if that succeeds, and removed either way. */
  function OnPacket(r: Router, p: Packet): (res: Result<Delivery>)
    requires Valid(r)
    ensures res.Success? ==> Valid(res.value.router)
    ensures res.Success? ==> res.value.router.active == r.active && res.value.router.listeners == r.listeners
  {
    if !p.isLarge then
      DeliverValid(r, Reassemble([p]));
      Success(Deliver(r, Reassemble([p])))
    else
      var key := KeyOf(p);
      var group := if key in r.partial then r.partial[key] else [];
      if |group| == 0 && p.subCount < 0 then Failure(IllegalArgument)
      else
        var group' := group + [p];
        if |group'| >= p.subCount as int then
          var r1 := r.(partial := r.partial - {key});
          DeliverValid(r1, Reassemble(group'));
          Success(Deliver(r1, Reassemble(group')))
        else Success(Delivery(r.(partial := r.partial[key := group']), None, {}))
  }

  lemma DeliverValid(r: Router, decoded: Result<Message>)
    requires Valid(r)
    ensures Valid(Deliver(r, decoded).router)
    ensures Deliver(r, decoded).router.active == r.active
    ensures Deliver(r, decoded).router.listeners == r.listeners
    ensures Deliver(r, decoded).router.partial == r.partial
  {
    if decoded.Success? {
      DispatchEffect(r, decoded.value);
    }
  }

  /** `onDataReceive`: a frame too short to decode is an
      IndexOutOfBoundsException. */
  function OnDataReceive(r: Router, data: bytes): (res: Result<Delivery>)
    requires Valid(r)
    ensures Decode(data).Failure? ==> res == Failure(IndexOutOfBounds)
  {
    var p :- Decode(data);
    OnPacket(r, p)
  }

  /** Feeding frames one at a time; `Failure` stops at the first error. */
  function FeedAll(r: Router, ps: seq<Packet>): (res: Result<Delivery>)
    requires Valid(r)
    decreases |ps|
  {
    if |ps| == 0 then Success(Delivery(r, None, {}))
    else
      var d :- OnPacket(r, ps[0]);
      if |ps| == 1 then Success(d) else FeedAll(d.router, ps[1..])
  }

  /** Frames that belong to one large message: all large, one key, one
      count equal to their number. */
  predicate OneGroup(ps: seq<Packet>)
  {
    && |ps| >= 2
    && forall i :: 0 <= i < |ps| ==>
      ps[i].isLarge && KeyOf(ps[i]) == KeyOf(ps[0]) && ps[i].subCount as int == |ps|
  }

  /** While a group is incomplete its frames accumulate under its key and
      nothing is dispatched; the frame that completes it dispatches the
      reassembly of the whole group, in arrival order, and the key is gone. */
  lemma {:induction false} GroupAccumulates(r: Router, ps: seq<Packet>, j: nat)
    requires Valid(r) && OneGroup(ps) && 1 <= j <= |ps|
    requires KeyOf(ps[0]) in r.partial && r.partial[KeyOf(ps[0])] == ps[..j]
    ensures FeedAll(r, ps[j..]).Success? || j == |ps|
    ensures j < |ps| ==>
      var d := FeedAll(r, ps[j..]).value;
      && d.dispatched == (if Reassemble(ps).Success? then Some(Reassemble(ps).value) else None)
      && KeyOf(ps[0]) !in d.router.partial
    decreases |ps| - j
  {
    if j < |ps| {
      var key := KeyOf(ps[0]);
      var p := ps[j];
      assert KeyOf(p) == key && p.isLarge;
      assert ps[..j] + [p] == ps[..j + 1];
      var rest := ps[j..];
      assert rest[0] == p;
      if j + 1 == |ps| {
        assert ps[..j + 1] == ps;
        var r1 := r.(partial := r.partial - {key});
        DeliverValid(r1, Reassemble(ps));
        assert |rest| == 1;
      } else {
        var r1 := r.(partial := r.partial[key := ps[..j + 1]]);
        assert OnPacket(r, p) == Success(Delivery(r1, None, {}));
        assert rest[1..] == ps[j + 1..];
        GroupAccumulates(r1, ps, j + 1);
      }
    }
  }

  /** Feeding the frames of one group to a router with no pending frames
      under its key dispatches exactly the reassembly of the group; together
      with the reassembly lemmas, the frames of a message sent in any order
      are delivered as that message. */
  lemma GroupDispatchedOnce(r: Router, ps: seq<Packet>)
    requires Valid(r) && OneGroup(ps)
    requires KeyOf(ps[0]) !in r.partial
    ensures FeedAll(r, ps).Success?
    ensures FeedAll(r, ps).value.dispatched == (if Reassemble(ps).Success? then Some(Reassemble(ps).value) else None)
    ensures KeyOf(ps[0]) !in FeedAll(r, ps).value.router.partial
  {
    var key := KeyOf(ps[0]);
    var r1 := r.(partial := r.partial[key := [ps[0]]]);
    assert [] + [ps[0]] == [ps[0]];
    assert OnPacket(r, ps[0]) == Success(Delivery(r1, None, {}));
    assert ps[..1] == [ps[0]];
    GroupAccumulates(r1, ps, 1);
  }

  /** The frames `getPackets` cuts a message into, in any order, form one
      group when there are several of them. */
  lemma SentFramesOneGroup(m: Message, ps: seq<Packet>)
    requires GetPackets(m).Success? && |GetPackets(m).value| >= 2
    requires multiset(ps) == multiset(GetPackets(m).value)
    ensures OneGroup(ps)
  {
    SentGroup(m);
    GroupPermutation(GetPackets(m).value, ps);
  }

  /** The frames of a message split in several form one group. */
  lemma SentGroup(m: Message)
    requires GetPackets(m).Success? && |GetPackets(m).value| >= 2
    ensures OneGroup(GetPackets(m).value)
  {
    var sent := GetPackets(m).value;
    GetPacketsShape(m);
    var large := |Payload(m)| > SHORT_MAX_SIZE;
    assert large;
    FramesHeaders(m, Payload(m), large);
    forall i | 0 <= i < |sent|
      ensures KeyOf(sent[i]) == KeyOf(sent[0])
    {
      assert HeaderOf(EmptyDraft, sent[i]) == HeaderOf(EmptyDraft, sent[0]);
    }
  }

  /** Reordering a group keeps it a group. */
  lemma GroupPermutation(sent: seq<Packet>, ps: seq<Packet>)
    requires OneGroup(sent) && multiset(ps) == multiset(sent)
    ensures OneGroup(ps)
  {
    assert |ps| == |multiset(ps)| == |multiset(sent)| == |sent|;
    forall i | 0 <= i < |ps|
      ensures ps[i].isLarge && KeyOf(ps[i]) == KeyOf(sent[0]) && ps[i].subCount as int == |ps|
    {
      assert ps[i] in multiset(sent);
      var j :| 0 <= j < |sent| && sent[j] == ps[i];
    }
  }

  /** Frames of a consistent message, delivered in any order to a router
      holding nothing under their key, come out as that message. */
  lemma MessageDelivered(r: Router, m: Message, ps: seq<Packet>)
    requires Valid(r) && Consistent(m)
    requires GetPackets(m).Success? && |GetPackets(m).value| >= 2
    requires multiset(ps) == multiset(GetPackets(m).value)
    requires KeyOf(GetPackets(m).value[0]) !in r.partial
    ensures FeedAll(r, ps).Success? && FeedAll(r, ps).value.dispatched == Some(m)
  {
    SentFramesOneGroup(m, ps);
    assert KeyOf(ps[0]) == KeyOf(GetPackets(m).value[0]) by {
      assert ps[0] in multiset(ps);
      var j :| 0 <= j < |GetPackets(m).value| && GetPackets(m).value[j] == ps[0];
      assert OneGroup(GetPackets(m).value) by {
        SentFramesOneGroup(m, GetPackets(m).value);
      }
    }
    ArrivalOrderIrrelevant(m, ps);
    GroupDispatchedOnce(r, ps);
  }

  /** A message small enough for one frame is dispatched as soon as its
      frame arrives. */
  lemma SingleDelivered(r: Router, m: Message)
    requires Valid(r) && Consistent(m)
    requires GetPackets(m).Success? && |GetPackets(m).value| == 1
    ensures FeedAll(r, GetPackets(m).value).Success?
    ensures FeedAll(r, GetPackets(m).value).value.dispatched == Some(m)
  {
    GetPacketsShape(m);
    RoundTrip(m);
    var p := GetPackets(m).value[0];
    assert !p.isLarge;
    DeliverValid(r, Reassemble([p]));
  }

  /** `clear`. */
  function Clear(r: Router): (res: Router)
    ensures res.active == [] && res.listeners == map[] && res.partial == map[]
    ensures Valid(r) ==> Valid(res)
  {
    r.(active := [], listeners := map[], partial := map[])
  }
}
