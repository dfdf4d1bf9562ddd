/** `connection/Connection.java`: the connected flag, the writer and the
    router of one socket, and the synchronous request/response helpers built
    on a collector. Socket I/O outcomes are parameters, and the messages the
    router dispatches while a caller waits are given as `arrivals`. */
module Connections {
  import opened JavaTypes
  import opened Wrappers
  import opened MessageBuilders
  import opened Filters
  import opened MessageCollectors
  import opened PacketRouters
  import opened PacketWriters

  /** The writer is absent before `connect` and after a reset; the router is
      absent after a reset; `listening` is whether a connection listener is
      set. */
  datatype Connection = Connection(
    connected: bool,
    writer: Option<Writer>,
    router: Option<Router>,
    listening: bool)

  /** The constructor: a fresh router, nothing connected. */
  function NewConnection(): (c: Connection)
    ensures !c.connected && c.writer.None? && c.router == Some(EmptyRouter)
  {
    Connection(false, None, Some(EmptyRouter), false)
  }

  predicate Valid(c: Connection)
  {
    c.router.Some? ==> PacketRouters.Valid(c.router.value)
  }

  /** A connection and the exception that ended the call, if any; fields
      set before the exception stay set. */
  datatype Outcome = Outcome(conn: Connection, thrown: Option<Error>)

  /** `resetConnection`: the writer is shut down and dropped, the router
      cleared and dropped, the connection listener forgotten; the connected
      flag is left as it was. */
  function ResetConnection(c: Connection): (r: Connection)
    ensures r.writer.None? && r.router.None? && !r.listening
    ensures r.connected == c.connected
  {
    Connection(c.connected, None, None, false)
  }

  /** `deInit` is a reset, so a connection that was up still reads as
      connected afterwards. */
  lemma DeInitKeepsFlag(c: Connection)
    requires c.connected
    ensures ResetConnection(c).connected
    ensures SendMessage(ResetConnection(c), Some(EmptyMessage())) == Failure(NullPointer)
  {
  }

  function EmptyMessage(): Message
  {
    Message(0, false, [], false, 0, false, 0, 0, 0)
  }

  /** `connect`. When the socket cannot be opened the call throws with
      nothing changed; when its streams cannot be had the connection is
      reset, marked disconnected, and the call throws; otherwise a writer is
      started. Its heartbeat period is read off the connect option, which
      throws NullPointerException when the option is null: the writer then
      runs without a heartbeat and the connected flag is never set.
      Otherwise the flag is set, and the configured listeners are registered
      with the router, which throws if a reset dropped it. */
  function Connect(c: Connection, socketOk: bool, streamsOk: bool, pulse: Option<int64>,
                   registrations: seq<(ObjId, Filter, ObjId)>): (o: Outcome)
    requires Valid(c)
    ensures Valid(o.conn)
    ensures !socketOk ==> o == Outcome(c, Some(IOFailure))
    ensures socketOk && !streamsOk ==> !o.conn.connected && o.thrown == Some(IOFailure)
    ensures socketOk && pulse.Some? ==> (o.conn.connected <==> streamsOk)
    ensures socketOk && streamsOk ==> o.conn.writer.Some? && !o.conn.writer.value.shutdown
    ensures socketOk && streamsOk && pulse.Some? ==> (o.thrown.None? <==> c.router.Some?)
    ensures socketOk && streamsOk && pulse.None? ==>
      && o.thrown == Some(NullPointer) && o.conn.connected == c.connected
      && o.conn.writer.value.heartbeat.None? && o.conn.router == c.router
  {
    if !socketOk then Outcome(c, Some(IOFailure))
    else if !streamsOk then Outcome(ResetConnection(c).(connected := false), Some(IOFailure))
    else if pulse.None? then Outcome(c.(writer := Some(NewWriter)), Some(NullPointer))
    else
      var c1 := c.(writer := Some(KeepAlive(NewWriter, pulse.value)), connected := true);
      match c.router
      case None => Outcome(c1, Some(NullPointer))
      case Some(r) => Outcome(c1.(router := Some(Register(r, registrations))), None)
  }

  /** `addCustomerReceiveListeners`: every configured filter and listener. */
  function Register(r: Router, registrations: seq<(ObjId, Filter, ObjId)>): (res: Router)
    requires PacketRouters.Valid(r)
    ensures PacketRouters.Valid(res)
    ensures res.active == r.active && res.pool == r.pool && res.partial == r.partial
    ensures r.listeners.Keys <= res.listeners.Keys
    ensures forall i :: 0 <= i < |registrations| ==> registrations[i].0 in res.listeners
    decreases |registrations|
  {
    if |registrations| == 0 then r
    else
      var (key, filter, listener) := registrations[0];
      var r1 := AddRcvListener(r, Some(key), filter, Some(listener)).value;
      Register(r1, registrations[1..])
  }

  /** `sendMessage`: nothing happens while disconnected or for a null
      message; otherwise the writer queues the message's frames. */
  function SendMessage(c: Connection, msg: Option<Message>): (r: Result<Connection>)
    ensures !c.connected || msg.None? ==> r == Success(c)
    ensures c.connected && msg.Some? ==> (r.Failure? <==> c.writer.None?)
    ensures r.Success? && c.connected && msg.Some? ==>
      r.value == c.(writer := Some(PacketWriters.SendMessage(c.writer.value, msg.value)))
  {
    if !c.connected || msg.None? then Success(c)
    else if c.writer.None? then Failure(NullPointer)
    else Success(c.(writer := Some(PacketWriters.SendMessage(c.writer.value, msg.value))))
  }

  /** Dispatching messages one after another. */
  function DispatchAll(r: Router, ms: seq<Message>): (res: Router)
    requires PacketRouters.Valid(r)
    ensures PacketRouters.Valid(res)
    ensures res.active == r.active && res.pool.Keys == r.pool.Keys
    ensures res.listeners == r.listeners && res.partial == r.partial
    decreases |ms|
  {
    if |ms| == 0 then r
    else
      DispatchEffect(r, ms[0]);
      DispatchAll(Dispatch(r, ms[0]).0, ms[1..])
  }

  /** An active collector sees every dispatched message. */
  lemma {:induction false} DispatchAllCollector(r: Router, ms: seq<Message>, id: ObjId)
    requires PacketRouters.Valid(r) && id in r.active
    ensures id in DispatchAll(r, ms).pool
    ensures DispatchAll(r, ms).pool[id] == ProcessAll(r.pool[id], ms)
    decreases |ms|
  {
    if |ms| > 0 {
      DispatchEffect(r, ms[0]);
      DispatchAllCollector(Dispatch(r, ms[0]).0, ms[1..], id);
    }
  }

  /** Waiting on a fresh collector: create it, let the arrivals through the
      router, take the first result, and cancel it. */
  function Await(r: Router, filter: Option<Filter>, arrivals: seq<Message>): (res: (Router, Option<Message>))
    requires PacketRouters.Valid(r)
    ensures PacketRouters.Valid(res.0)
  {
    var (r1, id) := CreateCollector(r, filter);
    var r2 := DispatchAll(r1, arrivals);
    var (col, result) := NextResult(r2.pool[id]);
    var r3 := r2.(pool := r2.pool[id := col]);
    assert PacketRouters.Valid(r3) by {
      assert MessageCollectors.Valid(col);
    }
    (Cancel(r3, id), result)
  }

  /** The collector is always cancelled, so the active collectors are the
      same before and after; the answer is the first message the filter
      accepts among the newest 500 it accepted, and none when it accepts
      none. */
  lemma AwaitEffect(r: Router, filter: Option<Filter>, arrivals: seq<Message>)
    requires PacketRouters.Valid(r)
    ensures var (r', result) := Await(r, filter, arrivals);
      var kept := Accepted(NewCollector(filter), arrivals);
      && r'.active == r.active
      && r'.listeners == r.listeners
      && (result.None? <==> kept == [])
      && (result.Some? ==> result.value == Last(kept, CAPACITY)[0])
      && (result.Some? && |kept| <= CAPACITY ==> result.value == kept[0])
  {
    var (r1, id) := CreateCollector(r, filter);
    DispatchAllCollector(r1, arrivals, id);
    var c0 := NewCollector(filter);
    QueueIsNewestAccepted(c0, arrivals);
    assert [] + Accepted(c0, arrivals) == Accepted(c0, arrivals);
    var r2 := DispatchAll(r1, arrivals);
    var (col, result) := NextResult(r2.pool[id]);
    var r3 := r2.(pool := r2.pool[id := col]);
    assert !r3.pool[id].cancelled;
    RemoveFirstAppended(r.active, id);
  }

  /** Every message the wait returns is one that arrived and that the filter
      accepts. */
  lemma AwaitSound(r: Router, filter: Option<Filter>, arrivals: seq<Message>)
    requires PacketRouters.Valid(r)
    ensures var result := Await(r, filter, arrivals).1;
      result.Some? ==> result.value in arrivals && Wants(NewCollector(filter), result.value)
  {
    AwaitEffect(r, filter, arrivals);
    var kept := Accepted(NewCollector(filter), arrivals);
    AcceptedFrom(NewCollector(filter), arrivals);
  }

  lemma {:induction false} AcceptedFrom(c: Collector, ms: seq<Message>)
    ensures forall i :: 0 <= i < |Accepted(c, ms)| ==> Accepted(c, ms)[i] in ms && Wants(c, Accepted(c, ms)[i])
    decreases |ms|
  {
    if |ms| > 0 {
      AcceptedFrom(c, ms[1..]);
    }
  }

  /** The result of a synchronous call: the connection as the call left it,
      the reply, and the exception that ended the call, if any. */
  datatype SyncResult = SyncResult(conn: Connection, reply: Option<Message>, thrown: Option<Error>)

  /** Which `sendSyncMessage` overload is called: the two-argument one,
      which waits for the sent message id, or the three-argument one, which
      hands its filter, null included, to the collector unchanged. */
  datatype Overload = ById | WithFilter(filter: Option<Filter>)

  /** The filter the collector is created with. */
  function CollectorFilter(o: Overload, msg: Message): (f: Option<Filter>)
    ensures o.ById? ==> f == Some(IdFilter(msg.msgId))
    ensures o.WithFilter? ==> f == o.filter
  {
    match o
    case ById => Some(IdFilter(msg.msgId))
    case WithFilter(f) => f
  }

  /** Both `sendSyncMessage` overloads: null without sending while
      disconnected or for a null message; otherwise the message is queued on
      the writer (a NullPointerException when there is none), then a
      collector is created on the router (a NullPointerException when there
      is none, after the message was queued) and waited on. */
  function SendSync(c: Connection, msg: Option<Message>, o: Overload, arrivals: seq<Message>): (r: SyncResult)
    requires Valid(c)
    ensures Valid(r.conn)
    ensures !c.connected || msg.None? ==> r == SyncResult(c, None, None)
    ensures c.connected && msg.Some? ==> (r.thrown.Some? <==> c.writer.None? || c.router.None?)
    ensures r.thrown.Some? ==> r.thrown == Some(NullPointer) && r.reply.None?
    ensures c.connected && msg.Some? && c.writer.None? ==> r.conn == c
    ensures c.connected && msg.Some? && c.writer.Some? ==>
      r.conn.writer == Some(PacketWriters.SendMessage(c.writer.value, msg.value))
    ensures r.conn == c.(writer := r.conn.writer, router := r.conn.router)
    ensures r.conn.router.Some? <==> c.router.Some?
    ensures r.conn.writer.Some? <==> c.writer.Some?
  {
    if !c.connected || msg.None? then SyncResult(c, None, None)
    else if c.writer.None? then SyncResult(c, None, Some(NullPointer))
    else
      var c1 := c.(writer := Some(PacketWriters.SendMessage(c.writer.value, msg.value)));
      if c.router.None? then SyncResult(c1, None, Some(NullPointer))
      else
        var (r', reply) := Await(c.router.value, CollectorFilter(o, msg.value), arrivals);
        SyncResult(c1.(router := Some(r')), reply, None)
  }

  /** A synchronous call that goes through leaves the router's collectors
      as they were, queues the request on the writer, and answers with a
      message that arrived and that the overload's filter accepts. */
  lemma SendSyncRestores(c: Connection, m: Message, o: Overload, arrivals: seq<Message>)
    requires Valid(c) && c.connected && c.writer.Some? && c.router.Some?
    ensures var res := SendSync(c, Some(m), o, arrivals);
      && res.thrown.None?
      && res.conn.router.Some? && res.conn.router.value.active == c.router.value.active
      && res.conn.writer == Some(PacketWriters.SendMessage(c.writer.value, m))
      && (res.reply.Some? ==> res.reply.value in arrivals && Wants(NewCollector(CollectorFilter(o, m)), res.reply.value))
  {
    var f := CollectorFilter(o, m);
    AwaitEffect(c.router.value, f, arrivals);
    AwaitSound(c.router.value, f, arrivals);
  }

  /** The two-argument overload matches the reply on the id alone: the
      first arrival carrying the sent id is the reply, request or response,
      when no more than 500 messages arrive. */
  lemma SendSyncMatchesId(c: Connection, m: Message, arrivals: seq<Message>)
    requires Valid(c) && c.connected && c.writer.Some? && c.router.Some?
    requires 0 < |arrivals| <= CAPACITY && arrivals[0].msgId == m.msgId
    ensures SendSync(c, Some(m), ById, arrivals).reply == Some(arrivals[0])
  {
    var f := Some(IdFilter(m.msgId));
    assert SendSync(c, Some(m), ById, arrivals).reply == Await(c.router.value, f, arrivals).1;
    AwaitFirst(c.router.value, f, arrivals);
  }

  /** The three-argument overload with a null filter takes the first
      arrival whatever its id, when no more than 500 messages arrive. */
  lemma SendSyncNullFilterTakesAny(c: Connection, m: Message, arrivals: seq<Message>)
    requires Valid(c) && c.connected && c.writer.Some? && c.router.Some?
    requires 0 < |arrivals| <= CAPACITY
    ensures SendSync(c, Some(m), WithFilter(None), arrivals).reply == Some(arrivals[0])
  {
    SendSyncReply(c, m, WithFilter(None), arrivals);
    AwaitFirst(c.router.value, None, arrivals);
  }

  /** When writer and router are both there, the reply is the wait's. */
  lemma SendSyncReply(c: Connection, m: Message, o: Overload, arrivals: seq<Message>)
    requires Valid(c) && c.connected && c.writer.Some? && c.router.Some?
    ensures SendSync(c, Some(m), o, arrivals).reply == Await(c.router.value, CollectorFilter(o, m), arrivals).1
  {
  }

  /** With a router gone the message is still queued before the
      NullPointerException. */
  lemma SendSyncQueuesBeforeThrowing(c: Connection, m: Message, o: Overload, arrivals: seq<Message>)
    requires Valid(c) && c.connected && c.writer.Some? && c.router.None?
    ensures var res := SendSync(c, Some(m), o, arrivals);
      && res.thrown == Some(NullPointer)
      && res.conn == c.(writer := Some(PacketWriters.SendMessage(c.writer.value, m)))
  {
  }

  lemma AwaitFirst(r: Router, filter: Option<Filter>, arrivals: seq<Message>)
    requires PacketRouters.Valid(r)
    requires 0 < |arrivals| <= CAPACITY && Wants(NewCollector(filter), arrivals[0])
    ensures Await(r, filter, arrivals).1 == Some(arrivals[0])
  {
    AwaitEffect(r, filter, arrivals);
    AcceptedHead(NewCollector(filter), arrivals);
  }

  lemma AcceptedHead(c: Collector, ms: seq<Message>)
    requires |ms| > 0 && Wants(c, ms[0])
    ensures |Accepted(c, ms)| > 0 && Accepted(c, ms)[0] == ms[0]
    ensures |Accepted(c, ms)| <= |ms|
  {
    AcceptedLength(c, ms);
  }

  lemma {:induction false} AcceptedLength(c: Collector, ms: seq<Message>)
    ensures |Accepted(c, ms)| <= |ms|
    decreases |ms|
  {
    if |ms| > 0 {
      AcceptedLength(c, ms[1..]);
    }
  }

  /** `waitForMessage`: null when the router is gone, otherwise a wait on a
      collector that is always cancelled. */
  function WaitForMessage(c: Connection, filter: Option<Filter>, arrivals: seq<Message>): (r: SyncResult)
    requires Valid(c)
    ensures c.router.None? ==> r == SyncResult(c, None, None)
    ensures Valid(r.conn) && r.thrown.None?
  {
    match c.router
    case None => SyncResult(c, None, None)
    case Some(router) =>
      var (r', reply) := Await(router, filter, arrivals);
      SyncResult(c.(router := Some(r')), reply, None)
  }

  /** `addMsgListener` and `removeMsgListener`: straight to the router,
      which throws once a reset dropped it. */
  function AddMsgListener(c: Connection, listener: Option<ObjId>, filterKey: Option<ObjId>, filter: Filter): (r: Result<Connection>)
    ensures c.router.None? ==> r == Failure(NullPointer)
    ensures c.router.Some? ==> (r.Failure? <==> listener.None? || filterKey.None?)
  {
    match c.router
    case None => Failure(NullPointer)
    case Some(router) =>
      var r' :- AddRcvListener(router, filterKey, filter, listener);
      Success(c.(router := Some(r')))
  }

  function RemoveMsgListener(c: Connection, listener: Option<ObjId>): (r: Result<Connection>)
    ensures c.router.None? ==> r == Failure(NullPointer)
    ensures c.router.Some? ==> (r.Failure? <==> listener.None?)
  {
    match c.router
    case None => Failure(NullPointer)
    case Some(router) =>
      var r' :- RemoveRcvListener(router, listener);
      Success(c.(router := Some(r')))
  }
}
