/** `GroupControlManager.java`: the application-facing facade over one
    connection manager. It holds the configuration and the manager, refuses
    a zero timeout for synchronous sends, and after `onDestroy` holds
    neither. */
module GroupControl {
  import opened JavaTypes
  import opened Wrappers
  import opened Configs
  import opened Filters
  import opened MessageSn
  import opened MessageBuilders
  import PacketRouters
  import Connections
  import CM = ConnectionManagers

  datatype Facade = Facade(option: Option<SocketConfiguration>, mgr: Option<CM.Manager>)

  /** The facade after a call, and the exception the call ended with. */
  datatype Step = Step(facade: Facade, thrown: Option<Error>)

  predicate Valid(f: Facade)
  {
    f.mgr.Some? ==> CM.Valid(f.mgr.value)
  }

  /** The constructor builds the manager first (a null listener is an
      IllegalArgumentException there), then reads the debug flag off the
      configuration's connect option (a null configuration, or one built
      without a connect option, is a NullPointerException). */
  function NewFacade(option: Option<SocketConfiguration>, listener: Option<PacketRouters.ObjId>, sn: SnState): (r: Result<Facade>)
    ensures r.Success? <==> listener.Some? && option.Some? && option.value.option.Some?
    ensures listener.None? ==> r == Failure(IllegalArgument)
    ensures listener.Some? && (option.None? || option.value.option.None?) ==> r == Failure(NullPointer)
    ensures r.Success? ==>
      && Valid(r.value) && r.value.option == option && r.value.mgr.Some?
      && r.value.mgr.value.config == option && !IsConnected(r.value)
  {
    var m :- CM.NewManager(option, listener, sn);
    if option.None? || option.value.option.None? then Failure(NullPointer) else Success(Facade(option, Some(m)))
  }

  /** `isConnected`: false once the manager is gone. */
  predicate IsConnected(f: Facade)
  {
    f.mgr.Some? && CM.IsConnected(f.mgr.value)
  }

  /** A manager call through the facade; a missing manager is a
      NullPointerException. */
  function Delegate(f: Facade, s: CM.Step): (r: Step)
    requires f.mgr.Some?
  {
    Step(f.(mgr := Some(s.mgr)), s.thrown)
  }

  /** `connect`. */
  function Connect(f: Facade, isReconnect: bool): (r: Step)
    requires Valid(f)
    ensures Valid(r.facade)
    ensures f.mgr.None? ==> r == Step(f, Some(NullPointer))
    ensures f.mgr.Some? ==> r.facade.mgr == Some(CM.Connect(f.mgr.value, isReconnect).mgr)
  {
    if f.mgr.None? then Step(f, Some(NullPointer)) else Delegate(f, CM.Connect(f.mgr.value, isReconnect))
  }

  /** `disConnect`. */
  function Disconnect(f: Facade): (r: Step)
    requires Valid(f)
    ensures Valid(r.facade)
    ensures f.mgr.None? ==> r == Step(f, Some(NullPointer))
    ensures f.mgr.Some? ==> r.facade.mgr == Some(CM.Disconnect(f.mgr.value).mgr)
  {
    if f.mgr.None? then Step(f, Some(NullPointer)) else Delegate(f, CM.Disconnect(f.mgr.value))
  }

  /** `onDestroy`: the configuration is dropped first; the manager is
      destroyed and dropped, unless destroying it throws, in which case it
      is kept. A second call does nothing. */
  function OnDestroy(f: Facade): (r: Step)
    requires Valid(f)
    ensures Valid(r.facade)
    ensures r.facade.option.None?
    ensures f.mgr.None? ==> r == Step(f.(option := None), None)
    ensures f.mgr.Some? && f.mgr.value.executor ==> r == Step(Facade(None, None), None)
  {
    match f.mgr
    case None => Step(f.(option := None), None)
    case Some(m) =>
      var s := CM.OnDestroy(m);
      if s.thrown.Some? then Step(Facade(None, Some(s.mgr)), s.thrown)
      else Step(Facade(None, None), None)
  }

  /** `sendMessage`. */
  function SendMessage(f: Facade, msg: Option<Message>): (r: Step)
    requires Valid(f)
    ensures Valid(r.facade)
    ensures f.mgr.None? ==> r == Step(f, Some(NullPointer))
    ensures f.mgr.Some? && f.mgr.value.executor ==>
      r.thrown.None? && r.facade.mgr.Some? && r.facade.mgr.value.tasks == f.mgr.value.tasks + [CM.SendTask(msg)]
  {
    if f.mgr.None? then Step(f, Some(NullPointer)) else Delegate(f, CM.SendMessage(f.mgr.value, msg))
  }

  /** The facade after a synchronous call, the reply, and the exception
      that ended the call, if any. */
  datatype SyncCall = SyncCall(facade: Facade, reply: Option<Message>, thrown: Option<Error>)

  /** Both `sendSyncMessage` overloads: a zero timeout is an
      UnFormatMessageException before anything else is looked at; then the
      call goes to the manager, which throws when there is none. */
  function SendSync(f: Facade, msg: Option<Message>, o: Connections.Overload, timeout: int64, arrivals: seq<Message>): (r: SyncCall)
    requires Valid(f)
    ensures Valid(r.facade) && r.facade.option == f.option
    ensures timeout == 0 ==> r == SyncCall(f, None, Some(UnFormatMessage))
    ensures timeout != 0 && f.mgr.None? ==> r == SyncCall(f, None, Some(NullPointer))
    ensures timeout != 0 && f.mgr.Some? ==>
      var s := CM.SendSync(f.mgr.value, msg, o, arrivals);
      r.facade.mgr == Some(s.mgr) && r.reply == s.reply && r.thrown == s.thrown
    ensures r.reply.Some? ==> timeout != 0 && IsConnected(f) && r.thrown.None?
  {
    if timeout == 0 then SyncCall(f, None, Some(UnFormatMessage))
    else if f.mgr.None? then SyncCall(f, None, Some(NullPointer))
    else
      var s := CM.SendSync(f.mgr.value, msg, o, arrivals);
      SyncCall(f.(mgr := Some(s.mgr)), s.reply, s.thrown)
  }

  /** `addMessageListener`: without a manager the call is only logged. */
  function AddMessageListener(f: Facade, listener: Option<PacketRouters.ObjId>, filterKey: Option<PacketRouters.ObjId>, filter: Filter): (r: Result<Facade>)
    requires Valid(f)
    ensures f.mgr.None? ==> r == Success(f)
    ensures f.mgr.Some? && !CM.IsConnected(f.mgr.value) ==> r == Failure(Unconnected)
    ensures r.Success? ==> Valid(r.value) && r.value.option == f.option
  {
    if f.mgr.None? then Success(f)
    else
      var m :- CM.AddMsgListener(f.mgr.value, listener, filterKey, filter);
      Success(f.(mgr := Some(m)))
  }

  /** `removeMessageListener`: without a manager the call is only logged. */
  function RemoveMessageListener(f: Facade, listener: Option<PacketRouters.ObjId>): (r: Result<Facade>)
    requires Valid(f)
    ensures f.mgr.None? ==> r == Success(f)
    ensures f.mgr.Some? && !CM.IsConnected(f.mgr.value) ==> r == Failure(Unconnected)
    ensures r.Success? ==> Valid(r.value) && r.value.option == f.option
  {
    if f.mgr.None? then Success(f)
    else
      var m :- CM.RemoveMsgListener(f.mgr.value, listener);
      Success(f.(mgr := Some(m)))
  }

  /** After `onDestroy` the facade is inert: it reports not connected,
      listener calls change nothing, a second destroy is harmless, and the
      calls that go straight to the manager throw. */
  lemma {:induction false} DestroyedFacadeInert(f: Facade, l: Option<PacketRouters.ObjId>, k: Option<PacketRouters.ObjId>,
                                               filter: Filter, msg: Option<Message>, b: bool)
    requires Valid(f) && f.mgr.Some? && f.mgr.value.executor
    ensures var d := OnDestroy(f).facade;
      && !IsConnected(d)
      && AddMessageListener(d, l, k, filter) == Success(d)
      && RemoveMessageListener(d, l) == Success(d)
      && OnDestroy(d) == Step(d, None)
      && Connect(d, b).thrown == Some(NullPointer)
      && SendMessage(d, msg).thrown == Some(NullPointer)
  {
    var d := OnDestroy(f).facade;
    assert d == Facade(None, None);
  }
}
