/** `connection/ConnectionManager.java`: the connect gate, the connection,
    the state listeners, and the tasks the manager hands to its executor.
    The executor is a queue of pending tasks that run one at a time, in any
    order (`RunTask`); what the socket, the daemon and the remote side do
    while a task runs is given to it as parameters. Every state change the
    listeners are told about is appended to `notices`; the native
    reconnection policy is one of the listeners and its reaction is part of
    the model. */
module ConnectionManagers {
  import opened JavaTypes
  import opened Wrappers
  import opened Constants
  import opened StateCodes
  import opened Configs
  import opened MessageSn
  import opened MessageBuilders
  import opened Filters
  import opened BytesUtils
  import PacketHeaders
  import PacketRouters
  import Connections
  import Retries
  import NativeReconnections

  /** A state listener: one of the application's, or the native
      reconnection policy. */
  datatype Listener = User(id: PacketRouters.ObjId) | NativePolicy

  /** The runnables the manager submits. */
  datatype Task =
    | ConnectTask(reconnecting: bool)
    | DisConnectTask(state: int)
    | WaitForConnectTask(reconnecting: bool)
    | SendTask(msg: Option<Message>)

  /** One `onConnectStateChange(state, e)` call, with whether `e` is non-null. */
  datatype Notice = Notice(state: int, withException: bool)

  /** `canConnect` is the gate; `executor` is false once destroyed;
      `remoteWatches` counts the remote-disconnect listeners registered on
      the current connection (each registration is a new filter, so a
      second one does not replace the first); `sn` is the process-wide sequence generator
      the manager's own requests draw from. */
  datatype Manager = Manager(
    canConnect: bool,
    conn: Option<Connections.Connection>,
    listeners: seq<Listener>,
    executor: bool,
    config: Option<SocketConfiguration>,
    native: Retries.Policy,
    remoteWatches: nat,
    sn: SnState,
    tasks: seq<Task>,
    notices: seq<Notice>)

  /** The manager after a call, and the exception the call ended with. */
  datatype Step = Step(mgr: Manager, thrown: Option<Error>)

  /** The connection is well formed, and the native policy is registered at
      most once and only while bound to the manager. */
  predicate Valid(m: Manager)
  {
    && (m.conn.Some? ==> Connections.Valid(m.conn.value))
    && Retries.Valid(m.native)
    && multiset(m.listeners)[NativePolicy] <= 1
    && (NativePolicy in m.listeners ==> m.native.bound)
  }

  /** The constructor: the listener is registered first, and a null one is
      an IllegalArgumentException. */
  function NewManager(config: Option<SocketConfiguration>, listener: Option<PacketRouters.ObjId>, sn: SnState): (r: Result<Manager>)
    ensures r.Failure? <==> listener.None?
    ensures r.Success? ==> Valid(r.value) && r.value.canConnect && !IsConnected(r.value)
    ensures r.Success? ==> r.value.listeners == [User(listener.value)] && r.value.tasks == [] && r.value.notices == []
  {
    match listener
    case None => Failure(IllegalArgument)
    case Some(l) => Success(Manager(true, None, [User(l)], true, config, Retries.Initial, 0, sn, [], []))
  }

  /** `isConnected`. */
  predicate IsConnected(m: Manager)
  {
    m.conn.Some? && m.conn.value.connected
  }

  /** Exceptions inside a `try { … } catch (Exception e)` are swallowed. */
  function Caught(s: Step): (r: Step)
    ensures r.mgr == s.mgr && r.thrown.None?
  {
    Step(s.mgr, None)
  }

  // ---- the executor ----

  /** `mExecutor.execute(task)`: queued, or a NullPointerException once the
      executor is gone. */
  function Submit(m: Manager, t: Task): (r: Step)
    ensures r.thrown.None? <==> m.executor
    ensures m.executor ==> r.mgr == m.(tasks := m.tasks + [t])
    ensures !m.executor ==> r == Step(m, Some(NullPointer))
  {
    if m.executor then Step(m.(tasks := m.tasks + [t]), None) else Step(m, Some(NullPointer))
  }

  // ---- listeners and notices ----

  /** The native policy moves to `p`; when that detaches a bound policy, it
      also takes itself off the listener list. */
  function SetNative(m: Manager, p: Retries.Policy): (r: Manager)
    requires Valid(m) && Retries.Valid(p)
    ensures Valid(r)
    ensures r.native == p
    ensures !p.bound ==> NativePolicy !in r.listeners
    ensures forall l :: l != NativePolicy ==> (l in r.listeners <==> l in m.listeners)
    ensures r == m.(native := p, listeners := r.listeners)
  {
    if m.native.bound && !p.bound then
      PacketRouters.RemoveFirstCount(m.listeners, NativePolicy);
      var ls := PacketRouters.RemoveFirst(m.listeners, NativePolicy);
      assert forall l :: l != NativePolicy ==> (l in ls <==> l in m.listeners) by {
        forall l | l != NativePolicy
          ensures l in ls <==> l in m.listeners
        {
          assert multiset(ls)[l] == multiset(m.listeners)[l] || NativePolicy !in m.listeners;
        }
      }
      m.(native := p, listeners := ls)
    else m.(native := p)
  }

  /** The native policy hears `code`, either as a listener or from its own
      failed retry. At the maximum it asks for a DisConnectTask(1005) before
      it detaches; with the executor gone that request throws, and the
      policy is left counted but not detached. */
  function React(m: Manager, code: int): (r: Step)
    requires Valid(m)
    ensures Valid(r.mgr)
    ensures r.mgr == m.(native := r.mgr.native, listeners := r.mgr.listeners, tasks := r.mgr.tasks)
    ensures r.thrown.None? ==> r.mgr.native == NativeReconnections.OnConnectStateChange(m.native, code).policy
    ensures r.mgr.tasks == m.tasks || r.mgr.tasks == m.tasks + [DisConnectTask(STATE_REACH_MAX_RECONNECT_TIME)]
    ensures r.thrown.Some? ==> !m.executor && r.thrown == Some(NullPointer)
    ensures forall l :: l != NativePolicy ==> (l in r.mgr.listeners <==> l in m.listeners)
  {
    var re := NativeReconnections.OnConnectStateChange(m.native, code);
    if re.maxReached && !m.executor then
      Step(m.(native := Retries.Count(m.native)), Some(NullPointer))
    else
      var m1 := SetNative(m, re.policy);
      if re.maxReached then Submit(m1, DisConnectTask(STATE_REACH_MAX_RECONNECT_TIME)) else Step(m1, None)
  }

  /** `notifyConnectStateChange`: every listener hears the code; the
      native policy, when registered, reacts. */
  function Notify(m: Manager, code: int, withException: bool): (r: Step)
    requires Valid(m)
    ensures Valid(r.mgr)
    ensures r.mgr.notices == m.notices + [Notice(code, withException)]
    ensures r.mgr == m.(native := r.mgr.native, listeners := r.mgr.listeners, tasks := r.mgr.tasks, notices := r.mgr.notices)
    ensures r.mgr.tasks == m.tasks || r.mgr.tasks == m.tasks + [DisConnectTask(STATE_REACH_MAX_RECONNECT_TIME)]
    ensures r.thrown.Some? ==> !m.executor && r.thrown == Some(NullPointer)
    ensures NativePolicy !in m.listeners ==> r == Step(m.(notices := r.mgr.notices), None)
    ensures forall l :: l != NativePolicy ==> (l in r.mgr.listeners <==> l in m.listeners)
  {
    var m1 := m.(notices := m.notices + [Notice(code, withException)]);
    if NativePolicy in m.listeners then React(m1, code) else Step(m1, None)
  }

  /** The same notice `k` times, as the daemon-state filter raises it; an
      exception there is raised on the reading thread, not the caller's. */
  function NotifyTimes(m: Manager, k: nat, code: int, withException: bool): (r: Manager)
    requires Valid(m)
    ensures Valid(r)
    ensures r.notices == m.notices + seq(k, _ => Notice(code, withException))
    ensures r == m.(native := r.native, listeners := r.listeners, tasks := r.tasks, notices := r.notices)
    decreases k
  {
    if k == 0 then m
    else
      var m1 := Notify(m, code, withException).mgr;
      var r := NotifyTimes(m1, k - 1, code, withException);
      assert m.notices + seq(k, _ => Notice(code, withException))
        == m1.notices + seq(k - 1, _ => Notice(code, withException));
      r
  }

  /** `registerConnectListener`: appended; null is an IllegalArgumentException. */
  function RegisterConnectListener(m: Manager, listener: Option<PacketRouters.ObjId>): (r: Result<Manager>)
    requires Valid(m)
    ensures r.Failure? <==> listener.None?
    ensures r.Success? ==> Valid(r.value) && r.value == m.(listeners := m.listeners + [User(listener.value)])
  {
    match listener
    case None => Failure(IllegalArgument)
    case Some(l) =>
      assert multiset(m.listeners + [User(l)])[NativePolicy] == multiset(m.listeners)[NativePolicy];
      Success(m.(listeners := m.listeners + [User(l)]))
  }

  /** `unRegisterConnectListener`: the first registration, if any, is
      removed. */
  function UnregisterConnectListener(m: Manager, listener: PacketRouters.ObjId): (r: Manager)
    requires Valid(m)
    ensures Valid(r)
    ensures User(listener) in m.listeners ==> |r.listeners| == |m.listeners| - 1
    ensures User(listener) !in m.listeners ==> r == m
    ensures r == m.(listeners := r.listeners)
  {
    PacketRouters.RemoveFirstCount(m.listeners, User(listener));
    var ls := PacketRouters.RemoveFirst(m.listeners, User(listener));
    assert multiset(ls)[NativePolicy] == multiset(m.listeners)[NativePolicy] || User(listener) !in m.listeners;
    m.(listeners := ls)
  }

  /** Registering and then removing a listener leaves the same set of
      listeners as before. */
  lemma RegisterThenUnregister(m: Manager, l: PacketRouters.ObjId)
    requires Valid(m)
    ensures var m1 := RegisterConnectListener(m, Some(l)).value;
      multiset(UnregisterConnectListener(m1, l).listeners) == multiset(m.listeners)
  {
    var m1 := RegisterConnectListener(m, Some(l)).value;
    PacketRouters.RemoveFirstCount(m1.listeners, User(l));
  }

  // ---- connect and disconnect ----

  /** `connect`: nothing while the gate is closed or a connection is up;
      otherwise the gate closes, a missing configuration throws, and one
      ConnectTask is queued. */
  function Connect(m: Manager, isReconnect: bool): (r: Step)
    requires Valid(m)
    ensures Valid(r.mgr)
    ensures !m.canConnect || IsConnected(m) ==> r == Step(m, None)
    ensures m.canConnect && !IsConnected(m) ==> !r.mgr.canConnect
    ensures m.canConnect && !IsConnected(m) && m.config.None? ==> r == Step(m.(canConnect := false), Some(Unconnected))
    ensures r.mgr.tasks != m.tasks ==>
      m.canConnect && !IsConnected(m) && m.config.Some? && r.mgr.tasks == m.tasks + [ConnectTask(isReconnect)]
    ensures r.mgr == m || !r.mgr.canConnect
    ensures r.mgr.notices == m.notices
  {
    if !m.canConnect || IsConnected(m) then Step(m, None)
    else
      var m1 := m.(canConnect := false);
      if m1.config.None? then Step(m1, Some(Unconnected))
      else Submit(m1, ConnectTask(isReconnect))
  }

  /** However `connect` is called twice in a row, at most one ConnectTask
      is queued: the first call closes the gate. */
  lemma ConnectSingleFlight(m: Manager, a: bool, b: bool)
    requires Valid(m)
    ensures var m1 := Connect(m, a).mgr;
      Connect(m1, b).mgr == m1 && |m1.tasks| <= |m.tasks| + 1
  {
  }

  /** `disConnect`: the native policy detaches, and a DisConnectTask for a
      clean close is queued. */
  function Disconnect(m: Manager): (r: Step)
    requires Valid(m)
    ensures Valid(r.mgr)
    ensures r.mgr.native == Retries.Detached && NativePolicy !in r.mgr.listeners
    ensures r.thrown.None? <==> m.executor
    ensures m.executor ==> r.mgr.tasks == m.tasks + [DisConnectTask(STATE_SOCKET_CLOSE_SUCCESSFUL)]
  {
    Submit(SetNative(m, Retries.Detached), DisConnectTask(STATE_SOCKET_CLOSE_SUCCESSFUL))
  }

  /** `onDestroy`: the gate closes, the policy detaches, a clean close is
      queued, and then the listeners, the executor and the configuration
      are dropped. A second call throws when it reaches the executor. */
  function OnDestroy(m: Manager): (r: Step)
    requires Valid(m)
    ensures Valid(r.mgr)
    ensures !r.mgr.canConnect && r.mgr.native == Retries.Detached && !r.mgr.executor
    ensures r.thrown.None? <==> m.executor
    ensures m.executor ==>
      && r.mgr.listeners == [] && r.mgr.config.None?
      && r.mgr.tasks == m.tasks + [DisConnectTask(STATE_SOCKET_CLOSE_SUCCESSFUL)]
    ensures r.mgr.conn == m.conn && r.mgr.notices == m.notices
  {
    var m1 := SetNative(m.(canConnect := false), Retries.Detached);
    var s := Submit(m1, DisConnectTask(STATE_SOCKET_CLOSE_SUCCESSFUL));
    if s.thrown.Some? then s
    else Step(s.mgr.(listeners := [], executor := false, config := None), None)
  }

  // ---- requests the manager makes itself ----

  /** A control request as the manager builds one: the next sequence
      number, no ack, control type, the given body. Without a client key the
      builder throws after the number was taken. */
  function ControlRequest(s: SnState, msgId: int16, body: bytes): (r: (SnState, Result<Message>))
    ensures r.0 == NextSn(s).0
    ensures r.1.Failure? <==> s.clientKey == 0
    ensures r.1.Success? ==>
      && r.1.value.msgId == msgId && r.1.value.body == body && !r.1.value.isResponse
      && !r.1.value.isAck && r.1.value.ptype == PacketHeaders.TYPE_CTRL && r.1.value.pid == s.clientKey
  {
    var (s1, d) := SendBuilder(s, msgId);
    match d
    case Failure(e) => (s1, Failure(e))
    case Success(draft) => (s1, Build(SetBody(SetType(SetAck(draft, false), PacketHeaders.TYPE_CTRL), Some(body))))
  }

  /** The manager's own request and response: `sendSyncMessage` on the
      connection, which throws without one, answers null without sending
      while disconnected, and otherwise sends and waits. The first body
      accepted within the timeout, if any, is `reply`. */
  function Exchange(m: Manager, request: Message, reply: Option<bytes>): (r: Result<(Manager, Option<bytes>)>)
    requires Valid(m)
    ensures m.conn.None? ==> r == Failure(NullPointer)
    ensures m.conn.Some? && !m.conn.value.connected ==> r == Success((m, None))
    ensures Ready(m) ==> r.Success? && r.value.1 == reply && IsConnected(r.value.0)
    ensures r.Success? ==> Valid(r.value.0) && r.value.0 == m.(conn := r.value.0.conn)
    ensures r.Success? && r.value.1.Some? ==> IsConnected(m) && r.value.1 == reply
    ensures r.Success? && Ready(m) ==> Ready(r.value.0)
  {
    match m.conn
    case None => Failure(NullPointer)
    case Some(c) =>
      // The source's filter (a response carrying the request's id) is an
      // anonymous class; the reply is a parameter here, so no arrival
      // reaches the collector and its id part stands for it.
      var res := Connections.SendSync(c, Some(request), Connections.WithFilter(Some(IdFilter(request.msgId))), []);
      if res.thrown.Some? then Failure(res.thrown.value)
      else Success((m.(conn := Some(res.conn)), if c.connected then reply else None))
  }

  /** The connection is up with its writer and router, and a client key is
      set, so the manager's own requests go out. */
  predicate Ready(m: Manager)
  {
    && m.sn.clientKey != 0
    && m.conn.Some? && m.conn.value.connected
    && m.conn.value.writer.Some? && m.conn.value.router.Some?
  }

  /** `data[0]` read as a Java byte. */
  function FirstByte(body: bytes): int8
    requires |body| > 0
  {
    ToInt8(body[0])
  }

  /** The state a login answer stands for: the connected byte is success,
      any other byte a refusal (a failed reconnect when reconnecting), and
      no answer a timeout (a failed reconnect when reconnecting). */
  function LoginVerdict(reconnecting: bool, answer: Option<int8>): int
  {
    match answer
    case None => if reconnecting then STATE_RECONNECT_REMOTE_FAILED else STATE_LOGIN_TIMEOUT
    case Some(code) =>
      if code == STATE_CONNECTED then
        if reconnecting then STATE_RECONNECT_REMOTE_SUCCESS else STATE_CONNECT_SUCCESSFUL
      else if reconnecting then STATE_RECONNECT_REMOTE_FAILED
      else STATE_LOGIN_REFUSED
  }

  /** `sendLoginMessage`. Every exception is swallowed: a missing client
      key, a missing connection, an empty answer. */
  function Login(m: Manager, reconnecting: bool, reply: Option<bytes>): (r: Step)
    requires Valid(m)
    ensures Valid(r.mgr) && r.thrown.None?
    ensures r.mgr.executor == m.executor && r.mgr.config == m.config
  {
    var (s1, req) := ControlRequest(m.sn, MSG_LOGIN_CONTROL, AsBytes(U8(CODE_LOGIN_REQUEST)));
    var m1 := m.(sn := s1);
    if req.Failure? then Step(m1, None)
    else
      match Exchange(m1, req.value, reply)
      case Failure(_) => Step(m1, None)
      case Success((m2, answer)) => Caught(LoginAnswer(m2, reconnecting, answer))
  }

  /** A successful login attaches the native policy (a client's first
      login, or any reconnect), and attaching reads the connect option:
      without one it throws NullPointerException. */
  predicate AttachFails(c: SocketConfiguration, verdict: int)
  {
    c.option.None? && (verdict == STATE_RECONNECT_REMOTE_SUCCESS || (verdict == STATE_CONNECT_SUCCESSFUL && !c.isServer))
  }

  /** What `sendLoginMessage` does with the answer. */
  function LoginAnswer(m: Manager, reconnecting: bool, answer: Option<bytes>): (r: Step)
    requires Valid(m)
    ensures Valid(r.mgr)
    ensures r.mgr.executor == m.executor && r.mgr.config == m.config && r.mgr.conn == m.conn
    ensures answer.Some? && |answer.value| == 0 ==> r == Step(m, Some(IndexOutOfBounds))
    ensures Ready(m) && m.executor && m.config.Some? && (answer.Some? ==> |answer.value| > 0) ==>
      var v := LoginVerdict(reconnecting, AnswerCode(answer));
      && (v == STATE_LOGIN_TIMEOUT || v == STATE_LOGIN_REFUSED ==>
            r.thrown.None? && r.mgr.tasks == m.tasks + [DisConnectTask(v)] && r.mgr.notices == m.notices)
      && (v != STATE_LOGIN_TIMEOUT && v != STATE_LOGIN_REFUSED && !AttachFails(m.config.value, v) ==>
            r.thrown.None? && r.mgr.notices == m.notices + [Notice(v, v == STATE_RECONNECT_REMOTE_SUCCESS)])
      && (AttachFails(m.config.value, v) ==> r.thrown == Some(NullPointer) && r.mgr.notices == m.notices)
  {
    match answer
    case None =>
      if reconnecting then Notify(m, STATE_RECONNECT_REMOTE_FAILED, false)
      else Submit(m, DisConnectTask(STATE_LOGIN_TIMEOUT))
    case Some(body) =>
      if |body| == 0 then Step(m, Some(IndexOutOfBounds))
      else if reconnecting then
        if FirstByte(body) == STATE_CONNECTED then
          var s := AttachNative(m);
          if s.thrown.Some? then s else Notify(s.mgr, STATE_RECONNECT_REMOTE_SUCCESS, true)
        else Notify(m, STATE_RECONNECT_REMOTE_FAILED, false)
      else if FirstByte(body) == STATE_CONNECTED then OnConnectSuccess(m)
      else Submit(m, DisConnectTask(STATE_LOGIN_REFUSED))
  }

  /** The answer's state byte, when there is one. */
  function AnswerCode(answer: Option<bytes>): Option<int8>
    requires answer.Some? ==> |answer.value| > 0
  {
    if answer.Some? then Some(FirstByte(answer.value)) else None
  }

  /** The login outcome, against `LoginVerdict`: with the connection ready,
      the executor alive and a configuration, a timeout or refusal on a
      first attempt queues exactly a DisConnectTask for it and tells no
      one, and every other outcome is told to the listeners, once, except
      a success that attaches the native policy to a configuration without
      a connect option: that throws, is swallowed, and tells no one. */
  lemma LoginReported(m: Manager, reconnecting: bool, reply: Option<bytes>)
    requires Valid(m) && Ready(m) && m.executor && m.config.Some?
    requires reply.Some? ==> |reply.value| > 0
    ensures var v := LoginVerdict(reconnecting, AnswerCode(reply));
      var r := Login(m, reconnecting, reply).mgr;
      && (v == STATE_LOGIN_TIMEOUT || v == STATE_LOGIN_REFUSED ==>
            r.tasks == m.tasks + [DisConnectTask(v)] && r.notices == m.notices)
      && (v != STATE_LOGIN_TIMEOUT && v != STATE_LOGIN_REFUSED && !AttachFails(m.config.value, v) ==>
            r.notices == m.notices + [Notice(v, v == STATE_RECONNECT_REMOTE_SUCCESS)])
      && (AttachFails(m.config.value, v) ==> r.notices == m.notices)
  {
    var (s1, req) := ControlRequest(m.sn, MSG_LOGIN_CONTROL, AsBytes(U8(CODE_LOGIN_REQUEST)));
    var m1 := m.(sn := s1);
    assert Ready(m1);
    var (m2, answer) := Exchange(m1, req.value, reply).value;
    assert answer == reply && Ready(m2);
    assert Login(m, reconnecting, reply) == Caught(LoginAnswer(m2, reconnecting, reply));
  }

  /** `sendLogoutMessage`: true exactly when an answer arrives whose first
      byte is the disconnected state; every exception gives false. */
  function Logout(m: Manager, reply: Option<bytes>): (r: (Manager, bool))
    requires Valid(m)
    ensures Valid(r.0)
    ensures r.0 == m.(conn := r.0.conn, sn := r.0.sn)
    ensures r.1 ==> IsConnected(m) && reply.Some? && |reply.value| > 0 && FirstByte(reply.value) == STATE_DISCONNECTED
    ensures Ready(m) ==> (r.1 <==> reply.Some? && |reply.value| > 0 && FirstByte(reply.value) == STATE_DISCONNECTED)
  {
    var (s1, req) := ControlRequest(m.sn, MSG_LOGIN_CONTROL, AsBytes(U8(CODE_LOGOUT_REQUEST)));
    var m1 := m.(sn := s1);
    if req.Failure? then (m1, false)
    else
      match Exchange(m1, req.value, reply)
      case Failure(_) => (m1, false)
      case Success((m2, answer)) =>
        (m2, answer.Some? && |answer.value| > 0 && FirstByte(answer.value) == STATE_DISCONNECTED)
  }

  // ---- success and the native policy ----

  /** `attachNativeReconnection`: the policy attaches (detaching first) and
      registers itself, then the remote-disconnect listener goes on the
      connection, which throws unless connected. */
  function AttachNative(m: Manager): (r: Step)
    requires Valid(m)
    ensures Valid(r.mgr)
    ensures r.mgr.notices == m.notices && r.mgr.tasks == m.tasks && r.mgr.conn == m.conn
    ensures r.mgr.canConnect == m.canConnect && r.mgr.config == m.config && r.mgr.executor == m.executor
    ensures m.config.None? ==> r.thrown == Some(NullPointer)
    ensures r.thrown.None? ==> NativePolicy in r.mgr.listeners && r.mgr.remoteWatches == m.remoteWatches + 1
    ensures r.thrown.Some? ==> r.mgr.remoteWatches == m.remoteWatches
    ensures Ready(m) && m.config.Some? && m.config.value.option.Some? ==> r.thrown.None?
    ensures m.config.Some? && m.config.value.option.None? ==> r.thrown == Some(NullPointer)
  {
    var a := Retries.Attach(if m.config.Some? then m.config.value.option else None);
    var m1 := SetNative(m, Retries.Detached);
    if a.thrown.Some? then Step(m1.(native := a.policy), a.thrown)
    else
      assert multiset(m1.listeners + [NativePolicy])[NativePolicy] == 1;
      var m2 := m1.(native := a.policy, listeners := m1.listeners + [NativePolicy]);
      match m2.conn
      case None => Step(m2, Some(Unconnected))
      case Some(c) =>
        if !c.connected then Step(m2, Some(Unconnected))
        else if c.router.None? then Step(m2, Some(NullPointer))
        else Step(m2.(remoteWatches := m.remoteWatches + 1), None)
  }

  /** `onConnectSuccess`: a client attaches the native policy; then the
      listeners hear CONNECT_SUCCESSFUL. */
  function OnConnectSuccess(m: Manager): (r: Step)
    requires Valid(m)
    ensures Valid(r.mgr)
    ensures m.config.None? ==> r == Step(m, Some(NullPointer))
    ensures r.thrown.None? ==> r.mgr.notices == m.notices + [Notice(STATE_CONNECT_SUCCESSFUL, false)]
    ensures Ready(m) && m.executor && m.config.Some? && m.config.value.option.Some? ==> r.thrown.None?
    ensures m.config.Some? && !m.config.value.isServer && m.config.value.option.None? ==> r.thrown == Some(NullPointer)
    ensures r.mgr.executor == m.executor && r.mgr.config == m.config && r.mgr.conn == m.conn
  {
    match m.config
    case None => Step(m, Some(NullPointer))
    case Some(cfg) =>
      if cfg.isServer then Notify(m, STATE_CONNECT_SUCCESSFUL, false)
      else
        var s := AttachNative(m);
        if s.thrown.Some? then s else Notify(s.mgr, STATE_CONNECT_SUCCESSFUL, false)
  }

  /** A remote-disconnect message as the listener's filter accepts it: a
      state message whose first byte says the remote side disconnected. */
  predicate RemoteDisconnect(msg: Message)
  {
    |msg.body| > 0 && FirstByte(msg.body) == STATE_DISCONNECTED && msg.msgId == MSG_SERVER_STATE_CHANGED
  }

  /** The router hands a message to `k` registrations of the
      remote-disconnect listener in a row; each tells the listeners. An
      exception in one ends the router's loop, so the rest never run. */
  function NotifyRepeat(m: Manager, k: nat, code: int, withException: bool): (r: Step)
    requires Valid(m)
    ensures Valid(r.mgr)
    ensures r.mgr == m.(native := r.mgr.native, listeners := r.mgr.listeners, tasks := r.mgr.tasks, notices := r.mgr.notices)
    ensures r.thrown.None? ==> r.mgr.notices == m.notices + seq(k, _ => Notice(code, withException))
    ensures r.thrown.Some? ==> 0 < k && !m.executor && r.thrown == Some(NullPointer)
    ensures NativePolicy !in m.listeners ==>
      r == Step(m.(notices := m.notices + seq(k, _ => Notice(code, withException))), None)
    decreases k
  {
    if k == 0 then Step(m, None)
    else
      var s := Notify(m, code, withException);
      if s.thrown.Some? then s
      else
        var r := NotifyRepeat(s.mgr, k - 1, code, withException);
        assert m.notices + seq(k, _ => Notice(code, withException))
          == s.mgr.notices + seq(k - 1, _ => Notice(code, withException));
        r
  }

  /** The remote-disconnect listeners: the router hands them only messages
      that are not responses. Each registration's filter reads the first
      byte of the body before it looks at the id, so an empty body throws
      there (ending the router's loop) whatever the message is; a
      remote-disconnect message is told to the listeners as
      REMOTE_SOCKET_CLOSED once per registration. */
  function RemoteStateMessage(m: Manager, msg: Message): (r: Step)
    requires Valid(m)
    ensures Valid(r.mgr)
    ensures r.mgr.conn == m.conn && r.mgr.remoteWatches == m.remoteWatches && r.mgr.executor == m.executor
    ensures (m.remoteWatches > 0 && !msg.isResponse && |msg.body| == 0) <==> r.thrown == Some(IndexOutOfBounds)
    ensures (m.remoteWatches == 0 || msg.isResponse || !RemoteDisconnect(msg)) ==> r.mgr == m
    ensures m.remoteWatches > 0 && !msg.isResponse && RemoteDisconnect(msg) && m.executor ==>
      r == Step(r.mgr, None) && r.mgr.notices == m.notices + seq(m.remoteWatches, _ => Notice(STATE_REMOTE_SOCKET_CLOSED, true))
  {
    if m.remoteWatches == 0 || msg.isResponse then Step(m, None)
    else if |msg.body| == 0 then Step(m, Some(IndexOutOfBounds))
    else if RemoteDisconnect(msg) then NotifyRepeat(m, m.remoteWatches, STATE_REMOTE_SOCKET_CLOSED, true)
    else Step(m, None)
  }

  /** The listener is registered anew at every successful attach, and the
      registrations add up: after two attaches on one connection, a
      remote-disconnect message is told to the listeners twice. */
  lemma AttachTwiceNotifiesTwice(m: Manager, msg: Message)
    requires Valid(m) && Ready(m) && m.config.Some? && m.config.value.option.Some? && m.executor && m.remoteWatches == 0
    requires !msg.isResponse && RemoteDisconnect(msg)
    ensures var m2 := AttachNative(AttachNative(m).mgr).mgr;
      var r := RemoteStateMessage(m2, msg);
      && r.thrown.None? && m2.remoteWatches == 2
      && r.mgr.notices == m.notices + [Notice(STATE_REMOTE_SOCKET_CLOSED, true), Notice(STATE_REMOTE_SOCKET_CLOSED, true)]
  {
    var m1 := AttachNative(m).mgr;
    assert Ready(m1);
    var m2 := AttachNative(m1).mgr;
    assert Ready(m2) && m2.remoteWatches == 2;
    var r := RemoteStateMessage(m2, msg);
    assert seq(2, _ => Notice(STATE_REMOTE_SOCKET_CLOSED, true))
      == [Notice(STATE_REMOTE_SOCKET_CLOSED, true), Notice(STATE_REMOTE_SOCKET_CLOSED, true)];
  }

  /** The handler of the native policy firing: the pending flag is cleared,
      the reconnect request goes out, and an answer leads to a reconnecting
      login while silence is fed back to the policy as
      RECONNECT_REMOTE_FAILED. Every exception is swallowed. */
  function NativeFire(m: Manager, reply: Option<bytes>, loginReply: Option<bytes>): (r: Step)
    requires Valid(m) && m.native.pending
    ensures Valid(r.mgr) && r.thrown.None?
    ensures Ready(m) && m.executor && reply.None? ==>
      r.mgr.native == NativeReconnections.FailedRetry(m.native).policy
  {
    var m1 := m.(native := NativeReconnections.Fire(m.native));
    var (s1, req) := ControlRequest(m1.sn, MSG_RECONNECT_REMOTE_SERVER, []);
    var m2 := m1.(sn := s1);
    if req.Failure? then Step(m2, None)
    else
      match Exchange(m2, req.value, reply)
      case Failure(_) => Step(m2, None)
      case Success((m3, answer)) =>
        if answer.Some? then Login(m3, true, loginReply)
        else Caught(React(m3, STATE_RECONNECT_REMOTE_FAILED))
  }

  // ---- the tasks ----

  /** `parseLocalState`: the daemon's state byte as a listener code; bytes
      it does not know pass through unchanged. */
  function ParseLocalState(state: int8): (r: int)
    ensures STATE_CONNECTING <= state <= STATE_DISCONNECT_FAILED <==> r > 1000
    ensures !(STATE_CONNECTING <= state <= STATE_DISCONNECT_FAILED) ==> r == state
    ensures state == STATE_CONNECTED ==> r == STATE_CONNECT_SUCCESSFUL
    ensures state == STATE_DISCONNECTED ==> r == STATE_REMOTE_SOCKET_CLOSED
  {
    if state == STATE_CONNECTED then STATE_CONNECT_SUCCESSFUL
    else if state == STATE_DISCONNECTED then STATE_REMOTE_SOCKET_CLOSED
    else if state == STATE_CONNECTING then STATE_CONNECTING_REMOTE
    else if state == Constants.STATE_CONNECT_FAILED then STATE_CONNECT_REMOTE_FAILED
    else if state == STATE_DISCONNECTING then STATE_DISCONNECTING_REMOTE
    else if state == STATE_DISCONNECT_FAILED then STATE_DISCONNECTING_REMOTE_FAILED
    else state
  }

  /** Distinct daemon states give distinct listener codes. */
  lemma ParseLocalStateInjective(a: int8, b: int8)
    ensures ParseLocalState(a) == ParseLocalState(b) ==> a == b
  {
  }

  /** The codes a DisConnectTask reports with an exception. */
  predicate NotifiesWithException(state: int)
  {
    state in {STATE_LOGIN_REFUSED, STATE_LOGIN_TIMEOUT, STATE_SOCKET_CLOSE_FAILED, STATE_CONNECT_TIMEOUT,
              STATE_REMOTE_SOCKET_CLOSED, STATE_CONNECTING_REMOTE, STATE_REACH_MAX_RECONNECT_TIME}
  }

  /** What a DisConnectTask for `state` tells the listeners: a clean close
      without an exception, the listed failures with one, anything else
      nothing. */
  function DisconnectNotices(state: int): seq<Notice>
  {
    if state == STATE_SOCKET_CLOSE_SUCCESSFUL then [Notice(state, false)]
    else if NotifiesWithException(state) then [Notice(state, true)]
    else []
  }

  /** The connection is dropped and the gate reopens. */
  function Drop(m: Manager): (r: Manager)
    requires Valid(m)
    ensures Valid(r) && r.conn.None? && r.canConnect && r.remoteWatches == 0
  {
    m.(conn := None, remoteWatches := 0, canConnect := true)
  }

  /** DisConnectTask: the gate closes; a clean close without a
      configuration stops there; otherwise the state is reported (a client
      logs out first on a clean close), and the connection is dropped and
      the gate reopened. */
  function RunDisConnectTask(m: Manager, state: int, logoutReply: Option<bytes>): (r: Step)
    requires Valid(m)
    ensures Valid(r.mgr)
    ensures state == STATE_SOCKET_CLOSE_SUCCESSFUL && m.config.None? ==> r == Step(m.(canConnect := false), None)
    ensures !(state == STATE_SOCKET_CLOSE_SUCCESSFUL && m.config.None?) ==>
      r.mgr.notices == m.notices + DisconnectNotices(state)
    ensures !(state == STATE_SOCKET_CLOSE_SUCCESSFUL && m.config.None?) && r.thrown.None? ==>
      r.mgr.conn.None? && r.mgr.canConnect
    ensures r.thrown.Some? ==> !m.executor
  {
    var m0 := m.(canConnect := false);
    if state == STATE_SOCKET_CLOSE_SUCCESSFUL then
      match m0.config
      case None => Step(m0, None)
      case Some(cfg) =>
        var m1 := if cfg.isServer then m0 else Logout(m0, logoutReply).0;
        ReportAndDrop(m1, state, false)
    else if NotifiesWithException(state) then ReportAndDrop(m0, state, true)
    else Step(Drop(m0), None)
  }

  /** The state is reported; unless a listener threw, the connection is
      dropped and the gate reopened. */
  function ReportAndDrop(m: Manager, state: int, withException: bool): (r: Step)
    requires Valid(m)
    ensures Valid(r.mgr)
    ensures r.mgr.notices == m.notices + [Notice(state, withException)]
    ensures r.thrown.None? ==> r.mgr.conn.None? && r.mgr.canConnect
    ensures r.thrown.Some? ==> !m.executor
  {
    var s := Notify(m, state, withException);
    if s.thrown.Some? then s else Step(Drop(s.mgr), None)
  }

  /** A failed first login is reported once, by the DisConnectTask it
      queues: running that task tells the listeners the verdict with an
      exception, drops the connection and reopens the gate. */
  lemma FailedLoginDisconnects(m: Manager, reply: Option<bytes>, logoutReply: Option<bytes>)
    requires Valid(m) && Ready(m) && m.executor && m.config.Some?
    requires reply.Some? ==> |reply.value| > 0
    requires LoginVerdict(false, AnswerCode(reply)) != STATE_CONNECT_SUCCESSFUL
    ensures var v := LoginVerdict(false, AnswerCode(reply));
      var m1 := Login(m, false, reply).mgr;
      var r := RunDisConnectTask(m1, v, logoutReply);
      && r.thrown.None? && r.mgr.conn.None? && r.mgr.canConnect
      && r.mgr.notices == m.notices + [Notice(v, true)]
  {
    LoginReported(m, false, reply);
    var v := LoginVerdict(false, AnswerCode(reply));
    assert NotifiesWithException(v);
  }

  /** What the wait for the daemon's state sees among the arrivals: how many
      "connecting" notices its filter raises, and the state byte of the first
      state message it accepts. The state test runs before the id test, so
      any message whose first byte is the connecting state raises a notice. */
  function StateWait(arrivals: seq<Message>): (r: (nat, Option<int8>))
    ensures r.0 <= |arrivals|
    ensures r.1.Some? ==> r.1.value != STATE_CONNECTING
    ensures r.1.None? ==> forall i :: 0 <= i < |arrivals| ==> !StateAccepted(arrivals[i])
    decreases |arrivals|
  {
    if |arrivals| == 0 then (0, None)
    else
      var msg := arrivals[0];
      var rest := StateWait(arrivals[1..]);
      if Connecting(msg) then (rest.0 + 1, rest.1)
      else if StateAccepted(msg) then (0, Some(FirstByte(msg.body)))
      else rest
  }

  /** A state message the wait accepts. */
  predicate StateAccepted(msg: Message)
  {
    |msg.body| > 0 && FirstByte(msg.body) != STATE_CONNECTING && msg.msgId == MSG_SERVER_STATE_CHANGED
  }

  /** The wait answers with the first accepted state message, having raised
      one notice per "connecting" message before it. */
  lemma {:induction false} StateWaitFirst(arrivals: seq<Message>, i: nat)
    requires i < |arrivals| && StateAccepted(arrivals[i])
    requires forall j :: 0 <= j < i ==> !StateAccepted(arrivals[j])
    ensures StateWait(arrivals).1 == Some(FirstByte(arrivals[i].body))
    ensures StateWait(arrivals).0 == ConnectingBefore(arrivals, i)
    decreases i
  {
    if i > 0 {
      StateWaitFirst(arrivals[1..], i - 1);
      ConnectingBeforeFront(arrivals, i);
    }
  }

  /** A message the state filter takes for a "connecting" notice. */
  predicate Connecting(msg: Message)
  {
    |msg.body| > 0 && FirstByte(msg.body) == STATE_CONNECTING
  }

  /** How many of the first `i` arrivals are "connecting" notices. */
  function ConnectingBefore(arrivals: seq<Message>, i: nat): nat
    requires i <= |arrivals|
    decreases i
  {
    if i == 0 then 0
    else ConnectingBefore(arrivals, i - 1) + (if Connecting(arrivals[i - 1]) then 1 else 0)
  }

  /** The count, taken from the front. */
  lemma {:induction false} ConnectingBeforeFront(arrivals: seq<Message>, i: nat)
    requires 0 < i <= |arrivals|
    ensures ConnectingBefore(arrivals, i)
      == (if Connecting(arrivals[0]) then 1 else 0) + ConnectingBefore(arrivals[1..], i - 1)
    decreases i
  {
    if i > 1 {
      ConnectingBeforeFront(arrivals, i - 1);
      assert arrivals[1..][i - 2] == arrivals[i - 1];
    }
  }

  /** WaitForConnectTask: wait for the daemon to report its link to the
      remote server. Silence is a connect timeout (a failed reconnect when
      reconnecting); the connected state leads to the login; any other
      state goes, through `parseLocalState`, to a DisConnectTask (a failed
      reconnect when reconnecting). Without a connection the task throws. */
  function RunWaitForConnectTask(m: Manager, reconnecting: bool, arrivals: seq<Message>, loginReply: Option<bytes>): (r: Step)
    requires Valid(m)
    ensures Valid(r.mgr)
    ensures m.conn.None? ==> r == Step(m, Some(NullPointer))
  {
    match m.conn
    case None => Step(m, Some(NullPointer))
    case Some(c) =>
      var (k, reply) := if c.router.Some? then StateWait(arrivals) else (0, None);
      var m1 := NotifyTimes(m, k, STATE_CONNECTING_REMOTE, true);
      match reply
      case None =>
        if reconnecting then Notify(m1, STATE_RECONNECT_REMOTE_FAILED, false)
        else Submit(m1, DisConnectTask(STATE_CONNECT_TIMEOUT))
      case Some(code) =>
        if code == STATE_CONNECTED then Login(m1, reconnecting, loginReply)
        else if reconnecting then Notify(m1, STATE_RECONNECT_REMOTE_FAILED, false)
        else Submit(m1, DisConnectTask(ParseLocalState(code)))
  }

  /** On a first attempt, a daemon state other than connected is handed to
      a DisConnectTask under its listener code; a remote connect failure
      (and the two disconnecting states) is a code the task reports to no
      one. */
  lemma RemoteFailureUnreported(m: Manager, arrivals: seq<Message>, i: nat, loginReply: Option<bytes>, logoutReply: Option<bytes>)
    requires Valid(m) && m.conn.Some? && m.conn.value.router.Some? && m.executor
    requires i < |arrivals| && StateAccepted(arrivals[i]) && FirstByte(arrivals[i].body) == Constants.STATE_CONNECT_FAILED
    requires forall j :: 0 <= j < i ==> !StateAccepted(arrivals[j])
    ensures var r := RunWaitForConnectTask(m, false, arrivals, loginReply).mgr;
      && |r.tasks| > 0 && r.tasks[|r.tasks| - 1] == DisConnectTask(STATE_CONNECT_REMOTE_FAILED)
      && DisconnectNotices(STATE_CONNECT_REMOTE_FAILED) == []
  {
    StateWaitFirst(arrivals, i);
  }

  /** ConnectTask: a fresh connection replaces the old one; a client queues
      the WaitForConnectTask; then the socket is opened. On an I/O failure
      a reconnect queues a DisConnectTask(SOCKET_CLOSE_FAILED) and a first
      attempt reports CONNECT_FAILED, and the gate reopens. On success the
      gate stays closed and a server reports CONNECT_SUCCESSFUL. A null
      connect option throws NullPointerException out of the task once the
      streams are open: nothing is reported and the gate stays closed. */
  function RunConnectTask(m: Manager, reconnecting: bool, socketOk: bool, streamsOk: bool): (r: Step)
    requires Valid(m)
    ensures Valid(r.mgr)
    ensures IsConnected(m) ==> r == Step(m, None)
    ensures !IsConnected(m) && m.config.Some? && m.config.value.option.Some? && m.executor ==>
      (IsConnected(r.mgr) <==> socketOk && streamsOk)
    ensures !IsConnected(m) && m.config.Some? && m.executor && !(socketOk && streamsOk) ==>
      r.mgr.canConnect && r.thrown.None?
      && (reconnecting ==> |r.mgr.tasks| > 0 && r.mgr.tasks[|r.mgr.tasks| - 1] == DisConnectTask(STATE_SOCKET_CLOSE_FAILED))
      && (!reconnecting ==> r.mgr.notices == m.notices + [Notice(StateCodes.STATE_CONNECT_FAILED, true)])
    ensures !IsConnected(m) && m.config.Some? && m.executor && socketOk && streamsOk ==> !r.mgr.canConnect
    ensures !IsConnected(m) && m.config.Some? && m.config.value.option.None? && m.executor && socketOk && streamsOk ==>
      && r.thrown == Some(NullPointer) && !IsConnected(r.mgr) && r.mgr.notices == m.notices
  {
    if IsConnected(m) then Step(m, None)
    else
      PacketRouters.EmptyRouterValid();
      var c0 := Connections.NewConnection().(listening := true);
      var m1 := m.(conn := Some(c0), remoteWatches := 0);
      match m.config
      case None => Step(m1, Some(NullPointer))
      case Some(cfg) =>
        var s1 := if cfg.isServer then Step(m1, None) else Submit(m1, WaitForConnectTask(reconnecting));
        if s1.thrown.Some? then s1
        else
          var o := Connections.Connect(c0, socketOk, streamsOk, if cfg.option.Some? then Some(cfg.option.value.pulseFrequency) else None, cfg.registrations);
          AfterConnect(s1.mgr.(conn := Some(o.conn)), cfg.isServer, reconnecting, o.thrown)
  }

  /** ConnectTask once `connect()` has returned or thrown: an IOException
      reopens the gate and is reported (a reconnect hands it to a
      DisConnectTask); otherwise the gate stays closed, and a server reports
      success once `connect()` has set the connected flag, which is when it
      calls the connection listener. The connection is left as `connect()`
      made it. */
  function AfterConnect(m: Manager, isServer: bool, reconnecting: bool, thrown: Option<Error>): (r: Step)
    requires Valid(m)
    ensures Valid(r.mgr)
    ensures r.mgr.conn == m.conn
    ensures thrown == Some(IOFailure) && m.executor ==>
      r.mgr.canConnect && r.thrown.None?
      && (reconnecting ==> |r.mgr.tasks| > 0 && r.mgr.tasks[|r.mgr.tasks| - 1] == DisConnectTask(STATE_SOCKET_CLOSE_FAILED))
      && (!reconnecting ==> r.mgr.notices == m.notices + [Notice(StateCodes.STATE_CONNECT_FAILED, true)])
    ensures thrown != Some(IOFailure) ==> !r.mgr.canConnect
  {
    if thrown == Some(IOFailure) then
      var s2 := if reconnecting then Submit(m, DisConnectTask(STATE_SOCKET_CLOSE_FAILED))
                else Notify(m, StateCodes.STATE_CONNECT_FAILED, true);
      if s2.thrown.Some? then s2 else Step(s2.mgr.(canConnect := true), None)
    else
      var m1 := m.(canConnect := false);
      var s3 := if isServer && m.conn.Some? && m.conn.value.connected then OnConnectSuccess(m1) else Step(m1, None);
      if s3.thrown.Some? then s3 else Step(s3.mgr, thrown)
  }

  /** SendTask: `mConnection.sendMessage` on the executor. */
  function RunSendTask(m: Manager, msg: Option<Message>): (r: Step)
    requires Valid(m)
    ensures Valid(r.mgr)
    ensures m.conn.None? ==> r == Step(m, Some(NullPointer))
    ensures m.conn.Some? ==> (r.thrown.None? <==> Connections.SendMessage(m.conn.value, msg).Success?)
    ensures m.conn.Some? && r.thrown.None? ==>
      r.mgr == m.(conn := Some(Connections.SendMessage(m.conn.value, msg).value))
  {
    match m.conn
    case None => Step(m, Some(NullPointer))
    case Some(c) =>
      match Connections.SendMessage(c, msg)
      case Failure(e) => Step(m, Some(e))
      case Success(c1) => Step(m.(conn := Some(c1)), None)
  }

  /** What the outside world does while a task runs. */
  datatype Env = Env(
    socketOk: bool,
    streamsOk: bool,
    stateArrivals: seq<Message>,
    loginReply: Option<bytes>,
    logoutReply: Option<bytes>)

  /** The executor runs the `i`-th pending task; tasks run in any order. */
  function RunTask(m: Manager, i: nat, env: Env): (r: Step)
    requires Valid(m) && i < |m.tasks|
    ensures Valid(r.mgr)
  {
    var t := m.tasks[i];
    var m1 := m.(tasks := m.tasks[..i] + m.tasks[i + 1..]);
    match t
    case ConnectTask(reconnecting) => RunConnectTask(m1, reconnecting, env.socketOk, env.streamsOk)
    case DisConnectTask(state) => RunDisConnectTask(m1, state, env.logoutReply)
    case WaitForConnectTask(reconnecting) => RunWaitForConnectTask(m1, reconnecting, env.stateArrivals, env.loginReply)
    case SendTask(msg) => RunSendTask(m1, msg)
  }

  /** Destroying the manager queues a clean close but drops the
      configuration at once, so when that task runs it takes the early
      return: no one is told, the connection is kept and the gate stays
      closed. */
  lemma DestroyKeepsConnection(m: Manager, env: Env)
    requires Valid(m) && m.executor
    ensures var d := OnDestroy(m).mgr;
      && d.tasks[|d.tasks| - 1] == DisConnectTask(STATE_SOCKET_CLOSE_SUCCESSFUL)
      && var r := RunTask(d, |d.tasks| - 1, env).mgr;
      && r.conn == m.conn && r.notices == m.notices && !r.canConnect
  {
    var d := OnDestroy(m).mgr;
    var i := |d.tasks| - 1;
    assert d.tasks[..i] + d.tasks[i + 1..] == m.tasks;
  }

  /** The connection's `onSocketClosed` callback: the gate reopens and a
      DisConnectTask for the failed socket is queued. */
  function SocketClosed(m: Manager): (r: Step)
    requires Valid(m)
    ensures Valid(r.mgr) && r.mgr.canConnect
    ensures r.thrown.None? <==> m.executor
    ensures m.executor ==> r.mgr == m.(canConnect := true, tasks := m.tasks + [DisConnectTask(STATE_SOCKET_CLOSE_FAILED)])
  {
    Submit(m.(canConnect := true), DisConnectTask(STATE_SOCKET_CLOSE_FAILED))
  }

  /** A closed socket is reported once, when the task it queued runs: the
      listeners hear SOCKET_CLOSE_FAILED with an exception, the connection
      is dropped and the gate is open. */
  lemma SocketClosedReported(m: Manager, env: Env)
    requires Valid(m) && m.executor
    ensures var c := SocketClosed(m).mgr;
      && |c.tasks| > 0
      && var r := RunTask(c, |c.tasks| - 1, env);
      && r.thrown.None? && r.mgr.conn.None? && r.mgr.canConnect
      && r.mgr.notices == m.notices + [Notice(STATE_SOCKET_CLOSE_FAILED, true)]
  {
    var c := SocketClosed(m).mgr;
    var i := |c.tasks| - 1;
    assert c.tasks[..i] + c.tasks[i + 1..] == m.tasks;
    assert NotifiesWithException(STATE_SOCKET_CLOSE_FAILED);
  }

  // ---- messages and message listeners ----

  /** `sendMessage`: a SendTask is queued. */
  function SendMessage(m: Manager, msg: Option<Message>): (r: Step)
    requires Valid(m)
    ensures Valid(r.mgr)
    ensures m.executor ==> r == Step(m.(tasks := m.tasks + [SendTask(msg)]), None)
  {
    Submit(m, SendTask(msg))
  }

  /** The manager after a synchronous call, the reply, and the exception
      that ended the call, if any. */
  datatype SyncStep = SyncStep(mgr: Manager, reply: Option<Message>, thrown: Option<Error>)

  /** Both `sendSyncMessage` overloads, straight to the connection, which
      must exist; what the connection did before throwing is kept. */
  function SendSync(m: Manager, msg: Option<Message>, o: Connections.Overload, arrivals: seq<Message>): (r: SyncStep)
    requires Valid(m)
    ensures Valid(r.mgr) && r.mgr == m.(conn := r.mgr.conn)
    ensures m.conn.None? ==> r == SyncStep(m, None, Some(NullPointer))
    ensures m.conn.Some? ==>
      var s := Connections.SendSync(m.conn.value, msg, o, arrivals);
      r.mgr.conn == Some(s.conn) && r.reply == s.reply && r.thrown == s.thrown
    ensures r.reply.Some? ==> IsConnected(m) && msg.Some? && r.thrown.None?
  {
    match m.conn
    case None => SyncStep(m, None, Some(NullPointer))
    case Some(c) =>
      var s := Connections.SendSync(c, msg, o, arrivals);
      SyncStep(m.(conn := Some(s.conn)), s.reply, s.thrown)
  }

  /** `addMsgListener`: only while connected, else an UnconnectedException. */
  function AddMsgListener(m: Manager, listener: Option<PacketRouters.ObjId>, filterKey: Option<PacketRouters.ObjId>, filter: Filter): (r: Result<Manager>)
    requires Valid(m)
    ensures !IsConnected(m) ==> r == Failure(Unconnected)
    ensures r.Success? ==> IsConnected(m) && Valid(r.value) && r.value == m.(conn := r.value.conn)
  {
    if !IsConnected(m) then Failure(Unconnected)
    else
      var c :- Connections.AddMsgListener(m.conn.value, listener, filterKey, filter);
      Success(m.(conn := Some(c)))
  }

  /** `removeMsgListener`: only while connected, else an
      UnconnectedException. */
  function RemoveMsgListener(m: Manager, listener: Option<PacketRouters.ObjId>): (r: Result<Manager>)
    requires Valid(m)
    ensures !IsConnected(m) ==> r == Failure(Unconnected)
    ensures r.Success? ==> IsConnected(m) && Valid(r.value) && r.value == m.(conn := r.value.conn)
  {
    if !IsConnected(m) then Failure(Unconnected)
    else
      var c :- Connections.RemoveMsgListener(m.conn.value, listener);
      Success(m.(conn := Some(c)))
  }
}
