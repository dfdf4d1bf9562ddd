/** The bookkeeping both reconnection managers share
    (`connection/ReconnectionManager.java` and
    `connection/NativeReconnectionManager.java`): limits taken from the
    connect option on `attach`, a failure counter, and a retry that is
    either scheduled on the handler or not. The handler itself is the
    `pending` flag; firing it is an event of its own. */
module Retries {
  import opened JavaTypes
  import opened Wrappers
  import opened Configs

  const DEFAULT_RECONNECT_INTERVAL: int64 := 5 * 1000
  const DEFAULT_MAX_CONNECTION_FAILED_TIMES: int32 := 12

  /** `enabled` is `isReconnectEnable`; `max` and `delay` are the limits taken
      on attach; `counter` counts failures since the last reset; `pending`
      says a retry is scheduled; `bound` says a connection manager is
      attached. */
  datatype Policy = Policy(
    enabled: bool,
    max: int32,
    delay: int64,
    counter: int32,
    pending: bool,
    bound: bool)

  /** A policy's answer to an event; `maxReached` is the call to
      `onMaxReconnectTimeReached` made just before the policy detaches. */
  datatype Reaction = Reaction(policy: Policy, maxReached: bool)

  /** The field initialisers. */
  const Initial: Policy := Policy(false, 0, DEFAULT_RECONNECT_INTERVAL, 0, false, false)

  /** A retry is scheduled only while enabled, and enabled only while bound. */
  predicate Valid(p: Policy)
  {
    && (p.pending ==> p.enabled)
    && (p.enabled ==> p.bound)
  }

  /** `detach`: any scheduled retry is withdrawn, the count starts over, the
      manager is let go, reconnection is disabled and both limits are 0. */
  const Detached: Policy := Policy(false, 0, 0, 0, false, false)

  /** `reset`: the scheduled retry is withdrawn and the count starts over;
      nothing else changes. */
  function Reset(p: Policy): (r: Policy)
    ensures r.counter == 0 && !r.pending
    ensures r.(counter := p.counter, pending := p.pending) == p
  {
    p.(counter := 0, pending := false)
  }

  /** `reconnectDelay`: one retry is scheduled, replacing any earlier one. */
  function Schedule(p: Policy): (r: Policy)
    ensures r.pending && r.(pending := p.pending) == p
  {
    p.(pending := true)
  }

  /** `mCurrentTimes++` on a Java int. */
  function Count(p: Policy): (r: Policy)
    ensures 0 <= p.counter < 0x7FFF_FFFF ==> r.counter == p.counter + 1
    ensures r.(counter := p.counter) == p
  {
    p.(counter := ToInt32(p.counter + 1))
  }

  /** The result of `attach`. */
  datatype Attached = Attached(policy: Policy, thrown: Option<Error>)

  /** `attach`: detach first, then take the limits from the option, with 0
      standing for the default 12 attempts and the default 5000 ms. A
      missing configuration throws after the manager was bound and before
      anything was enabled. */
  function Attach(option: Option<ConnectOption>): (r: Attached)
    ensures Valid(r.policy)
    ensures r.policy.bound && r.policy.counter == 0 && !r.policy.pending
    ensures option.None? <==> r.thrown.Some?
    ensures option.None? ==> r.thrown == Some(NullPointer) && !r.policy.enabled
    ensures option.Some? ==>
      && r.policy.enabled == option.value.reconnectAllowed
      && r.policy.max != 0 && r.policy.delay != 0
      && (option.value.reconnectMaxAttemptTimes != 0 ==> r.policy.max == option.value.reconnectMaxAttemptTimes)
      && (option.value.reconnectMaxAttemptTimes == 0 ==> r.policy.max == DEFAULT_MAX_CONNECTION_FAILED_TIMES)
      && (option.value.reconnectInterval != 0 ==> r.policy.delay == option.value.reconnectInterval)
      && (option.value.reconnectInterval == 0 ==> r.policy.delay == DEFAULT_RECONNECT_INTERVAL)
  {
    match option
    case None => Attached(Detached.(bound := true), Some(NullPointer))
    case Some(o) =>
      var max := if o.reconnectMaxAttemptTimes == 0 then DEFAULT_MAX_CONNECTION_FAILED_TIMES else o.reconnectMaxAttemptTimes;
      var delay := if o.reconnectInterval == 0 then DEFAULT_RECONNECT_INTERVAL else o.reconnectInterval;
      Attached(Policy(o.reconnectAllowed, max, delay, 0, false, true), None)
  }
}
