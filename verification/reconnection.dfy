/** The older reconnection policy, `connection/ReconnectionManager.java`:
    it counts failures of the local connection itself, retries by calling
    `connect(true)` after a delay, and has no single-flight guard. */
module Reconnections {
  import opened JavaTypes
  import opened StateCodes
  import opened Retries

  /** `onConnectStateChange`. A disabled policy detaches on any code; a
      clean close detaches; a failed connect is counted and either schedules
      a retry or, at the maximum, reports it and detaches; a closed socket
      schedules a retry without counting when an exception came with it and
      detaches otherwise; a successful connect resets. */
  function OnConnectStateChange(p: Policy, code: int, withException: bool): (r: Reaction)
    ensures Valid(p) ==> Valid(r.policy)
    ensures !p.enabled || code == STATE_SOCKET_CLOSE_SUCCESSFUL ==> r == Reaction(Detached, false)
    ensures r.maxReached ==> r.policy == Detached && p.enabled && code == STATE_CONNECT_FAILED && Count(p).counter >= p.max
    ensures p.enabled && code == STATE_CONNECT_FAILED ==>
      (r.maxReached <==> Count(p).counter >= p.max) && (!r.maxReached ==> r.policy == Schedule(Count(p)))
    ensures p.enabled && code == STATE_SOCKET_CLOSE_FAILED ==>
      r == Reaction(if withException then Schedule(p) else Detached, false)
    ensures p.enabled && code == STATE_CONNECT_SUCCESSFUL ==> r == Reaction(Reset(p), false)
    ensures r.policy.pending ==> p.pending || code == STATE_CONNECT_FAILED || code == STATE_SOCKET_CLOSE_FAILED
  {
    if !p.enabled then Reaction(Detached, false)
    else if code == STATE_SOCKET_CLOSE_SUCCESSFUL then Reaction(Detached, false)
    else if code == STATE_CONNECT_FAILED then
      var c := Count(p);
      if c.counter >= c.max then Reaction(Detached, true) else Reaction(Schedule(c), false)
    else if code == STATE_SOCKET_CLOSE_FAILED then
      if withException then Reaction(Schedule(p), false) else Reaction(Detached, false)
    else if code == STATE_CONNECT_SUCCESSFUL then Reaction(Reset(p), false)
    else Reaction(p, false)
  }

  /** The result of the handler firing: the policy, and whether
      `connect(true)` is called. */
  datatype Fired = Fired(policy: Policy, reconnect: bool)

  /** The handler firing: the scheduled retry is used up, and the manager
      is asked to reconnect only when it is not connected already. */
  function Fire(p: Policy, connected: bool): (r: Fired)
    requires p.pending
    ensures !r.policy.pending && r.policy.(pending := true) == p
    ensures r.reconnect <==> !connected
  {
    Fired(p.(pending := false), !connected)
  }

  /** A retry fires, reconnects, and the connect fails again. */
  function FailedRetry(p: Policy): Reaction
  {
    OnConnectStateChange(p.(pending := false), STATE_CONNECT_FAILED, true)
  }

  /** `n` failed connects in a row, each after the previous retry fired:
      the final policy, the retries scheduled, and the maximum reports. */
  function FailRun(p: Policy, n: nat): (Policy, nat, nat)
    decreases n
  {
    if n == 0 then (p, 0, 0)
    else
      var r := FailedRetry(p);
      var (q, retries, maxed) := FailRun(r.policy, n - 1);
      (q, retries + (if r.policy.pending then 1 else 0), maxed + (if r.maxReached then 1 else 0))
  }

  /** From an enabled policy that has counted `c` failed connects of at most
      `max`, the next `max - c` failures schedule `max - c - 1` retries,
      report the maximum once and detach. */
  lemma {:induction false} MaxFailuresGiveUp(p: Policy)
    requires p.enabled && 0 <= p.counter < p.max
    ensures FailRun(p, p.max - p.counter) == (Detached, p.max - p.counter - 1, 1)
    decreases p.max - p.counter
  {
    var r := FailedRetry(p);
    var c := Count(p.(pending := false));
    assert c.counter == p.counter + 1;
    if c.counter >= c.max {
      assert r == Reaction(Detached, true);
      assert FailRun(r.policy, 0) == (Detached, 0, 0);
    } else {
      assert r == Reaction(Schedule(c), false);
      MaxFailuresGiveUp(r.policy);
    }
  }

  /** Socket closures that come with an exception are not counted: any
      number of them, each after the previous retry fired, keeps the count
      and keeps one retry scheduled, so they never reach the maximum. */
  function CloseRun(p: Policy, n: nat): (r: Reaction)
    decreases n
  {
    if n == 0 then Reaction(p, false)
    else
      var r := OnConnectStateChange(p.(pending := false), STATE_SOCKET_CLOSE_FAILED, true);
      if r.maxReached then r else CloseRun(r.policy, n - 1)
  }

  lemma {:induction false} CloseFailuresNotCounted(p: Policy, n: nat)
    requires p.enabled && n > 0
    ensures CloseRun(p, n) == Reaction(p.(pending := true), false)
    decreases n
  {
    if n > 1 {
      CloseFailuresNotCounted(p.(pending := true), n - 1);
    }
  }
}
