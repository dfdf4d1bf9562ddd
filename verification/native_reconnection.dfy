/** The reconnection policy the connection manager actually uses,
    `connection/NativeReconnectionManager.java`: it counts failures to
    reach the remote server through the local daemon, retries one at a time
    after a delay, and gives up after the attached maximum. */
module NativeReconnections {
  import opened JavaTypes
  import opened StateCodes
  import opened Retries

  /** The two codes the policy counts as a failed reconnection. */
  predicate IsFailure(code: int)
  {
    code == STATE_RECONNECT_REMOTE_FAILED || code == STATE_REMOTE_SOCKET_CLOSED
  }

  /** `onConnectStateChange`. A disabled policy detaches on any code; while
      a retry is scheduled every code is ignored; a clean close detaches; a
      successful reconnect resets; a failure is counted and either schedules
      the next retry or, at the maximum, reports it and detaches. */
  function OnConnectStateChange(p: Policy, code: int): (r: Reaction)
    ensures Valid(p) ==> Valid(r.policy)
    ensures !p.enabled ==> r == Reaction(Detached, false)
    ensures p.enabled && p.pending ==> r == Reaction(p, false)
    ensures p.enabled && !p.pending && code == STATE_SOCKET_CLOSE_SUCCESSFUL ==> r == Reaction(Detached, false)
    ensures p.enabled && !p.pending && code == STATE_RECONNECT_REMOTE_SUCCESS ==> r == Reaction(Reset(p), false)
    ensures r.maxReached ==> r.policy == Detached && p.enabled && IsFailure(code) && Count(p).counter >= p.max
    ensures r.policy.pending && !p.pending ==>
      IsFailure(code) && r.policy == Schedule(Count(p)) && r.policy.counter < p.max
    ensures p.enabled && !p.pending && IsFailure(code) ==> r.maxReached || r.policy.pending
    ensures p.enabled && !p.pending && !IsFailure(code) ==>
      (code != STATE_SOCKET_CLOSE_SUCCESSFUL && code != STATE_RECONNECT_REMOTE_SUCCESS ==> r == Reaction(p, false))
  {
    if !p.enabled then Reaction(Detached, false)
    else if p.pending then Reaction(p, false)
    else if code == STATE_SOCKET_CLOSE_SUCCESSFUL then Reaction(Detached, false)
    else if code == STATE_RECONNECT_REMOTE_SUCCESS then Reaction(Reset(p), false)
    else if IsFailure(code) then
      var c := Count(p);
      if c.counter >= c.max then Reaction(Detached, true) else Reaction(Schedule(c), false)
    else Reaction(p, false)
  }

  /** The handler firing: the pending flag is cleared before the retry is
      attempted, so the outcome of the attempt is heard again. */
  function Fire(p: Policy): (r: Policy)
    requires p.pending
    ensures !r.pending && r.(pending := true) == p
  {
    p.(pending := false)
  }

  /** A retry that gets no connected notice in time feeds
      RECONNECT_REMOTE_FAILED back into the policy. */
  function FailedRetry(p: Policy): Reaction
  {
    OnConnectStateChange(p.(pending := false), STATE_RECONNECT_REMOTE_FAILED)
  }

  /** `n` failures in a row, each after the previous retry fired: the final
      policy, how many further retries were scheduled, and how many times
      the maximum was reported. */
  function FailRun(p: Policy, n: nat): (Policy, nat, nat)
    decreases n
  {
    if n == 0 then (p, 0, 0)
    else
      var r := FailedRetry(p);
      var (q, retries, maxed) := FailRun(r.policy, n - 1);
      (q, retries + (if r.policy.pending then 1 else 0), maxed + (if r.maxReached then 1 else 0))
  }

  /** From an enabled policy that has counted `c` failures of at most `max`,
      the next `max - c` failures schedule `max - c - 1` retries, report the
      maximum exactly once, and leave the policy detached; in particular a
      freshly attached policy gives up after `max` failures and `max - 1`
      retries. */
  lemma {:induction false} MaxFailuresGiveUp(p: Policy)
    requires p.enabled && 0 <= p.counter < p.max
    ensures FailRun(p, p.max - p.counter) == (Detached, p.max - p.counter - 1, 1)
    decreases p.max - p.counter
  {
    var r := FailedRetry(p);
    var c := Count(p.(pending := false));
    assert c.counter == p.counter + 1;
    if c.counter >= c.max {
      assert r == Reaction(Detached, true);
      assert FailRun(r.policy, 0) == (Detached, 0, 0);
    } else {
      assert r == Reaction(Schedule(c), false);
      MaxFailuresGiveUp(r.policy);
    }
  }

  /** A detached policy stays detached whatever it hears. */
  lemma DetachedStaysDetached(code: int)
    ensures OnConnectStateChange(Detached, code) == Reaction(Detached, false)
  {
  }
}
