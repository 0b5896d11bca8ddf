/**
 The lock regions of the root-policy coordinator (cellular_policy_coordinator.rs). Each region is
 one function on the coordinator's state, and one method of the class that holds that state.
 */
module PolicyCoordinator {
  import opened Common
  import opened CellularOwner

  datatype Request = Request(admission: Admission, interfaceName: Option<string>)

  datatype AuthorityStatus = Granted | InteractiveGrantRequired | Denied | Unavailable | Incomplete

  datatype PolicyFailure =
    | InvalidInterface | ReservedPolicyCollision | ObservationUnavailable | ObservationIncomplete
    | StructuralMismatch | RouteTableDiscoveryFailed | MutationRejected | MutationUncertain
    | LookupRuleCreationFailed | RouteLookupVerificationFailed | ExactCleanupFailed

  datatype PolicyResult =
    Enforced | FailClosed(failure: Option<PolicyFailure>) | AuthorityUnavailable(status: AuthorityStatus)

  predicate Retryable(result: PolicyResult) {
    match result
    case AuthorityUnavailable(status) => status.Unavailable? || status.Incomplete?
    case FailClosed(Some(failure)) =>
      failure.ObservationUnavailable? || failure.ObservationIncomplete? || failure.MutationUncertain?
    case _ => false
  }

  datatype Coordinator = Coordinator(
    latest: Option<Request>, drainScheduled: bool,
    requested: nat, executed: nat, coalesced: nat,
    recoveryPending: bool, recoveryAttempts: nat, recoveryEpoch: nat)

  const IDLE: Coordinator := Coordinator(None, false, 0, 0, 0, false, 0, 0)

  /** A request counts for a generation only while the owner still publishes that generation. */
  predicate SameGeneration(expected: Admission, current: Admission) {
    if expected.lastSequence.None? then
      && expected.state.Unknown? && current.state.Unknown? && current.lastSequence.None?
      && expected.network.None? && current.network.None?
    else
      && expected.lastSequence == current.lastSequence
      && expected.state == current.state && expected.network == current.network
  }

  const RECOVERY_DELAYS_MS: seq<nat> := [0, 1_000, 5_000, 15_000, 30_000, 60_000]

  function RecoveryDelayMs(attempt: nat): nat {
    RECOVERY_DELAYS_MS[if attempt < 5 then attempt else 5]
  }

  /** Replaces the queued request, counting the one it displaces. */
  function Enqueued(c: Coordinator, request: Request): Coordinator {
    c.(latest := Some(request), coalesced := c.coalesced + (if c.latest.Some? then 1 else 0), drainScheduled := true)
  }

  function Offered(c: Coordinator, request: Request): Coordinator {
    Enqueued(c, request).(requested := c.requested + 1, recoveryEpoch := c.recoveryEpoch + 1,
                          recoveryPending := false, recoveryAttempts := 0)
  }

  function RequestTaken(c: Coordinator): Coordinator {
    if c.latest.Some? then c.(latest := None) else c.(drainScheduled := false)
  }

  function RecoveryScheduled(c: Coordinator): Coordinator {
    if c.recoveryPending then c else c.(recoveryPending := true, recoveryAttempts := c.recoveryAttempts + 1)
  }

  /** The timer of `epoch` is still the armed one. */
  predicate Armed(c: Coordinator, epoch: nat) {
    c.recoveryPending && c.recoveryEpoch == epoch
  }

  function RecoveryFired(c: Coordinator, epoch: nat, request: Request, current: bool): Coordinator {
    if !Armed(c, epoch) then c
    else if !current then c.(recoveryPending := false)
    else Enqueued(c, request).(recoveryPending := false)
  }

  function RecoveryReset(c: Coordinator): Coordinator {
    c.(recoveryEpoch := c.recoveryEpoch + 1, recoveryPending := false, recoveryAttempts := 0)
  }

  class CellularPolicyCoordinator {
    var latest: Option<Request>
    var drainScheduled: bool
    var requested: nat
    var executed: nat
    var coalesced: nat
    var recoveryPending: bool
    var recoveryAttempts: nat
    var recoveryEpoch: nat

    function View(): Coordinator
      reads this
    {
      Coordinator(latest, drainScheduled, requested, executed, coalesced, recoveryPending, recoveryAttempts,
        recoveryEpoch)
    }

    constructor ()
      ensures View() == IDLE
    {
      latest, drainScheduled, requested, executed, coalesced := None, false, 0, 0, 0;
      recoveryPending, recoveryAttempts, recoveryEpoch := false, 0, 0;
    }

    /** Returns whether the caller has to spawn a drain. */
    method OfferNewOwnerRequest(request: Request) returns (schedule: bool)
      modifies this
      ensures View() == Offered(old(View()), request)
      ensures schedule == !old(drainScheduled)
    {
      requested := requested + 1;
      if latest.Some? { coalesced := coalesced + 1; }
      latest := Some(request);
      recoveryEpoch, recoveryPending, recoveryAttempts := recoveryEpoch + 1, false, 0;
      schedule := !drainScheduled;
      drainScheduled := true;
    }

    /** The lock region at the head of the drain loop; `None` ends the drain. */
    method TakeLatest() returns (request: Option<Request>)
      modifies this
      ensures View() == RequestTaken(old(View()))
      ensures request == old(latest)
    {
      request := latest;
      latest := None;
      if request.None? { drainScheduled := false; }
    }

    method RecordExecuted()
      modifies this
      ensures View() == old(View()).(executed := old(executed) + 1)
    {
      executed := executed + 1;
    }

    /** Returns the epoch and delay of the timer to spawn, if none was pending. */
    method ScheduleRecovery() returns (timer: Option<(nat, nat)>)
      modifies this
      ensures View() == RecoveryScheduled(old(View()))
      ensures timer == if old(recoveryPending) then None
                       else Some((old(recoveryEpoch), RecoveryDelayMs(old(recoveryAttempts))))
    {
      if recoveryPending { return None; }
      timer := Some((recoveryEpoch, RecoveryDelayMs(recoveryAttempts)));
      recoveryAttempts := recoveryAttempts + 1;
      recoveryPending := true;
    }

    /** `current` is the owner's answer, read inside the region. */
    method FireRecovery(epoch: nat, request: Request, current: bool) returns (scheduleDrain: bool)
      modifies this
      ensures View() == RecoveryFired(old(View()), epoch, request, current)
      ensures scheduleDrain == (Armed(old(View()), epoch) && current && !old(drainScheduled))
    {
      if recoveryEpoch != epoch || !recoveryPending { return false; }
      recoveryPending := false;
      if !current { return false; }
      if latest.Some? { coalesced := coalesced + 1; }
      latest := Some(request);
      scheduleDrain := !drainScheduled;
      drainScheduled := true;
    }

    method ResetRecovery()
      modifies this
      ensures View() == RecoveryReset(old(View()))
    {
      recoveryEpoch, recoveryPending, recoveryAttempts := recoveryEpoch + 1, false, 0;
    }
  }

  /** Two admissions count as one generation exactly when they agree in all but the reason, and are not half-made. */
  lemma SameGenerationExactly(expected: Admission, current: Admission)
    ensures SameGeneration(expected, current) <==>
      && expected.lastSequence == current.lastSequence && expected.state == current.state
      && expected.network == current.network
      && (expected.lastSequence.None? ==> expected.state == Unknown && expected.network == None)
  {
  }

  /** Retries come at once, then after 1, 5, 15 and 30 seconds, then every minute; later ones never come sooner. */
  lemma RetriesSlowDown(attempt: nat, later: nat)
    requires attempt <= later
    ensures RecoveryDelayMs(attempt) <= RecoveryDelayMs(later) <= 60_000
    ensures attempt < later <= 5 ==> RecoveryDelayMs(attempt) < RecoveryDelayMs(later)
    ensures later >= 5 ==> RecoveryDelayMs(later) == 60_000
    ensures RecoveryDelayMs(0) == 0 && RecoveryDelayMs(1) == 1_000 && RecoveryDelayMs(2) == 5_000
    ensures RecoveryDelayMs(3) == 15_000 && RecoveryDelayMs(4) == 30_000
  {
  }
}
