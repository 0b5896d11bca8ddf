/** Product readiness: a pure projection of owner facts and of one generation-bound egress probe. */
module Readiness {
  import opened Common

  datatype ProbeOutcome = Succeeded | DnsFailed | TlsFailed | AuthenticationFailed | TransportFailed | Timeout

  datatype ProbeBinding = ProbeBinding(cellular: nat, runtime: nat, proxyServing: nat, meshEpoch: nat, credential: nat)

  datatype Observation = Observation(outcome: ProbeOutcome, binding: ProbeBinding, freshness: nat)

  datatype CellularFact = CellularFact(generation: nat, admitted: bool, rootPolicyVerified: bool)

  datatype ProxyFact = ProxyFact(runtime: nat, serving: Option<nat>, credential: Option<nat>, healthy: bool)

  datatype CredentialFact = CredentialFact(version: nat, active: bool)

  datatype MeshFact = MeshFact(runtime: nat, epoch: Option<nat>, admitted: bool)

  datatype Input = Input(
    cellular: Option<CellularFact>, runtime: Option<nat>, proxy: Option<ProxyFact>, credential: Option<CredentialFact>,
    mesh: Option<MeshFact>, expectedFreshness: Option<nat>, probe: Option<Observation>)

  datatype Eligibility = Eligible(binding: ProbeBinding) | Ineligible | Undetermined

  datatype Verdict = Ready | NotReady | Degraded | Unknown

  function ProbeEligibility(i: Input): Eligibility {
    if i.cellular.None? || i.runtime.None? || i.proxy.None? || i.credential.None? || i.mesh.None? then Undetermined
    else
      var cellular, runtime, proxy, credential, mesh :=
        i.cellular.value, i.runtime.value, i.proxy.value, i.credential.value, i.mesh.value;
      if !cellular.admitted || !cellular.rootPolicyVerified || !proxy.healthy || !credential.active
        || !mesh.admitted then
        Ineligible
      else if proxy.runtime != runtime || mesh.runtime != runtime then Undetermined
      else if proxy.serving.None? || proxy.credential.None? || mesh.epoch.None? then Undetermined
      else if proxy.credential.value != credential.version then Undetermined
      else Eligible(ProbeBinding(cellular.generation, runtime, proxy.serving.value, mesh.epoch.value,
        credential.version))
  }

  function Project(i: Input): Verdict {
    match ProbeEligibility(i)
    case Ineligible => NotReady
    case Undetermined => Unknown
    case Eligible(binding) =>
      if i.expectedFreshness.None? || i.probe.None? then Unknown
      else if i.probe.value.binding != binding || i.probe.value.freshness != i.expectedFreshness.value then Unknown
      else if i.probe.value.outcome.Succeeded? then Ready
      else Degraded
  }

  // ----- the probe coordinator -------------------------------------------------------------------------

  datatype Ticket = Ticket(binding: ProbeBinding, freshness: nat)

  datatype Coordinator = Coordinator(lastFreshness: nat, current: Option<Ticket>)

  const FRESH_START: Coordinator := Coordinator(0, None)

  datatype Call =
    | Begin(binding: ProbeBinding)
    | Invalidate
    | Complete(ticket: Ticket, reported: ProbeOutcome, elapsed: nat, budget: nat)

  predicate Issues(c: Coordinator, call: Call) {
    !call.Complete? && c.lastFreshness + 1 < U64_LIMIT
  }

  function After(c: Coordinator, call: Call): Coordinator {
    match call
    case Begin(binding) =>
      if Issues(c, call) then Coordinator(c.lastFreshness + 1, Some(Ticket(binding, c.lastFreshness + 1))) else c
    case Invalidate => if Issues(c, call) then Coordinator(c.lastFreshness + 1, None) else c
    case Complete(ticket, _, _, _) => if c.current == Some(ticket) then c.(current := None) else c
  }

  /** What a completion publishes; the budget is judged here, not by the effect. */
  function Observed(c: Coordinator, call: Call): Option<Observation> {
    if call.Complete? && c.current == Some(call.ticket) then
      var outcome := if call.elapsed >= call.budget then Timeout else call.reported;
      Some(Observation(outcome, call.ticket.binding, call.ticket.freshness))
    else None
  }

  function ExpectedFreshness(c: Coordinator): Option<nat> {
    if c.lastFreshness == 0 then None else Some(c.lastFreshness)
  }

  class EgressProbeCoordinator {
    var lastFreshness: nat
    var current: Option<Ticket>

    function View(): Coordinator
      reads this
    {
      Coordinator(lastFreshness, current)
    }

    constructor ()
      ensures View() == FRESH_START
    {
      lastFreshness, current := 0, None;
    }

    method NextFreshness() returns (freshness: Option<nat>)
      modifies this
      ensures freshness == CheckedAdd(old(lastFreshness), 1) && current == old(current)
      ensures lastFreshness == if freshness.Some? then freshness.value else old(lastFreshness)
    {
      freshness := CheckedAdd(lastFreshness, 1);
      if freshness.Some? { lastFreshness := freshness.value; }
    }

    method BeginProbe(binding: ProbeBinding) returns (ticket: Option<Ticket>)
      modifies this
      ensures View() == After(old(View()), Begin(binding))
      ensures ticket == if Issues(old(View()), Begin(binding)) then current else None
    {
      var freshness := NextFreshness();
      if freshness.None? { return None; }
      current := Some(Ticket(binding, freshness.value));
      return current;
    }

    method InvalidateProbe() returns (freshness: Option<nat>)
      modifies this
      ensures View() == After(old(View()), Invalidate)
      ensures freshness == if Issues(old(View()), Invalidate) then Some(lastFreshness) else None
    {
      freshness := NextFreshness();
      if freshness.Some? { current := None; }
    }

    method CompleteBounded(ticket: Ticket, reported: ProbeOutcome, elapsed: nat, budget: nat)
      returns (observation: Option<Observation>)
      modifies this
      ensures View() == After(old(View()), Complete(ticket, reported, elapsed, budget))
      ensures observation == Observed(old(View()), Complete(ticket, reported, elapsed, budget))
    {
      if current != Some(ticket) { return None; }
      current := None;
      var outcome := if elapsed >= budget then Timeout else reported;
      return Some(Observation(outcome, ticket.binding, ticket.freshness));
    }
  }

  // ----- runs -----------------------------------------------------------------------------------------------

  predicate IsRun(states: seq<Coordinator>, calls: seq<Call>) {
    && |states| == |calls| + 1 && states[0] == FRESH_START
    && forall i | 0 <= i < |calls| :: states[i + 1] == After(states[i], calls[i])
  }

  /** Freshness only grows, by one with every begin or invalidate that is not exhausted. */
  lemma {:induction false} FreshnessIncreases(states: seq<Coordinator>, calls: seq<Call>, i: nat, j: nat)
    requires IsRun(states, calls) && i <= j < |states|
    ensures states[i].lastFreshness <= states[j].lastFreshness
    ensures forall k | i <= k < j && Issues(states[k], calls[k]) :: states[i].lastFreshness < states[j].lastFreshness
  {
    if i < j {
      FreshnessIncreases(states, calls, i, j - 1);
      assert states[j - 1 + 1] == After(states[j - 1], calls[j - 1]);
    }
  }

  /** Whatever ticket is current was issued by a begin since which nothing was issued. */
  lemma {:induction false} CurrentWasIssued(states: seq<Coordinator>, calls: seq<Call>, n: nat) returns (b: nat)
    requires IsRun(states, calls) && n < |states| && states[n].current.Some?
    ensures b < n && calls[b] == Begin(states[n].current.value.binding) && Issues(states[b], calls[b])
    ensures states[b + 1].lastFreshness == states[n].current.value.freshness == states[n].lastFreshness
  {
    assert states[n - 1 + 1] == After(states[n - 1], calls[n - 1]);
    if calls[n - 1].Begin? && Issues(states[n - 1], calls[n - 1]) {
      b := n - 1;
    } else {
      b := CurrentWasIssued(states, calls, n - 1);
    }
  }

  /** A ticket yields at most one observation. */
  lemma OneObservationPerTicket(states: seq<Coordinator>, calls: seq<Call>, i: nat, j: nat)
    requires IsRun(states, calls) && i < j < |calls|
    requires Observed(states[i], calls[i]).Some? && Observed(states[j], calls[j]).Some?
    ensures Observed(states[i], calls[i]).value.freshness < Observed(states[j], calls[j]).value.freshness
  {
    var b := CurrentWasIssued(states, calls, i);
    var c := CurrentWasIssued(states, calls, j);
    if c < i {
      assert calls[c].Begin?;
      NoTicketBetween(states, calls, c, i, j);
    } else {
      FreshnessIncreases(states, calls, i, c);
      assert states[c + 1] == After(states[c], calls[c]);
    }
  }

  /** Once the ticket of a begin is consumed, it is never current again before another begin. */
  lemma NoTicketBetween(states: seq<Coordinator>, calls: seq<Call>, c: nat, i: nat, j: nat)
    requires IsRun(states, calls) && c < i < j < |states|
    requires Observed(states[i], calls[i]).Some?
    requires states[c + 1].lastFreshness == states[j].lastFreshness
    ensures states[j].current.None?
  {
    FreshnessIncreases(states, calls, c + 1, i);
    FreshnessIncreases(states, calls, i, j);
    assert states[i + 1] == After(states[i], calls[i]);
    var k := i + 1;
    while k < j
      invariant i < k <= j && states[k].current.None?
    {
      FreshnessIncreases(states, calls, c + 1, k);
      FreshnessIncreases(states, calls, k, k + 1);
      FreshnessIncreases(states, calls, k + 1, j);
      assert states[k + 1] == After(states[k], calls[k]);
      k := k + 1;
    }
  }

  predicate SameKeys(i: Input, b: ProbeBinding) {
    && i.cellular.Some? && i.cellular.value.generation == b.cellular
    && i.runtime == Some(b.runtime)
    && i.proxy.Some? && i.proxy.value.serving == Some(b.proxyServing)
    && i.mesh.Some? && i.mesh.value.epoch == Some(b.meshEpoch)
    && i.credential.Some? && i.credential.value.version == b.credential
  }

  /**
   Ready, from an observation and a freshness of one run: the probe succeeded inside its budget, was bound
   to all five current owner keys, and nothing was begun or invalidated since its ticket was issued.
   */
  lemma ReadyMeansFresh(states: seq<Coordinator>, calls: seq<Call>, j: nat, n: nat, i: Input) returns (b: nat)
    requires IsRun(states, calls) && j < n < |states|
    requires Observed(states[j], calls[j]).Some? && i.probe == Observed(states[j], calls[j])
    requires i.expectedFreshness == ExpectedFreshness(states[n]) && Project(i) == Ready
    ensures b < j && calls[b] == Begin(i.probe.value.binding)
    ensures states[b + 1].current == Some(calls[j].ticket)
    ensures forall k | b < k < n :: !Issues(states[k], calls[k])
    ensures calls[j].reported == Succeeded && calls[j].elapsed < calls[j].budget
    ensures SameKeys(i, i.probe.value.binding)
  {
    b := CurrentWasIssued(states, calls, j);
    assert states[b + 1] == After(states[b], calls[b]);
    FreshnessIncreases(states, calls, b + 1, n);
  }

  // ----- the verdicts, on the fields ------------------------------------------------------------------------

  /** The five owner facts. */
  datatype Facts = Facts(cellular: CellularFact, runtime: nat, proxy: ProxyFact, credential: CredentialFact,
                         mesh: MeshFact)

  predicate Reports(i: Input, f: Facts) {
    && i.cellular == Some(f.cellular) && i.runtime == Some(f.runtime) && i.proxy == Some(f.proxy)
    && i.credential == Some(f.credential) && i.mesh == Some(f.mesh)
  }

  predicate AllGood(f: Facts) {
    && f.cellular.admitted && f.cellular.rootPolicyVerified && f.proxy.healthy && f.credential.active
    && f.mesh.admitted
  }

  /** Proxy and mesh belong to the current runtime, and the proxy serves the active credential. */
  predicate OneRuntime(f: Facts) {
    f.proxy.runtime == f.runtime && f.mesh.runtime == f.runtime && f.proxy.credential == Some(f.credential.version)
  }

  /** The probe is bound to the generations the facts report now, and is the expected one. */
  predicate Probes(p: Observation, f: Facts, freshness: Option<nat>) {
    && p.binding.cellular == f.cellular.generation && p.binding.runtime == f.runtime
    && Some(p.binding.proxyServing) == f.proxy.serving && Some(p.binding.meshEpoch) == f.mesh.epoch
    && p.binding.credential == f.credential.version && Some(p.freshness) == freshness
  }

  ghost predicate CurrentProbe(i: Input) {
    i.probe.Some? && exists f :: Reports(i, f) && AllGood(f) && OneRuntime(f)
                                 && Probes(i.probe.value, f, i.expectedFreshness)
  }

  /** Exactly when each verdict is given; anything else is `Unknown`. */
  lemma VerdictExactly(i: Input)
    ensures Project(i) == Ready <==> CurrentProbe(i) && i.probe.value.outcome == Succeeded
    ensures Project(i) == Degraded <==> CurrentProbe(i) && i.probe.value.outcome != Succeeded
    ensures Project(i) == NotReady <==> exists f :: Reports(i, f) && !AllGood(f)
  {
    if i.cellular.Some? && i.runtime.Some? && i.proxy.Some? && i.credential.Some? && i.mesh.Some? {
      var f := Facts(i.cellular.value, i.runtime.value, i.proxy.value, i.credential.value, i.mesh.value);
      assert Reports(i, f);
      assert forall other | Reports(i, other) :: other == f;
    }
  }

  /** A probe may be started exactly on five good facts of one runtime that serve and admit something. */
  lemma EligibleExactly(i: Input, binding: ProbeBinding)
    ensures ProbeEligibility(i) == Eligible(binding) <==>
      exists f :: Reports(i, f) && AllGood(f) && OneRuntime(f)
                  && Probes(Observation(Succeeded, binding, 0), f, Some(0))
  {
    if i.cellular.Some? && i.runtime.Some? && i.proxy.Some? && i.credential.Some? && i.mesh.Some? {
      var f := Facts(i.cellular.value, i.runtime.value, i.proxy.value, i.credential.value, i.mesh.value);
      assert Reports(i, f);
      assert forall other | Reports(i, other) :: other == f;
    }
  }

  // ----- the coordinator, on the calls alone ------------------------------------------------------------------

  /** How many of the first `n` calls begin or invalidate. */
  function Advances(calls: seq<Call>, n: nat): nat
    requires n <= |calls|
  {
    if n == 0 then 0 else Advances(calls, n - 1) + if calls[n - 1].Complete? then 0 else 1
  }

  /** Freshness counts those calls, until the last 64-bit value is reached. */
  lemma {:induction false} FreshnessCounts(states: seq<Coordinator>, calls: seq<Call>, n: nat)
    requires IsRun(states, calls) && n < |states|
    ensures states[n].lastFreshness ==
      if Advances(calls, n) < U64_LIMIT then Advances(calls, n) else U64_LIMIT - 1
  {
    if n != 0 {
      FreshnessCounts(states, calls, n - 1);
      assert states[n - 1 + 1] == After(states[n - 1], calls[n - 1]);
    }
  }

  /** Call `b` issued the ticket, and until `n` nothing was issued after it and it was not completed. */
  ghost predicate OpenSince(states: seq<Coordinator>, calls: seq<Call>, b: nat, n: nat, ticket: Ticket)
    requires IsRun(states, calls)
  {
    && b < n < |states| && calls[b] == Begin(ticket.binding) && Issues(states[b], calls[b])
    && ticket.freshness == states[b].lastFreshness + 1
    && forall k | b < k < n ::
         !Issues(states[k], calls[k]) && !(calls[k].Complete? && calls[k].ticket == ticket)
  }

  /** A ticket is current exactly while it is open. */
  lemma {:induction false} TicketExactly(states: seq<Coordinator>, calls: seq<Call>, n: nat, ticket: Ticket)
    requires IsRun(states, calls) && n < |states|
    ensures states[n].current == Some(ticket) <==> exists b :: OpenSince(states, calls, b, n, ticket)
  {
    if n != 0 {
      TicketExactly(states, calls, n - 1, ticket);
      assert states[n - 1 + 1] == After(states[n - 1], calls[n - 1]);
      if states[n].current == Some(ticket) {
        if states[n - 1].current == Some(ticket) && !Issues(states[n - 1], calls[n - 1]) {
          var b :| OpenSince(states, calls, b, n - 1, ticket);
          assert OpenSince(states, calls, b, n, ticket);
        } else {
          assert OpenSince(states, calls, n - 1, n, ticket);
        }
      }
      if b: nat :| OpenSince(states, calls, b, n, ticket) {
        if b < n - 1 {
          assert OpenSince(states, calls, b, n - 1, ticket);
        }
      }
    }
  }

  /** An open ticket completed in time with success, still the newest, makes coherent good facts ready. */
  lemma FreshProbeMakesReady(states: seq<Coordinator>, calls: seq<Call>, b: nat, j: nat, n: nat, i: Input, f: Facts)
    requires IsRun(states, calls) && j < n < |states| && calls[j].Complete?
    requires OpenSince(states, calls, b, j, calls[j].ticket)
    requires calls[j].reported == Succeeded && calls[j].elapsed < calls[j].budget
    requires forall k | j < k < n :: !Issues(states[k], calls[k])
    requires i.probe == Observed(states[j], calls[j]) && i.expectedFreshness == ExpectedFreshness(states[n])
    requires Reports(i, f) && AllGood(f) && OneRuntime(f)
    requires Probes(Observation(Succeeded, calls[j].ticket.binding, 0), f, Some(0))
    ensures Project(i) == Ready
  {
    TicketExactly(states, calls, j, calls[j].ticket);
    assert forall k | b < k < n :: !Issues(states[k], calls[k]);
    SameFreshness(states, calls, b + 1, n);
    assert states[b + 1] == After(states[b], calls[b]);
  }

  lemma {:induction false} SameFreshness(states: seq<Coordinator>, calls: seq<Call>, i: nat, j: nat)
    requires IsRun(states, calls) && i <= j < |states|
    requires forall k | i <= k < j :: !Issues(states[k], calls[k])
    ensures states[i].lastFreshness == states[j].lastFreshness
  {
    if i < j {
      SameFreshness(states, calls, i, j - 1);
      assert states[j - 1 + 1] == After(states[j - 1], calls[j - 1]);
    }
  }

  /** A completion is judged by the budget: late is a timeout, whatever was reported. */
  lemma LateIsTimeout(c: Coordinator, ticket: Ticket, reported: ProbeOutcome, elapsed: nat, budget: nat)
    requires c.current == Some(ticket)
    ensures var o := Observed(c, Complete(ticket, reported, elapsed, budget));
      && o.Some? && o.value.binding == ticket.binding && o.value.freshness == ticket.freshness
      && (elapsed < budget ==> o.value.outcome == reported)
      && (elapsed >= budget ==> o.value.outcome == Timeout)
  {
  }
}
