/** What every run of the control task keeps: one activation per accepted request, one result per operation. */
module ControlHistory {
  import opened Common
  import opened ControlLedger

  predicate Stored(l: Ledger, operation: RemoteOperation) {
    l.pending == Some(operation) || operation in l.recent
  }

  predicate InRecent(l: Ledger, request: RequestId) {
    exists i | 0 <= i < |l.recent| :: l.recent[i].request == request
  }

  // ----- the window of acknowledged requests ---------------------------------------------------------------

  /** Acknowledged requests, newest first. */
  function Acks(log: seq<Event>): seq<RequestId> {
    if log == [] then []
    else
      var last := log[|log| - 1];
      (if last.Acked? then [last.request] else []) + Acks(log[..|log| - 1])
  }

  predicate Window(s: System) {
    var acks := Acks(s.log);
    var recent := s.ledger.recent;
    && |recent| == (if |acks| < CONTROL_RECENT_TERMINAL_REQUESTS then |acks| else CONTROL_RECENT_TERMINAL_REQUESTS)
    && (forall i | 0 <= i < |recent| :: recent[i].request == acks[i])
    && (forall i, j | 0 <= i < j < |recent| :: recent[i].request != recent[j].request)
    && (s.ledger.pending.Some? ==> !InRecent(s.ledger, s.ledger.pending.value.request))
    && (s.stage.Preparing? || s.stage.Reserving? ==> s.ledger.pending.None? && !InRecent(s.ledger, s.stage.request))
  }

  lemma {:induction false} FindRecentFinds(recent: seq<RemoteOperation>, request: RequestId)
    ensures match FindRecent(recent, request)
      case Some(operation) => operation in recent && operation.request == request
      case None => forall i | 0 <= i < |recent| :: recent[i].request != request
  {
    if recent == [] {
    } else if recent[0].request != request {
      FindRecentFinds(recent[1..], request);
      if FindRecent(recent, request).None? {
        forall i | 0 <= i < |recent| ensures recent[i].request != request {
          if i > 0 { assert recent[i] == recent[1..][i - 1]; }
        }
      }
    }
  }

  lemma {:induction false} WithoutAbsent(recent: seq<RemoteOperation>, request: RequestId)
    requires forall i | 0 <= i < |recent| :: recent[i].request != request
    ensures Without(recent, request) == recent
  {
    if recent != [] {
      WithoutAbsent(recent[1..], request);
      assert recent == [recent[0]] + recent[1..];
    }
  }

  lemma AcksExtend(log: seq<Event>, e: Event)
    ensures Acks(log + [e]) == (if e.Acked? then [e.request] else []) + Acks(log)
  {
    assert (log + [e])[..|log|] == log;
  }

  /** What an effective acknowledgement does to a ledger whose window does not hold the request. */
  lemma AckPushes(l: Ledger, request: RequestId)
    requires Ackable(l, request) && !InRecent(l, request)
    ensures Acknowledged(l, request) == Ledger(None, Bounded([l.pending.value] + l.recent))
  {
    WithoutAbsent(l.recent, request);
  }

  lemma WindowAck(s: System, request: RequestId)
    requires Window(s) && s.stage.Idle? && Ackable(s.ledger, request)
    ensures Window(Do(s, Ack(request)))
  {
    AckPushes(s.ledger, request);
    AcksExtend(s.log, Acked(request));
    assert forall i | 0 <= i < |s.ledger.recent| :: s.ledger.recent[i].request != request;
  }

  predicate LogGrows(s: System, a: Action) requires Enabled(s, a) {
    var next := Do(s, a);
    next.log == s.log || (|next.log| == |s.log| + 1 && next.log[..|s.log|] == s.log)
  }

  lemma StepGrowsLog(s: System, a: Action)
    requires Enabled(s, a)
    ensures LogGrows(s, a)
    ensures !a.Ack? ==> Acks(Do(s, a).log) == Acks(s.log)
  {
    var next := Do(s, a);
    if next.log != s.log && !a.Ack? {
      var e := next.log[|s.log|];
      assert next.log == s.log + [e];
      AcksExtend(s.log, e);
    }
  }

  lemma WindowStep(s: System, a: Action)
    requires Window(s) && Enabled(s, a)
    ensures Window(Do(s, a))
  {
    StepGrowsLog(s, a);
    if a.Ack? {
      if Ackable(s.ledger, a.request) { WindowAck(s, a.request); } else { assert Do(s, a).log == s.log; }
    } else if a.Command? {
      FindRecentFinds(s.ledger.recent, a.request);
    } else {
      assert Do(s, a).ledger.recent == s.ledger.recent;
    }
  }

  // ----- operation ids ---------------------------------------------------------------------------------------

  function IdOf(e: Event): Option<nat> {
    match e
    case AcceptedWritten(_, id) => Some(id)
    case Activated(_, id) => Some(id)
    case ResultWritten(_, _, operation) => operation
    case Acked(_) => None
  }

  /** The stages that own the pending operation from its reservation to its activation. */
  predicate Holding(stage: Stage) {
    stage.Accepting? || stage.Activating? || stage.AcceptanceLost? || stage.ActivationRefused?
  }

  /** The stages that carry a copy of a stored operation. */
  predicate Copying(stage: Stage) {
    stage.Repeating? || stage.RepeatingResult? || stage.Reporting?
  }

  predicate Ids(s: System) {
    var l := s.ledger;
    && (forall i | 0 <= i < |l.recent| :: l.recent[i].id in s.issued)
    && (forall i, j | 0 <= i < j < |l.recent| :: l.recent[i].id != l.recent[j].id)
    && (l.pending.Some? ==>
      && l.pending.value.id in s.issued
      && forall i | 0 <= i < |l.recent| :: l.recent[i].id != l.pending.value.id)
    && (forall k | 0 <= k < |s.log| && IdOf(s.log[k]).Some? :: IdOf(s.log[k]).value in s.issued)
    && (s.stage.Reserving? ==>
      && s.stage.id in s.issued
      && (forall i | 0 <= i < |l.recent| :: l.recent[i].id != s.stage.id)
      && (forall k | 0 <= k < |s.log| :: IdOf(s.log[k]) != Some(s.stage.id)))
    && (Copying(s.stage) ==> s.stage.operation.id in s.issued)
    && (Holding(s.stage) ==>
      && l.pending.Some?
      && l.pending.value.request == s.stage.request
      && l.pending.value.id == s.stage.id)
  }

  lemma IdsAck(s: System, request: RequestId)
    requires Window(s) && Ids(s) && s.stage.Idle? && Ackable(s.ledger, request)
    ensures Ids(Do(s, Ack(request)))
  {
    AckPushes(s.ledger, request);
  }

  lemma IdsCommand(s: System, request: RequestId)
    requires Ids(s) && s.stage.Idle?
    ensures Ids(Do(s, Command(request)))
  {
    FindRecentFinds(s.ledger.recent, request);
  }

  lemma IdsStep(s: System, a: Action)
    requires Window(s) && Ids(s) && Enabled(s, a)
    ensures Ids(Do(s, a))
  {
    if a.Ack? {
      if Ackable(s.ledger, a.request) { IdsAck(s, a.request); }
    } else if a.Command? {
      IdsCommand(s, a.request);
    } else {
      assert Do(s, a).ledger.recent == s.ledger.recent;
    }
  }

  // ----- one result per operation ------------------------------------------------------------------------

  predicate Reports(e: Event, id: nat) {
    e.ResultWritten? && e.operation == Some(id)
  }

  predicate Quiet(log: seq<Event>, id: nat) {
    forall k | 0 <= k < |log| :: !Reports(log[k], id)
  }

  predicate Always(log: seq<Event>, id: nat, result: RemoteResult) {
    forall k | 0 <= k < |log| && Reports(log[k], id) :: log[k].result == result
  }

  predicate OneResult(log: seq<Event>) {
    forall j, k | 0 <= j < k < |log| && log[j].ResultWritten? && log[k].ResultWritten?
                  && log[j].operation == log[k].operation && log[j].operation.Some? :: log[j].result == log[k].result
  }

  predicate Settled(log: seq<Event>, operation: RemoteOperation) {
    if operation.result.Some? then Always(log, operation.id, operation.result.value) else Quiet(log, operation.id)
  }

  predicate Results(s: System) {
    && OneResult(s.log)
    && (s.ledger.pending.Some? ==> Settled(s.log, s.ledger.pending.value))
    && (forall i | 0 <= i < |s.ledger.recent| :: Settled(s.log, s.ledger.recent[i]))
    && (Holding(s.stage) ==> Quiet(s.log, s.stage.id))
    && (Copying(s.stage) && s.stage.operation.result.Some? ==> Stored(s.ledger, s.stage.operation))
  }

  lemma QuietMeansAlways(log: seq<Event>, id: nat, result: RemoteResult)
    requires Quiet(log, id)
    ensures Always(log, id, result)
  {
  }

  lemma ResultExtends(s: System, operation: RemoteOperation)
    requires Ids(s) && Results(s) && Stored(s.ledger, operation) && operation.result.Some?
    requires !Holding(s.stage)
    ensures Results(s.(log := s.log + ResultOf(operation), stage := Idle))
  {
    var next := s.(log := s.log + ResultOf(operation), stage := Idle);
    assert Settled(s.log, operation);
    forall other | Stored(s.ledger, other) ensures Settled(next.log, other) {
      assert Settled(s.log, other);
      assert other.id == operation.id ==> other == operation;
    }
  }

  lemma EventKeepsResults(s: System, e: Event)
    requires Results(s) && (e.ResultWritten? ==> e.operation.None?)
    ensures OneResult(s.log + [e])
    ensures s.ledger.pending.Some? ==> Settled(s.log + [e], s.ledger.pending.value)
    ensures forall i | 0 <= i < |s.ledger.recent| :: Settled(s.log + [e], s.ledger.recent[i])
    ensures Holding(s.stage) ==> Quiet(s.log + [e], s.stage.id)
  {
    forall operation | Settled(s.log, operation) ensures Settled(s.log + [e], operation) {}
  }

  lemma ResultsWrite(s: System)
    requires Ids(s) && Results(s) && Writing(s.stage)
    ensures Results(Do(s, WriteSucceeds))
  {
    match s.stage
    case RepeatingResult(operation) =>
      if operation.result.Some? { ResultExtends(s, operation); } else { assert s.log + [] == s.log; }
    case Reporting(operation) =>
      if operation.result.Some? { ResultExtends(s, operation); } else { assert s.log + [] == s.log; }
    case Accepting(request, id) => EventKeepsResults(s, AcceptedWritten(request, id));
    case Refusing(request) => EventKeepsResults(s, ResultWritten(request, Rejected, None));
    case Repeating(operation) => EventKeepsResults(s, AcceptedWritten(operation.request, operation.id));
  }

  lemma ResultsAck(s: System, request: RequestId)
    requires Window(s) && Results(s) && s.stage.Idle? && Ackable(s.ledger, request)
    ensures Results(Do(s, Ack(request)))
  {
    AckPushes(s.ledger, request);
    EventKeepsResults(s, Acked(request));
  }

  lemma ResultsReserve(s: System)
    requires Ids(s) && Results(s) && s.stage.Reserving?
    ensures Results(Do(s, Reserve))
  {
    assert forall k | 0 <= k < |s.log| :: Reports(s.log[k], s.stage.id) ==> IdOf(s.log[k]) == Some(s.stage.id);
  }

  lemma ResultsObserve(s: System, id: nat, result: RemoteResult)
    requires Ids(s) && Results(s)
    ensures Results(Do(s, RotationTerminal(id, result)))
  {
    if s.ledger.pending.Some? && s.ledger.pending.value.result.None? {
      QuietMeansAlways(s.log, s.ledger.pending.value.id, result);
    }
  }

  lemma ResultsSettle(s: System)
    requires Ids(s) && Results(s) && (s.stage.AcceptanceLost? || s.stage.ActivationRefused?)
    ensures Results(Do(s, SettleFailure))
  {
    QuietMeansAlways(s.log, s.stage.id, Rejected);
  }

  lemma ResultsStep(s: System, a: Action)
    requires Window(s) && Ids(s) && Results(s) && Enabled(s, a)
    ensures Results(Do(s, a))
  {
    match a
    case WriteSucceeds => ResultsWrite(s);
    case Ack(request) => if Ackable(s.ledger, request) { ResultsAck(s, request); }
    case Reserve => ResultsReserve(s);
    case RotationTerminal(id, result) => ResultsObserve(s, id, result);
    case SettleFailure => ResultsSettle(s);
    case Activate(_) => EventKeepsResults(s, Activated(s.stage.request, s.stage.id));
    case Command(request) => FindRecentFinds(s.ledger.recent, request);
    case _ =>
  }

  // ----- one activation per operation, after its acceptance -------------------------------------

  predicate Accepted(log: seq<Event>, request: RequestId, id: nat) {
    AcceptedWritten(request, id) in log
  }

  predicate NeverActivated(log: seq<Event>, id: nat) {
    forall k | 0 <= k < |log| && log[k].Activated? :: log[k].id != id
  }

  /** Each activation follows its acceptance, and no two share an id. */
  predicate ActivatedInOrder(log: seq<Event>) {
    && (forall k | 0 <= k < |log| && log[k].Activated? :: Accepted(log[..k], log[k].request, log[k].id))
    && (forall j, k | 0 <= j < k < |log| && log[j].Activated? && log[k].Activated? :: log[j].id != log[k].id)
  }

  predicate Activations(s: System) {
    && ActivatedInOrder(s.log)
    && (s.stage.Accepting? || s.stage.Activating? || s.stage.AcceptanceLost? ==> NeverActivated(s.log, s.stage.id))
    && (s.stage.Activating? ==> Accepted(s.log, s.stage.request, s.stage.id))
  }

  lemma OrderExtends(log: seq<Event>, e: Event)
    requires ActivatedInOrder(log)
    requires e.Activated? ==> Accepted(log, e.request, e.id) && NeverActivated(log, e.id)
    ensures ActivatedInOrder(log + [e])
    ensures !e.Activated? ==> forall id: nat | NeverActivated(log, id) :: NeverActivated(log + [e], id)
  {
    forall k | 0 <= k < |log + [e]| ensures (log + [e])[..k] == log[..k] {}
    assert log[..|log|] == log;
  }

  lemma ActivationsStep(s: System, a: Action)
    requires Ids(s) && Activations(s) && Enabled(s, a)
    ensures Activations(Do(s, a))
  {
    hide ActivatedInOrder;
    match a
    case Activate(_) => OrderExtends(s.log, Activated(s.stage.request, s.stage.id));
    case WriteSucceeds => ActivationsWrite(s);
    case Ack(request) =>
      if Ackable(s.ledger, request) { OrderExtends(s.log, Acked(request)); } else { assert s.log + [] == s.log; }
    case Reserve => assert forall k | 0 <= k < |s.log| :: IdOf(s.log[k]) != Some(s.stage.id);
    case _ =>
  }

  lemma ActivationsWrite(s: System)
    requires Activations(s) && Writing(s.stage)
    ensures Activations(Do(s, WriteSucceeds))
  {
    hide ActivatedInOrder;
    if Written(s.stage) == [] {
      assert s.log + [] == s.log;
    } else {
      OrderExtends(s.log, Written(s.stage)[0]);
      assert Written(s.stage) == [Written(s.stage)[0]];
    }
  }

  // ----- a repeated request is activated again only once the window has forgotten it -----------------

  function AckedSince(log: seq<Event>, i: nat): set<RequestId> {
    set k | i <= k < |log| && log[k].Acked? :: log[k].request
  }

  predicate HeldPending(s: System, e: Event)
    requires e.Activated?
  {
    s.ledger.pending.Some? && s.ledger.pending.value.id == e.id && s.ledger.pending.value.request == e.request
  }

  /** Everything in the window up to position `p` was acknowledged since `i`. */
  predicate HeldAt(s: System, i: nat, p: nat)
    requires i < |s.log| && s.log[i].Activated?
  {
    && p < |s.ledger.recent| && s.ledger.recent[p].request == s.log[i].request
    && forall q | 0 <= q <= p :: s.ledger.recent[q].request in AckedSince(s.log, i)
  }

  predicate Outlived(log: seq<Event>, i: nat)
    requires i < |log| && log[i].Activated?
  {
    |AckedSince(log, i) - {log[i].request}| >= CONTROL_RECENT_TERMINAL_REQUESTS
  }

  predicate Remembered(s: System, i: nat)
    requires i < |s.log| && s.log[i].Activated?
  {
    HeldPending(s, s.log[i]) || (exists p | 0 <= p < |s.ledger.recent| :: HeldAt(s, i, p)) || Outlived(s.log, i)
  }

  predicate Spread(s: System) {
    forall i | 0 <= i < |s.log| && s.log[i].Activated? :: Remembered(s, i)
  }

  lemma SubsetFits(small: set<RequestId>, large: set<RequestId>)
    requires small <= large
    ensures |small| <= |large|
  {
    assert large == small + (large - small);
  }

  lemma AckedSinceGrows(log: seq<Event>, e: Event, i: nat)
    requires i < |log|
    ensures AckedSince(log + [e], i) == AckedSince(log, i) + if e.Acked? then {e.request} else {}
  {
    var longer := log + [e];
    forall r | r in AckedSince(longer, i)
      ensures r in AckedSince(log, i) + if e.Acked? then {e.request} else {}
    {
      var k :| i <= k < |longer| && longer[k].Acked? && longer[k].request == r;
      if k < |log| { assert log[k] == longer[k]; }
    }
    forall r | r in AckedSince(log, i) ensures r in AckedSince(longer, i) {
      var k :| i <= k < |log| && log[k].Acked? && log[k].request == r;
      assert longer[k] == log[k];
    }
    if e.Acked? { assert longer[|log|] == e; }
  }

  lemma OutlivedStays(log: seq<Event>, e: Event, i: nat)
    requires i < |log| && log[i].Activated? && Outlived(log, i)
    ensures Outlived(log + [e], i)
  {
    AckedSinceGrows(log, e, i);
    SubsetFits(AckedSince(log, i) - {log[i].request}, AckedSince(log + [e], i) - {log[i].request});
  }

  lemma AppendRemembers(s: System, e: Event, i: nat)
    requires i < |s.log| && s.log[i].Activated? && Remembered(s, i)
    ensures Remembered(s.(log := s.log + [e]), i)
  {
    AckedSinceGrows(s.log, e, i);
    if Outlived(s.log, i) {
      OutlivedStays(s.log, e, i);
    } else if exists p | 0 <= p < |s.ledger.recent| :: HeldAt(s, i, p) {
      var p :| 0 <= p < |s.ledger.recent| && HeldAt(s, i, p);
      assert HeldAt(s.(log := s.log + [e]), i, p);
    }
  }

  /** Pushing a new request past the last slot of a full window counts thirty-two other requests. */
  lemma PushedOut(s: System, request: RequestId, i: nat, p: nat)
    requires Window(s) && Ackable(s.ledger, request) && i < |s.log| && s.log[i].Activated?
    requires HeldAt(s, i, p) && p == CONTROL_RECENT_TERMINAL_REQUESTS - 1
    ensures Outlived(s.log + [Acked(request)], i)
  {
    AckedSinceGrows(s.log, Acked(request), i);
    var others := [request] + seq(p, q requires 0 <= q < p => s.ledger.recent[q].request);
    DistinctFits(others, AckedSince(s.log + [Acked(request)], i) - {s.log[i].request});
  }

  lemma AckRemembers(s: System, request: RequestId, i: nat)
    requires Window(s) && Ackable(s.ledger, request) && s.stage.Idle?
    requires i < |s.log| && s.log[i].Activated? && Remembered(s, i)
    ensures Remembered(Do(s, Ack(request)), i)
  {
    var next := Do(s, Ack(request));
    AckPushes(s.ledger, request);
    AckedSinceGrows(s.log, Acked(request), i);
    if Outlived(s.log, i) {
      OutlivedStays(s.log, Acked(request), i);
    } else if HeldPending(s, s.log[i]) {
      assert HeldAt(next, i, 0);
    } else {
      var p :| 0 <= p < |s.ledger.recent| && HeldAt(s, i, p);
      if p == CONTROL_RECENT_TERMINAL_REQUESTS - 1 {
        PushedOut(s, request, i, p);
      } else {
        assert forall q | 0 < q <= p + 1 :: next.ledger.recent[q] == s.ledger.recent[q - 1];
        assert HeldAt(next, i, p + 1);
      }
    }
  }

  lemma LedgerMoveRemembers(s: System, a: Action, i: nat)
    requires Enabled(s, a) && !a.Ack? && Do(s, a).log == s.log
    requires i < |s.log| && s.log[i].Activated? && Remembered(s, i)
    ensures Remembered(Do(s, a), i)
  {
    var next := Do(s, a);
    assert next.ledger.recent == s.ledger.recent;
    if exists p | 0 <= p < |s.ledger.recent| :: HeldAt(s, i, p) {
      var p :| 0 <= p < |s.ledger.recent| && HeldAt(s, i, p);
      assert HeldAt(next, i, p);
    }
  }

  lemma NewlyRemembered(s: System, a: Action)
    requires Ids(s) && Enabled(s, a) && |Do(s, a).log| == |s.log| + 1 && Do(s, a).log[|s.log|].Activated?
    ensures HeldPending(Do(s, a), Do(s, a).log[|s.log|])
  {
  }

  lemma SpreadStep(s: System, a: Action)
    requires Window(s) && Ids(s) && Spread(s) && Enabled(s, a)
    ensures Spread(Do(s, a))
  {
    hide HeldAt, HeldPending, Outlived, Window;
    StepGrowsLog(s, a);
    var next := Do(s, a);
    forall i | 0 <= i < |next.log| && next.log[i].Activated? ensures Remembered(next, i) {
      if i == |s.log| {
        NewlyRemembered(s, a);
      } else {
        assert next.log[i] == s.log[i];
        if a.Ack? && Ackable(s.ledger, a.request) {
          AckRemembers(s, a.request, i);
        } else if next.log == s.log {
          if !a.Ack? { LedgerMoveRemembers(s, a, i); }
        } else {
          assert next.log == s.log + [next.log[|s.log|]];
          AppendRemembers(s, next.log[|s.log|], i);
          assert next.ledger == s.ledger;
          SameLedgerRemembers(s.(log := next.log), next, i);
        }
      }
    }
  }

  lemma SameLedgerRemembers(s: System, next: System, i: nat)
    requires next.log == s.log && next.ledger == s.ledger && i < |s.log| && s.log[i].Activated? && Remembered(s, i)
    ensures Remembered(next, i)
  {
    if exists p | 0 <= p < |s.ledger.recent| :: HeldAt(s, i, p) {
      var p :| 0 <= p < |s.ledger.recent| && HeldAt(s, i, p);
      assert HeldAt(next, i, p);
    }
  }

  // ----- whole runs -------------------------------------------------------------------------------------------

  predicate Kept(s: System) {
    Window(s) && Ids(s) && Results(s) && Activations(s) && Spread(s)
  }

  lemma {:induction false} RunIsKept(states: seq<System>, actions: seq<Action>, n: nat)
    requires IsRun(states, actions) && n < |states|
    ensures Kept(states[n])
  {
    if n > 0 {
      RunIsKept(states, actions, n - 1);
      var s, a := states[n - 1], actions[n - 1];
      assert Enabled(states[n - 1], actions[n - 1]);
      WindowStep(s, a);
      IdsStep(s, a);
      ResultsStep(s, a);
      ActivationsStep(s, a);
      SpreadStep(s, a);
    }
  }

  /** An operation is activated at most once, and only after its own ACCEPTED was written. */
  lemma ActivatedOnceAfterAcceptance(states: seq<System>, actions: seq<Action>, n: nat, k: nat)
    requires IsRun(states, actions) && n < |states| && k < |states[n].log| && states[n].log[k].Activated?
    ensures AcceptedWritten(states[n].log[k].request, states[n].log[k].id) in states[n].log[..k]
    ensures forall j | 0 <= j < |states[n].log| && j != k && states[n].log[j].Activated? ::
      states[n].log[j].id != states[n].log[k].id
  {
    RunIsKept(states, actions, n);
    assert Accepted(states[n].log[..k], states[n].log[k].request, states[n].log[k].id);
  }

  /** Every RESULT naming an operation carries the same value, over all sessions of a run. */
  lemma ResultsNeverDisagree(states: seq<System>, actions: seq<Action>, n: nat, j: nat, k: nat)
    requires IsRun(states, actions) && n < |states| && j < |states[n].log| && k < |states[n].log|
    requires states[n].log[j].ResultWritten? && states[n].log[k].ResultWritten?
    requires states[n].log[j].operation == states[n].log[k].operation && states[n].log[j].operation.Some?
    ensures states[n].log[j].result == states[n].log[k].result
  {
    RunIsKept(states, actions, n);
  }

  /**
   No request starts a second rotation while it is pending or among the last thirty-two acknowledged
   ones: it is prepared only when neither holds, and the two activations it then has are separated by
   acknowledgements of thirty-two other requests.
   */
  lemma PreparedOnlyWhenForgotten(states: seq<System>, actions: seq<Action>, n: nat, p: nat)
    requires IsRun(states, actions) && n < |states| && (states[n].stage.Preparing? || states[n].stage.Reserving?)
    requires p < |Acks(states[n].log)| && Acks(states[n].log)[p] == states[n].stage.request
    ensures states[n].ledger.pending.None? && p >= CONTROL_RECENT_TERMINAL_REQUESTS
  {
    RunIsKept(states, actions, n);
    assert forall i | 0 <= i < |states[n].ledger.recent| ::
      states[n].ledger.recent[i].request != states[n].stage.request;
  }

  /** While an operation's request is pending under another id, every earlier activation is outlived. */
  lemma PendingOutlivesOthers(s: System, i: nat)
    requires Kept(s) && s.ledger.pending.Some? && i < |s.log| && s.log[i].Activated?
    requires s.log[i].request == s.ledger.pending.value.request && s.log[i].id != s.ledger.pending.value.id
    ensures Outlived(s.log, i)
  {
    assert Remembered(s, i);
  }

  lemma RepeatNeedsThirtyTwoAcks(states: seq<System>, actions: seq<Action>, n: nat, i: nat)
    requires IsRun(states, actions) && n < |actions| && actions[n].Activate?
    requires i < |states[n].log| && states[n].log[i].Activated?
    requires Enabled(states[n], actions[n]) && states[n].log[i].request == states[n].stage.request
    ensures |AckedSince(states[n].log, i) - {states[n].stage.request}| >= 32
  {
    RunIsKept(states, actions, n);
    PendingOutlivesOthers(states[n], i);
  }
}
