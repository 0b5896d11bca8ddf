/** The correlation ledger of remote rotation commands (control_runtime.rs). */
module ControlLedger {
  import opened Common

  datatype RemoteResult = Changed | Unchanged | Failed | Rejected

  type RequestId = string

  datatype RemoteOperation = RemoteOperation(request: RequestId, id: nat, result: Option<RemoteResult>)

  datatype Ledger = Ledger(pending: Option<RemoteOperation>, recent: seq<RemoteOperation>)

  const CONTROL_RECENT_TERMINAL_REQUESTS: nat := 32

  function Without(recent: seq<RemoteOperation>, request: RequestId): seq<RemoteOperation> {
    if recent == [] then []
    else (if recent[0].request == request then [] else [recent[0]]) + Without(recent[1..], request)
  }

  function Bounded(recent: seq<RemoteOperation>): seq<RemoteOperation> {
    if |recent| <= CONTROL_RECENT_TERMINAL_REQUESTS then recent else recent[..CONTROL_RECENT_TERMINAL_REQUESTS]
  }

  predicate Ackable(l: Ledger, request: RequestId) {
    l.pending.Some? && l.pending.value.request == request && l.pending.value.result.Some?
  }

  /** Moves an acknowledged terminal operation to the front of the bounded window. */
  function Acknowledged(l: Ledger, request: RequestId): Ledger {
    if Ackable(l, request) then Ledger(None, Bounded([l.pending.value] + Without(l.recent, request))) else l
  }

  function Observed(l: Ledger, id: nat, result: RemoteResult): Ledger {
    if l.pending.Some? && l.pending.value.id == id && l.pending.value.result.None? then
      l.(pending := Some(l.pending.value.(result := Some(result))))
    else l
  }

  function AcceptanceFailed(l: Ledger, request: RequestId, id: nat): Ledger {
    if l.pending.Some? && l.pending.value.request == request then Observed(l, id, Rejected) else l
  }

  /** The activation error path overwrites whatever result the rotation owner reported meanwhile. */
  function ActivationFailed(l: Ledger, request: RequestId): Ledger {
    if l.pending.Some? && l.pending.value.request == request then
      l.(pending := Some(l.pending.value.(result := Some(Rejected))))
    else l
  }

  function FindRecent(recent: seq<RemoteOperation>, request: RequestId): Option<RemoteOperation> {
    if recent == [] then None
    else if recent[0].request == request then Some(recent[0])
    else FindRecent(recent[1..], request)
  }

  class ControlState {
    var pending: Option<RemoteOperation>
    var recentTerminal: seq<RemoteOperation>

    function View(): Ledger
      reads this
    {
      Ledger(pending, recentTerminal)
    }

    constructor ()
      ensures View() == Ledger(None, [])
    {
      pending, recentTerminal := None, [];
    }

    method Reserve(request: RequestId, id: nat) returns (reserved: bool)
      modifies this
      ensures reserved == old(pending).None?
      ensures View() ==
        if reserved then old(View()).(pending := Some(RemoteOperation(request, id, None))) else old(View())
    {
      if pending.Some? { return false; }
      pending := Some(RemoteOperation(request, id, None));
      return true;
    }

    method AckResult(request: RequestId)
      modifies this
      ensures View() == Acknowledged(old(View()), request)
    {
      if pending.None? || pending.value.request != request || pending.value.result.None? { return; }
      var completed := pending.value;
      pending := None;
      recentTerminal := [completed] + Without(recentTerminal, request);
      ghost var pushed := recentTerminal;
      while |recentTerminal| > CONTROL_RECENT_TERMINAL_REQUESTS
        invariant recentTerminal <= pushed && pending == None
        invariant |recentTerminal| >= CONTROL_RECENT_TERMINAL_REQUESTS || recentTerminal == pushed
      {
        recentTerminal := recentTerminal[..|recentTerminal| - 1];
      }
    }

    method ObserveRotation(id: nat, result: RemoteResult) returns (changed: bool)
      modifies this
      ensures View() == Observed(old(View()), id, result)
      ensures changed == (View() != old(View()))
    {
      if pending.None? || pending.value.id != id || pending.value.result.Some? { return false; }
      pending := Some(pending.value.(result := Some(result)));
      return true;
    }

    method MarkAcceptanceDeliveryFailed(request: RequestId, id: nat) returns (marked: bool)
      modifies this
      ensures View() == AcceptanceFailed(old(View()), request, id)
      ensures marked == (View() != old(View()))
    {
      if pending.None? { return false; }
      if pending.value.request != request || pending.value.id != id || pending.value.result.Some? { return false; }
      pending := Some(pending.value.(result := Some(Rejected)));
      return true;
    }

    method RecordActivationFailure(request: RequestId)
      modifies this
      ensures View() == ActivationFailed(old(View()), request)
    {
      if pending.Some? && pending.value.request == request {
        pending := Some(pending.value.(result := Some(Rejected)));
      }
    }
  }

  // ----- the control task, between its lock regions and writes -----------------------------------------

  datatype Stage =
    | Idle
    | Preparing(request: RequestId)
    | Reserving(request: RequestId, id: nat)
    | Accepting(request: RequestId, id: nat)
    | Activating(request: RequestId, id: nat)
    | AcceptanceLost(request: RequestId, id: nat)
    | ActivationRefused(request: RequestId, id: nat)
    | Refusing(request: RequestId)
    | Repeating(operation: RemoteOperation)
    | RepeatingResult(operation: RemoteOperation)
    | Reporting(operation: RemoteOperation)

  /** What an outside observer of the session and of the rotation owner sees. */
  datatype Event =
    | AcceptedWritten(request: RequestId, id: nat)
    | ResultWritten(request: RequestId, result: RemoteResult, operation: Option<nat>)
    | Activated(request: RequestId, id: nat)
    | Acked(request: RequestId)

  /** `issued` holds every id the rotation owner handed out; it never repeats one. */
  datatype System = System(ledger: Ledger, stage: Stage, issued: set<nat>, log: seq<Event>)

  const BOOT: System := System(Ledger(None, []), Idle, {}, [])

  datatype Action =
    | Command(request: RequestId)
    | Prepared(id: nat)
    | PrepareRefused
    | Reserve
    | WriteSucceeds
    | WriteFails
    | Activate(accepted: bool)
    | SettleFailure
    | Ack(request: RequestId)
    | ReportTerminal
    | RotationTerminal(id: nat, result: RemoteResult)

  predicate Writing(stage: Stage) {
    stage.Accepting? || stage.Refusing? || stage.Repeating? || stage.RepeatingResult? || stage.Reporting?
  }

  predicate Enabled(s: System, a: Action) {
    match a
    case Command(_) => s.stage.Idle?
    case Prepared(id) => s.stage.Preparing? && id !in s.issued
    case PrepareRefused => s.stage.Preparing?
    case Reserve => s.stage.Reserving?
    case WriteSucceeds => Writing(s.stage)
    case WriteFails => Writing(s.stage)
    case Activate(_) => s.stage.Activating?
    case SettleFailure => s.stage.AcceptanceLost? || s.stage.ActivationRefused?
    case Ack(_) => s.stage.Idle?
    case ReportTerminal => s.stage.Idle? && s.ledger.pending.Some? && s.ledger.pending.value.result.Some?
    case RotationTerminal(_, _) => true
  }

  /** Where a command goes: a known request is repeated, a second one refused, a new one prepared. */
  function Dispatch(l: Ledger, request: RequestId): Stage {
    if l.pending.Some? then
      if l.pending.value.request == request then Repeating(l.pending.value) else Refusing(request)
    else
      match FindRecent(l.recent, request)
      case Some(operation) => Repeating(operation)
      case None => Preparing(request)
  }

  function ResultOf(operation: RemoteOperation): seq<Event> {
    if operation.result.Some? then [ResultWritten(operation.request, operation.result.value, Some(operation.id))]
    else []
  }

  function Written(stage: Stage): seq<Event> {
    match stage
    case Accepting(request, id) => [AcceptedWritten(request, id)]
    case Refusing(request) => [ResultWritten(request, Rejected, None)]
    case Repeating(operation) => [AcceptedWritten(operation.request, operation.id)]
    case RepeatingResult(operation) => ResultOf(operation)
    case Reporting(operation) => ResultOf(operation)
    case _ => []
  }

  function AfterWrite(stage: Stage): Stage {
    match stage
    case Accepting(request, id) => Activating(request, id)
    case Repeating(operation) => if operation.result.Some? then RepeatingResult(operation) else Idle
    case _ => Idle
  }

  function Do(s: System, a: Action): System
    requires Enabled(s, a)
  {
    match a
    case Command(request) => s.(stage := Dispatch(s.ledger, request))
    case Prepared(id) => s.(stage := Reserving(s.stage.request, id), issued := s.issued + {id})
    case PrepareRefused => s.(stage := Refusing(s.stage.request))
    case Reserve =>
      if s.ledger.pending.Some? then s.(stage := Idle)
      else s.(ledger := s.ledger.(pending := Some(RemoteOperation(s.stage.request, s.stage.id, None))),
              stage := Accepting(s.stage.request, s.stage.id))
    case WriteSucceeds => s.(log := s.log + Written(s.stage), stage := AfterWrite(s.stage))
    case WriteFails => s.(stage := if s.stage.Accepting? then AcceptanceLost(s.stage.request, s.stage.id) else Idle)
    case Activate(accepted) =>
      s.(log := s.log + [Activated(s.stage.request, s.stage.id)],
         stage := if accepted then Idle else ActivationRefused(s.stage.request, s.stage.id))
    case SettleFailure =>
      s.(ledger := if s.stage.AcceptanceLost? then AcceptanceFailed(s.ledger, s.stage.request, s.stage.id)
                   else ActivationFailed(s.ledger, s.stage.request),
         stage := Idle)
    case Ack(request) =>
      s.(ledger := Acknowledged(s.ledger, request),
         log := s.log + if Ackable(s.ledger, request) then [Acked(request)] else [])
    case ReportTerminal => s.(stage := Reporting(s.ledger.pending.value))
    case RotationTerminal(id, result) => s.(ledger := Observed(s.ledger, id, result))
  }

  predicate IsRun(states: seq<System>, actions: seq<Action>) {
    && |states| == |actions| + 1 && states[0] == BOOT
    && forall i | 0 <= i < |actions| :: Enabled(states[i], actions[i]) && states[i + 1] == Do(states[i], actions[i])
  }

  // ----- how a command is answered ------------------------------------------------------------------------

  /** A command beside another pending one is answered with a rejection that names no operation. */
  lemma SecondRequestIsRejected(s: System, request: RequestId)
    requires s.stage.Idle? && s.ledger.pending.Some? && s.ledger.pending.value.request != request
    ensures var dispatched := Do(s, Command(request));
      && Enabled(dispatched, WriteSucceeds)
      && Do(dispatched, WriteSucceeds) == s.(log := s.log + [ResultWritten(request, Rejected, None)])
  {
  }

  /** So is a new command that the rotation owner does not prepare. */
  lemma UnpreparedRequestIsRejected(s: System, request: RequestId)
    requires s.stage.Idle? && s.ledger.pending.None? && FindRecent(s.ledger.recent, request).None?
    ensures var preparing := Do(s, Command(request));
      && Enabled(preparing, PrepareRefused)
      && var refused := Do(preparing, PrepareRefused);
         && Enabled(refused, WriteSucceeds)
         && Do(refused, WriteSucceeds) == s.(log := s.log + [ResultWritten(request, Rejected, None)])
  {
  }

  /** What a repeated command is told: the operation it started, and the result if there is one. */
  function RepeatedAnswer(operation: RemoteOperation): seq<Event> {
    match operation.result
    case None => [AcceptedWritten(operation.request, operation.id)]
    case Some(result) =>
      [AcceptedWritten(operation.request, operation.id),
       ResultWritten(operation.request, result, Some(operation.id))]
  }

  /** A repeated command is answered from the ledger, and starts nothing. */
  lemma RepeatIsAnswered(s: System, request: RequestId)
    requires s.stage.Idle?
    requires s.ledger.pending.Some? ==> s.ledger.pending.value.request == request
    requires s.ledger.pending.None? ==> FindRecent(s.ledger.recent, request).Some?
    ensures var operation := if s.ledger.pending.Some? then s.ledger.pending.value
                             else FindRecent(s.ledger.recent, request).value;
      var dispatched := Do(s, Command(request));
      && Enabled(dispatched, WriteSucceeds)
      && var once := Do(dispatched, WriteSucceeds);
         if operation.result.None? then once == s.(log := s.log + RepeatedAnswer(operation))
         else Enabled(once, WriteSucceeds) && Do(once, WriteSucceeds) == s.(log := s.log + RepeatedAnswer(operation))
  {
  }

  /** A new command that is prepared, reserved and written is accepted under its own id, and only then activated. */
  lemma NewRequestIsAccepted(s: System, request: RequestId, id: nat)
    requires s.stage.Idle? && s.ledger.pending.None? && FindRecent(s.ledger.recent, request).None? && id !in s.issued
    ensures var preparing := Do(s, Command(request));
      && Enabled(preparing, Prepared(id)) && Enabled(Do(preparing, Prepared(id)), Reserve)
      && var reserved := Do(Do(preparing, Prepared(id)), Reserve);
         && Enabled(reserved, WriteSucceeds)
         && reserved.ledger == s.ledger.(pending := Some(RemoteOperation(request, id, None)))
         && Do(reserved, WriteSucceeds).log == s.log + [AcceptedWritten(request, id)]
         && Do(reserved, WriteSucceeds).stage == Activating(request, id)
  {
  }

  // ----- how an operation gets its result, and how it is told -------------------------------------------------

  /** A terminal rotation is recorded for the pending operation it names, once; nothing else moves the ledger. */
  lemma TerminalIsRecorded(s: System, id: nat, result: RemoteResult)
    ensures var after := Do(s, RotationTerminal(id, result));
      && after == s.(ledger := after.ledger) && after.ledger.recent == s.ledger.recent
      && (s.ledger.pending.Some? && s.ledger.pending.value.id == id && s.ledger.pending.value.result == None ==>
            after.ledger.pending == Some(RemoteOperation(s.ledger.pending.value.request, id, Some(result))))
      && (s.ledger.pending.None? || s.ledger.pending.value.id != id || s.ledger.pending.value.result != None ==>
            after.ledger == s.ledger)
  {
  }

  /** The stage belongs to the pending operation. */
  predicate Owns(s: System, request: RequestId, id: nat) {
    s.ledger.pending.Some? && s.ledger.pending.value.request == request && s.ledger.pending.value.id == id
  }

  /** An acceptance that could not be written rejects its operation, unless that has a result already. */
  lemma LostAcceptanceIsRejected(s: System)
    requires s.stage.Accepting? && Owns(s, s.stage.request, s.stage.id)
    ensures var lost := Do(s, WriteFails);
      && Enabled(lost, SettleFailure)
      && var after := Do(lost, SettleFailure);
         && after.stage == Idle && after.log == s.log && after.ledger.recent == s.ledger.recent
         && after.ledger.pending == Some(RemoteOperation(s.stage.request, s.stage.id,
              if s.ledger.pending.value.result.Some? then s.ledger.pending.value.result else Some(Rejected)))
  {
  }

  /** A refused activation rejects its operation whatever was recorded; one that is accepted leaves it pending. */
  lemma ActivationIsSettled(s: System, accepted: bool)
    requires s.stage.Activating? && Owns(s, s.stage.request, s.stage.id)
    ensures var tried := Do(s, Activate(accepted));
      && tried.log == s.log + [Activated(s.stage.request, s.stage.id)] && tried.ledger == s.ledger
      && (accepted ==> tried.stage == Idle)
      && (!accepted ==>
            && Enabled(tried, SettleFailure)
            && var after := Do(tried, SettleFailure);
               && after.stage == Idle && after.log == tried.log && after.ledger.recent == s.ledger.recent
               && after.ledger.pending == Some(RemoteOperation(s.stage.request, s.stage.id, Some(Rejected))))
  {
  }

  /** A recorded result is told under the request and id of its operation, and stays until it is acknowledged. */
  lemma ResultIsTold(s: System)
    requires s.stage.Idle? && s.ledger.pending.Some? && s.ledger.pending.value.result.Some?
    ensures Enabled(s, ReportTerminal) && Enabled(Do(s, ReportTerminal), WriteSucceeds)
    ensures var operation := s.ledger.pending.value;
      Do(Do(s, ReportTerminal), WriteSucceeds)
      == s.(log := s.log + [ResultWritten(operation.request, operation.result.value, Some(operation.id))])
  {
  }

  /** Any other answer that cannot be written is dropped, and nothing is recorded. */
  lemma LostAnswerChangesNothing(s: System)
    requires Writing(s.stage) && !s.stage.Accepting?
    ensures Do(s, WriteFails) == s.(stage := Idle)
  {
  }

  /** An acknowledgement retires exactly a pending operation of that request with a result, newest first. */
  lemma AckRetires(s: System, request: RequestId)
    requires s.stage.Idle?
    ensures var after, pending := Do(s, Ack(request)), s.ledger.pending;
      if pending.Some? && pending.value.request == request && pending.value.result.Some? then
        && after.log == s.log + [Acked(request)] && after.ledger.pending == None && after.stage == Idle
        && 1 <= |after.ledger.recent| <= 32 && after.ledger.recent[0] == pending.value
      else after == s
  {
  }

  /** A prepared request that finds another operation pending is dropped. */
  lemma LateReserveIsDropped(s: System)
    requires s.stage.Reserving? && s.ledger.pending.Some?
    ensures Do(s, Reserve) == s.(stage := Idle)
  {
  }

  /** A failed acceptance or activation of another request leaves the pending operation alone. */
  lemma OtherFailureChangesNothing(s: System)
    requires s.stage.AcceptanceLost? || s.stage.ActivationRefused?
    requires s.ledger.pending.Some? ==> s.ledger.pending.value.request != s.stage.request
    ensures Do(s, SettleFailure) == s.(stage := Idle)
  {
  }

  /** A retired request is forgotten before it is put in front, so it stands in the window once. */
  lemma {:induction false} WithoutForgets(recent: seq<RemoteOperation>, request: RequestId)
    ensures forall operation :: operation in Without(recent, request) <==>
      operation in recent && operation.request != request
  {
    if recent != [] { WithoutForgets(recent[1..], request); }
  }
}
