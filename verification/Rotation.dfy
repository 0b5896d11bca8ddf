/** The one-operation IP-rotation machine (rotation/src/lib.rs): its transitions and what each call keeps. */
module Rotation {
  import opened Common

  type Address = string

  datatype Phase =
    | Preparing | DataDisabling | WaitingCellularLoss | DataEnabling | WaitingCellularRecovery
    | WaitingRootPolicy | ProbingPublicIp | Changed | Unchanged | Failed

  datatype MutationOutcome = Applied | Rejected | Uncertain

  datatype Failure =
    | RuntimeNotRunning | NoCurrentCellular | RootPolicyUnavailable | BeforeIpFailed | DataDisableFailed
    | MobileDataObservationFailed | DataEnableFailed | FreshCellularUnavailable | RootPolicyRecoveryFailed
    | AfterIpFailed | CredentialChanged | DeadlineExceeded | StateLost

  datatype RestoreResult = NotRequired | AlreadyEnabled | RestoredEnabled | RestoreFailed | RestoreUncertain

  datatype CallError =
    | AlreadyInProgress | InvalidGeneration | OperationIdExhausted
    | StaleOperation | InvalidPhase | StaleGeneration | StateUnavailable

  datatype Operation = Operation(
    id: nat, phase: Phase, beforeGeneration: nat, afterGeneration: Option<nat>,
    beforeIp: Option<Address>, afterIp: Option<Address>,
    lossObserved: bool, latestOwner: nat, freshCellular: Option<nat>, rootAuthorized: Option<nat>,
    restoreRequired: bool, terminal: Option<Phase>, failure: Option<Failure>, restoreResult: Option<RestoreResult>)

  datatype Snapshot = Idle | Snapshot(
    id: nat, phase: Phase, beforeGeneration: nat, afterGeneration: Option<nat>,
    beforeIp: Option<Address>, afterIp: Option<Address>, restoreRequired: bool,
    terminal: Option<Phase>, failure: Option<Failure>, restoreResult: Option<RestoreResult>)

  datatype Machine = Machine(nextId: nat, current: Option<Operation>)

  const NEW: Machine := Machine(1, None)

  datatype Call =
    | Start(generation: nat)
    | RecordBeforeIp(id: nat, generation: nat, address: Address)
    | DisableStarted(id: nat)
    | DisableCompleted(id: nat, outcome: MutationOutcome)
    | EnableCompleted(id: nat, outcome: MutationOutcome)
    | ObserveCellular(id: nat, generation: nat, admitted: bool)
    | ObserveRootPolicy(id: nat, generation: nat, authorized: bool)
    | RecordAfterIp(id: nat, generation: nat, address: Address)
    | Fail(id: nat, reason: Failure)
    | RecordRestore(id: nat, restore: RestoreResult)

  /** What a call does to the operation, and the error it answers if it is refused. */
  datatype Outcome = Outcome(op: Operation, error: Option<CallError>)

  predicate Terminal(phase: Phase) {
    phase.Changed? || phase.Unchanged? || phase.Failed?
  }

  predicate Recovering(phase: Phase) {
    phase.WaitingCellularRecovery? || phase.WaitingRootPolicy?
  }

  function SnapshotOf(m: Machine): Snapshot {
    match m.current
    case None => Idle
    case Some(op) => Snapshot(op.id, op.phase, op.beforeGeneration, op.afterGeneration, op.beforeIp, op.afterIp,
                              op.restoreRequired, op.terminal, op.failure, op.restoreResult)
  }

  // ----- private steps of an operation -------------------------------------------------------------

  function KeepIfNotOlder(generation: Option<nat>, newest: nat): Option<nat> {
    if generation.Some? && generation.value < newest then None else generation
  }

  /** A newer owner generation retires the facts of older ones. */
  function RaiseOwner(op: Operation, generation: nat): Operation {
    if generation <= op.latestOwner then op
    else op.(latestOwner := generation,
             freshCellular := KeepIfNotOlder(op.freshCellular, generation),
             rootAuthorized := KeepIfNotOlder(op.rootAuthorized, generation))
  }

  function WithRecoveryCellular(op: Operation, generation: nat, admitted: bool): Operation {
    if admitted then op.(freshCellular := Some(generation))
    else op.(freshCellular := if op.freshCellular == Some(generation) then None else op.freshCellular,
             rootAuthorized := if op.rootAuthorized == Some(generation) then None else op.rootAuthorized)
  }

  function AdvanceLoss(op: Operation): Operation {
    if op.phase.WaitingCellularLoss? && op.lossObserved then op.(phase := DataEnabling) else op
  }

  function AdvanceRecovery(op: Operation): Operation {
    if !Recovering(op.phase) then op
    else if op.freshCellular.None? then op.(phase := WaitingCellularRecovery)
    else if op.rootAuthorized != op.freshCellular then op.(phase := WaitingRootPolicy)
    else op.(afterGeneration := op.freshCellular, phase := ProbingPublicIp)
  }

  function Failing(op: Operation, failure: Failure): Operation {
    op.(phase := Failed, terminal := Some(Failed), failure := Some(failure))
  }

  // ----- the calls on an active operation ----------------------------------------------------------

  function Accept(op: Operation): Outcome { Outcome(op, None) }

  function Refuse(op: Operation, error: CallError): Outcome { Outcome(op, Some(error)) }

  function OnBeforeIp(op: Operation, generation: nat, address: Address): Outcome {
    if !op.phase.Preparing? then Refuse(op, InvalidPhase)
    else if generation != op.beforeGeneration then Refuse(op, StaleGeneration)
    else Accept(op.(beforeIp := Some(address), phase := DataDisabling))
  }

  function OnDisableStarted(op: Operation): Outcome {
    if !op.phase.DataDisabling? then Refuse(op, InvalidPhase) else Accept(op.(restoreRequired := true))
  }

  function OnDisableCompleted(op: Operation, outcome: MutationOutcome): Outcome {
    if !op.phase.DataDisabling? then Refuse(op, InvalidPhase)
    else
      match outcome
      case Applied => Accept(AdvanceLoss(op.(restoreRequired := true, phase := WaitingCellularLoss)))
      case Rejected => Accept(Failing(op.(restoreRequired := false), DataDisableFailed))
      case Uncertain => Accept(Failing(op.(restoreRequired := true), DataDisableFailed))
  }

  function OnEnableCompleted(op: Operation, outcome: MutationOutcome): Outcome {
    if !op.phase.DataEnabling? then Refuse(op, InvalidPhase)
    else if outcome.Applied? then
      Accept(AdvanceRecovery(op.(restoreRequired := false, phase := WaitingCellularRecovery)))
    else Accept(Failing(op.(restoreRequired := true), DataEnableFailed))
  }

  function OnCellular(op: Operation, generation: nat, admitted: bool): Outcome {
    if generation <= op.beforeGeneration then
      if op.phase.DataDisabling? || op.phase.WaitingCellularLoss? || op.phase.DataEnabling? || Recovering(op.phase)
      then Accept(op) else Refuse(op, StaleGeneration)
    else if generation < op.latestOwner then Accept(op)
    else
      var raised := RaiseOwner(op, generation);
      match op.phase
      case DataDisabling | WaitingCellularLoss =>
        Accept(AdvanceLoss(raised.(lossObserved := op.lossObserved || !admitted)))
      case DataEnabling => Accept(WithRecoveryCellular(raised, generation, admitted))
      case WaitingCellularRecovery | WaitingRootPolicy =>
        Accept(AdvanceRecovery(WithRecoveryCellular(raised, generation, admitted)))
      case _ => Refuse(raised, InvalidPhase)
  }

  function OnRootPolicy(op: Operation, generation: nat, authorized: bool): Outcome {
    if generation <= op.beforeGeneration then
      if op.phase.DataEnabling? || Recovering(op.phase) then Accept(op) else Refuse(op, StaleGeneration)
    else if generation < op.latestOwner then Accept(op)
    else
      var raised := RaiseOwner(op, generation);
      if op.phase.DataEnabling? || Recovering(op.phase) then
        Accept(AdvanceRecovery(raised.(rootAuthorized := if authorized then Some(generation) else None)))
      else Refuse(raised, InvalidPhase)
  }

  function OnAfterIp(op: Operation, generation: nat, address: Address): Outcome {
    if !op.phase.ProbingPublicIp? then Refuse(op, InvalidPhase)
    else if op.afterGeneration != Some(generation) then Refuse(op, StaleGeneration)
    else if op.beforeIp.None? then Refuse(op, StateUnavailable)
    else
      var result := if op.beforeIp.value == address then Unchanged else Changed;
      Accept(op.(afterIp := Some(address), phase := result, terminal := Some(result), restoreRequired := false))
  }

  function OnRestore(op: Operation, restore: RestoreResult): Outcome {
    if !op.phase.Failed? then Refuse(op, InvalidPhase)
    else
      var settled := restore.NotRequired? || restore.AlreadyEnabled? || restore.RestoredEnabled?;
      Accept(op.(restoreResult := Some(restore), restoreRequired := if settled then false else op.restoreRequired))
  }

  /** Every call but `Start`, on the operation it names. */
  function OnCall(op: Operation, call: Call): Outcome
    requires !call.Start?
  {
    if op.id != call.id then Refuse(op, StaleOperation)
    else if call.RecordRestore? then OnRestore(op, call.restore)
    else if Terminal(op.phase) then Refuse(op, InvalidPhase)
    else
      match call
      case RecordBeforeIp(_, generation, address) => OnBeforeIp(op, generation, address)
      case DisableStarted(_) => OnDisableStarted(op)
      case DisableCompleted(_, outcome) => OnDisableCompleted(op, outcome)
      case EnableCompleted(_, outcome) => OnEnableCompleted(op, outcome)
      case ObserveCellular(_, generation, admitted) => OnCellular(op, generation, admitted)
      case ObserveRootPolicy(_, generation, authorized) => OnRootPolicy(op, generation, authorized)
      case RecordAfterIp(_, generation, address) => OnAfterIp(op, generation, address)
      case Fail(_, reason) => Accept(Failing(op, reason))
  }

  function StartError(m: Machine, generation: nat): Option<CallError> {
    if generation == 0 then Some(InvalidGeneration)
    else if m.current.Some? && !Terminal(m.current.value.phase) then Some(AlreadyInProgress)
    else if m.nextId + 1 >= U64_LIMIT then Some(OperationIdExhausted)
    else None
  }

  function NewOperation(id: nat, generation: nat): Operation {
    Operation(id, Preparing, generation, None, None, None, false, generation, None, None, false, None, None, None)
  }

  /** The error a call answers, if it is refused. */
  function Refusal(m: Machine, call: Call): Option<CallError> {
    if call.Start? then StartError(m, call.generation)
    else if m.current.None? then Some(StaleOperation)
    else OnCall(m.current.value, call).error
  }

  function After(m: Machine, call: Call): Machine {
    if call.Start? then
      if StartError(m, call.generation).Some? then m
      else Machine(m.nextId + 1, Some(NewOperation(m.nextId, call.generation)))
    else if m.current.None? then m
    else m.(current := Some(OnCall(m.current.value, call).op))
  }

  class RotationStateMachine {
    var nextOperationId: nat
    var current: Option<Operation>

    function View(): Machine
      reads this
    {
      Machine(nextOperationId, current)
    }

    constructor ()
      ensures View() == NEW
    {
      nextOperationId, current := 1, None;
    }

    method StartOperation(generation: nat) returns (r: Result<nat, CallError>)
      modifies this
      ensures View() == After(old(View()), Start(generation))
      ensures r == match Refusal(old(View()), Start(generation))
                   case None => Ok(old(nextOperationId))
                   case Some(error) => Err(error)
    {
      if generation == 0 { return Err(InvalidGeneration); }
      if current.Some? && !Terminal(current.value.phase) { return Err(AlreadyInProgress); }
      var id := nextOperationId;
      var next := CheckedAdd(nextOperationId, 1);
      if next.None? { return Err(OperationIdExhausted); }
      nextOperationId := next.value;
      current := Some(NewOperation(id, generation));
      return Ok(id);
    }

    /** The lookup every other call begins with. */
    method Lookup(id: nat, active: bool) returns (error: Option<CallError>)
      ensures error.None? <==> current.Some? && current.value.id == id && (active ==> !Terminal(current.value.phase))
      ensures error == Some(StaleOperation) <==> current.None? || current.value.id != id
      ensures error.Some? ==> error.value.StaleOperation? || error.value.InvalidPhase?
    {
      if current.None? || current.value.id != id { return Some(StaleOperation); }
      if active && Terminal(current.value.phase) { return Some(InvalidPhase); }
      return None;
    }

    method ObserveCellularFact(id: nat, generation: nat, admitted: bool) returns (error: Option<CallError>)
      modifies this
      ensures View() == After(old(View()), ObserveCellular(id, generation, admitted))
      ensures error == Refusal(old(View()), ObserveCellular(id, generation, admitted))
    {
      error := Lookup(id, true);
      if error.Some? { return; }
      var op := current.value;
      if generation <= op.beforeGeneration {
        if op.phase.DataDisabling? || op.phase.WaitingCellularLoss? || op.phase.DataEnabling?
          || Recovering(op.phase) { return None; }
        return Some(StaleGeneration);
      }
      if generation < op.latestOwner { return None; }
      op := RaiseOwner(op, generation);
      match op.phase {
        case DataDisabling | WaitingCellularLoss =>
          if !admitted { op := op.(lossObserved := true); }
          op := AdvanceLoss(op);
        case DataEnabling =>
          op := WithRecoveryCellular(op, generation, admitted);
        case WaitingCellularRecovery | WaitingRootPolicy =>
          op := AdvanceRecovery(WithRecoveryCellular(op, generation, admitted));
        case _ =>
          error := Some(InvalidPhase);
      }
      current := Some(op);
    }

    method ObserveRootPolicyFact(id: nat, generation: nat, authorized: bool) returns (error: Option<CallError>)
      modifies this
      ensures View() == After(old(View()), ObserveRootPolicy(id, generation, authorized))
      ensures error == Refusal(old(View()), ObserveRootPolicy(id, generation, authorized))
    {
      error := Lookup(id, true);
      if error.Some? { return; }
      var op := current.value;
      if generation <= op.beforeGeneration {
        if op.phase.DataEnabling? || Recovering(op.phase) { return None; }
        return Some(StaleGeneration);
      }
      if generation < op.latestOwner { return None; }
      op := RaiseOwner(op, generation);
      if op.phase.DataEnabling? || Recovering(op.phase) {
        op := op.(rootAuthorized := if authorized then Some(generation) else None);
        if !op.phase.DataEnabling? { op := AdvanceRecovery(op); }
      } else {
        error := Some(InvalidPhase);
      }
      current := Some(op);
    }

    method RecordBeforeAddress(id: nat, generation: nat, address: Address) returns (error: Option<CallError>)
      modifies this
      ensures View() == After(old(View()), RecordBeforeIp(id, generation, address))
      ensures error == Refusal(old(View()), RecordBeforeIp(id, generation, address))
    {
      error := Lookup(id, true);
      if error.Some? { return; }
      if !current.value.phase.Preparing? { return Some(InvalidPhase); }
      if generation != current.value.beforeGeneration { return Some(StaleGeneration); }
      current := Some(current.value.(beforeIp := Some(address)));
      current := Some(current.value.(phase := DataDisabling));
    }

    method DataDisableMutationStarted(id: nat) returns (error: Option<CallError>)
      modifies this
      ensures View() == After(old(View()), DisableStarted(id))
      ensures error == Refusal(old(View()), DisableStarted(id))
    {
      error := Lookup(id, true);
      if error.Some? { return; }
      if !current.value.phase.DataDisabling? { return Some(InvalidPhase); }
      current := Some(current.value.(restoreRequired := true));
    }

    method DataDisableEffectCompleted(id: nat, outcome: MutationOutcome) returns (error: Option<CallError>)
      modifies this
      ensures View() == After(old(View()), DisableCompleted(id, outcome))
      ensures error == Refusal(old(View()), DisableCompleted(id, outcome))
    {
      error := Lookup(id, true);
      if error.Some? { return; }
      var op := current.value;
      if !op.phase.DataDisabling? { return Some(InvalidPhase); }
      op := op.(restoreRequired := !outcome.Rejected?);
      if outcome.Applied? {
        op := AdvanceLoss(op.(phase := WaitingCellularLoss));
      } else {
        op := Failing(op, DataDisableFailed);
      }
      current := Some(op);
    }

    method DataEnableEffectCompleted(id: nat, outcome: MutationOutcome) returns (error: Option<CallError>)
      modifies this
      ensures View() == After(old(View()), EnableCompleted(id, outcome))
      ensures error == Refusal(old(View()), EnableCompleted(id, outcome))
    {
      error := Lookup(id, true);
      if error.Some? { return; }
      var op := current.value;
      if !op.phase.DataEnabling? { return Some(InvalidPhase); }
      op := op.(restoreRequired := !outcome.Applied?);
      if outcome.Applied? {
        op := AdvanceRecovery(op.(phase := WaitingCellularRecovery));
      } else {
        op := Failing(op, DataEnableFailed);
      }
      current := Some(op);
    }

    method RecordAfterAddress(id: nat, generation: nat, address: Address) returns (error: Option<CallError>)
      modifies this
      ensures View() == After(old(View()), RecordAfterIp(id, generation, address))
      ensures error == Refusal(old(View()), RecordAfterIp(id, generation, address))
    {
      error := Lookup(id, true);
      if error.Some? { return; }
      var op := current.value;
      if !op.phase.ProbingPublicIp? { return Some(InvalidPhase); }
      if op.afterGeneration != Some(generation) { return Some(StaleGeneration); }
      if op.beforeIp.None? { return Some(StateUnavailable); }
      op := op.(afterIp := Some(address));
      if op.beforeIp.value == address {
        op := op.(phase := Unchanged, terminal := Some(Unchanged));
      } else {
        op := op.(phase := Changed, terminal := Some(Changed));
      }
      current := Some(op.(restoreRequired := false));
    }

    method FailOperation(id: nat, reason: Failure) returns (error: Option<CallError>)
      modifies this
      ensures View() == After(old(View()), Fail(id, reason))
      ensures error == Refusal(old(View()), Fail(id, reason))
    {
      error := Lookup(id, true);
      if error.None? { current := Some(Failing(current.value, reason)); }
    }

    method RecordRestoreResult(id: nat, restore: RestoreResult) returns (error: Option<CallError>)
      modifies this
      ensures View() == After(old(View()), RecordRestore(id, restore))
      ensures error == Refusal(old(View()), RecordRestore(id, restore))
    {
      error := Lookup(id, false);
      if error.Some? { return; }
      if !current.value.phase.Failed? { return Some(InvalidPhase); }
      current := Some(current.value.(restoreResult := Some(restore)));
      if restore.NotRequired? || restore.AlreadyEnabled? || restore.RestoredEnabled? {
        current := Some(current.value.(restoreRequired := false));
      }
    }
  }

  // ----- what each call keeps ----------------------------------------------------------------------

  function Rank(phase: Phase): nat {
    match phase
    case Preparing => 0
    case DataDisabling => 1
    case WaitingCellularLoss => 2
    case DataEnabling => 3
    case WaitingCellularRecovery => 4
    case WaitingRootPolicy => 5
    case ProbingPublicIp => 6
    case _ => 7
  }

  /** The shape every operation has between calls. */
  ghost predicate OperationInv(op: Operation) {
    && op.beforeGeneration <= op.latestOwner
    && (op.phase.Preparing? ==> !op.restoreRequired && !op.lossObserved)
    && (op.phase.WaitingCellularLoss? || op.phase.DataEnabling? ==> op.restoreRequired)
    && (4 <= Rank(op.phase) && !op.phase.Failed? ==> !op.restoreRequired)
    && (op.phase.WaitingCellularLoss? ==> !op.lossObserved)
    && (3 <= Rank(op.phase) && !op.phase.Failed? ==> op.lossObserved)
    && (1 <= Rank(op.phase) && !op.phase.Failed? ==> op.beforeIp.Some?)
    && (Rank(op.phase) < 3 ==> op.freshCellular.None? && op.rootAuthorized.None?)
    && (Rank(op.phase) < 6 ==> op.afterGeneration.None?)
    && (op.phase.WaitingCellularRecovery? ==> op.freshCellular.None?)
    && (op.phase.WaitingRootPolicy? ==> op.freshCellular.Some? && op.rootAuthorized != op.freshCellular)
    && (6 <= Rank(op.phase) && !op.phase.Failed? ==> op.afterGeneration.Some?)
    && (op.phase.Changed? ==> op.afterIp.Some? && op.afterIp != op.beforeIp)
    && (op.phase.Unchanged? ==> op.afterIp.Some? && op.afterIp == op.beforeIp)
    && op.terminal == (if Terminal(op.phase) then Some(op.phase) else None)
    && (Rank(op.phase) < 6 ==> CurrentFact(op, op.freshCellular) && CurrentFact(op, op.rootAuthorized))
  }

  /** A recovery fact is absent or names the newest owner generation. */
  ghost predicate CurrentFact(op: Operation, fact: Option<nat>) {
    fact.Some? ==> fact.value == op.latestOwner
  }

  lemma CallKeepsInv(op: Operation, call: Call)
    requires OperationInv(op) && !call.Start?
    ensures OperationInv(OnCall(op, call).op)
  {
    if op.id == call.id && !Terminal(op.phase) {
      match call
      case ObserveCellular(_, generation, admitted) => CellularKeepsInv(op, generation, admitted);
      case ObserveRootPolicy(_, generation, authorized) => RootPolicyKeepsInv(op, generation, authorized);
      case _ => EffectKeepsInv(op, call);
    }
  }

  lemma CellularKeepsInv(op: Operation, generation: nat, admitted: bool)
    requires OperationInv(op) && !Terminal(op.phase)
    ensures OperationInv(OnCellular(op, generation, admitted).op)
  {
  }

  lemma RootPolicyKeepsInv(op: Operation, generation: nat, authorized: bool)
    requires OperationInv(op) && !Terminal(op.phase)
    ensures OperationInv(OnRootPolicy(op, generation, authorized).op)
  {
  }

  lemma EffectKeepsInv(op: Operation, call: Call)
    requires OperationInv(op) && !call.Start? && !call.ObserveCellular? && !call.ObserveRootPolicy?
    ensures OperationInv(OnCall(op, call).op)
  {
  }

  /** The published phase moves forward, except between the two recovery phases. */
  lemma PhaseMovesForward(op: Operation, call: Call)
    requires OperationInv(op) && !call.Start?
    ensures var next := OnCall(op, call).op;
            && next.id == op.id && next.beforeGeneration == op.beforeGeneration
            && (Rank(op.phase) <= Rank(next.phase)
              || (op.phase.WaitingRootPolicy? && next.phase.WaitingCellularRecovery?))
            && (Terminal(op.phase) ==> next.phase == op.phase)
  {
  }

  /** A refused call leaves the published snapshot as it was, even when it raised the private owner generation. */
  lemma RefusedCallKeepsSnapshot(m: Machine, call: Call)
    ensures Refusal(m, call).Some? ==> SnapshotOf(After(m, call)) == SnapshotOf(m) && After(m, call).nextId == m.nextId
  {
  }

  /** A refused call that does advance the private owner generation. */
  lemma RefusedCallMayRaiseOwner(op: Operation)
    requires op.phase.Preparing?
    ensures var out := OnCall(op, ObserveCellular(op.id, op.latestOwner + op.beforeGeneration + 1, true));
            out.error == Some(InvalidPhase) && out.op != op
  {
  }

  /** The call reports, for the live operation, a generation newer than any it has seen. */
  predicate ReportsNewer(m: Machine, call: Call) {
    && (call.ObserveCellular? || call.ObserveRootPolicy?)
    && m.current.Some? && call.id == m.current.value.id && !Terminal(m.current.value.phase)
    && m.current.value.latestOwner < call.generation
  }

  ghost predicate MachineInv(m: Machine) {
    m.current.Some? ==> OperationInv(m.current.value) && m.current.value.id < m.nextId
  }

  lemma MachineKeepsInv(m: Machine, call: Call)
    requires MachineInv(m)
    ensures MachineInv(After(m, call))
    ensures After(m, call).nextId >= m.nextId
  {
    if !call.Start? && m.current.Some? {
      CallKeepsInv(m.current.value, call);
      PhaseMovesForward(m.current.value, call);
    }
  }

  function RunMachine(calls: seq<Call>): Machine {
    if calls == [] then NEW else After(RunMachine(calls[..|calls| - 1]), calls[|calls| - 1])
  }

  lemma {:induction false} RunKeepsInv(calls: seq<Call>)
    ensures MachineInv(RunMachine(calls))
  {
    if calls != [] {
      RunKeepsInv(calls[..|calls| - 1]);
      MachineKeepsInv(RunMachine(calls[..|calls| - 1]), calls[|calls| - 1]);
    }
  }

  /** Call `k` of the run started an operation. */
  predicate StartedAt(calls: seq<Call>, k: nat)
    requires k < |calls|
  {
    calls[k].Start? && Refusal(RunMachine(calls[..k]), calls[k]).None?
  }

  /** Later operations carry strictly larger ids; the same id means the same operation. */
  lemma {:induction false} IdsIncrease(calls: seq<Call>, i: nat, j: nat)
    requires i <= j <= |calls| && RunMachine(calls[..i]).current.Some?
    ensures RunMachine(calls[..j]).current.Some?
    ensures var first, last := RunMachine(calls[..i]).current.value, RunMachine(calls[..j]).current.value;
            && first.id <= last.id
            && (first.id == last.id ==> first.beforeGeneration == last.beforeGeneration)
            && (first.id == last.id && Terminal(first.phase) ==> last.phase == first.phase)
            && ((exists k :: i <= k < j && StartedAt(calls, k)) ==> first.id < last.id)
  {
    if i < j {
      IdsIncrease(calls, i, j - 1);
      assert calls[..j][..j - 1] == calls[..j - 1];
      RunKeepsInv(calls[..j - 1]);
      var m := RunMachine(calls[..j - 1]);
      if !calls[j - 1].Start? { PhaseMovesForward(m.current.value, calls[j - 1]); }
    }
  }

  lemma RefusedOnOperation(op: Operation, call: Call)
    requires OperationInv(op) && !call.Start? && OnCall(op, call).error.Some?
    ensures var newer := (call.ObserveCellular? || call.ObserveRootPolicy?) && call.id == op.id
                         && !Terminal(op.phase) && op.latestOwner < call.generation;
            OnCall(op, call).op == if newer then RaiseOwner(op, call.generation) else op
  {
  }

  /**
   After every run, a refused call changes the machine exactly when it reports a newer generation for the live
   operation; then it raises the private owner generation, retires older facts, and changes nothing else.
   */
  lemma RefusedCallChangesExactly(calls: seq<Call>, call: Call)
    requires Refusal(RunMachine(calls), call).Some?
    ensures var m := RunMachine(calls);
            && (After(m, call) != m <==> ReportsNewer(m, call))
            && (ReportsNewer(m, call) ==>
                  After(m, call) == m.(current := Some(RaiseOwner(m.current.value, call.generation))))
  {
    RunKeepsInv(calls);
    var m := RunMachine(calls);
    if !call.Start? && m.current.Some? {
      RefusedOnOperation(m.current.value, call);
    }
  }
}
