/** Which rotation calls are accepted, how an operation fails, and that every rotation can be completed. */
module RotationAnswers {
  import opened Common
  import opened Rotation
  import opened RotationTrail
  import opened RestoreDuty

  // ----- acceptance, phase by phase ----------------------------------------------------------------------

  predicate Live(m: Machine) {
    m.current.Some? && m.current.value.phase !in {Changed, Unchanged, Failed}
  }

  /** Mobile data is being switched, or the network is awaited. */
  predicate Switching(phase: Phase) {
    phase in {DataDisabling, WaitingCellularLoss, DataEnabling, WaitingCellularRecovery, WaitingRootPolicy}
  }

  /** A fact older than another one the operation was shown, but newer than its start. */
  predicate Superseded(op: Operation, generation: nat) {
    op.beforeGeneration < generation < op.latestOwner
  }

  /** What the operation waits for in its phase. */
  predicate Awaited(op: Operation, call: Call) {
    match call
    case Start(_) => false
    case RecordBeforeIp(_, generation, _) => op.phase == Preparing && generation == op.beforeGeneration
    case DisableStarted(_) => op.phase == DataDisabling
    case DisableCompleted(_, _) => op.phase == DataDisabling
    case EnableCompleted(_, _) => op.phase == DataEnabling
    case ObserveCellular(_, generation, _) =>
      Switching(op.phase) || (op.phase in {Preparing, ProbingPublicIp} && Superseded(op, generation))
    case ObserveRootPolicy(_, generation, _) =>
      || op.phase in {DataEnabling, WaitingCellularRecovery, WaitingRootPolicy}
      || (op.phase in {Preparing, DataDisabling, WaitingCellularLoss, ProbingPublicIp} && Superseded(op, generation))
    case RecordAfterIp(_, generation, _) => op.phase == ProbingPublicIp && op.afterGeneration == Some(generation)
    case Fail(_, _) => op.phase !in {Changed, Unchanged, Failed}
    case RecordRestore(_, _) => op.phase == Failed
  }

  /** After every run: a call is accepted exactly when it names the current operation and is awaited. */
  lemma AcceptedExactly(calls: seq<Call>, call: Call)
    requires !call.Start?
    ensures var m := RunMachine(calls);
      && (Refusal(m, call).None? <==>
            m.current.Some? && m.current.value.id == call.id && Awaited(m.current.value, call))
      && (Refusal(m, call) == Some(StaleOperation) <==> m.current.None? || m.current.value.id != call.id)
  {
    RunKeepsInv(calls);
    var m := RunMachine(calls);
    if m.current.Some? { AnswerOnOperation(m.current.value, call); }
  }

  lemma AnswerOnOperation(op: Operation, call: Call)
    requires OperationInv(op) && !call.Start?
    ensures OnCall(op, call).error.None? <==> op.id == call.id && Awaited(op, call)
    ensures OnCall(op, call).error == Some(StaleOperation) <==> op.id != call.id
  {
  }

  /** A refused call with the right id is stale in its generation, or out of its phase. */
  lemma RefusalNamesReason(calls: seq<Call>, call: Call)
    requires !call.Start? && RunMachine(calls).current.Some? && RunMachine(calls).current.value.id == call.id
    requires Refusal(RunMachine(calls), call).Some?
    ensures var op := RunMachine(calls).current.value;
      Refusal(RunMachine(calls), call) == Some(
        if (call.RecordBeforeIp? && op.phase == Preparing) || (call.RecordAfterIp? && op.phase == ProbingPublicIp)
          || ((call.ObserveCellular? || call.ObserveRootPolicy?) && op.phase !in {Changed, Unchanged, Failed}
              && call.generation <= op.beforeGeneration)
        then StaleGeneration else InvalidPhase)
  {
    RunKeepsInv(calls);
  }

  // ----- starting ------------------------------------------------------------------------------------------

  /** How many of the calls started an operation. */
  ghost function Starts(calls: seq<Call>): nat {
    if calls == [] then 0
    else Starts(calls[..|calls| - 1]) + if StartedAt(calls, |calls| - 1) then 1 else 0
  }

  lemma {:induction false} IdsCountStarts(calls: seq<Call>)
    ensures RunMachine(calls).nextId == Starts(calls) + 1 < U64_LIMIT
    ensures Starts(calls) == 0 <==> RunMachine(calls).current.None?
    ensures RunMachine(calls).current.Some? ==> RunMachine(calls).current.value.id == Starts(calls)
  {
    if calls != [] {
      var n := |calls| - 1;
      IdsCountStarts(calls[..n]);
      var m := RunMachine(calls[..n]);
      if !calls[n].Start? && m.current.Some? { PhaseKeepsId(m.current.value, calls[n]); }
    }
  }

  /** After every run: a start is refused for no generation, for a live operation, or for want of ids, in this order. */
  lemma StartExactly(calls: seq<Call>, generation: nat)
    ensures var m := RunMachine(calls);
      Refusal(m, Start(generation)) ==
        if generation == 0 then Some(InvalidGeneration)
        else if Live(m) then Some(AlreadyInProgress)
        else if Starts(calls) == U64_LIMIT - 2 then Some(OperationIdExhausted)
        else None
  {
    IdsCountStarts(calls);
  }

  /** An accepted start begins the next operation, with nothing known but its generation. */
  lemma StartBegins(calls: seq<Call>, generation: nat)
    requires Refusal(RunMachine(calls), Start(generation)).None?
    ensures SnapshotOf(RunMachine(calls + [Start(generation)]))
      == Snapshot(Starts(calls) + 1, Preparing, generation, None, None, None, false, None, None, None)
  {
    IdsCountStarts(calls);
    assert (calls + [Start(generation)])[..|calls|] == calls;
  }

  // ----- failing ---------------------------------------------------------------------------------------------

  /** The failure an accepted call records. */
  function FailureOf(call: Call): Option<Failure> {
    match call
    case DisableCompleted(_, outcome) => if outcome == Applied then None else Some(DataDisableFailed)
    case EnableCompleted(_, outcome) => if outcome == Applied then None else Some(DataEnableFailed)
    case Fail(_, reason) => Some(reason)
    case _ => None
  }

  ghost predicate FailedBy(log: seq<Entry>, id: nat, failure: Failure) {
    exists k | 0 <= k < |log| :: Accepted(log[k], id) && FailureOf(log[k].call) == Some(failure)
  }

  ghost predicate RestoredBy(log: seq<Entry>, id: nat, restore: RestoreResult) {
    exists k :: LastRestore(log, id, restore, k)
  }

  lemma FailedStep(log: seq<Entry>, e: Entry, id: nat, failure: Failure)
    ensures FailedBy(log + [e], id, failure) <==>
      FailedBy(log, id, failure) || (Accepted(e, id) && FailureOf(e.call) == Some(failure))
  {
    var longer := log + [e];
    assert longer[|log|] == e && forall k | 0 <= k < |log| :: longer[k] == log[k];
  }

  /** Entry `k` is the last restore result reported for the operation. */
  ghost predicate LastRestore(log: seq<Entry>, id: nat, restore: RestoreResult, k: nat) {
    && k < |log| && Accepted(log[k], id) && log[k].call == RecordRestore(id, restore)
    && forall j | k < j < |log| && Accepted(log[j], id) :: !log[j].call.RecordRestore?
  }

  lemma LastRestoreStep(log: seq<Entry>, e: Entry, id: nat, restore: RestoreResult, k: nat)
    requires k < |log|
    ensures LastRestore(log + [e], id, restore, k) <==>
      LastRestore(log, id, restore, k) && !(Accepted(e, id) && e.call.RecordRestore?)
  {
    hide Accepted;
    var longer, n := log + [e], |log|;
    assert longer[n] == e && forall j | 0 <= j < n :: longer[j] == log[j];
  }

  lemma RestoredStep(log: seq<Entry>, e: Entry, id: nat, restore: RestoreResult)
    ensures RestoredBy(log + [e], id, restore) <==>
      if Accepted(e, id) && e.call.RecordRestore? then e.call.restore == restore else RestoredBy(log, id, restore)
  {
    var longer, n := log + [e], |log|;
    assert longer[n] == e;
    forall k | 0 <= k < n
      ensures LastRestore(longer, id, restore, k) <==>
        LastRestore(log, id, restore, k) && !(Accepted(e, id) && e.call.RecordRestore?)
    {
      LastRestoreStep(log, e, id, restore, k);
    }
    assert LastRestore(longer, id, restore, n) <==> Accepted(e, id) && e.call == RecordRestore(id, restore);
  }

  /** An operation has failed exactly when it holds a failure. */
  predicate FailureShown(op: Operation) {
    op.phase.Failed? <==> op.failure.Some?
  }

  lemma CallRecordsFailure(op: Operation, call: Call)
    requires !call.Start? && FailureShown(op)
    ensures var out := OnCall(op, call);
      && FailureShown(out.op)
      && out.op.failure == (if out.error.None? && FailureOf(call).Some? then FailureOf(call) else op.failure)
      && (out.error.None? && FailureOf(call).Some? ==> op.failure.None?)
  {
    hide OnCellular, OnRootPolicy;
    match call {
      case ObserveCellular(_, generation, admitted) => CellularKeepsReports(op, generation, admitted);
      case ObserveRootPolicy(_, generation, authorized) => RootPolicyKeepsReports(op, generation, authorized);
      case _ =>
    }
  }

  /** Neither a failure nor a restore result is recorded. */
  predicate SameReports(op: Operation, next: Operation) {
    && next.failure == op.failure && next.restoreResult == op.restoreResult
    && (next.phase.Failed? <==> op.phase.Failed?)
  }

  lemma StepsKeepReports(op: Operation, generation: nat, admitted: bool)
    ensures SameReports(op, RaiseOwner(op, generation))
    ensures SameReports(op, WithRecoveryCellular(op, generation, admitted))
    ensures SameReports(op, AdvanceRecovery(op)) && SameReports(op, AdvanceLoss(op))
  {
  }

  lemma CellularKeepsReports(op: Operation, generation: nat, admitted: bool)
    ensures SameReports(op, OnCellular(op, generation, admitted).op)
  {
    hide RaiseOwner, WithRecoveryCellular, AdvanceRecovery, AdvanceLoss;
    var raised := RaiseOwner(op, generation);
    var lost := raised.(lossObserved := op.lossObserved || !admitted);
    var shown := WithRecoveryCellular(raised, generation, admitted);
    StepsKeepReports(op, generation, admitted);
    StepsKeepReports(raised, generation, admitted);
    StepsKeepReports(lost, generation, admitted);
    StepsKeepReports(shown, generation, admitted);
  }

  lemma RootPolicyKeepsReports(op: Operation, generation: nat, authorized: bool)
    ensures SameReports(op, OnRootPolicy(op, generation, authorized).op)
  {
    hide RaiseOwner, AdvanceRecovery;
    var raised := RaiseOwner(op, generation);
    StepsKeepReports(op, generation, authorized);
    StepsKeepReports(raised.(rootAuthorized := if authorized then Some(generation) else None), generation, authorized);
  }

  lemma CallRecordsRestore(op: Operation, call: Call)
    requires !call.Start?
    ensures var out := OnCall(op, call);
      out.op.restoreResult
      == if out.error.None? && call.RecordRestore? then Some(call.restore) else op.restoreResult
  {
    hide OnCellular, OnRootPolicy;
    match call {
      case ObserveCellular(_, generation, admitted) => CellularKeepsReports(op, generation, admitted);
      case ObserveRootPolicy(_, generation, authorized) => RootPolicyKeepsReports(op, generation, authorized);
      case _ =>
    }
  }

  /** Over every run, an operation has failed exactly for the failure one of its calls reported. */
  lemma {:induction false} FailureExactly(log: seq<Entry>, final: Machine)
    requires IsLog(log, final)
    ensures final.current.Some? ==>
      var op := final.current.value;
      FailureShown(op) && forall failure :: op.failure == Some(failure) <==> FailedBy(log, op.id, failure)
    decreases |log|
  {
    hide FailureOf, OnCall, FailedBy;
    if log != [] {
      var n := |log| - 1;
      var last := log[n];
      FailureExactly(log[..n], last.machine);
      assert log == log[..n] + [last];
      if final.current.Some? {
        var id := final.current.value.id;
        forall failure
          ensures FailedBy(log, id, failure) <==>
            FailedBy(log[..n], id, failure) || (Accepted(last, id) && FailureOf(last.call) == Some(failure))
        {
          FailedStep(log[..n], last, id, failure);
        }
        if last.call.Start? {
          forall failure ensures last.refusal.None? ==> !FailedBy(log[..n], id, failure) {
            if last.refusal.None? { NotYetAccepted(log[..n], last.machine, id, failure); }
          }
        } else {
          CallRecordsFailure(last.machine.current.value, last.call);
          PhaseKeepsId(last.machine.current.value, last.call);
        }
      }
    }
  }

  /** Over every run, the restore result of an operation is the last one reported for it. */
  lemma {:induction false} RestoreResultExactly(log: seq<Entry>, final: Machine, restore: RestoreResult)
    requires IsLog(log, final)
    ensures final.current.Some? ==>
      (final.current.value.restoreResult == Some(restore) <==> RestoredBy(log, final.current.value.id, restore))
    decreases |log|
  {
    hide OnCall;
    if log != [] {
      var n := |log| - 1;
      var last := log[n];
      RestoreResultExactly(log[..n], last.machine, restore);
      AcceptedIdsAreIssued(log[..n], last.machine);
      assert log == log[..n] + [last];
      if final.current.Some? {
        RestoredStep(log[..n], last, final.current.value.id, restore);
        if !last.call.Start? {
          CallRecordsRestore(last.machine.current.value, last.call);
          PhaseKeepsId(last.machine.current.value, last.call);
        }
      }
    }
  }

  lemma NotYetAccepted(log: seq<Entry>, final: Machine, id: nat, failure: Failure)
    requires IsLog(log, final) && id == final.nextId
    ensures !FailedBy(log, id, failure)
  {
    AcceptedIdsAreIssued(log, final);
  }

  // ----- every rotation can be completed ---------------------------------------------------------------------

  function RunFrom(m: Machine, calls: seq<Call>): Machine {
    if calls == [] then m else After(RunFrom(m, calls[..|calls| - 1]), calls[|calls| - 1])
  }

  /** What a rotation reports when everything goes well; `lost` and `found` are the generations seen. */
  function Story(id: nat, start: nat, lost: nat, found: nat, before: Address, after: Address): seq<Call> {
    [Start(start), RecordBeforeIp(id, start, before), DisableStarted(id), DisableCompleted(id, Applied),
     ObserveCellular(id, lost, false), EnableCompleted(id, Applied), ObserveCellular(id, found, true),
     ObserveRootPolicy(id, found, true), RecordAfterIp(id, found, after)]
  }

  lemma StoryPrepares(op: Operation, before: Address)
    requires op == NewOperation(op.id, op.beforeGeneration)
    ensures var read := OnCall(op, RecordBeforeIp(op.id, op.beforeGeneration, before)).op;
      var started := OnCall(read, DisableStarted(op.id)).op;
      var disabled := OnCall(started, DisableCompleted(op.id, Applied)).op;
      disabled == op.(beforeIp := Some(before), restoreRequired := true, phase := WaitingCellularLoss)
  {
  }

  lemma StoryRecovers(op: Operation, lost: nat, found: nat)
    requires op.phase == WaitingCellularLoss && !op.lossObserved && op.freshCellular == op.rootAuthorized == None
    requires op.beforeGeneration == op.latestOwner < lost <= found && op.restoreRequired
    ensures var gone := OnCall(op, ObserveCellular(op.id, lost, false)).op;
      var enabled := OnCall(gone, EnableCompleted(op.id, Applied)).op;
      var back := OnCall(enabled, ObserveCellular(op.id, found, true)).op;
      var ready := OnCall(back, ObserveRootPolicy(op.id, found, true)).op;
      && gone.phase == DataEnabling && enabled.phase == WaitingCellularRecovery && back.phase == WaitingRootPolicy
      && ready == op.(lossObserved := true, latestOwner := found, freshCellular := Some(found),
                      rootAuthorized := Some(found), restoreRequired := false, afterGeneration := Some(found),
                      phase := ProbingPublicIp)
  {
  }

  /** The story up to the disabled data, and from there to the probe. */
  lemma StoryBegins(m: Machine, start: nat, lost: nat, found: nat, before: Address, after: Address)
    requires !Live(m) && m.nextId + 1 < U64_LIMIT && start > 0
    ensures var calls := Story(m.nextId, start, lost, found, before, after);
      |calls| == 9 && RunFrom(m, calls[..4]).current == Some(NewOperation(m.nextId, start).(beforeIp := Some(before),
        restoreRequired := true, phase := WaitingCellularLoss))
  {
    hide OnCall, Story;
    var calls, op := Story(m.nextId, start, lost, found, before, after), NewOperation(m.nextId, start);
    StoryIs(m.nextId, start, lost, found, before, after);
    StoryPrepares(op, before);
    assert RunFrom(m, calls[..0]) == m;
    RunsOne(m, calls, 0);
    RunsOne(m, calls, 1);
    RunsOne(m, calls, 2);
    RunsOne(m, calls, 3);
  }

  lemma StoryProbes(m: Machine, start: nat, lost: nat, found: nat, before: Address, after: Address)
    requires !Live(m) && m.nextId + 1 < U64_LIMIT && 0 < start < lost <= found
    ensures var calls := Story(m.nextId, start, lost, found, before, after);
      |calls| == 9 && RunFrom(m, calls[..8]).current == Some(NewOperation(m.nextId, start).(beforeIp := Some(before),
        lossObserved := true, latestOwner := found, freshCellular := Some(found), rootAuthorized := Some(found),
        afterGeneration := Some(found), phase := ProbingPublicIp))
  {
    hide OnCall, Story, RunFrom;
    var calls := Story(m.nextId, start, lost, found, before, after);
    StoryBegins(m, start, lost, found, before, after);
    StoryIs(m.nextId, start, lost, found, before, after);
    StoryRecovers(RunFrom(m, calls[..4]).current.value, lost, found);
    RunsOne(m, calls, 4);
    RunsOne(m, calls, 5);
    RunsOne(m, calls, 6);
    RunsOne(m, calls, 7);
  }

  /** From every idle machine with an id left, a rotation that goes well ends as changed or unchanged. */
  lemma RotationCanSucceed(m: Machine, start: nat, lost: nat, found: nat, before: Address, after: Address)
    requires !Live(m) && m.nextId + 1 < U64_LIMIT && 0 < start < lost <= found
    ensures var result := if before == after then Unchanged else Changed;
      SnapshotOf(RunFrom(m, Story(m.nextId, start, lost, found, before, after)))
      == Snapshot(m.nextId, result, start, Some(found), Some(before), Some(after), false, Some(result), None, None)
  {
    hide OnCall, Story, RunFrom;
    var calls := Story(m.nextId, start, lost, found, before, after);
    StoryProbes(m, start, lost, found, before, after);
    StoryIs(m.nextId, start, lost, found, before, after);
    StoryEnds(RunFrom(m, calls[..8]).current.value, found, after);
    RunsOne(m, calls, 8);
    assert calls[..9] == calls;
  }

  lemma StoryEnds(op: Operation, found: nat, after: Address)
    requires op.phase == ProbingPublicIp && op.afterGeneration == Some(found) && op.beforeIp.Some?
    ensures var result := if op.beforeIp == Some(after) then Unchanged else Changed;
      OnCall(op, RecordAfterIp(op.id, found, after)).op
      == op.(afterIp := Some(after), phase := result, terminal := Some(result), restoreRequired := false)
  {
  }

  lemma StoryIs(id: nat, start: nat, lost: nat, found: nat, before: Address, after: Address)
    ensures var calls := Story(id, start, lost, found, before, after);
      && |calls| == 9 && calls[0] == Start(start) && calls[1] == RecordBeforeIp(id, start, before)
      && calls[2] == DisableStarted(id) && calls[3] == DisableCompleted(id, Applied)
      && calls[4] == ObserveCellular(id, lost, false) && calls[5] == EnableCompleted(id, Applied)
      && calls[6] == ObserveCellular(id, found, true) && calls[7] == ObserveRootPolicy(id, found, true)
      && calls[8] == RecordAfterIp(id, found, after)
  {
  }

  lemma RunsOne(m: Machine, calls: seq<Call>, k: nat)
    requires k < |calls|
    ensures RunFrom(m, calls[..k + 1]) == After(RunFrom(m, calls[..k]), calls[k])
  {
    assert calls[..k + 1][..k] == calls[..k];
  }
}
