/** Which calls a successful rotation must have seen, and in which order. */
module RotationTrail {
  import opened Common
  import opened Rotation
  import CellularOwner

  /** One call of a run, the machine it found, and the error it was answered with. */
  datatype Entry = Entry(machine: Machine, call: Call, refusal: Option<CallError>)

  /** `log` records a run from the new machine to `final`. */
  ghost predicate IsLog(log: seq<Entry>, final: Machine) {
    if log == [] then final == NEW
    else
      var last := log[|log| - 1];
      && IsLog(log[..|log| - 1], last.machine)
      && last.refusal == Refusal(last.machine, last.call) && final == After(last.machine, last.call)
  }

  /** Positions in a log of the calls that moved the current operation forward. */
  datatype Trail = Trail(start: nat, before: nat, disable: nat, loss: nat, enable: nat,
                         admit: nat, root: nat, probe: nat, after: nat)

  const NOTHING: Trail := Trail(0, 0, 0, 0, 0, 0, 0, 0, 0)

  predicate CountsFor(op: Operation, generation: nat) {
    op.beforeGeneration < generation && op.latestOwner <= generation
  }

  predicate Detaching(phase: Phase) {
    phase.DataDisabling? || phase.WaitingCellularLoss?
  }

  /** An accepted call on operation `op` at position `n` marks the trail. */
  function Marked(t: Trail, op: Operation, call: Call, n: nat): Trail {
    match call
    case RecordBeforeIp(_, _, _) => t.(before := n)
    case DisableCompleted(_, Applied) => t.(disable := n)
    case EnableCompleted(_, Applied) => t.(enable := n)
    case ObserveCellular(_, generation, admitted) =>
      if !CountsFor(op, generation) then t
      else if Detaching(op.phase) then if admitted then t else t.(loss := n)
      else if admitted then t.(admit := n) else t
    case ObserveRootPolicy(_, generation, authorized) =>
      if authorized && CountsFor(op, generation) then t.(root := n) else t
    case RecordAfterIp(_, _, _) => t.(after := n)
    case _ => t
  }

  /** The call on `op` is the one that starts probing. */
  predicate StartsProbing(op: Operation, call: Call)
    requires !call.Start?
  {
    !op.phase.ProbingPublicIp? && OnCall(op, call).op.phase.ProbingPublicIp?
  }

  function TrailStep(t: Trail, op: Operation, call: Call, n: nat): Trail
    requires !call.Start?
  {
    if OnCall(op, call).error.Some? then t
    else
      var marked := Marked(t, op, call, n);
      if StartsProbing(op, call) then marked.(probe := n) else marked
  }

  function TrailOf(log: seq<Entry>): Trail {
    if log == [] then NOTHING
    else
      var n := |log| - 1;
      var t, e := TrailOf(log[..n]), log[n];
      if e.call.Start? then if e.refusal.None? then NOTHING.(start := n) else t
      else if e.machine.current.Some? then TrailStep(t, e.machine.current.value, e.call, n)
      else t
  }

  /** Position `k` holds `call`, and the machine accepted it. */
  ghost predicate At(log: seq<Entry>, k: nat, call: Call) {
    k < |log| && log[k].call == call && log[k].refusal.None?
  }

  ghost predicate Shown(e: Entry, id: nat) {
    (e.call.ObserveCellular? || e.call.ObserveRootPolicy?) && e.call.id == id
  }

  /** No fact shown to operation `id` in positions `from < k < to` is newer than `generation`. */
  ghost predicate NoneNewer(log: seq<Entry>, id: nat, from: nat, to: nat, generation: nat) {
    forall k | from < k < to && k < |log| && Shown(log[k], id) :: log[k].call.generation <= generation
  }

  ghost predicate Past(op: Operation, rank: nat) {
    rank <= Rank(op.phase) && !op.phase.Failed?
  }

  /** A loss newer than the start, seen while data was being disabled or the loss awaited. */
  ghost predicate LossAt(log: seq<Entry>, op: Operation, t: Trail, generation: nat) {
    && t.before < t.loss && At(log, t.loss, ObserveCellular(op.id, generation, false))
    && op.beforeGeneration < generation
    && log[t.loss].machine.current.Some? && Detaching(log[t.loss].machine.current.value.phase)
  }

  ghost predicate AdmittedAt(log: seq<Entry>, op: Operation, t: Trail, generation: nat) {
    t.disable < t.admit && t.loss < t.admit && At(log, t.admit, ObserveCellular(op.id, generation, true))
  }

  ghost predicate RootedAt(log: seq<Entry>, op: Operation, t: Trail, generation: nat) {
    t.disable < t.root && t.loss < t.root && At(log, t.root, ObserveRootPolicy(op.id, generation, true))
  }

  ghost predicate BegunInv(log: seq<Entry>, op: Operation, t: Trail) {
    && At(log, t.start, Start(op.beforeGeneration)) && log[t.start].machine.nextId == op.id
    && (op.beforeIp.Some? ==>
          t.start < t.before && At(log, t.before, RecordBeforeIp(op.id, op.beforeGeneration, op.beforeIp.value)))
  }

  ghost predicate DetachedInv(log: seq<Entry>, op: Operation, t: Trail) {
    && (Past(op, 2) ==> t.before < t.disable && At(log, t.disable, DisableCompleted(op.id, Applied)))
    && (op.lossObserved ==> exists generation :: LossAt(log, op, t, generation))
    && (Past(op, 4) ==> t.disable < t.enable && t.loss < t.enable && At(log, t.enable, EnableCompleted(op.id, Applied)))
  }

  ghost predicate RecoveryInv(log: seq<Entry>, op: Operation, t: Trail) {
    Rank(op.phase) < 6 ==>
      && (op.freshCellular.Some? ==> AdmittedAt(log, op, t, op.freshCellular.value))
      && (op.rootAuthorized.Some? ==> RootedAt(log, op, t, op.rootAuthorized.value))
      && NoneNewer(log, op.id, t.start, |log|, op.latestOwner)
  }

  /** Probing began on one generation, admitted and authorized, with nothing newer shown until then. */
  ghost predicate ProbedOn(log: seq<Entry>, op: Operation, t: Trail, generation: nat) {
    && AdmittedAt(log, op, t, generation) && t.admit <= t.probe
    && RootedAt(log, op, t, generation) && t.root <= t.probe
    && t.enable <= t.probe < |log|
    && NoneNewer(log, op.id, t.start, t.probe + 1, generation)
  }

  ghost predicate ProbedInv(log: seq<Entry>, op: Operation, t: Trail) {
    && (Past(op, 6) && op.afterGeneration.Some? ==> ProbedOn(log, op, t, op.afterGeneration.value))
    && (Past(op, 7) && op.afterGeneration.Some? && op.afterIp.Some? ==>
          t.probe < t.after && At(log, t.after, RecordAfterIp(op.id, op.afterGeneration.value, op.afterIp.value)))
  }

  ghost predicate TrailInv(log: seq<Entry>, op: Operation, t: Trail) {
    && OperationInv(op) && BegunInv(log, op, t) && DetachedInv(log, op, t)
    && RecoveryInv(log, op, t) && ProbedInv(log, op, t)
  }

  // ----- what one call does to an operation and its trail ---------------------------------------------

  /** The call marks position `n` now, or leaves the mark where it was. */
  predicate Marks(accepted: bool, call: Call, expected: Call, mark: nat, n: nat) {
    accepted && call == expected && mark == n
  }

  ghost predicate BegunMove(op: Operation, t: Trail, call: Call, accepted: bool, next: Operation, t': Trail, n: nat) {
    && next.id == op.id && next.beforeGeneration == op.beforeGeneration && t'.start == t.start
    && (next.beforeIp.Some? ==>
          || (next.beforeIp == op.beforeIp && t'.before == t.before)
          || Marks(accepted, call, RecordBeforeIp(op.id, op.beforeGeneration, next.beforeIp.value), t'.before, n))
  }

  ghost predicate DetachedMove(op: Operation, t: Trail, call: Call, accepted: bool, next: Operation, t': Trail,
      n: nat) {
    && (Past(next, 2) ==>
          && op.beforeIp.Some? && t'.before == t.before
          && ((Past(op, 2) && t'.disable == t.disable)
              || Marks(accepted, call, DisableCompleted(op.id, Applied), t'.disable, n)))
    && (next.lossObserved ==>
          || (op.lossObserved && t'.loss == t.loss && t'.before == t.before)
          || (&& call.ObserveCellular? && op.beforeGeneration < call.generation && Detaching(op.phase)
            && op.beforeIp.Some?
              && t'.before == t.before
              && Marks(accepted, call, ObserveCellular(op.id, call.generation, false), t'.loss, n)))
    && (Past(next, 4) ==>
          && Past(op, 2) && op.lossObserved && t'.disable == t.disable && t'.loss == t.loss
          && ((Past(op, 4) && t'.enable == t.enable)
              || Marks(accepted, call, EnableCompleted(op.id, Applied), t'.enable, n)))
  }

  /** The recovery facts after the call are old ones, or the fact the call itself carried. */
  ghost predicate FactsMove(op: Operation, t: Trail, call: Call, accepted: bool, next: Operation, t': Trail, n: nat) {
    && (next.freshCellular.Some? ==>
          && Past(op, 2) && op.lossObserved && t'.disable == t.disable && t'.loss == t.loss
          && ((next.freshCellular == op.freshCellular && t'.admit == t.admit)
              || Marks(accepted, call, ObserveCellular(op.id, next.freshCellular.value, true), t'.admit, n)))
    && (next.rootAuthorized.Some? ==>
          && Past(op, 2) && op.lossObserved && t'.disable == t.disable && t'.loss == t.loss
          && ((next.rootAuthorized == op.rootAuthorized && t'.root == t.root)
              || Marks(accepted, call, ObserveRootPolicy(op.id, next.rootAuthorized.value, true), t'.root, n)))
    && op.latestOwner <= next.latestOwner
    && ((call.ObserveCellular? || call.ObserveRootPolicy?) && call.id == op.id ==> call.generation <= next.latestOwner)
  }

  ghost predicate ProbedMove(op: Operation, t: Trail, call: Call, accepted: bool, next: Operation, t': Trail, n: nat) {
    && (Past(next, 6) ==>
          if Past(op, 6) then next.afterGeneration == op.afterGeneration && t' == t.(after := t'.after)
          else
            && next.afterGeneration.Some? && next.freshCellular == next.rootAuthorized == next.afterGeneration
            && next.latestOwner == next.afterGeneration.value && t'.probe == n)
    && (Past(next, 7) && next.afterGeneration.Some? && next.afterIp.Some? ==>
          || (Past(op, 7) && next.afterIp == op.afterIp && t'.after == t.after)
          || (Past(op, 6)
              && Marks(accepted, call, RecordAfterIp(op.id, next.afterGeneration.value, next.afterIp.value),
                       t'.after, n)))
  }

  lemma CallMoves(op: Operation, t: Trail, call: Call, n: nat)
    requires OperationInv(op) && !call.Start? && !Terminal(op.phase)
    ensures var out, t' := OnCall(op, call), TrailStep(t, op, call, n);
            BegunMove(op, t, call, out.error.None?, out.op, t', n)
  {
  }

  lemma CallDetaches(op: Operation, t: Trail, call: Call, n: nat)
    requires OperationInv(op) && !call.Start? && !Terminal(op.phase)
    ensures var out, t' := OnCall(op, call), TrailStep(t, op, call, n);
            DetachedMove(op, t, call, out.error.None?, out.op, t', n)
  {
  }

  lemma CallShowsFacts(op: Operation, t: Trail, call: Call, n: nat)
    requires OperationInv(op) && !call.Start? && Rank(op.phase) < 6
    ensures var out, t' := OnCall(op, call), TrailStep(t, op, call, n);
            FactsMove(op, t, call, out.error.None?, out.op, t', n)
  {
  }

  lemma CallProbes(op: Operation, t: Trail, call: Call, n: nat)
    requires OperationInv(op) && !call.Start? && !Terminal(op.phase)
    ensures var out, t' := OnCall(op, call), TrailStep(t, op, call, n);
            ProbedMove(op, t, call, out.error.None?, out.op, t', n)
  {
  }

  /** A settled operation only takes restore bookkeeping, which leaves its trail alone. */
  lemma SettledCall(op: Operation, t: Trail, call: Call, n: nat)
    requires !call.Start? && Terminal(op.phase)
    ensures TrailStep(t, op, call, n) == t
    ensures var next := OnCall(op, call).op;
            next == op.(restoreRequired := next.restoreRequired, restoreResult := next.restoreResult)
  {
  }

  // ----- the trail follows every call -----------------------------------------------------------------

  lemma BegunExtends(log: seq<Entry>, e: Entry, op: Operation, t: Trail, next: Operation, t': Trail)
    requires BegunInv(log, op, t) && BegunMove(op, t, e.call, e.refusal.None?, next, t', |log|)
    ensures BegunInv(log + [e], next, t')
  {
  }

  lemma DetachedExtends(log: seq<Entry>, e: Entry, op: Operation, t: Trail, next: Operation, t': Trail)
    requires BegunInv(log, op, t) && DetachedInv(log, op, t) && e.machine.current == Some(op)
    requires next.id == op.id && next.beforeGeneration == op.beforeGeneration
    requires DetachedMove(op, t, e.call, e.refusal.None?, next, t', |log|)
    ensures DetachedInv(log + [e], next, t')
  {
    if next.lossObserved {
      if op.lossObserved && t'.loss == t.loss && t'.before == t.before {
        var generation :| LossAt(log, op, t, generation);
        assert LossAt(log + [e], next, t', generation);
      } else {
        assert LossAt(log + [e], next, t', e.call.generation);
      }
    }
  }

  lemma LossIsLogged(log: seq<Entry>, op: Operation, t: Trail)
    requires DetachedInv(log, op, t) && op.lossObserved && Past(op, 2)
    ensures t.disable < |log| && t.loss < |log|
  {
    var generation :| LossAt(log, op, t, generation);
  }

  lemma FactsExtend(log: seq<Entry>, e: Entry, op: Operation, t: Trail, next: Operation, t': Trail)
    requires DetachedInv(log, op, t) && RecoveryInv(log, op, t) && Rank(op.phase) < 6
    requires next.id == op.id && t'.start == t.start
    requires FactsMove(op, t, e.call, e.refusal.None?, next, t', |log|)
    ensures next.freshCellular.Some? ==> AdmittedAt(log + [e], next, t', next.freshCellular.value)
    ensures next.rootAuthorized.Some? ==> RootedAt(log + [e], next, t', next.rootAuthorized.value)
    ensures NoneNewer(log + [e], next.id, t'.start, |log| + 1, next.latestOwner)
  {
    if Past(op, 2) && op.lossObserved { LossIsLogged(log, op, t); }
  }

  lemma ProbedExtends(log: seq<Entry>, e: Entry, op: Operation, t: Trail, next: Operation, t': Trail)
    requires ProbedInv(log, op, t) && OperationInv(op) && next.id == op.id && t'.start == t.start
    requires ProbedMove(op, t, e.call, e.refusal.None?, next, t', |log|)
    requires Past(next, 6) && !Past(op, 6) ==>
               && t'.enable <= |log|
               && next.freshCellular.Some? && AdmittedAt(log + [e], next, t', next.freshCellular.value)
               && next.rootAuthorized.Some? && RootedAt(log + [e], next, t', next.rootAuthorized.value)
               && NoneNewer(log + [e], next.id, t'.start, |log| + 1, next.latestOwner)
    ensures ProbedInv(log + [e], next, t')
  {
  }

  lemma ActiveCallKeepsTrail(log: seq<Entry>, m: Machine, op: Operation, t: Trail, call: Call)
    requires TrailInv(log, op, t) && !call.Start? && m.current == Some(op) && !Terminal(op.phase)
    ensures TrailInv(log + [Entry(m, call, OnCall(op, call).error)], OnCall(op, call).op, TrailStep(t, op, call, |log|))
  {
    var n := |log|;
    var out, t' := OnCall(op, call), TrailStep(t, op, call, n);
    var e := Entry(m, call, out.error);
    CallKeepsInv(op, call);
    PhaseMovesForward(op, call);
    CallMoves(op, t, call, n);
    CallDetaches(op, t, call, n);
    CallProbes(op, t, call, n);
    BegunExtends(log, e, op, t, out.op, t');
    DetachedExtends(log, e, op, t, out.op, t');
    if Rank(op.phase) < 6 {
      CallShowsFacts(op, t, call, n);
      FactsExtend(log, e, op, t, out.op, t');
    }
    ProbedExtends(log, e, op, t, out.op, t');
  }

  lemma SettledCallKeepsTrail(log: seq<Entry>, e: Entry, op: Operation, t: Trail, next: Operation)
    requires TrailInv(log, op, t) && Terminal(op.phase) && OperationInv(next)
    requires next == op.(restoreRequired := next.restoreRequired, restoreResult := next.restoreResult)
    ensures TrailInv(log + [e], next, t)
  {
    if next.lossObserved {
      var generation :| LossAt(log, op, t, generation);
      assert LossAt(log + [e], next, t, generation);
    }
  }

  lemma {:induction false} LogKeepsTrail(log: seq<Entry>, final: Machine)
    requires IsLog(log, final)
    ensures final.current.Some? ==> TrailInv(log, final.current.value, TrailOf(log))
  {
    if log != [] {
      var n := |log| - 1;
      var earlier, e := log[..n], log[n];
      LogKeepsTrail(earlier, e.machine);
      assert log == earlier + [e];
      if e.call.Start? && e.refusal.None? {
      } else if e.machine.current.Some? {
        var op, t := e.machine.current.value, TrailOf(earlier);
        if e.call.Start? {
          RefusedStartKeepsTrail(earlier, e, op, t);
        } else if Terminal(op.phase) {
          SettledCall(op, t, e.call, n);
          CallKeepsInv(op, e.call);
          SettledCallKeepsTrail(earlier, e, op, t, OnCall(op, e.call).op);
        } else {
          ActiveCallKeepsTrail(earlier, e.machine, op, t, e.call);
        }
      }
    }
  }

  lemma RefusedStartKeepsTrail(log: seq<Entry>, e: Entry, op: Operation, t: Trail)
    requires TrailInv(log, op, t) && e.call.Start?
    ensures TrailInv(log + [e], op, t)
  {
    if op.lossObserved {
      var generation :| LossAt(log, op, t, generation);
      assert LossAt(log + [e], op, t, generation);
    }
  }

  // ----- the main results -----------------------------------------------------------------------------

  /** The order a successful rotation went through, ending in the address that decides it. */
  ghost predicate Succeeded(log: seq<Entry>, op: Operation, t: Trail, lost: nat, recovered: nat) {
    && t.start < t.before < t.disable < t.enable <= t.probe < t.after
    && t.before < t.loss < t.enable
    && At(log, t.start, Start(op.beforeGeneration))
    && op.beforeIp.Some? && At(log, t.before, RecordBeforeIp(op.id, op.beforeGeneration, op.beforeIp.value))
    && At(log, t.disable, DisableCompleted(op.id, Applied))
    && LossAt(log, op, t, lost)
    && At(log, t.enable, EnableCompleted(op.id, Applied))
    && ProbedOn(log, op, t, recovered)
    && op.afterIp.Some? && At(log, t.after, RecordAfterIp(op.id, recovered, op.afterIp.value))
    && (op.phase.Changed? <==> op.afterIp.value != op.beforeIp.value)
    && (op.phase.Unchanged? <==> op.afterIp.value == op.beforeIp.value)
  }

  /** A rotation ends Changed or Unchanged only on a run that holds every step of that order. */
  lemma SuccessNeedsWholeTrail(log: seq<Entry>, final: Machine)
    requires IsLog(log, final) && final.current.Some?
    requires final.current.value.phase.Changed? || final.current.value.phase.Unchanged?
    ensures exists lost, recovered ::
      Succeeded(log, final.current.value, TrailOf(log), lost, recovered) && lost <= recovered
  {
    LogKeepsTrail(log, final);
    var op, t := final.current.value, TrailOf(log);
    var lost :| LossAt(log, op, t, lost);
    assert Shown(log[t.loss], op.id);
    assert Succeeded(log, op, t, lost, op.afterGeneration.value);
  }

  /** The cellular facts shown are what one owner published in the course of one run of events. */
  ghost predicate ProjectsOwner(log: seq<Entry>, events: seq<CellularOwner.Event>) {
    forall k | 0 <= k < |log| && log[k].call.ObserveCellular? ::
      exists n :: 0 <= n <= |events| && Published(events, n, log[k].call.generation, log[k].call.admitted)
  }

  ghost predicate Published(events: seq<CellularOwner.Event>, n: nat, generation: nat, admitted: bool)
    requires n <= |events|
  {
    var admission := CellularOwner.Run(CellularOwner.INITIAL, events[..n]).admission;
    admission.lastSequence == Some(generation) && admission.state.Admitted? == admitted
  }

  /** When the facts project one owner's run, the recovered generation is strictly newer than the loss. */
  lemma RecoveryIsNewerThanLoss(log: seq<Entry>, op: Operation, t: Trail, lost: nat, recovered: nat,
                                events: seq<CellularOwner.Event>)
    requires Succeeded(log, op, t, lost, recovered) && lost <= recovered && ProjectsOwner(log, events)
    ensures lost < recovered
  {
    assert log[t.loss].call == ObserveCellular(op.id, lost, false);
    assert log[t.admit].call == ObserveCellular(op.id, recovered, true);
    var i :| 0 <= i <= |events| && Published(events, i, lost, false);
    var j :| 0 <= j <= |events| && Published(events, j, recovered, true);
    if lost == recovered {
      CellularOwner.SequenceDeterminesAdmission(CellularOwner.INITIAL, events, i, j);
      assert false;
    }
  }
}
