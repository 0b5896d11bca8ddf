/** When a rotation owes the device its mobile data back, read off the calls of a run. */
module RestoreDuty {
  import opened Common
  import opened Rotation
  import opened RotationTrail

  /** Mobile data was, or may have been, switched off and not on again. */
  predicate Incurs(call: Call) {
    match call
    case DisableStarted(_) => true
    case DisableCompleted(_, outcome) => outcome == Applied || outcome == Uncertain
    case EnableCompleted(_, outcome) => outcome == Rejected || outcome == Uncertain
    case _ => false
  }

  /** Mobile data is known to be on: it was never switched off, is on again, or the operation succeeded. */
  predicate Settles(call: Call) {
    match call
    case DisableCompleted(_, outcome) => outcome == Rejected
    case EnableCompleted(_, outcome) => outcome == Applied
    case RecordAfterIp(_, _, _) => true
    case RecordRestore(_, restore) =>
      restore == NotRequired || restore == AlreadyEnabled || restore == RestoredEnabled
    case _ => false
  }

  /** The entry is an accepted call on operation `id`. */
  predicate Accepted(e: Entry, id: nat) {
    e.refusal.None? && !e.call.Start? && e.call.id == id
  }

  /** Of the accepted calls that bear on it, the last one incurs the obligation. */
  ghost predicate Owed(log: seq<Entry>, id: nat) {
    exists k | 0 <= k < |log| :: Accepted(log[k], id) && Incurs(log[k].call)
      && forall j | k < j < |log| && Accepted(log[j], id) :: !Settles(log[j].call)
  }

  lemma OwedStep(log: seq<Entry>, e: Entry, id: nat)
    ensures Owed(log + [e], id) <==>
      if Accepted(e, id) && Incurs(e.call) then true
      else if Accepted(e, id) && Settles(e.call) then false
      else Owed(log, id)
  {
    var longer, n := log + [e], |log|;
    assert longer[n] == e && forall j | 0 <= j < n :: longer[j] == log[j];
    if Owed(log, id) && !(Accepted(e, id) && Settles(e.call)) {
      var k :| 0 <= k < n && Accepted(log[k], id) && Incurs(log[k].call)
               && forall j | k < j < n && Accepted(log[j], id) :: !Settles(log[j].call);
      assert Accepted(longer[k], id) && Incurs(longer[k].call);
    }
    if Owed(longer, id) && !(Accepted(e, id) && Incurs(e.call)) {
      var k :| 0 <= k < n + 1 && Accepted(longer[k], id) && Incurs(longer[k].call)
               && forall j | k < j < n + 1 && Accepted(longer[j], id) :: !Settles(longer[j].call);
      assert Accepted(log[k], id) && Incurs(log[k].call);
      assert forall j | k < j < n && Accepted(log[j], id) :: !Settles(longer[j].call);
    }
  }

  /** One accepted or refused call on an operation moves its obligation exactly as the call says. */
  lemma CallMovesDuty(op: Operation, call: Call)
    requires !call.Start?
    ensures var out := OnCall(op, call);
      out.op.restoreRequired ==
        if out.error.None? && Incurs(call) then true
        else if out.error.None? && Settles(call) then false
        else op.restoreRequired
  {
  }

  lemma {:induction false} AcceptedIdsAreIssued(log: seq<Entry>, final: Machine)
    requires IsLog(log, final)
    ensures MachineInv(final)
    ensures forall k | 0 <= k < |log| && log[k].refusal.None? && !log[k].call.Start? :: log[k].call.id < final.nextId
    decreases |log|
  {
    if log != [] {
      var n := |log| - 1;
      var last := log[n];
      AcceptedIdsAreIssued(log[..n], last.machine);
      MachineKeepsInv(last.machine, last.call);
      forall k | 0 <= k < |log| && log[k].refusal.None? && !log[k].call.Start?
        ensures log[k].call.id < final.nextId
      {
        if k < n { assert log[k] == log[..n][k]; }
      }
    }
  }

  /** Over every run, failed operations included: restore is owed exactly when the calls say so. */
  lemma {:induction false} RestoreOwedExactly(log: seq<Entry>, final: Machine)
    requires IsLog(log, final)
    ensures final.current.Some? ==> (final.current.value.restoreRequired <==> Owed(log, final.current.value.id))
    decreases |log|
  {
    hide Incurs, Settles, MachineInv;
    if log != [] {
      var n := |log| - 1;
      var last := log[n];
      RestoreOwedExactly(log[..n], last.machine);
      AcceptedIdsAreIssued(log[..n], last.machine);
      assert log == log[..n] + [last];
      if final.current.Some? {
        OwedStep(log[..n], last, final.current.value.id);
        if last.call.Start? {
          if last.refusal.None? { assert !Owed(log[..n], last.machine.nextId); }
        } else {
          CallMovesDuty(last.machine.current.value, last.call);
          PhaseKeepsId(last.machine.current.value, last.call);
        }
      }
    }
  }

  lemma PhaseKeepsId(op: Operation, call: Call)
    requires !call.Start?
    ensures OnCall(op, call).op.id == op.id
    ensures OnCall(op, call).error.None? ==> call.id == op.id
  {
  }
}
