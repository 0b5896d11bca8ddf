/** The recovery facts of a rotation as a function of the facts it was shown. */
module RotationHistory {
  import opened Common
  import opened Rotation

  /** A fact newer than the starting generation: either it only raises the owner generation, or it counts. */
  datatype Fact = Raise(generation: nat) | Cell(generation: nat, admitted: bool)
    | Root(generation: nat, authorized: bool)

  predicate TakesRecoveryFacts(phase: Phase) {
    phase.DataEnabling? || Recovering(phase)
  }

  function FactOf(op: Operation, call: Call): seq<Fact> {
    match call
    case ObserveCellular(id, generation, admitted) =>
      if id != op.id || Terminal(op.phase) || generation <= op.beforeGeneration then []
      else if TakesRecoveryFacts(op.phase) then [Cell(generation, admitted)] else [Raise(generation)]
    case ObserveRootPolicy(id, generation, authorized) =>
      if id != op.id || Terminal(op.phase) || generation <= op.beforeGeneration then []
      else if TakesRecoveryFacts(op.phase) then [Root(generation, authorized)] else [Raise(generation)]
    case _ => []
  }

  /** The facts shown to the current operation, oldest first. */
  function Facts(calls: seq<Call>): seq<Fact> {
    if calls == [] then []
    else
      var earlier := calls[..|calls| - 1];
      var m, call := RunMachine(earlier), calls[|calls| - 1];
      if call.Start? && StartError(m, call.generation).None? then []
      else if m.current.None? then []
      else Facts(earlier) + FactOf(m.current.value, call)
  }

  function Max(a: nat, b: nat): nat { if a < b then b else a }

  /** The newest generation seen, starting from the generation before the rotation. */
  function Newest(start: nat, facts: seq<Fact>): nat {
    if facts == [] then start
    else Max(Newest(start, facts[..|facts| - 1]), facts[|facts| - 1].generation)
  }

  /** Decided by the last cellular fact of that generation. */
  function CellularAt(facts: seq<Fact>, generation: nat): Option<nat> {
    if facts == [] then None
    else
      var last := facts[|facts| - 1];
      if last.Cell? && last.generation == generation then if last.admitted then Some(generation) else None
      else CellularAt(facts[..|facts| - 1], generation)
  }

  /** Decided by the last root fact or cellular loss of that generation. */
  function RootAt(facts: seq<Fact>, generation: nat): Option<nat> {
    if facts == [] then None
    else
      var last := facts[|facts| - 1];
      if last.Root? && last.generation == generation then if last.authorized then Some(generation) else None
      else if last.Cell? && last.generation == generation && !last.admitted then None
      else RootAt(facts[..|facts| - 1], generation)
  }

  ghost predicate Refines(op: Operation, facts: seq<Fact>) {
    && op.latestOwner == Newest(op.beforeGeneration, facts)
    && op.freshCellular == CellularAt(facts, op.latestOwner)
    && op.rootAuthorized == RootAt(facts, op.latestOwner)
  }

  lemma {:induction false} NothingBeyondNewest(start: nat, facts: seq<Fact>, generation: nat)
    requires Newest(start, facts) < generation
    ensures CellularAt(facts, generation) == None && RootAt(facts, generation) == None
  {
    if facts != [] { NothingBeyondNewest(start, facts[..|facts| - 1], generation); }
  }

  lemma AppendFact(start: nat, facts: seq<Fact>, fact: Fact, generation: nat)
    ensures Newest(start, facts + [fact]) == Max(Newest(start, facts), fact.generation)
    ensures CellularAt(facts + [fact], generation) ==
            if fact.Cell? && fact.generation == generation then (if fact.admitted then Some(generation) else None)
            else CellularAt(facts, generation)
    ensures RootAt(facts + [fact], generation) ==
            if fact.Root? && fact.generation == generation then (if fact.authorized then Some(generation) else None)
            else if fact.Cell? && fact.generation == generation && !fact.admitted then None
            else RootAt(facts, generation)
  {
    assert (facts + [fact])[..|facts|] == facts;
  }

  /** A call without a fact leaves the recovery facts alone. */
  lemma NoFactStep(op: Operation, call: Call)
    requires !call.Start? && FactOf(op, call) == []
    ensures var next := OnCall(op, call).op;
            && next.latestOwner == op.latestOwner && next.freshCellular == op.freshCellular
            && next.rootAuthorized == op.rootAuthorized && next.beforeGeneration == op.beforeGeneration
  {
  }

  lemma CellularFactStep(op: Operation, facts: seq<Fact>, generation: nat, admitted: bool)
    requires OperationInv(op) && Refines(op, facts) && Rank(op.phase) < 6 && op.beforeGeneration < generation
    ensures Refines(OnCellular(op, generation, admitted).op,
                    facts + [if TakesRecoveryFacts(op.phase) then Cell(generation, admitted) else Raise(generation)])
  {
    var fact := if TakesRecoveryFacts(op.phase) then Cell(generation, admitted) else Raise(generation);
    var newest := Max(op.latestOwner, generation);
    AppendFact(op.beforeGeneration, facts, fact, newest);
    if op.latestOwner < newest { NothingBeyondNewest(op.beforeGeneration, facts, newest); }
  }

  lemma RootFactStep(op: Operation, facts: seq<Fact>, generation: nat, authorized: bool)
    requires OperationInv(op) && Refines(op, facts) && Rank(op.phase) < 6 && op.beforeGeneration < generation
    ensures Refines(OnRootPolicy(op, generation, authorized).op,
                    facts + [if TakesRecoveryFacts(op.phase) then Root(generation, authorized) else Raise(generation)])
  {
    var fact := if TakesRecoveryFacts(op.phase) then Root(generation, authorized) else Raise(generation);
    var newest := Max(op.latestOwner, generation);
    AppendFact(op.beforeGeneration, facts, fact, newest);
    if op.latestOwner < newest { NothingBeyondNewest(op.beforeGeneration, facts, newest); }
  }

  lemma FactStep(op: Operation, facts: seq<Fact>, call: Call)
    requires OperationInv(op) && Refines(op, facts) && !call.Start? && Rank(op.phase) < 6
    ensures Refines(OnCall(op, call).op, facts + FactOf(op, call))
  {
    if FactOf(op, call) == [] {
      NoFactStep(op, call);
      assert facts + FactOf(op, call) == facts;
    } else if call.ObserveCellular? {
      CellularFactStep(op, facts, call.generation, call.admitted);
    } else {
      RootFactStep(op, facts, call.generation, call.authorized);
    }
  }

  /**
   Until probing starts, the incremental recovery facts are the history function: absent, or the
   newest generation seen, as its own last facts decide.
   */
  lemma {:induction false} RecoveryFactsRefineHistory(calls: seq<Call>)
    requires RunMachine(calls).current.Some? && Rank(RunMachine(calls).current.value.phase) < 6
    ensures Refines(RunMachine(calls).current.value, Facts(calls))
  {
    if calls != [] {
      var earlier, call := calls[..|calls| - 1], calls[|calls| - 1];
      var m := RunMachine(earlier);
      RunKeepsInv(earlier);
      if call.Start? && StartError(m, call.generation).None? {
      } else if call.Start? {
        RecoveryFactsRefineHistory(earlier);
        assert Facts(earlier) + [] == Facts(earlier);
      } else {
        PhaseMovesForward(m.current.value, call);
        RecoveryFactsRefineHistory(earlier);
        FactStep(m.current.value, Facts(earlier), call);
      }
    }
  }

  /** Positive cellular and root facts of one generation commute. */
  lemma PositiveFactsCommute(op: Operation, generation: nat)
    requires OperationInv(op) && TakesRecoveryFacts(op.phase)
    ensures OnRootPolicy(OnCellular(op, generation, true).op, generation, true).op
            == OnCellular(OnRootPolicy(op, generation, true).op, generation, true).op
  {
  }

  /** A loss does not commute with a same-generation authorization: it revokes an earlier one only. */
  lemma LossRevokesEarlierRoot(op: Operation, generation: nat)
    requires OperationInv(op) && op.phase.DataEnabling? && op.beforeGeneration < generation
      && op.latestOwner <= generation
    ensures OnCellular(OnRootPolicy(op, generation, true).op, generation, false).op.rootAuthorized == None
    ensures OnRootPolicy(OnCellular(op, generation, false).op, generation, true).op.rootAuthorized == Some(generation)
  {
  }
}
