/**
 The concurrent protocol between the cellular owner, the root-policy effect gate and the
 coordinator: every lock region is one atomic action, and the actions interleave freely.
 */
module PolicyProtocol {
  import opened Common
  import opened CellularOwner
  import opened PolicyCoordinator

  /** Where a drain task stands between two lock regions. */
  datatype Stage =
    | Taking
    | Checking(request: Request)
    | Quiescing(request: Request)
    | Rechecking(request: Request)
    | Reconciling(request: Request)
    | Settling(request: Request, result: PolicyResult)
    | Deciding(request: Request, result: PolicyResult)
    | Scheduling(request: Request)
    | Resetting
    | Finishing

  datatype Timer = Timer(epoch: nat, request: Request)

  /** `permits` counts live permits, `fired` the recoveries that queued their request. */
  datatype System = System(
    owner: Owner, ready: bool, inFlight: nat, permits: nat, authorized: Option<Authority>,
    c: Coordinator, started: bool, callers: multiset<Admission>,
    drains: seq<Stage>, timers: seq<Timer>, fired: nat)

  const BOOT: System := System(INITIAL, false, 0, 0, None, IDLE, false, multiset{}, [], [], 0)

  datatype Action =
    | Start
    | OwnerEvent(event: Event)
    | Offer(admission: Admission, interfaceName: Option<string>)
    | Drain(task: nat)
    | GiveUpQuiescing(task: nat)
    | CompleteReconcile(task: nat, result: PolicyResult)
    | SupersedeReconcile(task: nat)
    | Fire(timer: nat)
    | Acquire
    | Release

  predicate AtStage(s: System, task: nat, reconciling: bool) {
    task < |s.drains| && s.drains[task].Reconciling? == reconciling
  }

  predicate Enabled(s: System, a: Action) {
    match a
    case Start => !s.started
    case OwnerEvent(_) => s.started
    case Offer(admission, _) => admission in s.callers
    case Drain(task) => AtStage(s, task, false) && (s.drains[task].Quiescing? ==> s.inFlight == 0)
    case GiveUpQuiescing(task) => task < |s.drains| && s.drains[task].Quiescing?
    case CompleteReconcile(task, _) => AtStage(s, task, true)
    case SupersedeReconcile(task) => AtStage(s, task, true)
    case Fire(timer) => timer < |s.timers|
    case Acquire => s.ready
    case Release => s.permits > 0
  }

  function SpawnIfUnscheduled(before: Coordinator, drains: seq<Stage>): seq<Stage> {
    if before.drainScheduled then drains else drains + [Taking]
  }

  predicate Current(s: System, request: Request) {
    SameGeneration(request.admission, s.owner.admission)
  }

  function MoveTo(s: System, task: nat, stage: Stage): System
    requires task < |s.drains|
  {
    s.(drains := s.drains[task := stage])
  }

  /** `authorize_root_policy`: opens the gate only for the owner's current admitted generation. */
  function Authorize(s: System, task: nat, request: Request): System
    requires task < |s.drains|
  {
    var a := request.admission;
    if a.lastSequence.None? || a.network.None? then MoveTo(s, task, Finishing)
    else
      var token := Authority(a.network.value, a.lastSequence.value);
      if Validates(s.owner, token) then MoveTo(s.(ready := true, authorized := Some(token)), task, Resetting)
      else MoveTo(s.(ready := false), task, Finishing)
  }

  function DrainStep(s: System, task: nat): System
    requires task < |s.drains| && !s.drains[task].Reconciling?
  {
    match s.drains[task]
    case Taking =>
      var taken := s.(c := RequestTaken(s.c));
      if s.c.latest.Some? then MoveTo(taken, task, Checking(s.c.latest.value))
      else taken.(drains := s.drains[..task] + s.drains[task + 1..])
    case Checking(request) => MoveTo(s, task, if Current(s, request) then Quiescing(request) else Finishing)
    case Quiescing(request) => MoveTo(s, task, Rechecking(request))
    case Rechecking(request) => MoveTo(s, task, if Current(s, request) then Reconciling(request) else Finishing)
    case Settling(request, result) =>
      MoveTo(s, task, if Current(s, request) then Deciding(request, result) else Finishing)
    case Deciding(request, result) =>
      if result.Enforced? then Authorize(s, task, request)
      else if Retryable(result) then MoveTo(s, task, Scheduling(request))
      else MoveTo(s, task, Resetting)
    case Scheduling(request) =>
      var scheduled := s.(c := RecoveryScheduled(s.c));
      MoveTo(if s.c.recoveryPending then scheduled
             else scheduled.(timers := s.timers + [Timer(s.c.recoveryEpoch, request)]), task, Finishing)
    case Resetting => MoveTo(s.(c := RecoveryReset(s.c)), task, Finishing)
    case Finishing => MoveTo(s.(c := s.c.(executed := s.c.executed + 1)), task, Taking)
  }

  function Do(s: System, a: Action): System
    requires Enabled(s, a)
  {
    match a
    case Start => s.(started := true, callers := s.callers + multiset{s.owner.admission})
    case OwnerEvent(event) =>
      var owner := Apply(s.owner, event);
      s.(owner := owner, ready := false, callers := s.callers + multiset{owner.admission})
    case Offer(admission, name) =>
      s.(callers := s.callers - multiset{admission}, c := Offered(s.c, Request(admission, name)),
         drains := SpawnIfUnscheduled(s.c, s.drains))
    case Drain(task) => DrainStep(s, task)
    case GiveUpQuiescing(task) => MoveTo(s, task, Finishing)
    case CompleteReconcile(task, result) => MoveTo(s, task, Settling(s.drains[task].request, result))
    case SupersedeReconcile(task) => MoveTo(s, task, Finishing)
    case Fire(timer) =>
      var t := s.timers[timer];
      var current := Current(s, t.request);
      var queued := Armed(s.c, t.epoch) && current;
      s.(c := RecoveryFired(s.c, t.epoch, t.request, current),
         timers := s.timers[..timer] + s.timers[timer + 1..],
         drains := if queued then SpawnIfUnscheduled(s.c, s.drains) else s.drains,
         fired := s.fired + if queued then 1 else 0)
    case Acquire => s.(inFlight := s.inFlight + 1, permits := s.permits + 1)
    case Release => s.(inFlight := if s.inFlight == 0 then 0 else s.inFlight - 1, permits := s.permits - 1)
  }

  // ----- runs ------------------------------------------------------------------------------------

  /** The states of a run, from boot. */
  predicate IsRun(states: seq<System>, actions: seq<Action>) {
    && |states| == |actions| + 1 && states[0] == BOOT
    && forall i | 0 <= i < |actions| :: Enabled(states[i], actions[i]) && states[i + 1] == Do(states[i], actions[i])
  }

  /** The event moves the owner, or finds nothing admitted: a stale event is harmless only then. */
  predicate Calm(owner: Owner, event: Event) {
    Fresh(owner, event) || !owner.admission.state.Admitted?
  }

  /** No owner event of the run is stale while a network is admitted. */
  predicate CalmRun(states: seq<System>, actions: seq<Action>)
    requires IsRun(states, actions)
  {
    forall i | 0 <= i < |actions| && actions[i].OwnerEvent? :: Calm(states[i].owner, actions[i].event)
  }

  // ----- the gate: true of every run ---------------------------------------------------------------

  /** An open gate names exactly the owner's current admitted generation, and the count is exact. */
  ghost predicate GateInv(s: System) {
    && s.inFlight == s.permits
    && (s.ready ==> s.authorized.Some? && Validates(s.owner, s.authorized.value))
  }

  lemma GateStep(s: System, a: Action)
    requires GateInv(s) && Enabled(s, a)
    ensures GateInv(Do(s, a))
  {
  }

  lemma {:induction false} GateNamesCurrentGeneration(states: seq<System>, actions: seq<Action>, n: nat)
    requires IsRun(states, actions) && n < |states|
    ensures GateInv(states[n])
  {
    if n != 0 {
      GateNamesCurrentGeneration(states, actions, n - 1);
      GateStep(states[n - 1], actions[n - 1]);
    }
  }

  // ----- the queue: true of every run ---------------------------------------------------------------

  function Count(condition: bool): nat {
    if condition then 1 else 0
  }

  predicate InProcess(s: System) {
    |s.drains| == 1 && !s.drains[0].Taking?
  }

  /** One drain exactly while one is scheduled, no queued request without it, and nothing lost uncounted. */
  ghost predicate QueueInv(s: System) {
    && |s.drains| == Count(s.c.drainScheduled)
    && (s.c.latest.Some? ==> s.c.drainScheduled)
    && s.c.requested + s.fired == s.c.executed + s.c.coalesced + Count(s.c.latest.Some?) + Count(InProcess(s))
  }

  lemma QueueDrainStep(s: System, task: nat)
    requires QueueInv(s) && task < |s.drains| && !s.drains[task].Reconciling?
    ensures QueueInv(DrainStep(s, task))
  {
    hide SameGeneration, Validates, Retryable;
    assert task == 0 && s.drains == [s.drains[0]];
    match s.drains[0] {
      case Taking =>
        if s.c.latest.Some? {
          assert DrainStep(s, task).drains == [Checking(s.c.latest.value)];
        } else {
          assert DrainStep(s, task).drains == [];
        }
      case Finishing => assert DrainStep(s, task).drains == [Taking];
      case _ =>
    }
  }

  lemma QueueFireStep(s: System, timer: nat)
    requires QueueInv(s) && timer < |s.timers|
    ensures QueueInv(Do(s, Fire(timer)))
  {
  }

  lemma QueueStep(s: System, a: Action)
    requires QueueInv(s) && Enabled(s, a)
    ensures QueueInv(Do(s, a))
  {
    match a {
      case Drain(task) => QueueDrainStep(s, task);
      case Fire(timer) => QueueFireStep(s, timer);
      case _ =>
    }
  }

  lemma {:induction false} QueueIsConserved(states: seq<System>, actions: seq<Action>, n: nat)
    requires IsRun(states, actions) && n < |states|
    ensures QueueInv(states[n])
  {
    if n != 0 {
      QueueIsConserved(states, actions, n - 1);
      QueueStep(states[n - 1], actions[n - 1]);
    }
  }

  // ----- exclusion: true of every calm run ------------------------------------------------------------

  function Key(a: Admission): int {
    if a.lastSequence.Some? then a.lastSequence.value else -1
  }

  /** An admission the owner published: the current one, or one with an older sequence. */
  predicate Known(s: System, a: Admission) {
    a == s.owner.admission || Key(a) < Key(s.owner.admission)
  }

  /** The request whose outcome the stage can still turn into an authorization or a retry. */
  function Carried(stage: Stage): Option<Request> {
    match stage
    case Taking => None
    case Resetting => None
    case Finishing => None
    case _ => Some(stage.request)
  }

  predicate Holds(request: Option<Request>, a: Admission) {
    request.Some? && request.value.admission == a
  }

  predicate TimerHolds(s: System, a: Admission) {
    exists i | 0 <= i < |s.timers| :: s.timers[i].epoch == s.c.recoveryEpoch && s.timers[i].request.admission == a
  }

  /** Everything that may still lead to a reconcile of the current generation. */
  ghost function Holders(s: System): nat {
    var a := s.owner.admission;
    s.callers[a] + Count(Holds(s.c.latest, a))
      + Count(|s.drains| > 0 && Holds(Carried(s.drains[0]), a)) + Count(TimerHolds(s, a))
  }

  ghost predicate AllKnown(s: System) {
    && (forall a | a in s.callers :: Known(s, a))
    && (s.c.latest.Some? ==> Known(s, s.c.latest.value.admission))
    && (forall i | 0 <= i < |s.drains| && Carried(s.drains[i]).Some? :: Known(s, Carried(s.drains[i]).value.admission))
    && (forall i | 0 <= i < |s.timers| :: Known(s, s.timers[i].request.admission))
  }

  /** At most one live timer, and it is the armed one. */
  ghost predicate TimersInv(s: System) {
    && (forall i | 0 <= i < |s.timers| :: s.timers[i].epoch <= s.c.recoveryEpoch)
    && (forall i | 0 <= i < |s.timers| && s.timers[i].epoch == s.c.recoveryEpoch :: s.c.recoveryPending)
    && (forall i, j | 0 <= i < j < |s.timers| && s.timers[i].epoch == s.c.recoveryEpoch ::
      s.timers[j].epoch != s.c.recoveryEpoch)
  }

  /** A reconcile runs only behind a closed gate with no permit in flight. */
  ghost predicate Excluded(s: System) {
    forall i | 0 <= i < |s.drains| ::
      && (s.drains[i].Reconciling? ==> !s.ready && s.inFlight == 0)
      && (s.drains[i].Rechecking? && s.drains[i].request.admission == s.owner.admission ==> s.inFlight == 0)
  }

  ghost predicate TokenInv(s: System) {
    && (s.owner.admission.state.Admitted? ==> Holders(s) <= 1)
    && (s.ready ==> Holders(s) == 0)
    && (!s.started ==> !s.ready && s.callers == multiset{} && s.c.latest.None? && s.drains == [] && s.timers == [])
  }

  ghost predicate ExclusionInv(s: System) {
    && Coherent(s.owner) && GateInv(s) && QueueInv(s)
    && AllKnown(s) && TimersInv(s) && TokenInv(s) && Excluded(s)
  }

  /** For a published admission, the currentness test is equality with what the owner publishes now. */
  lemma KnownIsCurrent(s: System, a: Admission)
    requires Coherent(s.owner) && Known(s, a)
    ensures SameGeneration(a, s.owner.admission) <==> a == s.owner.admission
  {
  }

  /** A stale event while nothing is admitted adds a caller and closes a gate that was closed anyway. */
  lemma ExclusionIdleEvent(s: System, event: Event)
    requires ExclusionInv(s) && s.started && !Fresh(s.owner, event) && !s.owner.admission.state.Admitted?
    ensures ExclusionInv(Do(s, OwnerEvent(event)))
  {
    var s' := Do(s, OwnerEvent(event));
    GateStep(s, OwnerEvent(event));
    QueueStep(s, OwnerEvent(event));
    assert s'.owner == s.owner && forall a | a in s'.callers :: a in s.callers || a == s.owner.admission;
  }

  lemma ExclusionEvent(s: System, event: Event)
    requires ExclusionInv(s) && s.started && Fresh(s.owner, event)
    ensures ExclusionInv(Do(s, OwnerEvent(event)))
  {
    var s' := Do(s, OwnerEvent(event));
    GateStep(s, OwnerEvent(event));
    QueueStep(s, OwnerEvent(event));
    var newest := s'.owner.admission;
    assert Key(s.owner.admission) < Key(newest);
    assert newest !in s.callers;
    assert forall a | Known(s, a) :: Known(s', a) && a != newest;
  }

  /** The offer moves one token from the callers to the queue, and disarms every timer. */
  lemma OfferKeepsTokens(s: System, admission: Admission, name: Option<string>)
    requires TokenInv(s) && TimersInv(s) && QueueInv(s) && admission in s.callers
    ensures TokenInv(Do(s, Offer(admission, name))) && TimersInv(Do(s, Offer(admission, name)))
  {
    hide Validates;
    var s', a := Do(s, Offer(admission, name)), s.owner.admission;
    assert !TimerHolds(s', a);
    assert s.drains == [] ==> s'.drains == [Taking];
    assert s'.drains == s.drains || s.drains == [];
    assert s'.callers[a] == s.callers[a] - Count(admission == a);
    assert Holds(s'.c.latest, a) <==> admission == a;
    assert Holders(s') <= Holders(s);
  }

  lemma OfferKeepsKnown(s: System, admission: Admission, name: Option<string>)
    requires AllKnown(s) && Excluded(s) && QueueInv(s) && admission in s.callers
    ensures AllKnown(Do(s, Offer(admission, name))) && Excluded(Do(s, Offer(admission, name)))
  {
    var s' := Do(s, Offer(admission, name));
    assert s.drains == [] ==> s'.drains == [Taking];
    assert s'.drains == s.drains || s.drains == [];
    assert forall a | a in s'.callers :: a in s.callers;
  }

  lemma ExclusionOffer(s: System, admission: Admission, name: Option<string>)
    requires ExclusionInv(s) && admission in s.callers
    ensures ExclusionInv(Do(s, Offer(admission, name)))
  {
    hide AllKnown, TimersInv, TokenInv, Excluded, QueueInv, Validates;
    QueueStep(s, Offer(admission, name));
    OfferKeepsTokens(s, admission, name);
    OfferKeepsKnown(s, admission, name);
  }

  /** A stage change that keeps or drops the carried request leaves everything else in place. */
  lemma ExclusionMove(s: System, stage: Stage)
    requires ExclusionInv(s) && |s.drains| == 1 && !s.drains[0].Taking? && !stage.Taking?
    requires Carried(stage) == None || Carried(stage) == Carried(s.drains[0])
    requires stage.Reconciling? ==> !s.ready && s.inFlight == 0
    requires stage.Rechecking? && stage.request.admission == s.owner.admission ==> s.inFlight == 0
    ensures ExclusionInv(MoveTo(s, 0, stage))
  {
    assert MoveTo(s, 0, stage).drains == [stage];
    assert TimerHolds(MoveTo(s, 0, stage), s.owner.admission) == TimerHolds(s, s.owner.admission);
  }

  lemma ExclusionTake(s: System)
    requires ExclusionInv(s) && s.drains == [Taking]
    ensures ExclusionInv(DrainStep(s, 0))
  {
    var s' := DrainStep(s, 0);
    QueueDrainStep(s, 0);
    assert TimerHolds(s', s.owner.admission) == TimerHolds(s, s.owner.admission);
    if s.c.latest.Some? {
      assert s'.drains == [Checking(s.c.latest.value)];
    } else {
      assert s'.drains == [];
    }
  }

  lemma ClosingKeepsExclusion(s: System)
    requires ExclusionInv(s)
    ensures ExclusionInv(s.(ready := false))
  {
    assert TimerHolds(s.(ready := false), s.owner.admission) == TimerHolds(s, s.owner.admission);
  }

  /** Opening the gate spends the token of the request that was decided. */
  lemma OpeningKeepsExclusion(s: System, token: Authority)
    requires ExclusionInv(s) && s.started && Validates(s.owner, token)
    requires |s.drains| == 1 && s.drains[0].Deciding? && s.drains[0].request.admission == s.owner.admission
    ensures ExclusionInv(MoveTo(s.(ready := true, authorized := Some(token)), 0, Resetting))
  {
    ExclusionMove(s, Resetting);
    var moved := MoveTo(s, 0, Resetting);
    assert moved.drains == [Resetting];
    assert TimerHolds(moved, s.owner.admission) == TimerHolds(s, s.owner.admission);
    assert Holders(moved) == 0;
    var open := moved.(ready := true, authorized := Some(token));
    assert TimerHolds(open, s.owner.admission) == TimerHolds(s, s.owner.admission);
    assert open == MoveTo(s.(ready := true, authorized := Some(token)), 0, Resetting);
  }

  lemma ExclusionAuthorize(s: System)
    requires ExclusionInv(s) && |s.drains| == 1 && s.drains[0].Deciding?
    ensures ExclusionInv(Authorize(s, 0, s.drains[0].request))
  {
    var a := s.drains[0].request.admission;
    assert Known(s, Carried(s.drains[0]).value.admission);
    if a.lastSequence.None? || a.network.None? {
      ExclusionMove(s, Finishing);
    } else if Validates(s.owner, Authority(a.network.value, a.lastSequence.value)) {
      KnownIsCurrent(s, a);
      OpeningKeepsExclusion(s, Authority(a.network.value, a.lastSequence.value));
    } else {
      ClosingKeepsExclusion(s);
      ExclusionMove(s.(ready := false), Finishing);
    }
  }

  lemma ExclusionSchedule(s: System)
    requires ExclusionInv(s) && |s.drains| == 1 && s.drains[0].Scheduling?
    ensures ExclusionInv(DrainStep(s, 0))
  {
    var request := s.drains[0].request;
    var s' := DrainStep(s, 0);
    QueueDrainStep(s, 0);
    assert s'.drains == [Finishing];
    assert Known(s, Carried(s.drains[0]).value.admission);
    if s.c.recoveryPending {
      assert TimerHolds(s', s.owner.admission) == TimerHolds(s, s.owner.admission);
    } else {
      assert !TimerHolds(s, s.owner.admission);
      assert TimerHolds(s', s.owner.admission) ==> request.admission == s.owner.admission;
    }
  }

  lemma ExclusionReset(s: System)
    requires ExclusionInv(s) && |s.drains| == 1 && (s.drains[0].Resetting? || s.drains[0].Finishing?)
    ensures ExclusionInv(DrainStep(s, 0))
  {
    var s' := DrainStep(s, 0);
    QueueDrainStep(s, 0);
    if s.drains[0].Resetting? {
      assert s'.drains == [Finishing];
      assert !TimerHolds(s', s.owner.admission);
    } else {
      assert s'.drains == [Taking];
      assert TimerHolds(s', s.owner.admission) == TimerHolds(s, s.owner.admission);
    }
  }

  lemma ExclusionDrain(s: System, task: nat)
    requires ExclusionInv(s) && Enabled(s, Drain(task))
    ensures ExclusionInv(DrainStep(s, task))
  {
    hide TimersInv, Coherent, SameGeneration;
    assert task == 0 && s.drains == [s.drains[0]];
    var stage := s.drains[0];
    match stage {
      case Taking => ExclusionTake(s);
      case Scheduling(_) => ExclusionSchedule(s);
      case Resetting => ExclusionReset(s);
      case Finishing => ExclusionReset(s);
      case Deciding(request, result) =>
        if result.Enforced? { ExclusionAuthorize(s); }
        else if Retryable(result) { ExclusionMove(s, Scheduling(request)); }
        else { ExclusionMove(s, Resetting); }
      case Checking(request) =>
        ExclusionMove(s, if Current(s, request) then Quiescing(request) else Finishing);
      case Quiescing(request) =>
        ExclusionMove(s, Rechecking(request));
      case Rechecking(request) =>
        assert Known(s, Carried(stage).value.admission);
        KnownIsCurrent(s, request.admission);
        ExclusionMove(s, if Current(s, request) then Reconciling(request) else Finishing);
      case Settling(request, result) =>
        ExclusionMove(s, if Current(s, request) then Deciding(request, result) else Finishing);
    }
  }

  /** A fired timer leaves; if it was the armed one, no timer is live any more. */
  lemma FireTimers(s: System, timer: nat)
    requires TimersInv(s) && timer < |s.timers|
    ensures var s' := Do(s, Fire(timer));
      && TimersInv(s')
      && (forall i | 0 <= i < |s'.timers| :: s'.timers[i] == s.timers[if i < timer then i else i + 1])
      && (Armed(s.c, s.timers[timer].epoch) ==> !TimerHolds(s', s.owner.admission))
      && (!Armed(s.c, s.timers[timer].epoch) && TimerHolds(s', s.owner.admission) ==> TimerHolds(s, s.owner.admission))
  {
    hide SameGeneration;
    var s' := Do(s, Fire(timer));
    assert forall i | 0 <= i < |s'.timers| :: s'.timers[i] == s.timers[if i < timer then i else i + 1];
  }

  /** Firing passes the token from the timer to the queue, or drops it. */
  lemma FireToken(s: System, timer: nat)
    requires ExclusionInv(s) && timer < |s.timers|
    ensures TokenInv(Do(s, Fire(timer)))
  {
    hide SameGeneration, Validates, Coherent, QueueInv, TimersInv, Excluded, GateInv;
    var t := s.timers[timer];
    FireTimers(s, timer);
    assert Known(s, t.request.admission);
    KnownIsCurrent(s, t.request.admission);
    DrainsAfterFire(s, timer);
    if Armed(s.c, t.epoch) && t.request.admission == s.owner.admission { assert TimerHolds(s, s.owner.admission); }
  }

  lemma ExclusionFire(s: System, timer: nat)
    requires ExclusionInv(s) && timer < |s.timers|
    ensures ExclusionInv(Do(s, Fire(timer)))
  {
    hide SameGeneration, Validates, Coherent, QueueInv, TimersInv, TokenInv;
    QueueFireStep(s, timer);
    FireTimers(s, timer);
    FireToken(s, timer);
    DrainsAfterFire(s, timer);
  }

  lemma DrainsAfterFire(s: System, timer: nat)
    requires QueueInv(s) && timer < |s.timers|
    ensures var s' := Do(s, Fire(timer)); s'.drains == s.drains || (s.drains == [] && s'.drains == [Taking])
  {
  }

  lemma ExclusionPermit(s: System, a: Action)
    requires ExclusionInv(s) && Enabled(s, a) && (a.Acquire? || a.Release?)
    ensures ExclusionInv(Do(s, a))
  {
    var s' := Do(s, a);
    assert TimerHolds(s', s.owner.admission) == TimerHolds(s, s.owner.admission);
  }

  lemma ExclusionStart(s: System)
    requires ExclusionInv(s) && !s.started
    ensures ExclusionInv(Do(s, Start))
  {
    var s' := Do(s, Start);
    assert !TimerHolds(s', s.owner.admission);
  }

  lemma ExclusionStep(s: System, a: Action)
    requires ExclusionInv(s) && Enabled(s, a)
    requires a.OwnerEvent? ==> Calm(s.owner, a.event)
    ensures ExclusionInv(Do(s, a))
  {
    match a {
      case Start => ExclusionStart(s);
      case OwnerEvent(event) =>
        if Fresh(s.owner, event) { ExclusionEvent(s, event); } else { ExclusionIdleEvent(s, event); }
      case Offer(admission, name) => ExclusionOffer(s, admission, name);
      case Drain(task) => ExclusionDrain(s, task);
      case Fire(timer) => ExclusionFire(s, timer);
      case Acquire => ExclusionPermit(s, a);
      case Release => ExclusionPermit(s, a);
      case GiveUpQuiescing(task) => assert task == 0; ExclusionMove(s, Finishing);
      case CompleteReconcile(task, result) => assert task == 0; ExclusionMove(s, Settling(s.drains[0].request, result));
      case SupersedeReconcile(task) => assert task == 0; ExclusionMove(s, Finishing);
    }
  }

  lemma {:induction false} RunIsExclusive(states: seq<System>, actions: seq<Action>, n: nat)
    requires IsRun(states, actions) && CalmRun(states, actions) && n < |states|
    ensures ExclusionInv(states[n])
  {
    if n == 0 {
      assert !TimerHolds(BOOT, INITIAL.admission);
    } else {
      RunIsExclusive(states, actions, n - 1);
      ExclusionStep(states[n - 1], actions[n - 1]);
    }
  }

  /** A running reconcile sees a closed gate and no permit in flight. */
  predicate ReconcileAlone(s: System) {
    forall i | 0 <= i < |s.drains| && s.drains[i].Reconciling? :: !s.ready && s.inFlight == 0 && s.permits == 0
  }

  /**
   In every calm interleaving: a running reconcile sees a closed gate and no permit in flight, at most
   one drain is active, and a queued request always has its drain.
   */
  lemma ReconcileRunsAlone(states: seq<System>, actions: seq<Action>, n: nat)
    requires IsRun(states, actions) && CalmRun(states, actions) && n < |states|
    ensures ReconcileAlone(states[n])
    ensures |states[n].drains| <= 1
    ensures states[n].c.latest.Some? ==> |states[n].drains| == 1
  {
    RunIsExclusive(states, actions, n);
  }

  // ----- the owner events of a run -------------------------------------------------------------------

  function EventsOf(actions: seq<Action>): seq<Event> {
    if actions == [] then []
    else
      var last := actions[|actions| - 1];
      EventsOf(actions[..|actions| - 1]) + if last.OwnerEvent? then [last.event] else []
  }

  /** No event of the sequence is stale while a network is admitted: what a caller can check beforehand. */
  predicate CalmEvents(events: seq<Event>) {
    forall i | 0 <= i < |events| :: Calm(Run(INITIAL, events[..i]), events[i])
  }

  /** The owner of a run is the owner of its events alone. */
  lemma {:induction false} OwnerFollowsEvents(states: seq<System>, actions: seq<Action>, n: nat)
    requires IsRun(states, actions) && n <= |actions|
    ensures states[n].owner == Run(INITIAL, EventsOf(actions[..n]))
  {
    if n != 0 {
      OwnerFollowsEvents(states, actions, n - 1);
      var before, last := EventsOf(actions[..n - 1]), actions[n - 1];
      assert actions[..n][..n - 1] == actions[..n - 1];
      assert Enabled(states[n - 1], actions[n - 1]) && states[n - 1 + 1] == Do(states[n - 1], actions[n - 1]);
      if last.OwnerEvent? {
        assert (before + [last.event])[..|before|] == before;
      } else {
        assert EventsOf(actions[..n]) == before;
        OwnerUnmoved(states[n - 1], last);
      }
    }
  }

  lemma OwnerUnmoved(s: System, a: Action)
    requires Enabled(s, a) && !a.OwnerEvent?
    ensures Do(s, a).owner == s.owner
  {
  }

  lemma {:induction false} EventsGrow(actions: seq<Action>, n: nat)
    requires n <= |actions|
    ensures EventsOf(actions[..n]) <= EventsOf(actions)
    decreases |actions|
  {
    if n < |actions| {
      var front := actions[..|actions| - 1];
      EventsGrow(front, n);
      assert front[..n] == actions[..n];
    } else {
      assert actions[..n] == actions;
    }
  }

  lemma CalmEventsMakeCalmRuns(states: seq<System>, actions: seq<Action>)
    requires IsRun(states, actions) && CalmEvents(EventsOf(actions))
    ensures CalmRun(states, actions)
  {
    forall i | 0 <= i < |actions| && actions[i].OwnerEvent? ensures Calm(states[i].owner, actions[i].event) {
      OwnerFollowsEvents(states, actions, i);
      EventsGrow(actions, i + 1);
      assert actions[..i + 1][..i] == actions[..i];
      var events, before := EventsOf(actions), EventsOf(actions[..i]);
      assert EventsOf(actions[..i + 1]) == before + [actions[i].event];
      assert events[..|before|] == before && events[|before|] == actions[i].event;
    }
  }

  // ----- what a stale event under an admitted network leads to ---------------------------------------

  lemma ExtendRun(states: seq<System>, actions: seq<Action>, a: Action)
    returns (states': seq<System>, actions': seq<Action>)
    requires IsRun(states, actions) && Enabled(states[|actions|], a)
    ensures IsRun(states', actions') && states'[|actions'|] == Do(states[|actions|], a) && states <= states'
    ensures EventsOf(actions') == EventsOf(actions) + if a.OwnerEvent? then [a.event] else []
  {
    states', actions' := states + [Do(states[|actions|], a)], actions + [a];
    assert actions'[..|actions|] == actions;
  }

  /** A current request at the head of the drain reaches its reconcile when no permit is in flight. */
  lemma ReachReconcile(states: seq<System>, actions: seq<Action>, request: Request)
    returns (states': seq<System>, actions': seq<Action>)
    requires IsRun(states, actions)
    requires var s := states[|actions|];
             s.drains == [Taking] && s.c.latest == Some(request) && Current(s, request) && s.inFlight == 0
    ensures IsRun(states', actions') && EventsOf(actions') == EventsOf(actions)
    ensures var s := states[|actions|];
            states'[|actions'|] == s.(c := s.c.(latest := None), drains := [Reconciling(request)])
  {
    hide EventsOf;
    var s := states[|actions|];
    states', actions' := ExtendRun(states, actions, Drain(0));
    assert states'[|actions'|] == s.(c := s.c.(latest := None), drains := [Checking(request)]);
    states', actions' := ExtendRun(states', actions', Drain(0));
    assert states'[|actions'|] == s.(c := s.c.(latest := None), drains := [Quiescing(request)]);
    states', actions' := ExtendRun(states', actions', Drain(0));
    assert states'[|actions'|] == s.(c := s.c.(latest := None), drains := [Rechecking(request)]);
    states', actions' := ExtendRun(states', actions', Drain(0));
  }

  /** An enforced reconcile of the current admitted generation opens the gate and returns to the queue. */
  /** The four steps of a drain whose reconcile was enforced and is current. */
  lemma EnforcedSteps(s: System, request: Request, token: Authority)
    requires Current(s, request) && Validates(s.owner, token)
    requires request.admission.lastSequence == Some(token.sequence) && request.admission.network == Some(token.network)
    ensures var settling := s.(drains := [Settling(request, Enforced)]);
      var deciding := s.(drains := [Deciding(request, Enforced)]);
      var granted := s.(ready := true, authorized := Some(token));
      && Do(settling, Drain(0)) == deciding
      && Do(deciding, Drain(0)) == granted.(drains := [Resetting])
      && Do(granted.(drains := [Resetting]), Drain(0)) == granted.(c := RecoveryReset(s.c), drains := [Finishing])
  {
  }

  lemma ReachOpenGate(states: seq<System>, actions: seq<Action>, request: Request, token: Authority)
    returns (states': seq<System>, actions': seq<Action>)
    requires IsRun(states, actions)
    requires var s := states[|actions|];
             s.drains == [Reconciling(request)] && Current(s, request) && Validates(s.owner, token)
    requires request.admission.lastSequence == Some(token.sequence) && request.admission.network == Some(token.network)
    ensures IsRun(states', actions') && EventsOf(actions') == EventsOf(actions)
    ensures var s, s' := states[|actions|], states'[|actions'|];
            && s'.ready && s'.drains == [Taking] && s'.c.latest == s.c.latest && s'.owner == s.owner
            && s'.inFlight == s.inFlight && s'.started == s.started
  {
    hide EventsOf, Current, Validates, Authorize;
    var s := states[|actions|];
    EnforcedSteps(s, request, token);
    states', actions' := ExtendRun(states, actions, CompleteReconcile(0, Enforced));
    assert states'[|actions'|] == s.(drains := [Settling(request, Enforced)]);
    states', actions' := ExtendRun(states', actions', Drain(0));
    states', actions' := ExtendRun(states', actions', Drain(0));
    states', actions' := ExtendRun(states', actions', Drain(0));
    assert states'[|actions'|].drains == [Finishing];
    states', actions' := ExtendRun(states', actions', Drain(0));
    assert states'[|actions'|].drains == [Taking];
  }

  /** Nothing but the owner has moved, and its last published admission is still to be offered. */
  predicate Unoffered(s: System) {
    s.started && s.c == IDLE && s.drains == [] && s.inFlight == 0 && s.owner.admission in s.callers
  }

  /** The owner may take any events before the coordinator hears of one. */
  lemma {:induction false} ReachEvents(events: seq<Event>) returns (states: seq<System>, actions: seq<Action>)
    ensures IsRun(states, actions) && EventsOf(actions) == events
    ensures Unoffered(states[|actions|]) && states[|actions|].owner == Run(INITIAL, events)
  {
    if events == [] {
      states, actions := ExtendRun([BOOT], [], Start);
    } else {
      var n := |events| - 1;
      states, actions := ReachEvents(events[..n]);
      states, actions := ExtendRun(states, actions, OwnerEvent(events[n]));
      assert events == events[..n] + [events[n]];
    }
  }

  /** The rest of the events can always follow. */
  lemma {:induction false} AppendEvents(states: seq<System>, actions: seq<Action>, events: seq<Event>)
    returns (states': seq<System>, actions': seq<Action>)
    requires IsRun(states, actions) && states[|actions|].started
    ensures IsRun(states', actions') && states <= states' && EventsOf(actions') == EventsOf(actions) + events
    decreases |events|
  {
    hide EventsOf;
    if events == [] {
      states', actions' := states, actions;
    } else {
      states', actions' := ExtendRun(states, actions, OwnerEvent(events[0]));
      states', actions' := AppendEvents(states', actions', events[1..]);
      assert events == [events[0]] + events[1..];
    }
  }

  /** The last published admission can be the one queued request. */
  lemma ReachQueued(events: seq<Event>) returns (states: seq<System>, actions: seq<Action>)
    ensures IsRun(states, actions) && EventsOf(actions) == events
    ensures var s, owner := states[|actions|], Run(INITIAL, events);
            && s.started && s.owner == owner && s.drains == [Taking] && s.c.drainScheduled && s.inFlight == 0
            && s.c.latest == Some(Request(owner.admission, None))
  {
    hide EventsOf, Run;
    states, actions := ReachEvents(events);
    states, actions := ExtendRun(states, actions, Offer(Run(INITIAL, events).admission, None));
  }

  /** During a reconcile, a stale event queues the same generation again. */
  lemma StaleRequeues(states: seq<System>, actions: seq<Action>, event: Event)
    returns (states': seq<System>, actions': seq<Action>)
    requires IsRun(states, actions)
    requires var s := states[|actions|]; s.started && !Fresh(s.owner, event) && s.c.drainScheduled
    ensures IsRun(states', actions') && EventsOf(actions') == EventsOf(actions) + [event]
    ensures var s, s' := states[|actions|], states'[|actions'|];
            && s'.started && s'.owner == s.owner && s'.drains == s.drains && s'.inFlight == s.inFlight
            && s'.c.latest == Some(Request(s.owner.admission, None))
  {
    hide EventsOf, Fresh;
    var admission := states[|actions|].owner.admission;
    states', actions' := ExtendRun(states, actions, OwnerEvent(event));
    states', actions' := ExtendRun(states', actions', Offer(admission, None));
  }

  /** After any events that leave a network admitted, a stale one lets a reconcile run with a permit out. */
  lemma StaleEventBreaksExclusion(events: seq<Event>, event: Event)
    returns (states: seq<System>, actions: seq<Action>)
    requires !Calm(Run(INITIAL, events), event)
    ensures IsRun(states, actions) && EventsOf(actions) == events + [event]
    ensures var s, request := states[|actions|], Request(Run(INITIAL, events).admission, None);
            s.drains == [Reconciling(request)] && s.ready && s.inFlight == 1 && s.started
    ensures !ReconcileAlone(states[|actions|])
  {
    hide EventsOf, Run, Fresh, Do;
    RunStaysCoherent(INITIAL, events);
    var admission := Run(INITIAL, events).admission;
    var request, token := Request(admission, None), Authority(admission.network.value, admission.lastSequence.value);
    states, actions := ReachQueued(events);
    states, actions := ReachReconcile(states, actions, request);
    states, actions := StaleRequeues(states, actions, event);
    states, actions := ReachOpenGate(states, actions, request, token);
    states, actions := ReachReconcile(states, actions, request);
    states, actions := ReachPermit(states, actions);
    assert states[|actions|].drains[0].Reconciling?;
  }

  lemma ReachPermit(states: seq<System>, actions: seq<Action>) returns (states': seq<System>, actions': seq<Action>)
    requires IsRun(states, actions) && states[|actions|].ready && states[|actions|].inFlight == 0
    ensures IsRun(states', actions') && EventsOf(actions') == EventsOf(actions)
    ensures var s, s' := states[|actions|], states'[|actions'|];
            s'.ready && s'.inFlight == 1 && s'.drains == s.drains && s'.started == s.started
  {
    states', actions' := ExtendRun(states, actions, Acquire);
  }

  const FIRST_SIGHTING: Event := Observe(Observation(1, 7, true, true, true, true))

  /** The smallest instance: the same sighting twice. */
  lemma RepeatedSightingBreaksExclusion() returns (states: seq<System>, actions: seq<Action>)
    ensures IsRun(states, actions) && EventsOf(actions) == [FIRST_SIGHTING, FIRST_SIGHTING]
    ensures !ReconcileAlone(states[|actions|])
  {
    hide EventsOf;
    assert [FIRST_SIGHTING][..0] == [];
    assert Run(INITIAL, [FIRST_SIGHTING]) == Apply(INITIAL, FIRST_SIGHTING);
    states, actions := StaleEventBreaksExclusion([FIRST_SIGHTING], FIRST_SIGHTING);
  }

  /** Every state of every interleaving of these owner events keeps reconciles alone. */
  ghost predicate AlwaysAlone(events: seq<Event>) {
    forall states, actions, n | IsRun(states, actions) && EventsOf(actions) == events && 0 <= n < |states| ::
      ReconcileAlone(states[n])
  }

  /** Owner events keep reconciles alone in every interleaving exactly when none is stale under an admitted network. */
  lemma AloneExactlyWhenCalm(events: seq<Event>)
    ensures AlwaysAlone(events) <==> CalmEvents(events)
  {
    hide EventsOf, Calm, Run, ReconcileAlone;
    if CalmEvents(events) {
      forall states, actions, n | IsRun(states, actions) && EventsOf(actions) == events && 0 <= n < |states|
        ensures ReconcileAlone(states[n])
      {
        CalmEventsMakeCalmRuns(states, actions);
        ReconcileRunsAlone(states, actions, n);
      }
    } else {
      var i :| 0 <= i < |events| && !Calm(Run(INITIAL, events[..i]), events[i]);
      AloneFailsAt(events, i);
    }
  }

  lemma AloneFailsAt(events: seq<Event>, i: nat)
    requires i < |events| && !Calm(Run(INITIAL, events[..i]), events[i])
    ensures !AlwaysAlone(events)
  {
    hide EventsOf, Calm, Run;
    var states, actions := StaleEventBreaksExclusion(events[..i], events[i]);
    var n := |actions|;
    assert !ReconcileAlone(states[n]);
    var states', actions' := AppendEvents(states, actions, events[i + 1..]);
    assert events[..i] + [events[i]] + events[i + 1..] == events;
    assert states'[n] == states[n];
  }

  // ----- what a finished reconcile leads to -----------------------------------------------------------------

  /** The failures that are tried again. */
  predicate MayPass(result: PolicyResult) {
    result in [AuthorityUnavailable(Unavailable), AuthorityUnavailable(Incomplete),
               FailClosed(Some(ObservationUnavailable)), FailClosed(Some(ObservationIncomplete)),
               FailClosed(Some(MutationUncertain))]
  }

  /** A current reconcile that failed for now arms a timer for its request, unless one is armed already. */
  lemma TransientFailureArmsRecovery(s: System, task: nat)
    requires task < |s.drains| && s.drains[task].Deciding? && MayPass(s.drains[task].result)
    ensures var request, armed := s.drains[task].request, DrainStep(s, task);
      && armed == s.(drains := s.drains[task := Scheduling(request)])
      && var after := DrainStep(armed, task);
         && after.c == s.c.(recoveryPending := true,
                            recoveryAttempts := s.c.recoveryAttempts + (if s.c.recoveryPending then 0 else 1))
         && after.timers == (if s.c.recoveryPending then s.timers
                             else s.timers + [Timer(s.c.recoveryEpoch, request)])
         && after.ready == s.ready
  {
  }

  /** A failure that will not pass, or none, disarms recovery and opens nothing. */
  lemma LastingOutcomeResetsRecovery(s: System, task: nat)
    requires task < |s.drains| && s.drains[task].Deciding?
    requires !MayPass(s.drains[task].result) && !s.drains[task].result.Enforced?
    ensures var decided := DrainStep(s, task);
      && decided == s.(drains := s.drains[task := Resetting])
      && var after := DrainStep(decided, task);
         && after.c == s.c.(recoveryEpoch := s.c.recoveryEpoch + 1, recoveryPending := false, recoveryAttempts := 0)
         && after.timers == s.timers && after.ready == s.ready
  {
  }

  /** An enforced policy opens the gate exactly when its request still names the admitted network. */
  lemma EnforcedOpensExactly(s: System, task: nat)
    requires task < |s.drains| && s.drains[task].Deciding? && s.drains[task].result.Enforced?
    requires Current(s, s.drains[task].request) && Coherent(s.owner)
    ensures var a := s.drains[task].request.admission;
      && (s.owner.admission.state.Admitted? ==>
            && DrainStep(s, task).ready && DrainStep(s, task).drains[task] == Resetting
            && DrainStep(s, task).authorized == Some(Authority(a.network.value, a.lastSequence.value)))
      && (!s.owner.admission.state.Admitted? ==>
            DrainStep(s, task).ready == s.ready && DrainStep(s, task).drains[task] == Finishing)
  {
  }

  /** An enforced policy whose request names a network the owner has moved on from closes the gate. */
  lemma EnforcedElsewhereCloses(s: System, task: nat)
    requires task < |s.drains| && s.drains[task].Deciding? && s.drains[task].result.Enforced?
    requires var a := s.drains[task].request.admission;
      a.network.Some? && a.lastSequence.Some? && !Validates(s.owner, Authority(a.network.value, a.lastSequence.value))
    ensures DrainStep(s, task) == s.(ready := false, drains := s.drains[task := Finishing])
  {
  }

  /** In every run a pending recovery has its timer: it cannot be forgotten. */
  ghost predicate RecoveryInv(s: System) {
    s.c.recoveryPending ==> exists t | t in s.timers :: t.epoch == s.c.recoveryEpoch
  }

  lemma RecoveryDrainStep(s: System, task: nat)
    requires RecoveryInv(s) && task < |s.drains| && !s.drains[task].Reconciling?
    ensures RecoveryInv(DrainStep(s, task))
  {
    hide SameGeneration, Validates, Retryable;
    var after := DrainStep(s, task);
    if s.c.recoveryPending {
      assert after.timers == s.timers;
    } else if after.c.recoveryPending {
      assert after.timers[|s.timers|].epoch == after.c.recoveryEpoch;
    }
  }

  lemma RecoveryFireStep(s: System, timer: nat)
    requires RecoveryInv(s) && timer < |s.timers|
    ensures RecoveryInv(Do(s, Fire(timer)))
  {
    hide SameGeneration;
    var after := Do(s, Fire(timer));
    if after.c.recoveryPending {
      var t :| t in s.timers && t.epoch == s.c.recoveryEpoch;
      var k :| 0 <= k < |s.timers| && s.timers[k] == t;
      assert k != timer;
      assert after.timers[if k < timer then k else k - 1] == t;
    }
  }

  lemma RecoveryStep(s: System, a: Action)
    requires RecoveryInv(s) && Enabled(s, a)
    ensures RecoveryInv(Do(s, a))
  {
    hide DrainStep, Apply;
    match a {
      case Drain(task) => RecoveryDrainStep(s, task);
      case Fire(timer) => RecoveryFireStep(s, timer);
      case _ => assert Do(s, a).timers == s.timers;
    }
  }

  lemma {:induction false} PendingRecoveryHasTimer(states: seq<System>, actions: seq<Action>, n: nat)
    requires IsRun(states, actions) && n < |states|
    ensures RecoveryInv(states[n])
  {
    if n != 0 {
      PendingRecoveryHasTimer(states, actions, n - 1);
      RecoveryStep(states[n - 1], actions[n - 1]);
    }
  }

  /** The armed timer of a request that is still current queues it and has it drained. */
  lemma ArmedTimerQueues(s: System, timer: nat)
    requires timer < |s.timers| && s.c.recoveryPending && s.timers[timer].epoch == s.c.recoveryEpoch
    requires Current(s, s.timers[timer].request) && QueueInv(s)
    ensures var after := Do(s, Fire(timer));
      after.c.latest == Some(s.timers[timer].request) && |after.drains| == 1 && !after.c.recoveryPending
  {
  }
}
