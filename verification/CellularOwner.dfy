/** The natural owner of the admitted cellular network (`CellularEgress` in cellular/src/lib.rs). */
module CellularOwner {
  import opened Common

  datatype AdmissionState = Unknown | NotAdmitted | Admitted

  datatype AdmissionReason =
    NoObservation | NotCellular | MissingInternetCapability | VpnDerivedNetwork | NotValidated | NetworkLost

  datatype Admission = Admission(
    state: AdmissionState, reason: Option<AdmissionReason>, network: Option<nat>, lastSequence: Option<nat>)

  datatype Owner = Owner(admission: Admission, lastObserved: Option<nat>)

  datatype Observation = Observation(
    sequence: nat, handle: nat, isCellular: bool, hasInternet: bool, isValidated: bool, isNotVpn: bool)

  /** One call on the owner; sequences and handles are non-zero in the source. */
  datatype Event = Observe(observation: Observation) | Lost(sequence: nat, handle: nat)

  datatype Authority = Authority(network: nat, sequence: nat)

  datatype AuthorityError = NoAdmittedNetwork | NetworkChanged

  const INITIAL: Owner := Owner(Admission(Unknown, Some(NoObservation), None, None), None)

  function SequenceOf(event: Event): nat {
    match event
    case Observe(observation) => observation.sequence
    case Lost(sequence, _) => sequence
  }

  function RejectionReason(o: Observation): Option<AdmissionReason> {
    if !o.isCellular then Some(NotCellular)
    else if !o.hasInternet then Some(MissingInternetCapability)
    else if !o.isNotVpn then Some(VpnDerivedNetwork)
    else if !o.isValidated then Some(NotValidated)
    else None
  }

  /** The event is newer than everything the owner has accepted. */
  predicate Fresh(owner: Owner, event: Event) {
    owner.admission.lastSequence.Some? ==> owner.admission.lastSequence.value < SequenceOf(event)
  }

  function AppliedObservation(owner: Owner, o: Observation): Owner {
    var admission := owner.admission.(lastSequence := Some(o.sequence));
    var reason := RejectionReason(o);
    if reason.None? then
      Owner(admission.(state := Admitted, reason := None, network := Some(o.handle)), Some(o.handle))
    else if admission.network.None? || admission.network == Some(o.handle) then
      Owner(admission.(state := NotAdmitted, reason := reason, network := None), Some(o.handle))
    else
      owner.(admission := admission)
  }

  function AppliedLoss(owner: Owner, sequence: nat, handle: nat): Owner {
    var admission := owner.admission.(lastSequence := Some(sequence));
    if admission.network == Some(handle) || owner.lastObserved == Some(handle) || admission.state.Unknown? then
      Owner(admission.(state := NotAdmitted, reason := Some(NetworkLost), network := None),
            if owner.lastObserved == Some(handle) then None else owner.lastObserved)
    else
      owner.(admission := admission)
  }

  function Apply(owner: Owner, event: Event): Owner {
    if !Fresh(owner, event) then owner
    else
      match event
      case Observe(observation) => AppliedObservation(owner, observation)
      case Lost(sequence, handle) => AppliedLoss(owner, sequence, handle)
  }

  function IssueAuthority(owner: Owner): Result<Authority, AuthorityError> {
    var a := owner.admission;
    if a.state.Admitted? && a.network.Some? && a.lastSequence.Some? then
      Ok(Authority(a.network.value, a.lastSequence.value))
    else Err(NoAdmittedNetwork)
  }

  predicate Validates(owner: Owner, authority: Authority) {
    && owner.admission.state.Admitted?
    && owner.admission.network == Some(authority.network)
    && owner.admission.lastSequence == Some(authority.sequence)
  }

  class CellularEgress {
    var admission: Admission
    var lastObservedNetwork: Option<nat>

    function View(): Owner
      reads this
    {
      Owner(admission, lastObservedNetwork)
    }

    constructor ()
      ensures View() == INITIAL
    {
      admission, lastObservedNetwork := INITIAL.admission, None;
    }

    predicate IsStale(sequence: nat)
      reads this
    {
      admission.lastSequence.Some? && sequence <= admission.lastSequence.value
    }

    method ObserveNetwork(o: Observation) returns (applied: bool)
      modifies this
      ensures applied == Fresh(old(View()), Observe(o))
      ensures View() == Apply(old(View()), Observe(o))
    {
      if IsStale(o.sequence) { return false; }
      admission := admission.(lastSequence := Some(o.sequence));
      var reason := RejectionReason(o);
      if reason.Some? {
        if admission.network.None? || admission.network == Some(o.handle) {
          lastObservedNetwork := Some(o.handle);
          admission := admission.(state := NotAdmitted, reason := reason, network := None);
        }
      } else {
        lastObservedNetwork := Some(o.handle);
        admission := admission.(state := Admitted, reason := None, network := Some(o.handle));
      }
      return true;
    }

    method NetworkIsLost(sequence: nat, handle: nat) returns (applied: bool)
      modifies this
      ensures applied == Fresh(old(View()), Lost(sequence, handle))
      ensures View() == Apply(old(View()), Lost(sequence, handle))
    {
      if IsStale(sequence) { return false; }
      admission := admission.(lastSequence := Some(sequence));
      if admission.network == Some(handle) || lastObservedNetwork == Some(handle) || admission.state.Unknown? {
        admission := admission.(state := NotAdmitted, reason := Some(NetworkLost), network := None);
        if lastObservedNetwork == Some(handle) { lastObservedNetwork := None; }
      }
      return true;
    }
  }

  // ----- runs ------------------------------------------------------------------------------------

  function Run(owner: Owner, events: seq<Event>): Owner {
    if events == [] then owner else Apply(Run(owner, events[..|events| - 1]), events[|events| - 1])
  }

  /** The `i`-th event of the run was applied rather than ignored as stale. */
  predicate AppliedAt(owner: Owner, events: seq<Event>, i: nat)
    requires i < |events|
  {
    Fresh(Run(owner, events[..i]), events[i])
  }

  /** Admission fails closed: a network is held exactly in the admitted state, which has no reason. */
  predicate Coherent(owner: Owner) {
    var a := owner.admission;
    && (a.state.Admitted? <==> a.network.Some?)
    && (a.state.Admitted? <==> a.reason.None?)
    && (a.state.Unknown? <==> a.lastSequence.None?)
    && (a.network.Some? ==> owner.lastObserved == a.network)
  }

  lemma {:induction false} RunStaysCoherent(owner: Owner, events: seq<Event>)
    requires Coherent(owner)
    ensures Coherent(Run(owner, events))
  {
    if events != [] { RunStaysCoherent(owner, events[..|events| - 1]); }
  }

  function SequenceKey(owner: Owner): int {
    if owner.admission.lastSequence.Some? then owner.admission.lastSequence.value else -1
  }

  lemma {:induction false} SequenceNeverFalls(owner: Owner, events: seq<Event>, i: nat, j: nat)
    requires i <= j <= |events|
    ensures SequenceKey(Run(owner, events[..i])) <= SequenceKey(Run(owner, events[..j]))
    ensures SequenceKey(Run(owner, events[..i])) == SequenceKey(Run(owner, events[..j]))
            ==> Run(owner, events[..i]) == Run(owner, events[..j])
    ensures SequenceKey(Run(owner, events[..i])) == SequenceKey(Run(owner, events[..j]))
            <==> forall k | i <= k < j :: !AppliedAt(owner, events, k)
  {
    if i < j {
      SequenceNeverFalls(owner, events, i, j - 1);
      assert events[..j][..j - 1] == events[..j - 1];
      assert AppliedAt(owner, events, j - 1) <==> Fresh(Run(owner, events[..j - 1]), events[j - 1]);
    }
  }

  /** A token issued after `i` events validates after `j` events iff nothing was applied in between. */
  lemma AuthorityValidatesUntilNextEvent(owner: Owner, events: seq<Event>, i: nat, j: nat)
    requires i <= j <= |events|
    requires IssueAuthority(Run(owner, events[..i])).Ok?
    ensures Validates(Run(owner, events[..j]), IssueAuthority(Run(owner, events[..i])).value)
            <==> forall k | i <= k < j :: !AppliedAt(owner, events, k)
  {
    SequenceNeverFalls(owner, events, i, j);
  }

  /** Once invalid, a token never validates again. */
  lemma InvalidStaysInvalid(owner: Owner, events: seq<Event>, i: nat, j: nat, k: nat)
    requires i <= j <= k <= |events|
    requires IssueAuthority(Run(owner, events[..i])).Ok?
    requires !Validates(Run(owner, events[..j]), IssueAuthority(Run(owner, events[..i])).value)
    ensures !Validates(Run(owner, events[..k]), IssueAuthority(Run(owner, events[..i])).value)
  {
    AuthorityValidatesUntilNextEvent(owner, events, i, j);
    AuthorityValidatesUntilNextEvent(owner, events, i, k);
  }

  /** Within one run, a sequence number determines the whole admission published under it. */
  lemma SequenceDeterminesAdmission(owner: Owner, events: seq<Event>, i: nat, j: nat)
    requires i <= |events| && j <= |events|
    requires Run(owner, events[..i]).admission.lastSequence == Run(owner, events[..j]).admission.lastSequence
    ensures Run(owner, events[..i]).admission == Run(owner, events[..j]).admission
  {
    if i <= j { SequenceNeverFalls(owner, events, i, j); } else { SequenceNeverFalls(owner, events, j, i); }
  }

  /** Losing a handle other than the admitted one never evicts the admitted network. */
  lemma SupersededLossKeepsNetwork(events: seq<Event>, sequence: nat, handle: nat)
    requires var network := Run(INITIAL, events).admission.network; network.Some? && network != Some(handle)
    ensures var before, after := Run(INITIAL, events), Apply(Run(INITIAL, events), Lost(sequence, handle));
            after.admission.network == before.admission.network && after.admission.state == Admitted
  {
    RunStaysCoherent(INITIAL, events);
  }

  // ----- which network is held, on the events alone ---------------------------------------------------------------

  /** Event `k` is newer than every event before it; the others are ignored. */
  predicate Newest(events: seq<Event>, k: nat)
    requires k < |events|
  {
    forall j | 0 <= j < k :: SequenceOf(events[j]) < SequenceOf(events[k])
  }

  predicate Usable(o: Observation) {
    o.isCellular && o.hasInternet && o.isNotVpn && o.isValidated
  }

  predicate Admits(event: Event, handle: nat) {
    event.Observe? && event.observation.handle == handle && Usable(event.observation)
  }

  /** Losing the handle, seeing it unusable, or seeing another network usable. */
  predicate Ends(event: Event, handle: nat) {
    match event
    case Lost(_, lost) => lost == handle
    case Observe(o) => if o.handle == handle then !Usable(o) else Usable(o)
  }

  /** The last word on the handle is a usable sighting, and no other network took its place since. */
  ghost predicate Held(events: seq<Event>, handle: nat) {
    exists k | 0 <= k < |events| ::
      Newest(events, k) && Admits(events[k], handle)
      && forall j | k < j < |events| && Newest(events, j) :: !Ends(events[j], handle)
  }

  /** The owner's sequence is the largest one it was given. */
  lemma {:induction false} SequenceIsLargest(events: seq<Event>)
    ensures var last := Run(INITIAL, events).admission.lastSequence;
      && (last.None? <==> events == [])
      && (last.Some? ==> exists k | 0 <= k < |events| :: SequenceOf(events[k]) == last.value)
      && (last.Some? ==> forall k | 0 <= k < |events| :: SequenceOf(events[k]) <= last.value)
  {
    if events != [] {
      var n := |events| - 1;
      SequenceIsLargest(events[..n]);
      var last := Run(INITIAL, events[..n]).admission.lastSequence;
      if last.Some? {
        var k :| 0 <= k < n && SequenceOf(events[..n][k]) == last.value;
        assert SequenceOf(events[k]) == last.value;
        assert forall j | 0 <= j < n :: events[j] == events[..n][j];
      }
      assert SequenceOf(events[n]) == SequenceOf(events[n]);
    }
  }

  lemma AppliedExactlyWhenNewest(events: seq<Event>, k: nat)
    requires k < |events|
    ensures AppliedAt(INITIAL, events, k) <==> Newest(events, k)
  {
    SequenceIsLargest(events[..k]);
    assert forall j | 0 <= j < k :: events[j] == events[..k][j];
  }

  /** One more event: how the held network follows from the events before. */
  lemma HeldStep(events: seq<Event>, event: Event, handle: nat)
    ensures var longer := events + [event];
      Held(longer, handle) <==>
        if Newest(longer, |events|) then Admits(event, handle) || (Held(events, handle) && !Ends(event, handle))
        else Held(events, handle)
  {
    var longer, n := events + [event], |events|;
    assert forall j | 0 <= j < n :: longer[j] == events[j] && (Newest(longer, j) <==> Newest(events, j));
    assert longer[n] == event;
    if Held(events, handle) && !(Newest(longer, n) && Ends(event, handle)) {
      var k :| 0 <= k < n && Newest(events, k) && Admits(events[k], handle)
               && forall j | k < j < n && Newest(events, j) :: !Ends(events[j], handle);
      assert Newest(longer, k) && Admits(longer[k], handle);
    }
    if Held(longer, handle) && !(Newest(longer, n) && Admits(event, handle)) {
      var k :| 0 <= k < n + 1 && Newest(longer, k) && Admits(longer[k], handle)
               && forall j | k < j < n + 1 && Newest(longer, j) :: !Ends(longer[j], handle);
      assert k < n && Newest(events, k) && Admits(events[k], handle);
      assert forall j | k < j < n && Newest(events, j) :: !Ends(longer[j], handle);
    }
  }

  /** A network is held exactly when the events say so. */
  lemma {:induction false} HeldExactly(events: seq<Event>, handle: nat)
    ensures Run(INITIAL, events).admission.network == Some(handle) <==> Held(events, handle)
  {
    if events == [] {
      assert !Held(events, handle);
    }
    hide Held, Newest, Fresh;
    if events != [] {
      var n := |events| - 1;
      HeldExactly(events[..n], handle);
      HeldStep(events[..n], events[n], handle);
      assert events == events[..n] + [events[n]];
      AppliedExactlyWhenNewest(events, n);
      RunStaysCoherent(INITIAL, events[..n]);
    }
  }

  // ----- what is published, on the events alone -------------------------------------------------------------------

  /** The sighting is usable, or there is no other network that is held. */
  ghost predicate Noted(events: seq<Event>, o: Observation) {
    Usable(o) || forall other: nat | Held(events, other) :: other == o.handle
  }

  /** The network seen last, usable or not, unless it was lost or the sighting did not count. */
  ghost function Watched(events: seq<Event>): Option<nat> {
    if events == [] then None
    else
      var n := |events| - 1;
      var before := Watched(events[..n]);
      if !Newest(events, n) then before
      else
        match events[n]
        case Observe(o) => if Noted(events[..n], o) then Some(o.handle) else before
        case Lost(_, handle) => if before == Some(handle) then None else before
  }

  /** The reason names the first of the four flags that fails. */
  predicate FirstFailing(o: Observation, reason: AdmissionReason) {
    || (reason == NotCellular && !o.isCellular)
    || (reason == MissingInternetCapability && o.isCellular && !o.hasInternet)
    || (reason == VpnDerivedNetwork && o.isCellular && o.hasInternet && !o.isNotVpn)
    || (reason == NotValidated && o.isCellular && o.hasInternet && o.isNotVpn && !o.isValidated)
  }

  lemma OtherHeld(events: seq<Event>, o: Observation)
    ensures (forall other: nat | Held(events, other) :: other == o.handle) <==>
      var network := Run(INITIAL, events).admission.network; network.None? || network == Some(o.handle)
  {
    var network := Run(INITIAL, events).admission.network;
    if network.Some? { HeldExactly(events, network.value); }
    forall other: nat | Held(events, other)
      ensures network == Some(other)
    {
      HeldExactly(events, other);
    }
  }

  lemma {:induction false} WatchedExactly(events: seq<Event>)
    ensures Run(INITIAL, events).lastObserved == Watched(events)
  {
    if events != [] {
      var n := |events| - 1;
      WatchedExactly(events[..n]);
      AppliedExactlyWhenNewest(events, n);
      RunStaysCoherent(INITIAL, events[..n]);
      if events[n].Observe? { OtherHeld(events[..n], events[n].observation); }
    }
  }

  /** The event changes what is published. */
  ghost predicate Decides(events: seq<Event>, event: Event) {
    match event
    case Observe(o) => Noted(events, o)
    case Lost(_, handle) => events == [] || Held(events, handle) || Watched(events) == Some(handle)
  }

  /** What is published after one more event, for every run. */
  lemma PublishedExactly(events: seq<Event>, event: Event)
    ensures var before, after := Run(INITIAL, events).admission, Run(INITIAL, events + [event]).admission;
      if !Newest(events + [event], |events|) then after == before
      else if !Decides(events, event) then after == before.(lastSequence := Some(SequenceOf(event)))
      else
        && after.lastSequence == Some(SequenceOf(event))
        && match event
           case Lost(_, _) => after.state == NotAdmitted && after.reason == Some(NetworkLost) && after.network == None
           case Observe(o) =>
             if Usable(o) then after.state == Admitted && after.reason == None && after.network == Some(o.handle)
             else
               && after.state == NotAdmitted && after.network == None
               && after.reason.Some? && FirstFailing(o, after.reason.value)
  {
    hide Held, Watched;
    var n, longer := |events|, events + [event];
    assert longer[..n] == events;
    AppliedExactlyWhenNewest(longer, n);
    RunStaysCoherent(INITIAL, events);
    SequenceIsLargest(events);
    WatchedExactly(events);
    match event {
      case Observe(o) => OtherHeld(events, o);
      case Lost(_, handle) => HeldExactly(events, handle);
    }
  }

  ghost predicate Largest(events: seq<Event>, sequence: nat) {
    && (exists k | 0 <= k < |events| :: SequenceOf(events[k]) == sequence)
    && (forall k | 0 <= k < |events| :: SequenceOf(events[k]) <= sequence)
  }

  /** An authority is issued, and later valid, exactly for the held network and the largest sequence. */
  lemma AuthorityExactly(events: seq<Event>, authority: Authority)
    ensures IssueAuthority(Run(INITIAL, events)) == Ok(authority) <==>
      Held(events, authority.network) && Largest(events, authority.sequence)
    ensures Validates(Run(INITIAL, events), authority) <==>
      Held(events, authority.network) && Largest(events, authority.sequence)
  {
    hide Held;
    RunStaysCoherent(INITIAL, events);
    SequenceIsLargest(events);
    HeldExactly(events, authority.network);
  }
}
