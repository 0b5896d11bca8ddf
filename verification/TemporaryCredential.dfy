/** The 24-hour credential lease: its life over a trusted clock, and its canonical durable form. */
module TemporaryCredential {
  import opened Common
  import opened Proto

  const TTL_SECONDS: nat := 24 * 60 * 60

  datatype Status = Active | Expired | Revoked

  datatype Lease = Lease(generation: nat, activatedAt: nat, expiresAt: nat, lastObserved: nat, status: Status)

  datatype Error =
    | MissingTrustedClock
    | InvalidActivationTime
    | InvalidGeneration
    | DeadlineOverflow
    | MalformedState
    | NonCanonicalState
    | InvalidCredentialMaterial

  // ----- the life of a lease ----------------------------------------------------------------------------

  function Activate(generation: nat, clock: Option<nat>): Result<Lease, Error> {
    if generation == 0 then Err(InvalidGeneration)
    else if clock.None? then Err(MissingTrustedClock)
    else if clock.value == 0 then Err(InvalidActivationTime)
    else
      match CheckedAdd(clock.value, TTL_SECONDS)
      case None => Err(DeadlineOverflow)
      case Some(deadline) => Ok(Lease(generation, clock.value, deadline, clock.value, Active))
  }

  function Revoke(l: Lease): Lease {
    l.(status := Revoked)
  }

  datatype Observation = Observation(lease: Lease, admitted: bool)

  function Observe(l: Lease, clock: Option<nat>): Observation {
    if !l.status.Active? then Observation(l, false)
    else if clock.None? then Observation(Revoke(l), false)
    else if clock.value < l.activatedAt || clock.value < l.lastObserved then Observation(Revoke(l), false)
    else if clock.value >= l.expiresAt then Observation(l.(lastObserved := clock.value, status := Expired), false)
    else Observation(l.(lastObserved := clock.value), true)
  }

  /** What activation, observation and revocation can produce. */
  predicate ValidLease(l: Lease) {
    && 1 <= l.generation < U64_LIMIT
    && 1 <= l.activatedAt && l.expiresAt == l.activatedAt + TTL_SECONDS < U64_LIMIT
    && l.activatedAt <= l.lastObserved < U64_LIMIT
    && (l.status.Active? ==> l.lastObserved < l.expiresAt)
    && (l.status.Expired? ==> l.lastObserved >= l.expiresAt)
  }

  // ----- the canonical form -----------------------------------------------------------------------------

  function StatusCode(s: Status): nat {
    match s
    case Active => 1
    case Expired => 2
    case Revoked => 3
  }

  function LeaseFields(l: Lease): seq<Field> {
    [Number(1, l.generation), Number(2, l.activatedAt), Number(3, l.expiresAt),
     Number(4, l.lastObserved), Number(5, StatusCode(l.status))]
  }

  function EncodedLease(l: Lease): seq<Byte> {
    Message(LeaseFields(l))
  }

  /** The lease a byte string stands for: the only valid one that encodes to it. */
  ghost function RestoredLease(input: seq<Byte>): (restored: Option<Lease>)
    ensures restored.Some? ==> ValidLease(restored.value) && EncodedLease(restored.value) == input
    ensures restored.None? ==> forall l | ValidLease(l) :: EncodedLease(l) != input
  {
    if exists l :: ValidLease(l) && EncodedLease(l) == input then
      var l :| ValidLease(l) && EncodedLease(l) == input;
      Some(l)
    else None
  }

  method EncodeTemporaryLease(l: Lease) returns (output: seq<Byte>)
    ensures output == EncodedLease(l)
  {
    ghost var fields := LeaseFields(l);
    output := [];
    output := WriteField(output, Number(1, l.generation));
    output := WriteField(output, Number(2, l.activatedAt));
    output := WriteField(output, Number(3, l.expiresAt));
    output := WriteField(output, Number(4, l.lastObserved));
    output := WriteField(output, Number(5, StatusCode(l.status)));
    MessageAppends(fields[..0], fields[0]);
    MessageAppends(fields[..1], fields[1]);
    MessageAppends(fields[..2], fields[2]);
    MessageAppends(fields[..3], fields[3]);
    MessageAppends(fields[..4], fields[4]);
    assert fields[..0] + [fields[0]] == fields[..1] && fields[..1] + [fields[1]] == fields[..2];
    assert fields[..2] + [fields[2]] == fields[..3] && fields[..3] + [fields[3]] == fields[..4];
    assert fields[..4] + [fields[4]] == fields;
  }

  lemma LeaseFieldsValid(l: Lease)
    requires ValidLease(l)
    ensures forall i | 0 <= i < 5 ::
      LeaseFields(l)[i].Number? && LeaseFields(l)[i].number == i + 1 && ValidField(LeaseFields(l)[i])
  {
  }

  /** The slots after the first `k` fields of a canonical lease were read. */
  predicate SlotsHold(slots: seq<Option<nat>>, fields: seq<Field>, k: nat) {
    && |slots| == |fields| && k <= |fields|
    && forall i | 0 <= i < |fields| :: fields[i].Number? && slots[i] == (if i < k then Some(fields[i].value) else None)
  }

  predicate SmallSlots(slots: seq<Option<nat>>) {
    |slots| == 5 && forall i | 0 <= i < 5 && slots[i].Some? :: slots[i].value < U64_LIMIT
  }

  method ReadLeaseSlots(input: seq<Byte>) returns (slots: Option<seq<Option<nat>>>)
    ensures slots.Some? ==> SmallSlots(slots.value)
    ensures RestoredLease(input).Some? ==>
      slots.Some? && SlotsHold(slots.value, LeaseFields(RestoredLease(input).value), 5)
  {
    var reader := new ProtoReader(input);
    var held: seq<Option<nat>> := [None, None, None, None, None];
    ghost var canonical := RestoredLease(input).Some?;
    ghost var fields := if canonical then LeaseFields(RestoredLease(input).value) else [];
    ghost var k := 0;
    if canonical { LeaseFieldsValid(RestoredLease(input).value); }
    assert canonical ==> fields[..5] == fields;
    while reader.offset != |input|
      invariant reader.Valid() && reader.input == input && SmallSlots(held)
      invariant canonical ==> SlotsHold(held, fields, k) && reader.offset == |Message(fields[..k])|
      decreases |input| - reader.offset
    {
      if canonical { MessageReadsField(fields, k); }
      var tag := reader.ReadTag();
      if tag.None? || !(1 <= tag.value.number <= 5) || tag.value.wireType != WIRE_VARINT { return None; }
      if held[tag.value.number - 1].Some? { return None; }
      VarintIsU64(input, reader.offset);
      var value := reader.ReadVarint();
      if value.None? { return None; }
      held := held[tag.value.number - 1 := value];
      k := k + 1;
    }
    if canonical && k < 5 { MessageReadsField(fields, k); }
    return Some(held);
  }

  function StatusOf(code: nat, last: nat, end: nat): Option<Status> {
    if code == 1 && last < end then Some(Active)
    else if code == 2 && last >= end then Some(Expired)
    else if code == 3 then Some(Revoked)
    else None
  }

  /** Accepts exactly the canonical encodings of valid leases. */
  method DecodeTemporaryLease(input: seq<Byte>) returns (result: Result<Lease, Error>)
    ensures match RestoredLease(input)
      case Some(l) => result == Ok(l)
      case None => result in {Err(MalformedState), Err(NonCanonicalState)}
  {
    var slots := ReadLeaseSlots(input);
    if slots.None? || exists i | 0 <= i < 5 :: slots.value[i].None? { return Err(MalformedState); }
    var generation, start, end := slots.value[0].value, slots.value[1].value, slots.value[2].value;
    var last, code := slots.value[3].value, slots.value[4].value;
    if generation == 0 || start == 0 || CheckedAdd(start, TTL_SECONDS) != Some(end) || last < start {
      return Err(MalformedState);
    }
    var status := StatusOf(code, last, end);
    if status.None? { return Err(MalformedState); }
    var state := Lease(generation, start, end, last, status.value);
    var canonical := EncodeTemporaryLease(state);
    if canonical != input { return Err(NonCanonicalState); }
    return Ok(state);
  }

  /** Every valid lease is restored from its encoding, and nothing else encodes to the same bytes. */
  lemma LeaseRoundTrip(l: Lease)
    requires ValidLease(l)
    ensures RestoredLease(EncodedLease(l)) == Some(l)
  {
    var restored := RestoredLease(EncodedLease(l));
    LeaseFieldsValid(l);
    LeaseFieldsValid(restored.value);
    MessageIsInjective(LeaseFields(l), LeaseFields(restored.value));
  }

  // ----- runs of a lease, with restarts ----------------------------------------------------------------

  datatype Event = ClockRead(clock: Option<nat>) | Withdraw | Restart

  predicate MachineClock(e: Event) {
    e.ClockRead? && e.clock.Some? ==> e.clock.value < U64_LIMIT
  }

  /** A restart keeps only the durable bytes; bytes that do not restore leave no lease. */
  ghost function Step(l: Option<Lease>, e: Event): Option<Lease> {
    match l
    case None => None
    case Some(lease) =>
      match e
      case ClockRead(clock) => Some(Observe(lease, clock).lease)
      case Withdraw => Some(Revoke(lease))
      case Restart => RestoredLease(EncodedLease(lease))
  }

  ghost function Run(l: Option<Lease>, events: seq<Event>): Option<Lease>
    decreases |events|
  {
    if events == [] then l else Run(Step(l, events[0]), events[1..])
  }

  function WithoutRestarts(events: seq<Event>): seq<Event> {
    if events == [] then []
    else (if events[0].Restart? then [] else [events[0]]) + WithoutRestarts(events[1..])
  }

  lemma StepKeepsValid(l: Lease, e: Event)
    requires ValidLease(l) && MachineClock(e)
    ensures Step(Some(l), e).Some? && ValidLease(Step(Some(l), e).value)
    ensures e.Restart? ==> Step(Some(l), e) == Some(l)
  {
    if e.Restart? { LeaseRoundTrip(l); }
  }

  /** Restarts are invisible: any number of them, anywhere, leaves every later decision as it was. */
  lemma {:induction false} RestartIsTransparent(l: Lease, events: seq<Event>)
    requires ValidLease(l) && forall i | 0 <= i < |events| :: MachineClock(events[i])
    ensures Run(Some(l), events) == Run(Some(l), WithoutRestarts(events))
    ensures Run(Some(l), events).Some? && ValidLease(Run(Some(l), events).value)
    decreases |events|
  {
    if events != [] {
      StepKeepsValid(l, events[0]);
      RestartIsTransparent(Step(Some(l), events[0]).value, events[1..]);
      var rest := WithoutRestarts(events[1..]);
      if events[0].Restart? {
        assert WithoutRestarts(events) == rest;
      } else {
        assert WithoutRestarts(events)[0] == events[0] && WithoutRestarts(events)[1..] == rest;
      }
    }
  }

  /** Readings that never go back, never reach the deadline, and are never interrupted by a refusal. */
  predicate Steady(last: nat, deadline: nat, events: seq<Event>)
    decreases |events|
  {
    events == [] ||
    match events[0]
    case Restart => Steady(last, deadline, events[1..])
    case Withdraw => false
    case ClockRead(None) => false
    case ClockRead(Some(now)) => last <= now < deadline && Steady(now, deadline, events[1..])
  }

  lemma {:induction false} DeadStaysDead(l: Lease, events: seq<Event>)
    requires ValidLease(l) && !l.status.Active? && forall i | 0 <= i < |events| :: MachineClock(events[i])
    ensures Run(Some(l), events).Some? && !Run(Some(l), events).value.status.Active?
    decreases |events|
  {
    if events != [] {
      StepKeepsValid(l, events[0]);
      DeadStaysDead(Step(Some(l), events[0]).value, events[1..]);
    }
  }

  lemma {:induction false} ActiveExactlyWhileSteady(l: Lease, events: seq<Event>)
    requires ValidLease(l) && l.status.Active? && forall i | 0 <= i < |events| :: MachineClock(events[i])
    ensures Run(Some(l), events).Some?
    ensures Run(Some(l), events).value.status.Active? <==> Steady(l.lastObserved, l.expiresAt, events)
    decreases |events|
  {
    if events != [] {
      StepKeepsValid(l, events[0]);
      var next := Step(Some(l), events[0]).value;
      if next.status.Active? {
        ActiveExactlyWhileSteady(next, events[1..]);
      } else {
        DeadStaysDead(next, events[1..]);
      }
    }
  }

  lemma {:induction false} RunAppends(l: Option<Lease>, events: seq<Event>, e: Event)
    ensures Run(l, events + [e]) == Step(Run(l, events), e)
    decreases |events|
  {
    if events != [] {
      RunAppends(Step(l, events[0]), events[1..], e);
      assert (events + [e])[1..] == events[1..] + [e];
    } else {
      assert events + [e] == [e] && [e][1..] == [];
    }
  }

  /**
   A reading is admitted exactly when it and everything before it stayed in order inside the 24 hours
   from activation: one refusal, revocation or missing clock ends the lease for good.
   */
  lemma AdmittedExactlyWhileSteady(generation: nat, start: nat, events: seq<Event>, clock: Option<nat>)
    requires 1 <= generation < U64_LIMIT && 1 <= start && start + TTL_SECONDS < U64_LIMIT
    requires forall i | 0 <= i < |events| :: MachineClock(events[i])
    requires MachineClock(ClockRead(clock))
    ensures Activate(generation, Some(start)).Ok?
    ensures var run := Run(Some(Activate(generation, Some(start)).value), events);
      run.Some? && (Observe(run.value, clock).admitted <==> Steady(start, start + 86400, events + [ClockRead(clock)]))
  {
    var l := Activate(generation, Some(start)).value;
    RestartIsTransparent(l, events);
    var before := Run(Some(l), events).value;
    RunAppends(Some(l), events, ClockRead(clock));
    ActiveExactlyWhileSteady(l, events + [ClockRead(clock)]);
    StepKeepsValid(before, ClockRead(clock));
  }
}
