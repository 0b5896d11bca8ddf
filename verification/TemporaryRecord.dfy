/** The sensitive record that carries a lease together with its secret material. */
module TemporaryRecord {
  import opened Common
  import opened Proto
  import opened Utf8
  import opened TemporaryCredential

  datatype Record = Record(lease: Lease, username: seq<Byte>, password: seq<Byte>)

  const SCHEMA: nat := 1
  const SECRET_MAX_BYTES: nat := 255

  predicate ValidSecret(secret: seq<Byte>) {
    IsText(secret) && !Blank(secret) && |secret| <= SECRET_MAX_BYTES && 0 !in secret
  }

  predicate ValidRecord(r: Record) {
    ValidLease(r.lease) && ValidSecret(r.username) && ValidSecret(r.password)
  }

  function Issue(generation: nat, clock: Option<nat>, username: seq<Byte>, password: seq<Byte>): Result<Record, Error> {
    if !ValidSecret(username) || !ValidSecret(password) then Err(InvalidCredentialMaterial)
    else
      match Activate(generation, clock)
      case Err(error) => Err(error)
      case Ok(lease) => Ok(Record(lease, username, password))
  }

  function RecordFields(r: Record): seq<Field> {
    [Number(1, SCHEMA), Data(2, EncodedLease(r.lease)), Data(3, r.username), Data(4, r.password)]
  }

  function EncodedRecord(r: Record): seq<Byte> {
    Message(RecordFields(r))
  }

  /** The record a byte string stands for: the only valid one that encodes to it. */
  ghost function RestoredRecord(bytes: seq<Byte>): (restored: Option<Record>)
    ensures restored.Some? ==> ValidRecord(restored.value) && EncodedRecord(restored.value) == bytes
    ensures restored.None? ==> forall r | ValidRecord(r) :: EncodedRecord(r) != bytes
  {
    if exists r :: ValidRecord(r) && EncodedRecord(r) == bytes then
      var r :| ValidRecord(r) && EncodedRecord(r) == bytes;
      Some(r)
    else None
  }

  lemma RecordFieldsValid(r: Record)
    requires ValidRecord(r)
    ensures forall i | 0 <= i < 4 :: ValidField(RecordFields(r)[i])
  {
    LeaseFieldsValid(r.lease);
    NumbersAreShort(LeaseFields(r.lease));
  }

  method EncodeTemporaryRecord(r: Record) returns (bytes: seq<Byte>)
    ensures bytes == EncodedRecord(r)
  {
    ghost var fields := RecordFields(r);
    var lease := EncodeTemporaryLease(r.lease);
    bytes := [];
    bytes := WriteField(bytes, Number(1, SCHEMA));
    bytes := WriteField(bytes, Data(2, lease));
    bytes := WriteField(bytes, Data(3, r.username));
    bytes := WriteField(bytes, Data(4, r.password));
    MessageAppends(fields[..0], fields[0]);
    MessageAppends(fields[..1], fields[1]);
    MessageAppends(fields[..2], fields[2]);
    MessageAppends(fields[..3], fields[3]);
    assert fields[..0] + [fields[0]] == fields[..1] && fields[..1] + [fields[1]] == fields[..2];
    assert fields[..2] + [fields[2]] == fields[..3] && fields[..3] + [fields[3]] == fields;
  }

  /** The fields read so far; a decoding error of the nested lease ends the scan at once. */
  datatype Slots = Slots(schema: Option<nat>, lease: Option<Lease>, username: Option<seq<Byte>>,
    password: Option<seq<Byte>>)

  function SlotsAfter(r: Record, k: nat): Slots {
    Slots(if k > 0 then Some(SCHEMA) else None, if k > 1 then Some(r.lease) else None,
          if k > 2 then Some(r.username) else None, if k > 3 then Some(r.password) else None)
  }

  predicate Sound(slots: Slots) {
    && (slots.lease.Some? ==> ValidLease(slots.lease.value))
    && (slots.username.Some? ==> IsText(slots.username.value))
    && (slots.password.Some? ==> IsText(slots.password.value))
  }

  predicate NextField(reader: ProtoReader, tag: Tag, slots: Slots, r: Record, k: nat, end: nat)
    reads reader
  {
    && ValidRecord(r) && k < 4 && slots == SlotsAfter(r, k)
    && tag == Tag(RecordFields(r)[k].number, WireType(RecordFields(r)[k]))
    && ReadsPayload(reader.input, reader.offset, RecordFields(r)[k], end)
  }

  /** One field of the scan, from its tag on. A field of the encoding of `r` is taken as it is. */
  method ReadSlot(reader: ProtoReader, tag: Tag, slots: Slots, ghost r: Record, ghost k: nat, ghost end: nat)
    returns (result: Result<Slots, Error>)
    requires reader.Valid() && Sound(slots)
    modifies reader
    ensures reader.Valid() && old(reader.offset) <= reader.offset
    ensures result.Ok? ==> Sound(result.value)
    ensures old(NextField(reader, tag, slots, r, k, end)) ==> result == Ok(SlotsAfter(r, k + 1)) && reader.offset == end
  {
    if tag == Tag(1, WIRE_VARINT) && slots.schema.None? {
      var value := reader.ReadVarint();
      if value.None? { return Err(MalformedState); }
      return Ok(slots.(schema := value));
    }
    if tag.wireType != WIRE_LENGTH_DELIMITED { return Err(MalformedState); }
    if tag.number == 2 && slots.lease.None? {
      if ValidLease(r.lease) { LeaseRoundTrip(r.lease); }
      var bytes := reader.ReadBytes();
      if bytes.None? { return Err(MalformedState); }
      var lease := DecodeTemporaryLease(bytes.value);
      if lease.Err? { return Err(lease.error); }
      return Ok(slots.(lease := Some(lease.value)));
    } else if (tag.number == 3 && slots.username.None?) || (tag.number == 4 && slots.password.None?) {
      var bytes := reader.ReadBytes();
      if bytes.None? { return Err(MalformedState); }
      if !IsText(bytes.value) { return Err(InvalidCredentialMaterial); }
      if tag.number == 3 { return Ok(slots.(username := bytes)); }
      return Ok(slots.(password := bytes));
    }
    return Err(MalformedState);
  }

  method ReadRecordSlots(bytes: seq<Byte>) returns (result: Result<Slots, Error>)
    ensures result.Ok? ==> Sound(result.value)
    ensures RestoredRecord(bytes).Some? ==> result == Ok(SlotsAfter(RestoredRecord(bytes).value, 4))
  {
    var reader := new ProtoReader(bytes);
    var slots := Slots(None, None, None, None);
    ghost var canonical := RestoredRecord(bytes).Some?;
    ghost var r := if canonical then RestoredRecord(bytes).value else Record(Lease(0, 0, 0, 0, Active), [], []);
    ghost var fields, k := RecordFields(r), 0;
    if canonical { RecordFieldsValid(r); }
    assert fields[..4] == fields;
    while reader.offset != |bytes|
      invariant reader.Valid() && reader.input == bytes && Sound(slots)
      invariant canonical ==> k <= 4 && slots == SlotsAfter(r, k) && reader.offset == |Message(fields[..k])|
      decreases |bytes| - reader.offset
    {
      if canonical { MessageReadsField(fields, k); }
      var tag := reader.ReadTag();
      if tag.None? { return Err(MalformedState); }
      ghost var end := if canonical then |Message(fields[..k + 1])| else 0;
      assert canonical ==> NextField(reader, tag.value, slots, r, k, end);
      var next := ReadSlot(reader, tag.value, slots, r, k, end);
      if next.Err? { return Err(next.error); }
      slots := next.value;
      k := k + 1;
    }
    if canonical && k < 4 { MessageReadsField(fields, k); }
    return Ok(slots);
  }

  /** Accepts exactly the encodings of valid records. */
  method DecodeTemporaryRecord(bytes: seq<Byte>) returns (result: Result<Record, Error>)
    ensures match RestoredRecord(bytes)
      case Some(r) => result == Ok(r)
      case None => result.Err?
  {
    var scan := ReadRecordSlots(bytes);
    if scan.Err? { return Err(scan.error); }
    var slots := scan.value;
    if slots.schema != Some(SCHEMA) || slots.lease.None? || slots.username.None? || slots.password.None? {
      return Err(MalformedState);
    }
    if !ValidSecret(slots.username.value) || !ValidSecret(slots.password.value) {
      return Err(InvalidCredentialMaterial);
    }
    var record := Record(slots.lease.value, slots.username.value, slots.password.value);
    var canonical := EncodeTemporaryRecord(record);
    if canonical != bytes { return Err(NonCanonicalState); }
    return Ok(record);
  }

  lemma RecordRoundTrip(r: Record)
    requires ValidRecord(r)
    ensures RestoredRecord(EncodedRecord(r)) == Some(r)
  {
    var restored := RestoredRecord(EncodedRecord(r)).value;
    RecordFieldsValid(r);
    RecordFieldsValid(restored);
    MessageIsInjective(RecordFields(r), RecordFields(restored));
    assert RecordFields(r)[1] == RecordFields(restored)[1];
    LeaseRoundTrip(r.lease);
    LeaseRoundTrip(restored.lease);
    assert RecordFields(r)[2] == RecordFields(restored)[2] && RecordFields(r)[3] == RecordFields(restored)[3];
  }

  lemma IssuedIsValid(generation: nat, clock: Option<nat>, username: seq<Byte>, password: seq<Byte>)
    requires generation < U64_LIMIT && Issue(generation, clock, username, password).Ok?
    ensures ValidRecord(Issue(generation, clock, username, password).value)
  {
  }

  /** Whatever a valid record lives through, its durable form restores it. */
  lemma LivedRecordRestores(r: Record, events: seq<Event>)
    requires ValidRecord(r) && forall i | 0 <= i < |events| :: MachineClock(events[i])
    ensures Run(Some(r.lease), events).Some?
    ensures var lived := Record(Run(Some(r.lease), events).value, r.username, r.password);
      RestoredRecord(EncodedRecord(lived)) == Some(lived)
  {
    RestartIsTransparent(r.lease, events);
    RecordRoundTrip(Record(Run(Some(r.lease), events).value, r.username, r.password));
  }

  // ----- runs of a record, with restarts ------------------------------------------------------------------

  /** A restart keeps only the protected bytes; bytes that do not restore leave no record. */
  ghost function StepRecord(r: Option<Record>, e: Event): Option<Record> {
    match r
    case None => None
    case Some(record) =>
      match e
      case ClockRead(clock) => Some(record.(lease := Observe(record.lease, clock).lease))
      case Withdraw => Some(record.(lease := Revoke(record.lease)))
      case Restart => RestoredRecord(EncodedRecord(record))
  }

  ghost function RunRecord(r: Option<Record>, events: seq<Event>): Option<Record>
    decreases |events|
  {
    if events == [] then r else RunRecord(StepRecord(r, events[0]), events[1..])
  }

  lemma RecordStepFollowsLease(r: Record, e: Event)
    requires ValidRecord(r) && MachineClock(e)
    ensures Step(Some(r.lease), e).Some?
    ensures var next := r.(lease := Step(Some(r.lease), e).value);
      ValidRecord(next) && StepRecord(Some(r), e) == Some(next)
  {
    StepKeepsValid(r.lease, e);
    if e.Restart? { RecordRoundTrip(r); }
  }

  lemma {:induction false} RecordFollowsLease(r: Record, events: seq<Event>)
    requires ValidRecord(r) && forall i | 0 <= i < |events| :: MachineClock(events[i])
    ensures Run(Some(r.lease), events).Some?
    ensures RunRecord(Some(r), events) == Some(r.(lease := Run(Some(r.lease), events).value))
    decreases |events|
  {
    if events != [] {
      RecordStepFollowsLease(r, events[0]);
      RecordFollowsLease(r.(lease := Step(Some(r.lease), events[0]).value), events[1..]);
    }
  }

  lemma {:induction false} WithoutRestartsIsClocked(events: seq<Event>)
    requires forall i | 0 <= i < |events| :: MachineClock(events[i])
    ensures forall i | 0 <= i < |WithoutRestarts(events)| :: MachineClock(WithoutRestarts(events)[i])
  {
    if events != [] { WithoutRestartsIsClocked(events[1..]); }
  }

  /**
   Restarts of the persisted record are invisible: with them or without, the same secrets and the same lease,
   and every later reading gets the same answer.
   */
  lemma RecordRestartIsTransparent(r: Record, events: seq<Event>)
    requires ValidRecord(r) && forall i | 0 <= i < |events| :: MachineClock(events[i])
    ensures RunRecord(Some(r), events) == RunRecord(Some(r), WithoutRestarts(events))
    ensures var lived := RunRecord(Some(r), events);
      && lived.Some? && ValidRecord(lived.value)
      && lived.value.username == r.username && lived.value.password == r.password
  {
    RecordFollowsLease(r, events);
    WithoutRestartsIsClocked(events);
    RecordFollowsLease(r, WithoutRestarts(events));
    RestartIsTransparent(r.lease, events);
  }
}
