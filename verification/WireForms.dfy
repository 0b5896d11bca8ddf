/** The bytes of the durable records written out, which leases and secrets exist, and what an envelope may carry. */
module WireForms {
  import opened Common
  import opened Text
  import opened Utf8
  import opened Proto
  import ExternalCredential
  import Provisioning
  import opened TemporaryCredential
  import opened TemporaryRecord

  // ----- bytes -----------------------------------------------------------------------------------------------

  function Sized(bytes: seq<Byte>): seq<Byte> {
    Varint(|bytes|) + bytes
  }

  lemma TagByte(number: nat, wireType: nat)
    requires number < 16 && wireType < 8
    ensures Varint(number * 8 + wireType) == [number * 8 + wireType]
  {
  }

  lemma NumberBytes(number: nat, value: nat)
    requires number < 16
    ensures FieldBytes(Number(number, value)) == [number * 8] + Varint(value)
  {
    TagByte(number, 0);
  }

  lemma DataBytes(number: nat, bytes: seq<Byte>)
    requires number < 16
    ensures FieldBytes(Data(number, bytes)) == [number * 8 + 2] + Sized(bytes)
  {
    TagByte(number, 2);
  }

  lemma {:induction false} MessageSplits(fields: seq<Field>)
    requires fields != []
    ensures Message(fields) == FieldBytes(fields[0]) + Message(fields[1..])
  {
  }

  /** A credential state: the version, and a flag only if it is revoked. */
  lemma StateBytes(version: nat)
    ensures ExternalCredential.EncodedState(ExternalCredential.State(version, ExternalCredential.Active))
      == [8] + Varint(version)
    ensures ExternalCredential.EncodedState(ExternalCredential.State(version, ExternalCredential.Revoked))
      == [8] + Varint(version) + [16, 1]
  {
    NumberBytes(1, version);
    NumberBytes(2, 1);
    assert Varint(1) == [1];
    var active := [Number(1, version)];
    var revoked := active + [Number(2, 1)];
    assert active[1..] == [] && revoked[1..] == [Number(2, 1)] && [Number(2, 1)][1..] == [];
    MessageSplits(active);
    MessageSplits(revoked);
    MessageSplits([Number(2, 1)]);
    assert active + [] == active;
  }

  /** A lease: generation, activation, deadline, last reading and status, each under its own number. */
  lemma LeaseBytes(l: Lease)
    ensures EncodedLease(l) ==
      [8] + Varint(l.generation) + ([16] + Varint(l.activatedAt) + ([24] + Varint(l.expiresAt)
      + ([32] + Varint(l.lastObserved) + [40, match l.status case Active => 1 case Expired => 2 case Revoked => 3])))
  {
    hide FieldBytes, Message, Varint;
    var fields := LeaseFields(l);
    NumberBytes(1, l.generation);
    NumberBytes(2, l.activatedAt);
    NumberBytes(3, l.expiresAt);
    NumberBytes(4, l.lastObserved);
    NumberBytes(5, StatusCode(l.status));
    SmallVarint(StatusCode(l.status));
    FiveFields(fields);
  }

  lemma SmallVarint(v: nat)
    requires v < 128
    ensures Varint(v) == [v]
  {
  }

  lemma FiveFields(fields: seq<Field>)
    requires |fields| == 5
    ensures Message(fields) == FieldBytes(fields[0]) + (FieldBytes(fields[1]) + (FieldBytes(fields[2])
      + (FieldBytes(fields[3]) + FieldBytes(fields[4]))))
  {
    hide FieldBytes;
    FourFields(fields[1..]);
    MessageSplits(fields);
  }

  lemma FourFields(fields: seq<Field>)
    requires |fields| == 4
    ensures Message(fields) == FieldBytes(fields[0]) + (FieldBytes(fields[1]) + (FieldBytes(fields[2])
      + FieldBytes(fields[3])))
  {
    hide FieldBytes;
    MessageSplits(fields);
    MessageSplits(fields[1..]);
    MessageSplits(fields[1..][1..]);
    MessageSplits(fields[1..][1..][1..]);
    assert fields[1..][1..][1..][1..] == [];
    assert FieldBytes(fields[3]) + [] == FieldBytes(fields[3]);
  }

  /** A record: schema one, the lease, and the two secrets. */
  lemma RecordBytes(r: Record)
    ensures EncodedRecord(r) ==
      [8, 1] + ([18] + Sized(EncodedLease(r.lease)) + ([26] + Sized(r.username) + ([34] + Sized(r.password))))
  {
    hide FieldBytes, Message, Varint, EncodedLease, Sized;
    NumberBytes(1, 1);
    SmallVarint(1);
    DataBytes(2, EncodedLease(r.lease));
    DataBytes(3, r.username);
    DataBytes(4, r.password);
    FourFields(RecordFields(r));
  }

  /** An envelope: schema one, the version, and four sized parts. */
  lemma EnvelopeBytes(e: Provisioning.Envelope)
    ensures Message(Provisioning.EnvelopeFields(e)) ==
      [8, 1] + ([16] + Varint(e.version) + ([26] + Sized(e.id) + ([34] + Sized(e.challenge)
      + ([42] + Sized(e.username) + ([50] + Sized(e.password))))))
  {
    hide FieldBytes, Message, Varint, Sized;
    var fields := Provisioning.EnvelopeFields(e);
    NumberBytes(1, 1);
    SmallVarint(1);
    NumberBytes(2, e.version);
    DataBytes(3, e.id);
    DataBytes(4, e.challenge);
    DataBytes(5, e.username);
    DataBytes(6, e.password);
    MessageSplits(fields);
    MessageSplits(fields[1..]);
    FourFields(fields[1..][1..]);
  }

  // ----- which leases there are ------------------------------------------------------------------------------

  /** The activation and the later life lead to the lease. */
  ghost predicate Leads(clock: nat, events: seq<Event>, l: Lease) {
    && clock < U64_LIMIT && l.generation < U64_LIMIT && (forall i | 0 <= i < |events| :: MachineClock(events[i]))
    && Activate(l.generation, Some(clock)).Ok?
    && Run(Some(Activate(l.generation, Some(clock)).value), events) == Some(l)
  }

  lemma RunOne(l: Lease, e: Event)
    ensures Run(Some(l), [e]) == Step(Some(l), e)
  {
    assert [e][1..] == [];
  }

  lemma RunTwo(l: Lease, a: Event, b: Event)
    ensures Run(Some(l), [a, b]) == Step(Step(Some(l), a), b)
  {
    assert [a, b][1..] == [b] && [b][1..] == [];
    assert Run(Step(Some(l), a), [b]) == Run(Step(Step(Some(l), a), b), []);
  }

  /** The leases a record may hold are exactly those that an activation and its life can produce. */
  lemma ValidLeaseExactly(l: Lease)
    ensures ValidLease(l) <==> exists clock: nat, events: seq<Event> :: Leads(clock, events, l)
  {
    if ValidLease(l) {
      var first := Activate(l.generation, Some(l.activatedAt)).value;
      var seen := ClockRead(Some(l.lastObserved));
      RunOne(first, seen);
      RunTwo(first, seen, Withdraw);
      assert Leads(l.activatedAt, if l.status.Revoked? then [seen, Withdraw] else [seen], l);
    }
    if clock: nat, events: seq<Event> :| Leads(clock, events, l) {
      RestartIsTransparent(Activate(l.generation, Some(clock)).value, events);
    }
  }

  /** An activation needs a generation, a clock, a time after the epoch, and room for a day, in this order. */
  lemma ActivateExactly(generation: nat, clock: Option<nat>)
    ensures var r := Activate(generation, clock);
      && (r == Err(InvalidGeneration) <==> generation == 0)
      && (r == Err(MissingTrustedClock) <==> generation != 0 && clock == None)
      && (r == Err(InvalidActivationTime) <==> generation != 0 && clock == Some(0))
      && (r == Err(DeadlineOverflow) <==>
            generation != 0 && clock.Some? && clock.value != 0 && clock.value + 86_400 >= U64_LIMIT)
      && (r.Ok? <==> generation != 0 && clock.Some? && clock.value != 0 && clock.value + 86_400 < U64_LIMIT)
      && (r.Ok? ==> r.value == Lease(generation, clock.value, clock.value + 86_400, clock.value, Active))
  {
  }

  // ----- which secrets there are -----------------------------------------------------------------------------

  lemma {:induction false} NulIsOneByte(s: string)
    ensures 0 in Encode(s) <==> '\0' in s
  {
    if s != "" {
      NulIsOneByte(s[1..]);
      assert 0 in CharBytes(s[0]) <==> s[0] == '\0';
      assert '\0' in s <==> s[0] == '\0' || '\0' in s[1..] by { assert s == [s[0]] + s[1..]; }
    }
  }

  /** A secret is text with something to see in it, at most 255 bytes long and without NUL. */
  lemma SecretExactly(s: string)
    ensures ValidSecret(Encode(s)) <==>
      (exists i | 0 <= i < |s| :: !IsWhitespace(s[i])) && |Encode(s)| <= 255 && '\0' !in s
  {
    TextRoundTrip(s);
    NulIsOneByte(s);
  }

  /** A credential is issued exactly when both secrets are fit and the lease can be activated. */
  lemma IssueExactly(generation: nat, clock: Option<nat>, username: seq<Byte>, password: seq<Byte>)
    ensures var r := Issue(generation, clock, username, password);
      && (r == Err(InvalidCredentialMaterial) <==> !ValidSecret(username) || !ValidSecret(password))
      && (ValidSecret(username) && ValidSecret(password) ==>
            match Activate(generation, clock)
            case Ok(lease) => r == Ok(Record(lease, username, password))
            case Err(error) => r == Err(error))
  {
    ActivateExactly(generation, clock);
  }

  // ----- which material an envelope may carry ----------------------------------------------------------------

  /** The character is a lower-case hexadecimal digit. */
  predicate HexDigit(b: Byte) {
    exists d | 0 <= d < 16 :: LOWER_DIGITS[d] as int == b as int
  }

  lemma HexDigitExactly(b: Byte)
    ensures HexDigit(b) <==> 48 <= b <= 57 || 97 <= b <= 102
  {
    if 48 <= b <= 57 {
      assert LOWER_DIGITS[b as int - 48] as int == b as int;
    } else if 97 <= b <= 102 {
      assert LOWER_DIGITS[b as int - 87] as int == b as int;
    }
  }

  /** A challenge of 32 bytes, `mish-` and 32 hexadecimal digits, and a password of 64. */
  lemma MaterialExactly(challenge: seq<Byte>, username: seq<Byte>, password: seq<Byte>)
    ensures Provisioning.ValidMaterial(challenge, username, password) <==>
      && |challenge| == 32
      && |username| == 37 && username[..5] == [109, 105, 115, 104, 45]
      && (forall i | 5 <= i < 37 :: HexDigit(username[i]))
      && |password| == 64 && (forall i | 0 <= i < 64 :: HexDigit(password[i]))
  {
    hide HexDigit;
    forall b: Byte ensures HexDigit(b) <==> 48 <= b <= 57 || 97 <= b <= 102 { HexDigitExactly(b); }
    assert Ascii("mish-") == [109, 105, 115, 104, 45];
    if |username| == 37 {
      assert forall i | 5 <= i < 37 :: username[i] == username[5..][i - 5];
      assert forall i | 0 <= i < 32 :: username[5..][i] == username[i + 5];
    }
  }

  /** The id names the version, and no other. */
  lemma CredentialIdExactly(a: nat, b: nat)
    ensures Provisioning.CredentialId(a) == Provisioning.CredentialId(b) <==> a == b
  {
    hide Decimal;
    DecimalIsDigits(a);
    DecimalIsDigits(b);
    var left, right := "external-proxy-v" + Decimal(a), "external-proxy-v" + Decimal(b);
    if Provisioning.CredentialId(a) == Provisioning.CredentialId(b) {
      AsciiIsInjective(left, right);
      assert left[16..] == Decimal(a) && right[16..] == Decimal(b);
      DecimalValue(a);
      DecimalValue(b);
    }
  }

  // ----- tags and unknown fields -----------------------------------------------------------------------------

  /** A tag is a 32-bit number whose upper part is a field number that is not nought. */
  lemma TagExactly(input: seq<Byte>, offset: nat, tag: Tag, end: nat)
    ensures TagAt(input, offset) == Some(Taken(tag, end)) <==>
      && 1 <= tag.number < 0x2000_0000 && tag.wireType < 8
      && VarintAt(input, offset) == Some(Taken(tag.number * 8 + tag.wireType, end))
  {
  }

  /** An unknown field is skipped by its wire type: a varint, eight bytes, sized bytes or four; no groups. */
  lemma SkipExactly(input: seq<Byte>, offset: nat, wireType: nat, end: nat)
    ensures SkipAt(input, offset, wireType) == Some(end) <==>
      match wireType
      case 0 => exists value: nat :: VarintAt(input, offset) == Some(Taken(value, end))
      case 1 => end == offset + 8 <= |input|
      case 2 => exists length: nat, start: nat ::
        VarintAt(input, offset) == Some(Taken(length, start)) && end == start + length <= |input|
      case 5 => end == offset + 4 <= |input|
      case _ => false
  {
    var raw := VarintAt(input, offset);
    assert raw.Some? ==> raw == Some(Taken(raw.value.value, raw.value.cursor));
  }
}
