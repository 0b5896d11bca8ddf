/** The provisioning envelope that carries one active external credential. */
module Provisioning {
  import opened Common
  import opened Text
  import opened Utf8
  import opened Proto
  import opened ProtoScan
  import ExternalCredential

  const SCHEMA_VERSION: nat := 1
  const CHALLENGE_BYTES: nat := 32

  datatype Envelope = Envelope(version: nat, id: seq<Byte>, challenge: seq<Byte>, username: seq<Byte>,
    password: seq<Byte>)

  type Error = ExternalCredential.Error

  function CredentialId(version: nat): seq<Byte> {
    Ascii("external-proxy-v" + Decimal(version))
  }

  predicate LowerHex(bytes: seq<Byte>, length: nat) {
    |bytes| == length && forall i | 0 <= i < |bytes| :: 48 <= bytes[i] <= 57 || 97 <= bytes[i] <= 102
  }

  predicate ValidUsername(bytes: seq<Byte>) {
    |bytes| >= 5 && bytes[..5] == Ascii("mish-") && LowerHex(bytes[5..], 32)
  }

  predicate ValidMaterial(challenge: seq<Byte>, username: seq<Byte>, password: seq<Byte>) {
    |challenge| == CHALLENGE_BYTES && ValidUsername(username) && LowerHex(password, 64)
  }

  predicate ValidEnvelope(e: Envelope) {
    && 1 <= e.version < U64_LIMIT
    && e.id == CredentialId(e.version)
    && ValidMaterial(e.challenge, e.username, e.password)
  }

  const KINDS: Kinds := [WIRE_VARINT, WIRE_VARINT, WIRE_LENGTH_DELIMITED, WIRE_LENGTH_DELIMITED,
                         WIRE_LENGTH_DELIMITED, WIRE_LENGTH_DELIMITED]

  function EnvelopeFields(e: Envelope): seq<Field> {
    [Number(1, SCHEMA_VERSION), Number(2, e.version), Data(3, e.id), Data(4, e.challenge),
     Data(5, e.username), Data(6, e.password)]
  }

  method EncodeEnvelope(state: ExternalCredential.State, challenge: seq<Byte>, username: seq<Byte>, password: seq<Byte>)
    returns (result: Result<seq<Byte>, Error>)
    ensures state.status.Active? && ValidMaterial(challenge, username, password) ==>
      result == Ok(Message(EnvelopeFields(Envelope(state.version, CredentialId(state.version), challenge, username,
        password))))
    ensures !(state.status.Active? && ValidMaterial(challenge, username, password)) ==>
      result == Err(ExternalCredential.InvalidProvisioningEnvelope)
  {
    if !state.status.Active? || !ValidMaterial(challenge, username, password) {
      return Err(ExternalCredential.InvalidProvisioningEnvelope);
    }
    hide FieldBytes, Message, CredentialId, ValidMaterial;
    ghost var e := Envelope(state.version, CredentialId(state.version), challenge, username, password);
    ghost var fields := EnvelopeFields(e);
    var encoded := WriteField([], Number(1, SCHEMA_VERSION));
    encoded := WriteField(encoded, Number(2, state.version));
    encoded := WriteField(encoded, Data(3, CredentialId(state.version)));
    encoded := WriteField(encoded, Data(4, challenge));
    encoded := WriteField(encoded, Data(5, username));
    encoded := WriteField(encoded, Data(6, password));
    SixFields(fields);
    return Ok(encoded);
  }

  lemma SixFields(fields: seq<Field>)
    requires |fields| == 6
    ensures Message(fields) == [] + FieldBytes(fields[0]) + FieldBytes(fields[1]) + FieldBytes(fields[2])
      + FieldBytes(fields[3]) + FieldBytes(fields[4]) + FieldBytes(fields[5])
  {
    hide FieldBytes;
    forall k | 0 <= k < 6 ensures Message(fields[..k + 1]) == Message(fields[..k]) + FieldBytes(fields[k]) {
      MessageAppends(fields[..k], fields[k]);
      assert fields[..k] + [fields[k]] == fields[..k + 1];
    }
    assert fields[..0] == [] && fields[..6] == fields;
    assert Message(fields[..1]) == [] + FieldBytes(fields[0]);
    assert Message(fields[..2]) == Message(fields[..1]) + FieldBytes(fields[1]);
    assert Message(fields[..3]) == Message(fields[..2]) + FieldBytes(fields[2]);
    assert Message(fields[..4]) == Message(fields[..3]) + FieldBytes(fields[3]);
    assert Message(fields[..5]) == Message(fields[..4]) + FieldBytes(fields[4]);
    assert Message(fields[..6]) == Message(fields[..5]) + FieldBytes(fields[5]);
  }

  predicate NumberIn(held: Held, number: nat)
    requires 1 <= number <= |held|
  {
    held[number - 1].Some? && held[number - 1].value.Number?
  }

  predicate DataIn(held: Held, number: nat)
    requires 1 <= number <= |held|
  {
    held[number - 1].Some? && held[number - 1].value.Data?
  }

  predicate TextIn(held: Held, number: nat)
    requires 1 <= number <= |held|
  {
    DataIn(held, number) && IsText(held[number - 1].value.bytes)
  }

  function EnvelopeOf(held: Held): Option<Envelope>
    requires |held| == 6
  {
    if !NumberIn(held, 1) || held[0].value.value != SCHEMA_VERSION then None
    else if !NumberIn(held, 2) || held[1].value.value == 0 then None
    else if !TextIn(held, 3) || !DataIn(held, 4) || !TextIn(held, 5) || !TextIn(held, 6) then None
    else
      var e := Envelope(held[1].value.value, held[2].value.bytes, held[3].value.bytes, held[4].value.bytes,
        held[5].value.bytes);
      if e.id != CredentialId(e.version) || !ValidMaterial(e.challenge, e.username, e.password) then None else Some(e)
  }

  function DecodedEnvelope(encoded: seq<Byte>): Option<Envelope> {
    match Scan(encoded, 0, KINDS, Empty(6))
    case None => None
    case Some(held) => EnvelopeOf(held)
  }

  method DecodeEnvelope(encoded: seq<Byte>) returns (result: Result<Envelope, Error>)
    ensures match DecodedEnvelope(encoded)
      case Some(e) => result == Ok(e)
      case None => result == Err(ExternalCredential.InvalidProvisioningEnvelope)
  {
    var held := ScanFields(encoded, KINDS);
    if held.None? { return Err(ExternalCredential.InvalidProvisioningEnvelope); }
    var e := EnvelopeOf(held.value);
    if e.None? { return Err(ExternalCredential.InvalidProvisioningEnvelope); }
    return Ok(e.value);
  }

  lemma ValidUsernameIsAscii(bytes: seq<Byte>)
    requires ValidUsername(bytes)
    ensures forall i | 0 <= i < |bytes| :: bytes[i] < 128
  {
    forall i | 0 <= i < |bytes| ensures bytes[i] < 128 {
      if i < 5 { assert bytes[i] == bytes[..5][i]; } else { assert bytes[i] == bytes[5..][i - 5]; }
    }
  }

  lemma EnvelopeInOrder(e: Envelope)
    requires ValidEnvelope(e)
    ensures InOrder(KINDS, EnvelopeFields(e))
  {
    DecimalIsShort(e.version);
  }

  /** Every valid envelope is decoded from its encoding. */
  lemma EnvelopeRoundTrip(e: Envelope)
    requires ValidEnvelope(e)
    ensures DecodedEnvelope(Message(EnvelopeFields(e))) == Some(e)
  {
    var fields := EnvelopeFields(e);
    EnvelopeInOrder(e);
    ScanRoundTrip(KINDS, fields);
    forall j | 0 <= j < 6 ensures HeldAfter(KINDS, fields, 6)[j] == Some(fields[j]) {
      HeldPresent(KINDS, fields, 6, j);
      assert fields[j].number == j + 1;
    }
    ValidUsernameIsAscii(e.username);
    AsciiIsText(e.id);
    AsciiIsText(e.username);
    AsciiIsText(e.password);
  }

  /** Nothing but a valid envelope is ever decoded. */
  lemma DecodedIsValid(encoded: seq<Byte>)
    ensures DecodedEnvelope(encoded).Some? ==> ValidEnvelope(DecodedEnvelope(encoded).value)
  {
    ScanIsSmall(encoded, 0, KINDS, Empty(6));
  }
}
