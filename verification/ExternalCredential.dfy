/** The durable external credential state: its lifecycle, its bytes, and the resolution of what was persisted. */
module ExternalCredential {
  import opened Common
  import opened Text
  import opened Proto
  import opened ProtoScan

  datatype Status = Active | Revoked

  datatype State = State(version: nat, status: Status)

  datatype Error =
    | InvalidVersion
    | VersionExhausted
    | MalformedState
    | NonCanonicalState
    | MixedPersistenceSchemas
    | IncompleteLegacyState
    | InvalidLegacyVersion
    | MissingRootForState
    | RootWithoutState
    | InvalidProvisioningEnvelope

  predicate ValidState(s: State) {
    1 <= s.version < U64_LIMIT
  }

  const INITIAL: State := State(1, Active)

  function NewState(version: nat, revoked: bool): Result<State, Error> {
    if version == 0 then Err(InvalidVersion) else Ok(State(version, if revoked then Revoked else Active))
  }

  // ----- lifecycle ---------------------------------------------------------------------------------------

  datatype Change = Rotate | Revoke

  /** A refused rotation leaves the state as it is. */
  function Changed(s: State, c: Change): State {
    match c
    case Revoke => s.(status := Revoked)
    case Rotate => if s.version + 1 < U64_LIMIT then State(s.version + 1, Active) else s
  }

  function Lived(s: State, changes: seq<Change>): State
    decreases |changes|
  {
    if changes == [] then s else Lived(Changed(s, changes[0]), changes[1..])
  }

  /** A revoked version never becomes active again: an active state after it has a newer version. */
  lemma {:induction false} RevokedStaysRevoked(s: State, changes: seq<Change>)
    requires ValidState(s)
    ensures var later := Lived(s, changes);
      && ValidState(later) && later.version >= s.version
      && (s.status.Revoked? && later.status.Active? ==> later.version > s.version)
    decreases |changes|
  {
    if changes != [] { RevokedStaysRevoked(Changed(s, changes[0]), changes[1..]); }
  }

  function Rotations(changes: seq<Change>): nat {
    if changes == [] then 0
    else Rotations(changes[..|changes| - 1]) + if changes[|changes| - 1].Rotate? then 1 else 0
  }

  /** The `k`-th change is a rotation, and a version was left for it. */
  predicate Renews(s: State, changes: seq<Change>, k: nat)
    requires k < |changes|
  {
    changes[k].Rotate? && s.version + Rotations(changes[..k]) < U64_LIMIT - 1
  }

  /** Nothing renewed the credential since it was revoked. */
  ghost predicate RevokedLast(s: State, changes: seq<Change>) {
    || (exists k | 0 <= k < |changes| :: changes[k].Revoke? && forall j | k < j < |changes| :: !Renews(s, changes, j))
    || (s.status.Revoked? && forall j | 0 <= j < |changes| :: !Renews(s, changes, j))
  }

  lemma {:induction false} LivedAppends(s: State, changes: seq<Change>, c: Change)
    ensures Lived(s, changes + [c]) == Changed(Lived(s, changes), c)
    decreases |changes|
  {
    if changes == [] {
      assert ([] + [c])[1..] == [];
    } else {
      assert (changes + [c])[1..] == changes[1..] + [c];
      LivedAppends(Changed(s, changes[0]), changes[1..], c);
    }
  }

  lemma RevokedStep(s: State, changes: seq<Change>, c: Change)
    ensures var longer := changes + [c];
      RevokedLast(s, longer) <==> c.Revoke? || (RevokedLast(s, changes) && !Renews(s, longer, |changes|))
  {
    var longer, n := changes + [c], |changes|;
    assert longer[n] == c;
    forall k | 0 <= k < n
      ensures longer[k] == changes[k] && (Renews(s, longer, k) <==> Renews(s, changes, k))
    {
      assert longer[..k] == changes[..k];
    }
    if k :| 0 <= k < n && changes[k].Revoke? && forall j | k < j < n :: !Renews(s, changes, j) {
      assert longer[k].Revoke?;
    }
    if k :| 0 <= k < n && longer[k].Revoke? && forall j | k < j < n + 1 :: !Renews(s, longer, j) {
      assert changes[k].Revoke? && forall j | k < j < n :: !Renews(s, changes, j);
    }
  }

  /** Over every run: the version counts the rotations, and the status is that of the last change that took effect. */
  lemma {:induction false} LivedExactly(s: State, changes: seq<Change>)
    requires ValidState(s)
    ensures var later := Lived(s, changes);
      && later.version == (if s.version + Rotations(changes) < U64_LIMIT then s.version + Rotations(changes)
                           else U64_LIMIT - 1)
      && (later.status.Revoked? <==> RevokedLast(s, changes))
    decreases |changes|
  {
    if changes != [] {
      var n := |changes| - 1;
      LivedExactly(s, changes[..n]);
      LivedAppends(s, changes[..n], changes[n]);
      RevokedStep(s, changes[..n], changes[n]);
      assert changes == changes[..n] + [changes[n]];
    }
  }

  // ----- bytes -------------------------------------------------------------------------------------------

  const KINDS: Kinds := [WIRE_VARINT, WIRE_VARINT]

  function StateFields(s: State): seq<Field> {
    [Number(1, s.version)] + if s.status.Revoked? then [Number(2, 1)] else []
  }

  function EncodedState(s: State): seq<Byte> {
    Message(StateFields(s))
  }

  method EncodeState(s: State) returns (encoded: seq<Byte>)
    ensures encoded == EncodedState(s)
  {
    encoded := WriteField([], Number(1, s.version));
    MessageAppends([], Number(1, s.version));
    assert [] + [Number(1, s.version)] == [Number(1, s.version)];
    if s.status.Revoked? {
      encoded := WriteField(encoded, Number(2, 1));
      MessageAppends([Number(1, s.version)], Number(2, 1));
    }
  }

  /** What the filled slots say; only the values nought and one are a revocation flag. */
  function StateOf(held: Held): Result<State, Error>
    requires |held| == 2
  {
    if held[1].Some? && held[1].value.Number? && held[1].value.value > 1 then Err(MalformedState)
    else if held[0].Some? && held[0].value.Number? then
      NewState(held[0].value.value, held[1].Some? && held[1].value.Number? && held[1].value.value == 1)
    else Err(MalformedState)
  }

  function DecodedState(encoded: seq<Byte>): Result<State, Error> {
    match Scan(encoded, 0, KINDS, Empty(2))
    case None => Err(MalformedState)
    case Some(held) => StateOf(held)
  }

  method DecodeState(encoded: seq<Byte>) returns (result: Result<State, Error>)
    ensures result == DecodedState(encoded)
  {
    var held := ScanFields(encoded, KINDS);
    if held.None? { return Err(MalformedState); }
    return StateOf(held.value);
  }

  lemma StateRoundTrip(s: State)
    requires ValidState(s)
    ensures DecodedState(EncodedState(s)) == Ok(s)
  {
    var fields := StateFields(s);
    assert fields[0] == Number(1, s.version);
    ScanRoundTrip(KINDS, fields);
    HeldPresent(KINDS, fields, |fields|, 0);
    if s.status.Revoked? {
      HeldPresent(KINDS, fields, |fields|, 1);
    } else {
      HeldAbsent(KINDS, fields, |fields|, 1);
    }
  }

  /** A record with both fields: nought is no version, and only nought and one are a flag. */
  lemma BothFieldsRead(version: nat, flag: nat)
    requires version < U64_LIMIT && flag < U64_LIMIT
    ensures DecodedState(Message([Number(1, version), Number(2, flag)])) ==
      if flag > 1 then Err(MalformedState)
      else if version == 0 then Err(InvalidVersion)
      else Ok(State(version, if flag == 1 then Revoked else Active))
  {
    var fields := [Number(1, version), Number(2, flag)];
    assert fields[0] == Number(1, version) && fields[1] == Number(2, flag);
    ScanRoundTrip(KINDS, fields);
    HeldPresent(KINDS, fields, 2, 0);
    HeldPresent(KINDS, fields, 2, 1);
  }

  lemma FlagAloneRefused(flag: nat)
    requires flag < U64_LIMIT
    ensures DecodedState(Message([Number(2, flag)])) == Err(MalformedState)
    ensures DecodedState(Message([])) == Err(MalformedState)
  {
    var fields := [Number(2, flag)];
    ScanRoundTrip(KINDS, fields);
    HeldAbsent(KINDS, fields, 1, 0);
    ScanRoundTrip(KINDS, []);
    HeldAbsent(KINDS, [], 0, 0);
  }

  // ----- resolution --------------------------------------------------------------------------------------

  datatype PersistenceAction = UseCurrent | PersistCanonical | CreateRootAndPersistCanonical

  datatype Resolution = Resolution(state: State, canonical: seq<Byte>, action: PersistenceAction)

  function ResolveCanonical(encoded: seq<Byte>): Result<Resolution, Error> {
    match DecodedState(encoded)
    case Err(error) => Err(error)
    case Ok(state) =>
      if EncodedState(state) != encoded then Err(NonCanonicalState)
      else Ok(Resolution(state, encoded, UseCurrent))
  }

  function ResolveLegacy(rawVersion: string, revoked: bool): Result<Resolution, Error> {
    match ParseRadix(rawVersion, 10, U64_LIMIT)
    case None => Err(InvalidLegacyVersion)
    case Some(version) =>
      match NewState(version, revoked)
      case Err(_) => Err(InvalidLegacyVersion)
      case Ok(state) => Ok(Resolution(state, EncodedState(state), PersistCanonical))
  }

  function Resolve(canonical: Option<seq<Byte>>, legacyVersion: Option<string>, legacyRevoked: Option<bool>,
      rootExists: bool)
    : Result<Resolution, Error>
  {
    if canonical.Some? then
      if legacyVersion.Some? || legacyRevoked.Some? then Err(MixedPersistenceSchemas)
      else if !rootExists then Err(MissingRootForState)
      else ResolveCanonical(canonical.value)
    else if legacyVersion.Some? != legacyRevoked.Some? then Err(IncompleteLegacyState)
    else if legacyVersion.Some? then
      if !rootExists then Err(MissingRootForState) else ResolveLegacy(legacyVersion.value, legacyRevoked.value)
    else if rootExists then Err(RootWithoutState)
    else Ok(Resolution(INITIAL, EncodedState(INITIAL), CreateRootAndPersistCanonical))
  }

  /** Persisted bytes are accepted exactly when they are the encoding of a valid state, and mean that state. */
  lemma CanonicalAcceptedExactly(encoded: seq<Byte>)
    ensures Resolve(Some(encoded), None, None, true).Ok? <==> exists s :: ValidState(s) && EncodedState(s) == encoded
    ensures forall s | ValidState(s) && EncodedState(s) == encoded ::
      Resolve(Some(encoded), None, None, true) == Ok(Resolution(s, encoded, UseCurrent))
  {
    forall s | ValidState(s) && EncodedState(s) == encoded
      ensures Resolve(Some(encoded), None, None, true) == Ok(Resolution(s, encoded, UseCurrent))
    {
      StateRoundTrip(s);
    }
    if Resolve(Some(encoded), None, None, true).Ok? {
      DecodedIsValid(encoded);
    }
  }

  lemma DecodedIsValid(encoded: seq<Byte>)
    requires DecodedState(encoded).Ok?
    ensures ValidState(DecodedState(encoded).value)
  {
    ScanIsSmall(encoded, 0, KINDS, Empty(2));
  }

  /** Whatever was resolved and then persisted resolves again to the same state and the same bytes. */
  lemma ResolutionIsStable(canonical: Option<seq<Byte>>, legacyVersion: Option<string>, legacyRevoked: Option<bool>,
      rootExists: bool)
    requires Resolve(canonical, legacyVersion, legacyRevoked, rootExists).Ok?
    ensures var first := Resolve(canonical, legacyVersion, legacyRevoked, rootExists).value;
      Resolve(Some(first.canonical), None, None, true) == Ok(Resolution(first.state, first.canonical, UseCurrent))
  {
    var first := Resolve(canonical, legacyVersion, legacyRevoked, rootExists).value;
    if canonical.Some? {
      DecodedIsValid(canonical.value);
    }
    StateRoundTrip(first.state);
  }

  // ----- every outcome of a resolution, over what was found ---------------------------------------------------

  /** What was found on the device. */
  datatype Found = Found(canonical: Option<seq<Byte>>, version: Option<string>, revoked: Option<bool>, root: bool)

  function Outcome(f: Found): Result<Resolution, Error> {
    Resolve(f.canonical, f.version, f.revoked, f.root)
  }

  predicate Mixed(f: Found) {
    f.canonical.Some? && (f.version.Some? || f.revoked.Some?)
  }

  predicate HalfLegacy(f: Found) {
    f.canonical.None? && (f.version.Some? <==> f.revoked.None?)
  }

  /** A canonical record alone, or both legacy values alone. */
  predicate OneSchema(f: Found) {
    !Mixed(f) && !HalfLegacy(f) && (f.canonical.Some? || f.version.Some?)
  }

  predicate Nothing(f: Found) {
    f.canonical.None? && f.version.None? && f.revoked.None?
  }

  /** Legacy text stands for a version it reads as; nought is none. */
  predicate Reads(text: string, version: nat) {
    ParseRadix(text, 10, U64_LIMIT) == Some(version) && version >= 1
  }

  /** A legacy pair resolves exactly to the version its text reads as, revoked exactly when it was. */
  lemma LegacyResolvesExactly(f: Found)
    requires f.canonical.None? && f.version.Some? && f.revoked.Some? && f.root
    ensures Outcome(f).Ok? <==> exists v :: Reads(f.version.value, v)
    ensures forall v | Reads(f.version.value, v) ::
      && Outcome(f).Ok?
      && Outcome(f).value.state.version == v
      && (Outcome(f).value.state.status == Revoked <==> f.revoked.value)
      && (Outcome(f).value.state.status == Active <==> !f.revoked.value)
      && Outcome(f).value.canonical == EncodedState(Outcome(f).value.state)
      && Outcome(f).value.action == PersistCanonical
    ensures Outcome(f).Err? ==> Outcome(f).error == InvalidLegacyVersion
  {
    if Outcome(f).Ok? {
      assert Reads(f.version.value, Outcome(f).value.state.version);
    }
  }

  /** A version written in decimal by an older release is read back, revoked or not. */
  lemma LegacyVersionReads(version: nat, revoked: bool)
    requires 1 <= version < U64_LIMIT
    ensures var state := State(version, if revoked then Revoked else Active);
      Outcome(Found(None, Some(Decimal(version)), Some(revoked), true))
      == Ok(Resolution(state, EncodedState(state), PersistCanonical))
  {
    DecimalRoundTrip(version, U64_LIMIT);
  }

  /** Each outcome that does not come from reading a record, exactly. */
  lemma OutcomeExactly(f: Found)
    ensures Outcome(f) == Err(MixedPersistenceSchemas) <==> Mixed(f)
    ensures Outcome(f) == Err(IncompleteLegacyState) <==> HalfLegacy(f)
    ensures Outcome(f) == Err(MissingRootForState) <==> OneSchema(f) && !f.root
    ensures Outcome(f) == Err(RootWithoutState) <==> Nothing(f) && f.root
    ensures Outcome(f).Ok? && Outcome(f).value.action == CreateRootAndPersistCanonical <==> Nothing(f) && !f.root
    ensures Nothing(f) && !f.root ==>
      Outcome(f).value.state == State(1, Active) && Outcome(f).value.canonical == EncodedState(State(1, Active))
    ensures Outcome(f).Ok? && Outcome(f).value.action == UseCurrent ==> f.canonical.Some? && OneSchema(f) && f.root
    ensures Outcome(f).Ok? && Outcome(f).value.action == PersistCanonical ==> f.version.Some? && OneSchema(f) && f.root
    ensures Outcome(f) == Err(InvalidLegacyVersion) ==> f.version.Some? && OneSchema(f) && f.root
  {
    if f.canonical.Some? {
      DecodeErrors(f.canonical.value);
    }
  }

  /** A record that is not canonical is refused for one of three reasons. */
  lemma DecodeErrors(encoded: seq<Byte>)
    ensures DecodedState(encoded).Err? ==> DecodedState(encoded).error in {MalformedState, InvalidVersion}
  {
  }
}
