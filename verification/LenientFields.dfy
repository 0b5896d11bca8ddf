/** What the lenient decoders make of any list of fields, in any order, known and unknown. */
module LenientFields {
  import opened Common
  import opened Text
  import opened Utf8
  import opened Proto
  import opened ProtoScan
  import ExternalCredential
  import Provisioning

  predicate ValidFields(fields: seq<Field>) {
    forall i | 0 <= i < |fields| :: ValidField(fields[i])
  }

  predicate IsKnown(kinds: Kinds, f: Field) {
    1 <= f.number <= |kinds|
  }

  /** Known fields come with their wire type, and no two have the same number. */
  predicate WellKept(kinds: Kinds, fields: seq<Field>) {
    && (forall i | 0 <= i < |fields| && IsKnown(kinds, fields[i]) :: WireType(fields[i]) == kinds[fields[i].number - 1])
    && (forall i, j | 0 <= i < j < |fields| && IsKnown(kinds, fields[i]) :: fields[i].number != fields[j].number)
  }

  /** The slot of each number holds the field of that number, if there is one. */
  ghost predicate Holds(kinds: Kinds, fields: seq<Field>, held: Held) {
    && |held| == |kinds|
    && (forall i | 0 <= i < |held| && held[i].Some? :: held[i].value.number == i + 1)
    && (forall f: Field | IsKnown(kinds, f) :: held[f.number - 1] == Some(f) <==> f in fields)
  }

  // ----- one field ---------------------------------------------------------------------------------------

  lemma StepSkips(input: seq<Byte>, offset: nat, kinds: Kinds, held: Held, f: Field, end: nat)
    requires ReadsField(input, offset, f, end) && |held| == |kinds| && f.number > |kinds|
    ensures FieldStep(input, offset, kinds, held) == Some(Taken(held, end))
  {
    var start := TagAt(input, offset).value.cursor;
    VarintIsU64(input, start);
  }

  lemma StepRefuses(input: seq<Byte>, offset: nat, kinds: Kinds, held: Held, f: Field, end: nat)
    requires ReadsField(input, offset, f, end) && |held| == |kinds| && IsKnown(kinds, f)
    requires WireType(f) != kinds[f.number - 1] || held[f.number - 1].Some?
    ensures FieldStep(input, offset, kinds, held) == None
  {
  }

  /** What one more field does to the slots. */
  function Put(kinds: Kinds, held: Held, f: Field): (next: Option<Held>)
    requires |held| == |kinds| && f.number >= 1
    ensures next.Some? ==> |next.value| == |kinds|
  {
    if f.number > |kinds| then Some(held)
    else if WireType(f) != kinds[f.number - 1] || held[f.number - 1].Some? then None
    else Some(held[f.number - 1 := Some(f)])
  }

  lemma StepPuts(kinds: Kinds, fields: seq<Field>, k: nat, held: Held)
    requires ValidFields(fields) && k < |fields| && |held| == |kinds|
    ensures |Message(fields[..k])| < |Message(fields)|
    ensures match Put(kinds, held, fields[k])
      case None => FieldStep(Message(fields), |Message(fields[..k])|, kinds, held) == None
      case Some(next) =>
        FieldStep(Message(fields), |Message(fields[..k])|, kinds, held)
        == Some(Taken(next, |Message(fields[..k + 1])|))
  {
    hide Message, ReadsField, FieldStep;
    MessageReadsField(fields, k);
    var input, offset, end := Message(fields), |Message(fields[..k])|, |Message(fields[..k + 1])|;
    OffsetInside(input, offset, fields[k], end);
    if fields[k].number > |kinds| {
      StepSkips(input, offset, kinds, held, fields[k], end);
    } else if Put(kinds, held, fields[k]).None? {
      StepRefuses(input, offset, kinds, held, fields[k], end);
    } else {
      StepTakes(input, offset, kinds, held, fields[k], end);
    }
  }

  // ----- the whole list --------------------------------------------------------------------------------------

  function PutAll(kinds: Kinds, fields: seq<Field>, k: nat, held: Held): (all: Option<Held>)
    requires ValidFields(fields) && k <= |fields| && |held| == |kinds|
    ensures all.Some? ==> |all.value| == |kinds|
    decreases |fields| - k
  {
    if k == |fields| then Some(held)
    else
      match Put(kinds, held, fields[k])
      case None => None
      case Some(next) => PutAll(kinds, fields, k + 1, next)
  }

  lemma {:induction false} ScanPutsAll(kinds: Kinds, fields: seq<Field>, k: nat, held: Held)
    requires ValidFields(fields) && k <= |fields| && |held| == |kinds|
    ensures |Message(fields[..k])| <= |Message(fields)|
    ensures Scan(Message(fields), |Message(fields[..k])|, kinds, held) == PutAll(kinds, fields, k, held)
    decreases |fields| - k
  {
    hide Message, FieldStep, Put;
    if k == |fields| {
      assert fields[..k] == fields;
    } else {
      StepPuts(kinds, fields, k, held);
      var next := Put(kinds, held, fields[k]);
      if next.Some? { ScanPutsAll(kinds, fields, k + 1, next.value); }
    }
  }

  /** After `k` fields the slots hold exactly the known ones among them. */
  lemma {:induction false} PutAllHolds(kinds: Kinds, fields: seq<Field>, k: nat, held: Held)
    requires ValidFields(fields) && k <= |fields| && |held| == |kinds|
    requires Holds(kinds, fields[..k], held) && WellKept(kinds, fields[..k])
    ensures var all := PutAll(kinds, fields, k, held);
      && (all.Some? <==> WellKept(kinds, fields))
      && (all.Some? ==> Holds(kinds, fields, all.value))
    decreases |fields| - k
  {
    hide Holds, WellKept, Put;
    if k == |fields| {
      assert fields[..k] == fields;
    } else {
      PutStep(kinds, fields, k, held);
      var next := Put(kinds, held, fields[k]);
      if next.Some? {
        PutAllHolds(kinds, fields, k + 1, next.value);
      }
    }
  }

  /** The field of a taken number was seen before. */
  lemma TakenWasSeen(kinds: Kinds, fields: seq<Field>, k: nat, held: Held)
    requires k < |fields| && Holds(kinds, fields[..k], held) && IsKnown(kinds, fields[k])
    ensures held[fields[k].number - 1].Some? <==> exists i | 0 <= i < k :: fields[i].number == fields[k].number
  {
    var earlier, f := fields[..k], fields[k];
    if held[f.number - 1].Some? {
      SlotHasNumber(kinds, earlier, held, f.number);
      var i :| 0 <= i < k && earlier[i] == held[f.number - 1].value;
      assert fields[i].number == f.number;
    }
    if i :| 0 <= i < k && fields[i].number == f.number {
      assert earlier[i] == fields[i] && fields[i] in earlier && IsKnown(kinds, fields[i]);
    }
  }

  lemma WellKeptStep(kinds: Kinds, fields: seq<Field>, k: nat)
    requires k < |fields| && WellKept(kinds, fields[..k])
    requires IsKnown(kinds, fields[k]) ==> WireType(fields[k]) == kinds[fields[k].number - 1]
    requires IsKnown(kinds, fields[k]) ==> forall i | 0 <= i < k :: fields[i].number != fields[k].number
    ensures WellKept(kinds, fields[..k + 1])
  {
    var longer := fields[..k + 1];
    assert forall i | 0 <= i < k :: longer[i] == fields[..k][i] == fields[i];
    assert longer[k] == fields[k];
  }

  lemma HoldsStep(kinds: Kinds, fields: seq<Field>, k: nat, held: Held)
    requires ValidFields(fields) && k < |fields| && Holds(kinds, fields[..k], held)
    requires Put(kinds, held, fields[k]).Some?
    ensures Holds(kinds, fields[..k + 1], Put(kinds, held, fields[k]).value)
  {
    var f, earlier, longer := fields[k], fields[..k], fields[..k + 1];
    assert longer == earlier + [f];
    var next := Put(kinds, held, f).value;
    forall g: Field | IsKnown(kinds, g)
      ensures next[g.number - 1] == Some(g) <==> g in longer
    {
      assert g in longer <==> g in earlier || g == f;
      assert held[g.number - 1] == Some(g) <==> g in earlier;
    }
  }

  lemma PutStep(kinds: Kinds, fields: seq<Field>, k: nat, held: Held)
    requires ValidFields(fields) && k < |fields| && |held| == |kinds|
    requires Holds(kinds, fields[..k], held) && WellKept(kinds, fields[..k])
    ensures var next := Put(kinds, held, fields[k]);
      && (next.Some? ==> Holds(kinds, fields[..k + 1], next.value) && WellKept(kinds, fields[..k + 1]))
      && (next.None? ==> !WellKept(kinds, fields))
  {
    hide Holds;
    if Put(kinds, held, fields[k]).Some? {
      if IsKnown(kinds, fields[k]) { TakenWasSeen(kinds, fields, k, held); }
      HoldsStep(kinds, fields, k, held);
      hide WellKept;
      WellKeptStep(kinds, fields, k);
    } else {
      TakenWasSeen(kinds, fields, k, held);
    }
  }

  lemma SlotHasNumber(kinds: Kinds, fields: seq<Field>, held: Held, number: nat)
    requires Holds(kinds, fields, held) && 1 <= number <= |kinds| && held[number - 1].Some?
    ensures held[number - 1].value in fields && held[number - 1].value.number == number
  {
    assert IsKnown(kinds, held[number - 1].value);
  }

  /** Any list of fields is scanned exactly when it is well kept, into the fields it holds. */
  lemma ScanExactly(kinds: Kinds, fields: seq<Field>)
    requires ValidFields(fields)
    ensures var all := Scan(Message(fields), 0, kinds, Empty(|kinds|));
      && (all.Some? <==> WellKept(kinds, fields))
      && (all.Some? ==> Holds(kinds, fields, all.value))
  {
    assert fields[..0] == [] && Message([]) == [];
    ScanPutsAll(kinds, fields, 0, Empty(|kinds|));
    PutAllHolds(kinds, fields, 0, Empty(|kinds|));
  }

  // ----- the two records --------------------------------------------------------------------------------------

  /** The fields say this state: one version, and a flag of one exactly if it is revoked. */
  predicate SaysState(fields: seq<Field>, s: ExternalCredential.State) {
    && WellKept(ExternalCredential.KINDS, fields) && s.version >= 1 && Number(1, s.version) in fields
    && (if s.status.Revoked? then Number(2, 1) in fields
        else Number(2, 0) in fields || forall i | 0 <= i < |fields| :: fields[i].number != 2)
  }

  /** A credential record decodes to a state exactly when its fields say so, whatever else it carries. */
  lemma StateDecodesExactly(fields: seq<Field>, s: ExternalCredential.State)
    requires ValidFields(fields)
    ensures ExternalCredential.DecodedState(Message(fields)) == Ok(s) <==> SaysState(fields, s)
  {
    hide Message, Scan;
    var kinds := ExternalCredential.KINDS;
    ScanExactly(kinds, fields);
    if WellKept(kinds, fields) {
      var held := Scan(Message(fields), 0, kinds, Empty(2)).value;
      if held[0].Some? { SlotHasNumber(kinds, fields, held, 1); KindInSlot(kinds, fields, held, 1); }
      if held[1].Some? { SlotHasNumber(kinds, fields, held, 2); KindInSlot(kinds, fields, held, 2); }
      assert held[1].None? ==> forall i | 0 <= i < |fields| :: fields[i].number != 2 by {
        forall i | 0 <= i < |fields| && fields[i].number == 2 ensures held[1] == Some(fields[i]) {
          assert fields[i] in fields && IsKnown(kinds, fields[i]);
        }
      }
      assert IsKnown(kinds, Number(1, s.version)) && IsKnown(kinds, Number(2, 0)) && IsKnown(kinds, Number(2, 1));
    }
  }

  lemma KindInSlot(kinds: Kinds, fields: seq<Field>, held: Held, number: nat)
    requires Holds(kinds, fields, held) && WellKept(kinds, fields)
    requires 1 <= number <= |kinds| && held[number - 1].Some?
    ensures WireType(held[number - 1].value) == kinds[number - 1]
  {
    SlotHasNumber(kinds, fields, held, number);
    var i :| 0 <= i < |fields| && fields[i] == held[number - 1].value;
    assert IsKnown(kinds, fields[i]);
  }

  /** The fields carry this envelope. */
  predicate SaysEnvelope(fields: seq<Field>, e: Provisioning.Envelope) {
    && WellKept(Provisioning.KINDS, fields)
    && Number(1, 1) in fields && Number(2, e.version) in fields && Data(3, e.id) in fields
    && Data(4, e.challenge) in fields && Data(5, e.username) in fields && Data(6, e.password) in fields
  }

  /** A provisioning record decodes to an envelope exactly when it carries it and the envelope is valid. */
  lemma EnvelopeDecodesExactly(fields: seq<Field>, e: Provisioning.Envelope)
    requires ValidFields(fields)
    ensures Provisioning.DecodedEnvelope(Message(fields)) == Some(e) <==>
      SaysEnvelope(fields, e) && Provisioning.ValidEnvelope(e)
  {
    hide Message, Scan, Provisioning.ValidMaterial, Provisioning.CredentialId, IsText, WellKept;
    var kinds := Provisioning.KINDS;
    ScanExactly(kinds, fields);
    if WellKept(kinds, fields) {
      var held := Scan(Message(fields), 0, kinds, Empty(6)).value;
      forall i | 0 <= i < 6 && held[i].Some?
        ensures held[i].value in fields && held[i].value.number == i + 1 && WireType(held[i].value) == kinds[i]
      {
        SlotHasNumber(kinds, fields, held, i + 1);
        KindInSlot(kinds, fields, held, i + 1);
      }
      EnvelopeFromSlots(fields, held, e);
    }
  }

  lemma EnvelopeFromSlots(fields: seq<Field>, held: Held, e: Provisioning.Envelope)
    requires ValidFields(fields) && Holds(Provisioning.KINDS, fields, held) && |held| == 6
    requires forall i | 0 <= i < 6 && held[i].Some? ::
      held[i].value in fields && held[i].value.number == i + 1 && WireType(held[i].value) == Provisioning.KINDS[i]
    ensures Provisioning.EnvelopeOf(held) == Some(e) <==>
      && Number(1, 1) in fields && Number(2, e.version) in fields && Data(3, e.id) in fields
      && Data(4, e.challenge) in fields && Data(5, e.username) in fields && Data(6, e.password) in fields
      && Provisioning.ValidEnvelope(e)
  {
    hide Provisioning.ValidMaterial, Provisioning.CredentialId, IsText;
    var kinds := Provisioning.KINDS;
    assert IsKnown(kinds, Number(1, 1)) && IsKnown(kinds, Number(2, e.version)) && IsKnown(kinds, Data(3, e.id));
    assert IsKnown(kinds, Data(4, e.challenge)) && IsKnown(kinds, Data(5, e.username));
    assert IsKnown(kinds, Data(6, e.password));
    if Provisioning.ValidEnvelope(e) { ValidTextParts(e); }
    if Provisioning.EnvelopeOf(held) == Some(e) {
      var v := held[1].value;
      assert ValidField(v);
    }
  }

  lemma ValidTextParts(e: Provisioning.Envelope)
    requires Provisioning.ValidEnvelope(e)
    ensures IsText(e.id) && IsText(e.username) && IsText(e.password)
  {
    Provisioning.ValidUsernameIsAscii(e.username);
    AsciiIsText(e.id);
    AsciiIsText(e.username);
    AsciiIsText(e.password);
  }
}
