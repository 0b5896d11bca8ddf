/**
 The lenient scan shared by the credential-state and provisioning decoders: every known field at most
 once and with its wire type, unknown fields skipped.
 */
module ProtoScan {
  import opened Common
  import opened Proto

  /** `kinds[i]` is the wire type of field `i + 1`. */
  type Kinds = k: seq<nat> | forall i | 0 <= i < |k| :: k[i] in {WIRE_VARINT, WIRE_LENGTH_DELIMITED}

  type Held = seq<Option<Field>>

  function Empty(n: nat): (held: Held)
    ensures |held| == n && forall i | 0 <= i < n :: held[i].None?
  {
    seq(n, _ => None)
  }

  function PayloadAt(input: seq<Byte>, offset: nat, tag: Tag): Option<Taken<Field>> {
    if tag.wireType == WIRE_VARINT then
      match VarintAt(input, offset)
      case None => None
      case Some(taken) => Some(Taken(Number(tag.number, taken.value), taken.cursor))
    else
      match BytesAt(input, offset)
      case None => None
      case Some(taken) => Some(Taken(Data(tag.number, taken.value), taken.cursor))
  }

  lemma PayloadMovesForward(input: seq<Byte>, offset: nat, tag: Tag)
    ensures PayloadAt(input, offset, tag).Some? ==> offset < PayloadAt(input, offset, tag).value.cursor <= |input|
  {
    VarintIsU64(input, offset);
  }

  lemma SkipMovesForward(input: seq<Byte>, offset: nat, wireType: nat)
    ensures SkipAt(input, offset, wireType).Some? ==> offset < SkipAt(input, offset, wireType).value <= |input|
  {
    VarintIsU64(input, offset);
  }

  lemma TagMovesForward(input: seq<Byte>, offset: nat)
    ensures TagAt(input, offset).Some? ==> offset < TagAt(input, offset).value.cursor <= |input|
  {
    VarintIsU64(input, offset);
  }

  predicate Known(kinds: Kinds, tag: Tag) {
    1 <= tag.number <= |kinds|
  }

  /** One field: the slots after it and where it ends. */
  function FieldStep(input: seq<Byte>, offset: nat, kinds: Kinds, held: Held): (next: Option<Taken<Held>>)
    requires |held| == |kinds|
    ensures next.Some? ==> |next.value.value| == |kinds| && offset < next.value.cursor <= |input|
  {
    TagMovesForward(input, offset);
    match TagAt(input, offset)
    case None => None
    case Some(Taken(tag, start)) =>
      if Known(kinds, tag) then
        if tag.wireType != kinds[tag.number - 1] || held[tag.number - 1].Some? then None
        else
          PayloadMovesForward(input, start, tag);
          match PayloadAt(input, start, tag)
          case None => None
          case Some(field) => Some(Taken(held[tag.number - 1 := Some(field.value)], field.cursor))
      else
        SkipMovesForward(input, start, tag.wireType);
        match SkipAt(input, start, tag.wireType)
        case None => None
        case Some(next) => Some(Taken(held, next))
  }

  function Scan(input: seq<Byte>, offset: nat, kinds: Kinds, held: Held): (all: Option<Held>)
    requires offset <= |input| && |held| == |kinds|
    ensures all.Some? ==> |all.value| == |kinds|
    decreases |input| - offset
  {
    if offset == |input| then Some(held)
    else
      match FieldStep(input, offset, kinds, held)
      case None => None
      case Some(next) => Scan(input, next.cursor, kinds, next.value)
  }

  method ScanFields(input: seq<Byte>, kinds: Kinds) returns (result: Option<Held>)
    ensures result == Scan(input, 0, kinds, Empty(|kinds|))
  {
    var reader := new ProtoReader(input);
    var held: Held := Empty(|kinds|);
    while reader.offset != |input|
      invariant reader.Valid() && reader.input == input && |held| == |kinds|
      invariant Scan(input, 0, kinds, Empty(|kinds|)) == Scan(input, reader.offset, kinds, held)
      decreases |input| - reader.offset
    {
      var next := ReadKnown(reader, kinds, held);
      if next.None? { return None; }
      held := next.value;
    }
    return Some(held);
  }

  method ReadKnown(reader: ProtoReader, kinds: Kinds, held: Held) returns (next: Option<Held>)
    requires reader.Valid() && |held| == |kinds|
    modifies reader
    ensures reader.Valid()
    ensures match FieldStep(reader.input, old(reader.offset), kinds, held)
      case None => next.None?
      case Some(taken) => next == Some(taken.value) && reader.offset == taken.cursor
  {
    var tag := reader.ReadTag();
    if tag.None? { return None; }
    var number := tag.value.number;
    if Known(kinds, tag.value) {
      if tag.value.wireType != kinds[number - 1] || held[number - 1].Some? { return None; }
      if tag.value.wireType == WIRE_VARINT {
        var value := reader.ReadVarint();
        if value.None? { return None; }
        return Some(held[number - 1 := Some(Number(number, value.value))]);
      }
      var bytes := reader.ReadBytes();
      if bytes.None? { return None; }
      return Some(held[number - 1 := Some(Data(number, bytes.value))]);
    }
    var skipped := reader.Skip(tag.value.wireType);
    return if skipped then Some(held) else None;
  }

  // ----- a written message is scanned back ---------------------------------------------------------

  /** Known fields in increasing order, each of its kind. */
  predicate InOrder(kinds: Kinds, fields: seq<Field>) {
    && (forall i | 0 <= i < |fields| :: ValidField(fields[i]) && fields[i].number <= |kinds|)
    && (forall i | 0 <= i < |fields| :: WireType(fields[i]) == kinds[fields[i].number - 1])
    && (forall i, j | 0 <= i < j < |fields| :: fields[i].number < fields[j].number)
  }

  /** The slots after the first `k` fields. */
  function HeldAfter(kinds: Kinds, fields: seq<Field>, k: nat): (held: Held)
    requires InOrder(kinds, fields) && k <= |fields|
    ensures |held| == |kinds|
  {
    if k == 0 then Empty(|kinds|)
    else HeldAfter(kinds, fields, k - 1)[fields[k - 1].number - 1 := Some(fields[k - 1])]
  }

  lemma {:induction false} HeldPresent(kinds: Kinds, fields: seq<Field>, k: nat, j: nat)
    requires InOrder(kinds, fields) && j < k <= |fields|
    ensures HeldAfter(kinds, fields, k)[fields[j].number - 1] == Some(fields[j])
  {
    if j < k - 1 { HeldPresent(kinds, fields, k - 1, j); }
  }

  lemma {:induction false} HeldAbsent(kinds: Kinds, fields: seq<Field>, k: nat, i: nat)
    requires InOrder(kinds, fields) && k <= |fields| && i < |kinds|
    requires forall j | 0 <= j < k :: fields[j].number != i + 1
    ensures HeldAfter(kinds, fields, k)[i].None?
  {
    if k > 0 { HeldAbsent(kinds, fields, k - 1, i); }
  }

  lemma StepReadsField(kinds: Kinds, fields: seq<Field>, k: nat)
    requires InOrder(kinds, fields) && k < |fields|
    ensures |Message(fields[..k])| < |Message(fields)|
    ensures FieldStep(Message(fields), |Message(fields[..k])|, kinds, HeldAfter(kinds, fields, k))
      == Some(Taken(HeldAfter(kinds, fields, k + 1), |Message(fields[..k + 1])|))
  {
    hide Message, ReadsField, FieldStep;
    MessageReadsField(fields, k);
    var input, offset, end := Message(fields), |Message(fields[..k])|, |Message(fields[..k + 1])|;
    OffsetInside(input, offset, fields[k], end);
    HeldAbsent(kinds, fields, k, fields[k].number - 1);
    StepTakes(input, offset, kinds, HeldAfter(kinds, fields, k), fields[k], end);
  }

  lemma StepTakes(input: seq<Byte>, offset: nat, kinds: Kinds, held: Held, f: Field, end: nat)
    requires ReadsField(input, offset, f, end) && |held| == |kinds|
    requires 1 <= f.number <= |kinds| && WireType(f) == kinds[f.number - 1] && held[f.number - 1].None?
    ensures FieldStep(input, offset, kinds, held) == Some(Taken(held[f.number - 1 := Some(f)], end))
  {
    var start := TagAt(input, offset).value.cursor;
    assert PayloadAt(input, start, Tag(f.number, WireType(f))) == Some(Taken(f, end));
  }

  lemma {:induction false} ScanFrom(kinds: Kinds, fields: seq<Field>, k: nat)
    requires InOrder(kinds, fields) && k <= |fields|
    ensures |Message(fields[..k])| <= |Message(fields)|
    ensures Scan(Message(fields), |Message(fields[..k])|, kinds, HeldAfter(kinds, fields, k))
      == Some(HeldAfter(kinds, fields, |fields|))
    decreases |fields| - k
  {
    if k == |fields| {
      assert fields[..k] == fields;
    } else {
      StepReadsField(kinds, fields, k);
      ScanFrom(kinds, fields, k + 1);
    }
  }

  /** A message of known fields in order is scanned back to exactly those fields. */
  lemma ScanRoundTrip(kinds: Kinds, fields: seq<Field>)
    requires InOrder(kinds, fields)
    ensures Scan(Message(fields), 0, kinds, Empty(|kinds|)) == Some(HeldAfter(kinds, fields, |fields|))
  {
    assert fields[..0] == [];
    ScanFrom(kinds, fields, 0);
  }

  predicate SmallNumbers(held: Held) {
    forall i | 0 <= i < |held| && held[i].Some? && held[i].value.Number? :: held[i].value.value < U64_LIMIT
  }

  lemma StepIsSmall(input: seq<Byte>, offset: nat, kinds: Kinds, held: Held)
    requires |held| == |kinds| && SmallNumbers(held) && FieldStep(input, offset, kinds, held).Some?
    ensures SmallNumbers(FieldStep(input, offset, kinds, held).value.value)
  {
    VarintIsU64(input, TagAt(input, offset).value.cursor);
  }

  /** Every number a scan holds is a u64. */
  lemma {:induction false} ScanIsSmall(input: seq<Byte>, offset: nat, kinds: Kinds, held: Held)
    requires offset <= |input| && |held| == |kinds| && SmallNumbers(held)
    ensures Scan(input, offset, kinds, held).Some? ==> SmallNumbers(Scan(input, offset, kinds, held).value)
    decreases |input| - offset
  {
    if offset < |input| && FieldStep(input, offset, kinds, held).Some? {
      var next := FieldStep(input, offset, kinds, held).value;
      StepIsSmall(input, offset, kinds, held);
      ScanIsSmall(input, next.cursor, kinds, next.value);
    }
  }
}
