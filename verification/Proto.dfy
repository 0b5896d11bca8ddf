/** The protobuf wire subset of the credential formats: varints, tags and length-delimited bytes. */
module Proto {
  import opened Common

  const WIRE_VARINT: nat := 0
  const WIRE_FIXED64: nat := 1
  const WIRE_LENGTH_DELIMITED: nat := 2
  const WIRE_FIXED32: nat := 5

  datatype Tag = Tag(number: nat, wireType: nat)

  datatype Field =
    | Number(number: nat, value: nat)
    | Data(number: nat, bytes: seq<Byte>)

  // ----- writing ---------------------------------------------------------------------------------------

  function Varint(v: nat): seq<Byte> {
    if v < 128 then [v] else [v % 128 + 128] + Varint(v / 128)
  }

  method WriteVarint(output: seq<Byte>, value: nat) returns (written: seq<Byte>)
    ensures written == output + Varint(value)
  {
    written := output;
    var remaining := value;
    while remaining >= 128
      invariant written + Varint(remaining) == output + Varint(value)
    {
      ghost var before := written;
      written := written + [remaining % 128 + 128];
      assert before + ([remaining % 128 + 128] + Varint(remaining / 128)) == written + Varint(remaining / 128);
      remaining := remaining / 128;
    }
    written := written + [remaining];
  }

  predicate ValidField(f: Field) {
    && 1 <= f.number < 0x2000_0000
    && match f
       case Number(_, value) => value < U64_LIMIT
       case Data(_, bytes) => |bytes| < U64_LIMIT
  }

  function WireType(f: Field): nat {
    if f.Number? then WIRE_VARINT else WIRE_LENGTH_DELIMITED
  }

  function Payload(f: Field): seq<Byte> {
    match f
    case Number(_, value) => Varint(value)
    case Data(_, bytes) => Varint(|bytes|) + bytes
  }

  function FieldBytes(f: Field): seq<Byte> {
    Varint(f.number * 8 + WireType(f)) + Payload(f)
  }

  function Message(fields: seq<Field>): seq<Byte> {
    if fields == [] then [] else FieldBytes(fields[0]) + Message(fields[1..])
  }

  method WriteField(output: seq<Byte>, f: Field) returns (written: seq<Byte>)
    ensures written == output + FieldBytes(f)
  {
    written := WriteVarint(output, f.number * 8 + WireType(f));
    match f {
      case Number(_, value) =>
        written := WriteVarint(written, value);
      case Data(_, bytes) =>
        written := WriteVarint(written, |bytes|);
        written := written + bytes;
    }
  }

  // ----- reading ---------------------------------------------------------------------------------------

  const VARINT_BYTES: nat := 10

  /** The rest of a varint whose first `index` bytes are already read. */
  function VarintFrom(input: seq<Byte>, offset: nat, index: nat): Option<Taken<nat>>
    decreases VARINT_BYTES - index
  {
    if index >= VARINT_BYTES || offset >= |input| then None
    else
      var byte := input[offset];
      if index == VARINT_BYTES - 1 && byte >= 2 then None
      else if byte < 128 then Some(Taken(byte, offset + 1))
      else
        match VarintFrom(input, offset + 1, index + 1)
        case None => None
        case Some(rest) => Some(Taken(byte % 128 + 128 * rest.value, rest.cursor))
  }

  function VarintAt(input: seq<Byte>, offset: nat): Option<Taken<nat>> {
    VarintFrom(input, offset, 0)
  }

  function TagAt(input: seq<Byte>, offset: nat): Option<Taken<Tag>> {
    match VarintAt(input, offset)
    case None => None
    case Some(raw) =>
      if raw.value == 0 || raw.value >= U32_LIMIT || raw.value / 8 == 0 then None
      else Some(Taken(Tag(raw.value / 8, raw.value % 8), raw.cursor))
  }

  function BytesAt(input: seq<Byte>, offset: nat): Option<Taken<seq<Byte>>> {
    match VarintAt(input, offset)
    case None => None
    case Some(length) =>
      if length.cursor + length.value > |input| then None
      else Some(Taken(input[length.cursor..length.cursor + length.value], length.cursor + length.value))
  }

  function SkipAt(input: seq<Byte>, offset: nat, wireType: nat): Option<nat> {
    if wireType == WIRE_VARINT then
      (match VarintAt(input, offset) case None => None case Some(raw) => Some(raw.cursor))
    else if wireType == WIRE_FIXED64 then (if offset + 8 > |input| then None else Some(offset + 8))
    else if wireType == WIRE_LENGTH_DELIMITED then
      (match BytesAt(input, offset) case None => None case Some(data) => Some(data.cursor))
    else if wireType == WIRE_FIXED32 then (if offset + 4 > |input| then None else Some(offset + 4))
    else None
  }

  function Pow128(k: nat): (p: nat)
    ensures p > 0
  {
    if k == 0 then 1 else 128 * Pow128(k - 1)
  }

  /** What the bytes after `index` may still add up to. */
  function Room(index: nat): nat
    requires index < VARINT_BYTES
  {
    2 * Pow128(VARINT_BYTES - 1 - index)
  }

  lemma RoomShrinks(index: nat)
    requires index < VARINT_BYTES
    ensures Room(index) == if index == VARINT_BYTES - 1 then 2 else 128 * Room(index + 1)
  {
  }

  lemma RoomIsU64()
    ensures Room(0) == U64_LIMIT
  {
    assert Pow128(1) == 128 && Pow128(2) == 0x4000 && Pow128(3) == 0x20_0000;
    assert Pow128(4) == 0x1000_0000 && Pow128(5) == 0x8_0000_0000;
    assert Pow128(6) == 0x400_0000_0000 && Pow128(7) == 0x2_0000_0000_0000;
    assert Pow128(8) == 0x100_0000_0000_0000 && Pow128(9) == 0x8000_0000_0000_0000;
  }

  lemma {:induction false} VarintBounds(input: seq<Byte>, offset: nat, index: nat)
    requires index < VARINT_BYTES
    ensures var taken := VarintFrom(input, offset, index);
      taken.Some? ==> taken.value.value < Room(index) && offset < taken.value.cursor <= |input|
    decreases VARINT_BYTES - index
  {
    if index < VARINT_BYTES - 1 {
      VarintBounds(input, offset + 1, index + 1);
      assert Room(index) == 128 * Room(index + 1);
    }
  }

  /** A read varint is a u64, and the reader moves forward inside the input. */
  lemma VarintIsU64(input: seq<Byte>, offset: nat)
    ensures var taken := VarintAt(input, offset);
      taken.Some? ==> taken.value.value < U64_LIMIT && offset < taken.value.cursor <= |input|
  {
    VarintBounds(input, offset, 0);
    RoomIsU64();
  }

  /** A value shifted left by `7 * index` bits. */
  function Shifted(v: nat, index: nat): nat
    decreases index
  {
    if index == 0 then v else Shifted(128 * v, index - 1)
  }

  lemma {:induction false} ShiftedAdds(a: nat, b: nat, index: nat)
    ensures Shifted(a + b, index) == Shifted(a, index) + Shifted(b, index)
    decreases index
  {
    if index > 0 { ShiftedAdds(128 * a, 128 * b, index - 1); }
  }

  /** A partial sum extended by what the remaining bytes add at their place. */
  function Extended(result: nat, index: nat, rest: Option<Taken<nat>>): Option<Taken<nat>> {
    match rest
    case None => None
    case Some(taken) => Some(Taken(result + Shifted(taken.value, index), taken.cursor))
  }

  lemma ExtendedStep(result: nat, input: seq<Byte>, offset: nat, index: nat)
    requires offset < |input| && index < VARINT_BYTES && !(index == VARINT_BYTES - 1 && input[offset] >= 2)
    ensures var sum := result + Shifted(input[offset] % 128, index);
      Extended(result, index, VarintFrom(input, offset, index)) ==
      if input[offset] < 128 then Some(Taken(sum, offset + 1))
      else Extended(sum, index + 1, VarintFrom(input, offset + 1, index + 1))
  {
    var rest := VarintFrom(input, offset + 1, index + 1);
    if input[offset] >= 128 && rest.Some? {
      ShiftedAdds(input[offset] % 128, 128 * rest.value.value, index);
    }
  }

  /** The reader: it owns its position, which never passes the end of the input. */
  class ProtoReader {
    const input: seq<Byte>
    var offset: nat

    predicate Valid()
      reads this
    {
      offset <= |input|
    }

    constructor (input: seq<Byte>)
      ensures Valid() && this.input == input && offset == 0
    {
      this.input := input;
      offset := 0;
    }

    method ReadVarint() returns (value: Option<nat>)
      requires Valid()
      modifies this
      ensures Valid() && old(offset) <= offset
      ensures match VarintAt(input, old(offset))
        case None => value.None?
        case Some(taken) => value == Some(taken.value) && offset == taken.cursor
    {
      var result: nat := 0;
      ghost var start := offset;
      for index := 0 to VARINT_BYTES
        invariant Valid() && offset == start + index
        invariant VarintAt(input, start) == Extended(result, index, VarintFrom(input, offset, index))
      {
        if offset >= |input| { return None; }
        var byte := input[offset];
        if index == VARINT_BYTES - 1 && byte >= 2 {
          offset := offset + 1;
          return None;
        }
        ExtendedStep(result, input, offset, index);
        offset := offset + 1;
        result := result + Shifted(byte % 128, index);
        if byte < 128 { return Some(result); }
      }
      return None;
    }

    method ReadTag() returns (tag: Option<Tag>)
      requires Valid()
      modifies this
      ensures Valid() && old(offset) <= offset
      ensures match TagAt(input, old(offset))
        case None => tag.None?
        case Some(taken) => tag == Some(taken.value) && offset == taken.cursor && offset > old(offset)
    {
      VarintIsU64(input, offset);
      var raw := ReadVarint();
      if raw.None? || raw.value == 0 || raw.value >= U32_LIMIT || raw.value / 8 == 0 { return None; }
      return Some(Tag(raw.value / 8, raw.value % 8));
    }

    method ReadBytes() returns (bytes: Option<seq<Byte>>)
      requires Valid()
      modifies this
      ensures Valid() && old(offset) <= offset
      ensures match BytesAt(input, old(offset))
        case None => bytes.None?
        case Some(taken) => bytes == Some(taken.value) && offset == taken.cursor
    {
      var length := ReadVarint();
      if length.None? || offset + length.value > |input| { return None; }
      var start := offset;
      offset := offset + length.value;
      return Some(input[start..offset]);
    }

    method Skip(wireType: nat) returns (skipped: bool)
      requires Valid()
      modifies this
      ensures Valid() && old(offset) <= offset
      ensures match SkipAt(input, old(offset), wireType)
        case None => !skipped
        case Some(next) => skipped && offset == next
    {
      if wireType == WIRE_VARINT {
        var raw := ReadVarint();
        return raw.Some?;
      } else if wireType == WIRE_FIXED64 {
        skipped := Advance(8);
      } else if wireType == WIRE_LENGTH_DELIMITED {
        var length := ReadVarint();
        if length.None? { return false; }
        skipped := Advance(length.value);
      } else if wireType == WIRE_FIXED32 {
        skipped := Advance(4);
      } else {
        return false;
      }
    }

    method Advance(count: nat) returns (advanced: bool)
      requires Valid()
      modifies this
      ensures Valid() && advanced == (old(offset) + count <= |input|)
      ensures offset == if advanced then old(offset) + count else old(offset)
    {
      if offset + count > |input| { return false; }
      offset := offset + count;
      return true;
    }
  }

  // ----- reading back what was written ------------------------------------------------------------

  predicate HoldsAt(input: seq<Byte>, offset: nat, bytes: seq<Byte>) {
    offset + |bytes| <= |input| && input[offset..offset + |bytes|] == bytes
  }

  lemma HoldsBoth(input: seq<Byte>, offset: nat, first: seq<Byte>, second: seq<Byte>)
    requires HoldsAt(input, offset, first + second)
    ensures HoldsAt(input, offset, first) && HoldsAt(input, offset + |first|, second)
  {
    var middle, end := offset + |first|, offset + |first| + |second|;
    assert input[offset..middle] == input[offset..end][..|first|];
    assert input[middle..end] == input[offset..end][|first|..];
  }

  lemma HoldsShifted(before: seq<Byte>, input: seq<Byte>, offset: nat, bytes: seq<Byte>)
    requires HoldsAt(input, offset, bytes)
    ensures HoldsAt(before + input, |before| + offset, bytes)
  {
    assert (before + input)[|before| + offset..|before| + offset + |bytes|] == input[offset..offset + |bytes|];
  }

  lemma HoldsPrefix(first: seq<Byte>, second: seq<Byte>)
    ensures HoldsAt(first + second, 0, first)
  {
  }

  lemma {:induction false} VarintReadsBack(v: nat, input: seq<Byte>, offset: nat, index: nat)
    requires index < VARINT_BYTES && v < Room(index) && HoldsAt(input, offset, Varint(v))
    ensures VarintFrom(input, offset, index) == Some(Taken(v, offset + |Varint(v)|))
    decreases v
  {
    hide Room;
    RoomShrinks(index);
    if v < 128 {
      assert input[offset] == input[offset..offset + 1][0];
    } else {
      HoldsBoth(input, offset, [v % 128 + 128], Varint(v / 128));
      assert input[offset] == input[offset..offset + 1][0];
      VarintReadsBack(v / 128, input, offset + 1, index + 1);
    }
  }

  /** Every u64 is read back from what was written, wherever it stands and whatever follows. */
  lemma VarintRoundTrip(v: nat, input: seq<Byte>, offset: nat)
    requires v < U64_LIMIT && HoldsAt(input, offset, Varint(v))
    ensures VarintAt(input, offset) == Some(Taken(v, offset + |Varint(v)|))
  {
    RoomIsU64();
    VarintReadsBack(v, input, offset, 0);
  }

  lemma BytesReadBack(bytes: seq<Byte>, input: seq<Byte>, offset: nat)
    requires |bytes| < U64_LIMIT && HoldsAt(input, offset, Varint(|bytes|) + bytes)
    ensures BytesAt(input, offset) == Some(Taken(bytes, offset + |Varint(|bytes|)| + |bytes|))
  {
    HoldsBoth(input, offset, Varint(|bytes|), bytes);
    VarintRoundTrip(|bytes|, input, offset);
  }

  predicate ReadsPayload(input: seq<Byte>, offset: nat, f: Field, end: nat) {
    match f
    case Number(_, value) => VarintAt(input, offset) == Some(Taken(value, end))
    case Data(_, bytes) => BytesAt(input, offset) == Some(Taken(bytes, end))
  }

  predicate ReadsField(input: seq<Byte>, offset: nat, f: Field, end: nat) {
    && offset < |input|
    && TagAt(input, offset).Some?
    && TagAt(input, offset).value.value == Tag(f.number, WireType(f))
    && ReadsPayload(input, TagAt(input, offset).value.cursor, f, end)
  }

  /** A field is read back by its tag and payload, wherever it stands and whatever follows. */
  lemma FieldRoundTrip(f: Field, input: seq<Byte>, offset: nat)
    requires ValidField(f) && HoldsAt(input, offset, FieldBytes(f))
    ensures ReadsField(input, offset, f, offset + |FieldBytes(f)|)
  {
    hide Varint, Payload, HoldsAt, TagAt, ReadsPayload, ReadsField;
    var tag := Tag(f.number, WireType(f));
    var key := Varint(tag.number * 8 + tag.wireType);
    assert FieldBytes(f) == key + Payload(f);
    HoldsBoth(input, offset, key, Payload(f));
    TagRoundTrip(tag, input, offset);
    PayloadRoundTrip(f, input, offset + |key|);
    FieldFromParts(f, input, offset, offset + |key|, offset + |key| + |Payload(f)|);
  }

  lemma FieldFromParts(f: Field, input: seq<Byte>, offset: nat, middle: nat, end: nat)
    requires offset < |input| && TagAt(input, offset) == Some(Taken(Tag(f.number, WireType(f)), middle))
    requires ReadsPayload(input, middle, f, end)
    ensures ReadsField(input, offset, f, end)
  {
  }

  lemma TagRoundTrip(tag: Tag, input: seq<Byte>, offset: nat)
    requires 1 <= tag.number < 0x2000_0000 && tag.wireType < 8
    requires HoldsAt(input, offset, Varint(tag.number * 8 + tag.wireType))
    ensures offset < |input|
    ensures TagAt(input, offset) == Some(Taken(tag, offset + |Varint(tag.number * 8 + tag.wireType)|))
  {
    VarintRoundTrip(tag.number * 8 + tag.wireType, input, offset);
    VarintIsU64(input, offset);
  }

  lemma PayloadRoundTrip(f: Field, input: seq<Byte>, offset: nat)
    requires ValidField(f) && HoldsAt(input, offset, Payload(f))
    ensures ReadsPayload(input, offset, f, offset + |Payload(f)|)
  {
    match f
    case Number(_, value) => VarintRoundTrip(value, input, offset);
    case Data(_, bytes) => BytesReadBack(bytes, input, offset);
  }

  lemma {:induction false} MessageHoldsField(fields: seq<Field>, k: nat)
    requires k < |fields|
    ensures HoldsAt(Message(fields), |Message(fields[..k])|, FieldBytes(fields[k]))
    ensures |Message(fields[..k + 1])| == |Message(fields[..k])| + |FieldBytes(fields[k])|
  {
    hide FieldBytes;
    var head, rest := FieldBytes(fields[0]), fields[1..];
    if k == 0 {
      assert fields[..1] == [fields[0]] && fields[..1][1..] == [];
      assert Message(fields)[0..|head|] == head;
    } else {
      MessageHoldsField(rest, k - 1);
      assert fields[..k][1..] == rest[..k - 1] && fields[..k + 1][1..] == rest[..k];
      HoldsShifted(head, Message(rest), |Message(rest[..k - 1])|, FieldBytes(fields[k]));
    }
  }

  /** The reader at the start of field `k` of a written message takes exactly that field. */
  lemma MessageReadsField(fields: seq<Field>, k: nat)
    requires k < |fields| && ValidField(fields[k])
    ensures ReadsField(Message(fields), |Message(fields[..k])|, fields[k], |Message(fields[..k + 1])|)
  {
    hide Message, FieldBytes, HoldsAt, ReadsField;
    MessageHoldsField(fields, k);
    FieldRoundTrip(fields[k], Message(fields), |Message(fields[..k])|);
  }

  lemma {:induction false} MessageAppends(fields: seq<Field>, f: Field)
    ensures Message(fields + [f]) == Message(fields) + FieldBytes(f)
  {
    hide FieldBytes;
    if fields == [] {
      assert fields + [f] == [f] && [f][1..] == [];
    } else {
      MessageAppends(fields[1..], f);
      assert (fields + [f])[1..] == fields[1..] + [f];
    }
  }

  lemma {:induction false} FieldsDecide(left: Field, right: Field, input: seq<Byte>, l: nat, r: nat)
    requires ReadsField(input, 0, left, l) && ReadsField(input, 0, right, r)
    ensures left == right && l == r
  {
  }

  /** A message determines its fields. */
  lemma {:induction false} MessageIsInjective(left: seq<Field>, right: seq<Field>)
    requires forall i | 0 <= i < |left| :: ValidField(left[i])
    requires forall i | 0 <= i < |right| :: ValidField(right[i])
    requires Message(left) == Message(right)
    ensures left == right
  {
    hide FieldBytes, ReadsField, ValidField;
    if left != [] && right != [] {
      HeadReads(left);
      HeadReads(right);
      FieldsDecide(left[0], right[0], Message(left), |FieldBytes(left[0])|, |FieldBytes(right[0])|);
      assert Message(left)[|FieldBytes(left[0])|..] == Message(left[1..]);
      assert Message(right)[|FieldBytes(right[0])|..] == Message(right[1..]);
      MessageIsInjective(left[1..], right[1..]);
      assert left == [left[0]] + left[1..] && right == [right[0]] + right[1..];
    } else if left != [] {
      HeadReads(left);
    } else if right != [] {
      HeadReads(right);
    }
  }

  lemma OffsetInside(input: seq<Byte>, offset: nat, f: Field, end: nat)
    requires ReadsField(input, offset, f, end)
    ensures offset < |input|
  {
  }

  lemma HeadReads(fields: seq<Field>)
    requires fields != [] && ValidField(fields[0])
    ensures ReadsField(Message(fields), 0, fields[0], |FieldBytes(fields[0])|) && Message(fields) != []
  {
    hide FieldBytes, ReadsField, ValidField, HoldsAt;
    HoldsPrefix(FieldBytes(fields[0]), Message(fields[1..]));
    FieldRoundTrip(fields[0], Message(fields), 0);
    OffsetInside(Message(fields), 0, fields[0], |FieldBytes(fields[0])|);
  }

  lemma {:induction false} VarintIsShort(v: nat, index: nat)
    requires index < VARINT_BYTES && v < Room(index)
    ensures |Varint(v)| <= VARINT_BYTES - index
    decreases v
  {
    if v >= 128 {
      assert index < VARINT_BYTES - 1 && Room(index) == 128 * Room(index + 1);
      VarintIsShort(v / 128, index + 1);
    }
  }

  lemma NumberFieldIsShort(f: Field)
    requires f.Number? && ValidField(f)
    ensures |FieldBytes(f)| <= 2 * VARINT_BYTES
  {
    RoomIsU64();
    VarintIsShort(f.number * 8 + WireType(f), 0);
    VarintIsShort(f.value, 0);
  }

  lemma {:induction false} NumbersAreShort(fields: seq<Field>)
    requires forall i | 0 <= i < |fields| :: fields[i].Number? && ValidField(fields[i])
    ensures |Message(fields)| <= 2 * VARINT_BYTES * |fields|
  {
    if fields != [] {
      NumberFieldIsShort(fields[0]);
      NumbersAreShort(fields[1..]);
    }
  }
}
