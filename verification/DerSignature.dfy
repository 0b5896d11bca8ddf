/** The DER form of a P-256 signature (section 2.2.3 of RFC 3279) and its fixed-width form. */
module DerSignature {
  import opened Common
  import opened Base64

  // ----- numbers and their big-endian bytes -----------------------------------------------------------

  function Number(bytes: seq<Byte>): nat {
    if bytes == [] then 0 else Number(bytes[..|bytes| - 1]) * 256 + bytes[|bytes| - 1]
  }

  /** The shortest big-endian form: no leading zero byte, empty for zero. */
  function Shortest(n: nat): (bytes: seq<Byte>)
    ensures n > 0 ==> |bytes| > 0 && bytes[0] != 0
  {
    if n == 0 then [] else Shortest(n / 256) + [n % 256]
  }

  function Pow256(k: nat): (p: nat)
    ensures p > 0
  {
    if k == 0 then 1 else 256 * Pow256(k - 1)
  }

  lemma {:induction false} ShortestNumber(n: nat)
    ensures Number(Shortest(n)) == n
  {
    if n > 0 {
      ShortestNumber(n / 256);
      assert Shortest(n)[..|Shortest(n)| - 1] == Shortest(n / 256);
    }
  }

  lemma {:induction false} NumberShortest(bytes: seq<Byte>)
    requires bytes == [] || bytes[0] != 0
    ensures Shortest(Number(bytes)) == bytes
    ensures bytes != [] ==> Number(bytes) > 0
  {
    if bytes != [] {
      var front := bytes[..|bytes| - 1];
      NumberShortest(front);
      assert bytes == front + [bytes[|bytes| - 1]];
      assert Number(bytes) / 256 == Number(front) && Number(bytes) % 256 == bytes[|bytes| - 1];
    }
  }

  lemma {:induction false} ShortestFits(n: nat, k: nat)
    ensures |Shortest(n)| <= k <==> n < Pow256(k)
    decreases n
  {
    if n > 0 && k > 0 {
      ShortestFits(n / 256, k - 1);
      assert n < 256 * Pow256(k - 1) <==> n / 256 < Pow256(k - 1);
    }
  }

  function Zeros(k: nat): (zeros: seq<Byte>)
    ensures |zeros| == k && forall i | 0 <= i < k :: zeros[i] == 0
  {
    seq(k, _ => 0)
  }

  const FIELD_BYTES: nat := 32

  predicate Scalar(n: nat) {
    1 <= n < Pow256(FIELD_BYTES)
  }

  /** Thirty-two big-endian bytes. */
  function Fixed(n: nat): seq<Byte>
    requires Scalar(n)
  {
    ShortestFits(n, FIELD_BYTES);
    Zeros(FIELD_BYTES - |Shortest(n)|) + Shortest(n)
  }

  lemma {:induction false} LeadingZeros(k: nat, bytes: seq<Byte>)
    ensures Number(Zeros(k) + bytes) == Number(bytes)
  {
    if bytes == [] {
      if k > 0 {
        LeadingZeros(k - 1, []);
        assert Zeros(k)[..k - 1] == Zeros(k - 1);
        assert Zeros(k) + bytes == Zeros(k) && Zeros(k - 1) + bytes == Zeros(k - 1);
      }
    } else {
      LeadingZeros(k, bytes[..|bytes| - 1]);
      assert (Zeros(k) + bytes)[..k + |bytes| - 1] == Zeros(k) + bytes[..|bytes| - 1];
    }
  }

  /** The fixed form holds the same number in thirty-two bytes. */
  lemma FixedHoldsNumber(n: nat)
    requires Scalar(n)
    ensures |Fixed(n)| == 32 && Number(Fixed(n)) == n
  {
    ShortestFits(n, FIELD_BYTES);
    LeadingZeros(FIELD_BYTES - |Shortest(n)|, Shortest(n));
    ShortestNumber(n);
  }

  // ----- the encoder that defines acceptance -----------------------------------------------------------

  /** The contents of a DER INTEGER (section 8.3 of X.690): shortest two's complement form. */
  function IntegerContents(n: nat): seq<Byte>
    requires n > 0
  {
    if Shortest(n)[0] >= 128 then [0] + Shortest(n) else Shortest(n)
  }

  lemma ContentsFit(n: nat)
    requires Scalar(n)
    ensures 1 <= |IntegerContents(n)| <= 33
  {
    ShortestFits(n, FIELD_BYTES);
  }

  function IntegerTlv(value: seq<Byte>): (tlv: seq<Byte>)
    requires |value| < 128
    ensures |tlv| == |value| + 2
  {
    [0x02, |value|] + value
  }

  function SequenceTlv(r: seq<Byte>, s: seq<Byte>): seq<Byte>
    requires |r| <= 33 && |s| <= 33
  {
    [0x30, |r| + |s| + 4] + (IntegerTlv(r) + IntegerTlv(s))
  }

  function DerSequence(r: nat, s: nat): seq<Byte>
    requires Scalar(r) && Scalar(s)
  {
    ContentsFit(r);
    ContentsFit(s);
    SequenceTlv(IntegerContents(r), IntegerContents(s))
  }

  // ----- the parser ----------------------------------------------------------------------------------------

  function ByteAt(der: seq<Byte>, cursor: nat): Option<Taken<Byte>> {
    if cursor < |der| then Some(Taken(der[cursor], cursor + 1)) else None
  }

  /** Short form, or one or two length bytes naming at least 128. */
  function LengthAt(der: seq<Byte>, cursor: nat): Option<Taken<nat>> {
    if cursor >= |der| then None
    else if der[cursor] < 128 then Some(Taken(der[cursor], cursor + 1))
    else
      var bytes := der[cursor] - 128;
      if bytes == 0 || bytes > 2 || cursor + 1 + bytes > |der| then None
      else
        var length := Number(der[cursor + 1..cursor + 1 + bytes]);
        if length < 128 then None else Some(Taken(length, cursor + 1 + bytes))
  }

  predicate IntegerOk(value: seq<Byte>) {
    && value != [] && value[0] < 128
    && !(|value| > 1 && value[0] == 0 && value[1] < 128)
  }

  function IntegerAt(der: seq<Byte>, cursor: nat): Option<Taken<seq<Byte>>> {
    if cursor >= |der| || der[cursor] != 0x02 then None
    else
      match LengthAt(der, cursor + 1)
      case None => None
      case Some(Taken(length, start)) =>
        if start + length > |der| || !IntegerOk(der[start..start + length]) then None
        else Some(Taken(der[start..start + length], start + length))
  }

  function Stripped(value: seq<Byte>): seq<Byte> {
    if value != [] && value[0] == 0 then value[1..] else value
  }

  predicate FitsField(value: seq<Byte>) {
    1 <= |Stripped(value)| <= FIELD_BYTES
  }

  method TakeByte(der: seq<Byte>, cursor: nat) returns (taken: Option<Taken<Byte>>)
    ensures taken == ByteAt(der, cursor)
  {
    if cursor >= |der| { return None; }
    return Some(Taken(der[cursor], cursor + 1));
  }

  method TakeDerLength(der: seq<Byte>, from: nat) returns (taken: Option<Taken<nat>>)
    ensures taken == LengthAt(der, from)
  {
    var first := TakeByte(der, from);
    if first.None? { return None; }
    if first.value.value < 128 { return Some(Taken(first.value.value, first.value.cursor)); }
    var bytes := first.value.value % 128;
    if bytes == 0 || bytes > 2 { return None; }
    var cursor := first.value.cursor;
    var length: nat := 0;
    for i := 0 to bytes
      invariant cursor == from + 1 + i <= |der|
      invariant length == Number(der[from + 1..cursor])
    {
      var next := TakeByte(der, cursor);
      if next.None? { return None; }
      assert der[from + 1..cursor + 1][..i] == der[from + 1..cursor];
      length := length * 256 + next.value.value;
      cursor := next.value.cursor;
    }
    if length < 128 { return None; }
    return Some(Taken(length, cursor));
  }

  method TakeDerInteger(der: seq<Byte>, from: nat) returns (taken: Option<Taken<seq<Byte>>>)
    ensures taken == IntegerAt(der, from)
  {
    var tag := TakeByte(der, from);
    if tag.None? || tag.value.value != 0x02 { return None; }
    var length := TakeDerLength(der, tag.value.cursor);
    if length.None? { return None; }
    var start := length.value.cursor;
    var end := start + length.value.value;
    if end > |der| { return None; }
    var value := der[start..end];
    if value == [] || value[0] >= 128 { return None; }
    if |value| > 1 && value[0] == 0 && value[1] < 128 { return None; }
    return Some(Taken(value, end));
  }

  method CopyInteger32(value: seq<Byte>, output: array<Byte>, at: nat) returns (copied: bool)
    requires at + FIELD_BYTES <= output.Length
    modifies output
    ensures copied == FitsField(value)
    ensures copied ==>
      output[at..at + FIELD_BYTES] == old(output[at..at + FIELD_BYTES - |Stripped(value)|]) + Stripped(value)
    ensures output[..at] == old(output[..at]) && output[at + FIELD_BYTES..] == old(output[at + FIELD_BYTES..])
    ensures !copied ==> output[..] == old(output[..])
  {
    var rest := if value != [] && value[0] == 0 then value[1..] else value;
    if rest == [] || |rest| > FIELD_BYTES { return false; }
    var offset := at + FIELD_BYTES - |rest|;
    for i := 0 to |rest|
      invariant output[offset..offset + i] == rest[..i]
      invariant forall k | 0 <= k < output.Length && !(offset <= k < offset + i) :: output[k] == old(output[k])
    {
      output[offset + i] := rest[i];
    }
    assert output[at..at + FIELD_BYTES] == output[at..offset] + output[offset..offset + |rest|];
    assert output[at..offset] == old(output[at..offset]);
    return true;
  }

  // ----- accepted exactly when it is the encoding of two scalars ---------------------------------

  datatype Pair = Pair(r: seq<Byte>, s: seq<Byte>)

  function Parsed(der: seq<Byte>): Option<Pair> {
    if der == [] || der[0] != 0x30 then None
    else
      match LengthAt(der, 1)
      case None => None
      case Some(Taken(length, start)) =>
        if start + length != |der| then None
        else
          match IntegerAt(der, start)
          case None => None
          case Some(Taken(r, middle)) =>
            match IntegerAt(der, middle)
            case None => None
            case Some(Taken(s, end)) =>
              if end != |der| || !FitsField(r) || !FitsField(s) then None else Some(Pair(r, s))
  }

  lemma ContentsMeanNumber(value: seq<Byte>)
    requires IntegerOk(value) && FitsField(value)
    ensures var n := Number(Stripped(value));
      Scalar(n) && IntegerContents(n) == value && Fixed(n) == Zeros(FIELD_BYTES - |Stripped(value)|) + Stripped(value)
  {
    NumberShortest(Stripped(value));
    ShortestFits(Number(Stripped(value)), FIELD_BYTES);
  }

  lemma NumberMeansContents(n: nat)
    requires Scalar(n)
    ensures IntegerOk(IntegerContents(n)) && FitsField(IntegerContents(n))
    ensures Stripped(IntegerContents(n)) == Shortest(n)
  {
    ShortestFits(n, FIELD_BYTES);
  }

  lemma ShortLength(der: seq<Byte>, cursor: nat)
    ensures LengthAt(der, cursor).Some? && LengthAt(der, cursor).value.value < 128 ==>
      cursor < |der| && LengthAt(der, cursor) == Some(Taken(der[cursor], cursor + 1))
  {
  }

  lemma IntegerIsTlv(der: seq<Byte>, cursor: nat)
    requires IntegerAt(der, cursor).Some? && FitsField(IntegerAt(der, cursor).value.value)
    ensures var taken := IntegerAt(der, cursor).value;
      |taken.value| <= 33 && cursor <= taken.cursor <= |der| && der[cursor..taken.cursor] == IntegerTlv(taken.value)
  {
    ShortLength(der, cursor + 1);
  }

  lemma TlvIsInteger(der: seq<Byte>, cursor: nat, value: seq<Byte>)
    requires IntegerOk(value) && |value| < 128 && cursor + |value| + 2 <= |der|
    requires der[cursor..cursor + |value| + 2] == IntegerTlv(value)
    ensures IntegerAt(der, cursor) == Some(Taken(value, cursor + |value| + 2))
  {
    var end := cursor + |value| + 2;
    assert der[cursor] == der[cursor..end][0] && der[cursor + 1] == der[cursor..end][1];
    assert der[cursor + 2..end] == der[cursor..end][2..];
  }

  lemma ParsedIsTlv(der: seq<Byte>)
    requires Parsed(der).Some?
    ensures var pair := Parsed(der).value;
      IntegerOk(pair.r) && IntegerOk(pair.s) && |pair.r| <= 33 && |pair.s| <= 33 && der == SequenceTlv(pair.r, pair.s)
  {
    hide Number, FitsField, LengthAt;
    var start := LengthAt(der, 1).value.cursor;
    var middle := IntegerAt(der, start).value.cursor;
    IntegerIsTlv(der, start);
    IntegerIsTlv(der, middle);
    assert LengthAt(der, 1).value.value == |Parsed(der).value.r| + |Parsed(der).value.s| + 4;
    ShortLength(der, 1);
    JoinHalves(der, middle);
  }

  lemma JoinHalves(der: seq<Byte>, middle: nat)
    requires 2 <= middle <= |der|
    ensures der == [der[0], der[1]] + (der[2..middle] + der[middle..|der|])
  {
  }

  lemma HalvesOf(head: seq<Byte>, first: seq<Byte>, second: seq<Byte>)
    requires |head| == 2
    ensures var all := head + (first + second);
      all[2..2 + |first|] == first && all[2 + |first|..|all|] == second && all[0] == head[0] && all[1] == head[1]
  {
  }

  lemma TlvIsParsed(pair: Pair)
    requires IntegerOk(pair.r) && IntegerOk(pair.s) && FitsField(pair.r) && FitsField(pair.s)
    ensures Parsed(SequenceTlv(pair.r, pair.s)) == Some(pair)
  {
    hide Number, IntegerOk;
    var der := SequenceTlv(pair.r, pair.s);
    var middle := |pair.r| + 4;
    HalvesOf([0x30, |pair.r| + |pair.s| + 4], IntegerTlv(pair.r), IntegerTlv(pair.s));
    TlvIsInteger(der, 2, pair.r);
    TlvIsInteger(der, middle, pair.s);
    var length: nat := |pair.r| + |pair.s| + 4;
    assert LengthAt(der, 1) == Some(Taken(length, 2));
  }

  lemma ParsedIsDer(der: seq<Byte>)
    requires Parsed(der).Some?
    ensures var r, s := Number(Stripped(Parsed(der).value.r)), Number(Stripped(Parsed(der).value.s));
      Scalar(r) && Scalar(s) && der == DerSequence(r, s)
  {
    ParsedIsTlv(der);
    ContentsMeanNumber(Parsed(der).value.r);
    ContentsMeanNumber(Parsed(der).value.s);
  }

  lemma DerIsParsed(r: nat, s: nat)
    requires Scalar(r) && Scalar(s)
    ensures Parsed(DerSequence(r, s)) == Some(Pair(IntegerContents(r), IntegerContents(s)))
  {
    NumberMeansContents(r);
    NumberMeansContents(s);
    TlvIsParsed(Pair(IntegerContents(r), IntegerContents(s)));
  }

  /** No two pairs of scalars share an encoding. */
  lemma DerIsInjective(r: nat, s: nat, r': nat, s': nat)
    requires Scalar(r) && Scalar(s) && Scalar(r') && Scalar(s')
    ensures DerSequence(r, s) == DerSequence(r', s') <==> r == r' && s == s'
  {
    DerIsParsed(r, s);
    DerIsParsed(r', s');
    NumberMeansContents(r);
    NumberMeansContents(s);
    NumberMeansContents(r');
    NumberMeansContents(s');
    ShortestNumber(r);
    ShortestNumber(s);
    ShortestNumber(r');
    ShortestNumber(s');
  }

  /** The signature bytes of a parsed pair. */
  function FixedPair(pair: Pair): seq<Byte>
    requires FitsField(pair.r) && FitsField(pair.s)
  {
    Zeros(FIELD_BYTES - |Stripped(pair.r)|) + Stripped(pair.r)
    + (Zeros(FIELD_BYTES - |Stripped(pair.s)|) + Stripped(pair.s))
  }

  lemma FixedPairMeaning(r: nat, s: nat)
    requires Scalar(r) && Scalar(s)
    ensures Parsed(DerSequence(r, s)).Some?
    ensures FixedPair(Parsed(DerSequence(r, s)).value) == Fixed(r) + Fixed(s)
  {
    DerIsParsed(r, s);
    NumberMeansContents(r);
    NumberMeansContents(s);
  }

  method ParsePair(der: seq<Byte>) returns (pair: Option<Pair>)
    ensures Parsed(der) == if pair.Some? && FitsField(pair.value.r) && FitsField(pair.value.s) then pair else None
  {
    var tag := TakeByte(der, 0);
    if tag.None? || tag.value.value != 0x30 { return None; }
    var length := TakeDerLength(der, tag.value.cursor);
    if length.None? || length.value.cursor + length.value.value != |der| { return None; }
    var r := TakeDerInteger(der, length.value.cursor);
    if r.None? { return None; }
    var s := TakeDerInteger(der, r.value.cursor);
    if s.None? || s.value.cursor != |der| { return None; }
    return Some(Pair(r.value.value, s.value.value));
  }

  method CopyPair(pair: Pair) returns (signature: Option<seq<Byte>>)
    ensures signature == if FitsField(pair.r) && FitsField(pair.s) then Some(FixedPair(pair)) else None
  {
    hide Stripped;
    var output := new Byte[2 * FIELD_BYTES](_ => 0);
    var first := CopyInteger32(pair.r, output, 0);
    if !first { return None; }
    assert output[..FIELD_BYTES] == Zeros(FIELD_BYTES - |Stripped(pair.r)|) + Stripped(pair.r);
    assert output[FIELD_BYTES..] == Zeros(FIELD_BYTES);
    var second := CopyInteger32(pair.s, output, FIELD_BYTES);
    if !second { return None; }
    assert output[FIELD_BYTES..] == output[FIELD_BYTES..FIELD_BYTES + FIELD_BYTES];
    assert output[FIELD_BYTES..] == Zeros(FIELD_BYTES - |Stripped(pair.s)|) + Stripped(pair.s);
    assert output[..] == output[..FIELD_BYTES] + output[FIELD_BYTES..];
    return Some(output[..]);
  }

  /** Accepts exactly the DER encodings of two scalars, and returns their fixed-width forms. */
  method P256DerSignatureToP1363(der: seq<Byte>) returns (signature: Option<seq<Byte>>)
    ensures signature.Some? <==> exists r: nat, s: nat | Scalar(r) && Scalar(s) :: der == DerSequence(r, s)
    ensures forall r: nat, s: nat | Scalar(r) && Scalar(s) ::
      der == DerSequence(r, s) ==> signature == Some(Fixed(r) + Fixed(s))
  {
    var pair := ParsePair(der);
    if pair.None? { signature := None; } else { signature := CopyPair(pair.value); }
    if Parsed(der).Some? { ParsedIsDer(der); }
    forall r: nat, s: nat | Scalar(r) && Scalar(s)
      ensures der == DerSequence(r, s) ==> signature == Some(Fixed(r) + Fixed(s))
    {
      FixedPairMeaning(r, s);
    }
  }

  const SIGNATURE_TEXT_LENGTH: nat := 86

  /** The text form of any accepted signature has the shape the authentication message demands. */
  lemma SignatureText(r: nat, s: nat)
    requires Scalar(r) && Scalar(s)
    ensures var text := Encoded(Fixed(r) + Fixed(s), true, false);
      |text| == SIGNATURE_TEXT_LENGTH && UrlText(text) && Decoded(text, true) == Some(Fixed(r) + Fixed(s))
  {
    FixedHoldsNumber(r);
    FixedHoldsNumber(s);
    UrlForm(Fixed(r) + Fixed(s));
    RoundTrip(Fixed(r) + Fixed(s), true, false);
  }

  /** The short form below 128, and one or two length bytes from 128 on; two may carry a leading nought. */
  predicate LengthForm(der: seq<Byte>, cursor: nat, length: nat, end: nat) {
    cursor < end <= |der| &&
    match end - cursor
    case 1 => length < 128 && der[cursor] as int == length
    case 2 => 128 <= length < 256 && der[cursor] == 0x81 && der[cursor + 1] as int == length
    case 3 =>
      128 <= length && der[cursor] == 0x82 && der[cursor + 1] as int * 256 + der[cursor + 2] as int == length
    case _ => false
  }

  lemma NumberOfTwo(bytes: seq<Byte>)
    ensures |bytes| == 1 ==> Number(bytes) == bytes[0] as int
    ensures |bytes| == 2 ==> Number(bytes) == bytes[0] as int * 256 + bytes[1] as int
  {
    if |bytes| == 2 {
      assert bytes[..1][..0] == [] && bytes[..1][0] == bytes[0];
    }
  }

  /** A length is read exactly in one of these forms. */
  lemma LengthExactly(der: seq<Byte>, cursor: nat, length: nat, end: nat)
    ensures LengthAt(der, cursor) == Some(Taken(length, end)) <==> LengthForm(der, cursor, length, end)
  {
    if cursor + 1 < |der| { NumberOfTwo(der[cursor + 1..cursor + 2]); }
    if cursor + 2 < |der| { NumberOfTwo(der[cursor + 1..cursor + 3]); }
  }
}
