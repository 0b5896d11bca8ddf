/** Base64 of RFC 4648: the encoders of the control and the proxy crates, against a decoder. */
module Base64 {
  import opened Common

  type Sextet = v: nat | v < 64

  /** The alphabet of section 4 of RFC 4648, or of its section 5 when `urlSafe`. */
  function Letter(v: Sextet, urlSafe: bool): char {
    if v < 26 then 'A' + (v as char)
    else if v < 52 then 'a' + ((v - 26) as char)
    else if v < 62 then '0' + ((v - 52) as char)
    else if v == 62 then (if urlSafe then '-' else '+')
    else (if urlSafe then '_' else '/')
  }

  function Value(c: char, urlSafe: bool): Option<Sextet> {
    if 'A' <= c <= 'Z' then Some((c - 'A') as int)
    else if 'a' <= c <= 'z' then Some((c - 'a') as int + 26)
    else if '0' <= c <= '9' then Some((c - '0') as int + 52)
    else if c == (if urlSafe then '-' else '+') then Some(62)
    else if c == (if urlSafe then '_' else '/') then Some(63)
    else None
  }

  predicate Alphanumeric(c: char) {
    'A' <= c <= 'Z' || 'a' <= c <= 'z' || '0' <= c <= '9'
  }

  predicate UrlText(text: string) {
    forall i | 0 <= i < |text| :: Alphanumeric(text[i]) || text[i] in {'-', '_'}
  }

  lemma LetterValue(v: Sextet, urlSafe: bool)
    ensures Value(Letter(v, urlSafe), urlSafe) == Some(v) && Letter(v, urlSafe) != '='
    ensures urlSafe ==> Alphanumeric(Letter(v, urlSafe)) || Letter(v, urlSafe) in {'-', '_'}
  {
  }

  function Letters(values: seq<Sextet>, urlSafe: bool): (text: string)
    ensures |text| == |values|
  {
    if values == [] then "" else [Letter(values[0], urlSafe)] + Letters(values[1..], urlSafe)
  }

  function Values(text: string, urlSafe: bool): Option<seq<Sextet>> {
    if text == "" then Some([])
    else
      match (Value(text[0], urlSafe), Values(text[1..], urlSafe))
      case (Some(first), Some(rest)) => Some([first] + rest)
      case _ => None
  }

  /** One to three bytes as two to four sextets, the last one filled up with zero bits. */
  function Sextets(chunk: seq<Byte>): (values: seq<Sextet>)
    requires 1 <= |chunk| <= 3
    ensures |values| == |chunk| + 1
  {
    var a := chunk[0];
    var b: Byte := if |chunk| > 1 then chunk[1] else 0;
    var c: Byte := if |chunk| > 2 then chunk[2] else 0;
    [a / 4, a % 4 * 16 + b / 16, b % 16 * 4 + c / 64, c % 64][..|chunk| + 1]
  }

  function Bytes(values: seq<Sextet>): seq<Byte>
    requires 2 <= |values| <= 4
  {
    var p, q := values[0], values[1];
    var r: Sextet := if |values| > 2 then values[2] else 0;
    var s: Sextet := if |values| > 3 then values[3] else 0;
    [p * 4 + q / 16, q % 16 * 16 + r / 4, r % 4 * 64 + s][..|values| - 1]
  }

  function Pads(n: nat, padding: bool): string
    requires 1 <= n <= 3
  {
    if !padding || n == 3 then "" else if n == 2 then "=" else "=="
  }

  /** The characters of one chunk of one to three bytes. */
  function Group(chunk: seq<Byte>, urlSafe: bool, padding: bool): string
    requires 1 <= |chunk| <= 3
  {
    Letters(Sextets(chunk), urlSafe) + Pads(|chunk|, padding)
  }

  function ChunkLength(bytes: seq<Byte>): nat {
    if |bytes| < 3 then |bytes| else 3
  }

  function Encoded(bytes: seq<Byte>, urlSafe: bool, padding: bool): string {
    if bytes == [] then ""
    else
      var n := ChunkLength(bytes);
      Group(bytes[..n], urlSafe, padding) + Encoded(bytes[n..], urlSafe, padding)
  }

  /** The letters of a text before its first pad character. */
  function Unpadded(text: string): (letters: string)
    ensures |letters| <= |text|
  {
    if text == "" || text[0] == '=' then "" else [text[0]] + Unpadded(text[1..])
  }

  function DecodeGroup(letters: string, urlSafe: bool): Option<seq<Byte>> {
    match Values(letters, urlSafe)
    case Some(values) => if 2 <= |values| <= 4 then Some(Bytes(values)) else None
    case None => None
  }

  function Decoded(text: string, urlSafe: bool): Option<seq<Byte>> {
    if text == "" then Some([])
    else
      var n := if |text| < 4 then |text| else 4;
      match DecodeGroup(Unpadded(text[..n]), urlSafe)
      case None => None
      case Some(head) =>
        match Decoded(text[n..], urlSafe)
        case None => None
        case Some(rest) => Some(head + rest)
  }

  lemma {:induction false} UnpaddedPrefix(letters: string, pads: string)
    requires '=' !in letters && (pads == "" || pads[0] == '=')
    ensures Unpadded(letters + pads) == letters
  {
    if letters == "" {
      assert letters + pads == pads;
    } else {
      UnpaddedPrefix(letters[1..], pads);
      assert (letters + pads)[1..] == letters[1..] + pads;
      assert letters == [letters[0]] + letters[1..];
    }
  }

  lemma {:induction false} LettersHaveValues(values: seq<Sextet>, urlSafe: bool)
    ensures Values(Letters(values, urlSafe), urlSafe) == Some(values) && '=' !in Letters(values, urlSafe)
    ensures urlSafe ==> UrlText(Letters(values, urlSafe))
  {
    hide Letter, Value, Alphanumeric;
    if values != [] {
      var rest, text := Letters(values[1..], urlSafe), Letters(values, urlSafe);
      LettersHaveValues(values[1..], urlSafe);
      LetterValue(values[0], urlSafe);
      assert text == [Letter(values[0], urlSafe)] + rest && text[1..] == rest;
      assert values == [values[0]] + values[1..];
      assert forall i | 1 <= i < |text| :: text[i] == rest[i - 1];
    }
  }

  /** Three bytes are four sextets: each byte comes back from the two sextets that share it. */
  lemma SextetsShareBytes(chunk: seq<Byte>)
    requires 1 <= |chunk| <= 3
    ensures Bytes(Sextets(chunk)) == chunk
  {
  }

  lemma GroupDecodes(chunk: seq<Byte>, urlSafe: bool, padding: bool)
    requires 1 <= |chunk| <= 3
    ensures DecodeGroup(Unpadded(Group(chunk, urlSafe, padding)), urlSafe) == Some(chunk)
  {
    LettersHaveValues(Sextets(chunk), urlSafe);
    UnpaddedPrefix(Letters(Sextets(chunk), urlSafe), Pads(|chunk|, padding));
    SextetsShareBytes(chunk);
  }

  lemma GroupLength(chunk: seq<Byte>, urlSafe: bool, padding: bool)
    requires 1 <= |chunk| <= 3
    ensures 2 <= |Group(chunk, urlSafe, padding)| <= 4
    ensures |chunk| == 3 ==> |Group(chunk, urlSafe, padding)| == 4
  {
  }

  /** Decoding gives the bytes back, for both alphabets and with or without padding. */
  lemma {:induction false} RoundTrip(bytes: seq<Byte>, urlSafe: bool, padding: bool)
    ensures Decoded(Encoded(bytes, urlSafe, padding), urlSafe) == Some(bytes)
  {
    hide Group, Unpadded, DecodeGroup;
    if bytes != [] {
      var n := ChunkLength(bytes);
      var group, rest := Group(bytes[..n], urlSafe, padding), Encoded(bytes[n..], urlSafe, padding);
      RoundTrip(bytes[n..], urlSafe, padding);
      GroupDecodes(bytes[..n], urlSafe, padding);
      var m := |group|;
      GroupLength(bytes[..n], urlSafe, padding);
      assert (group + rest)[..m] == group && (group + rest)[m..] == rest;
      assert bytes == bytes[..n] + bytes[n..];
    }
  }

  lemma EncodingIsInjective(left: seq<Byte>, right: seq<Byte>, urlSafe: bool, padding: bool)
    ensures Encoded(left, urlSafe, padding) == Encoded(right, urlSafe, padding) <==> left == right
  {
    RoundTrip(left, urlSafe, padding);
    RoundTrip(right, urlSafe, padding);
  }

  function UnpaddedLength(n: nat): nat {
    n / 3 * 4 + (if n % 3 == 0 then 0 else n % 3 + 1)
  }

  lemma {:induction false} UrlForm(bytes: seq<Byte>)
    ensures UrlText(Encoded(bytes, true, false))
    ensures |Encoded(bytes, true, false)| == UnpaddedLength(|bytes|)
  {
    if bytes != [] {
      var n := ChunkLength(bytes);
      UrlForm(bytes[n..]);
      LettersHaveValues(Sextets(bytes[..n]), true);
    }
  }

  lemma {:induction false} LettersAppend(values: seq<Sextet>, v: Sextet, urlSafe: bool)
    ensures Letters(values + [v], urlSafe) == Letters(values, urlSafe) + [Letter(v, urlSafe)]
  {
    if values != [] {
      LettersAppend(values[1..], v, urlSafe);
      assert (values + [v])[1..] == values[1..] + [v];
    }
  }

  method PushChunk(text: string, chunk: seq<Byte>, urlSafe: bool, padding: bool) returns (out: string)
    requires 1 <= |chunk| <= 3
    ensures out == text + Group(chunk, urlSafe, padding)
  {
    var a := chunk[0];
    var b: Byte := if |chunk| > 1 then chunk[1] else 0;
    var c: Byte := if |chunk| > 2 then chunk[2] else 0;
    ghost var all: seq<Sextet> := [a / 4, a % 4 * 16 + b / 16, b % 16 * 4 + c / 64, c % 64];
    assert all[..2] == [all[0]] + [all[1]] && all[..3] == all[..2] + [all[2]] && all[..4] == all[..3] + [all[3]];
    LettersAppend([all[0]], all[1], urlSafe);
    LettersAppend(all[..2], all[2], urlSafe);
    LettersAppend(all[..3], all[3], urlSafe);
    assert Sextets(chunk) == all[..|chunk| + 1];
    assert Letters([all[0]], urlSafe) == [Letter(all[0], urlSafe)];
    out := text + [Letter(a / 4, urlSafe)];
    out := out + [Letter(a % 4 * 16 + b / 16, urlSafe)];
    if |chunk| > 1 {
      out := out + [Letter(b % 16 * 4 + c / 64, urlSafe)];
    } else if padding {
      out := out + "=";
    }
    if |chunk| > 2 {
      out := out + [Letter(c % 64, urlSafe)];
    } else if padding {
      out := out + "=";
    }
    assert out == text + (Letters(all[..|chunk| + 1], urlSafe) + Pads(|chunk|, padding));
  }

  lemma EncodedFrom(out: string, bytes: seq<Byte>, i: nat, n: nat, urlSafe: bool, padding: bool)
    requires i < |bytes| && n == ChunkLength(bytes[i..])
    ensures out + Encoded(bytes[i..], urlSafe, padding)
      == (out + Group(bytes[i..i + n], urlSafe, padding)) + Encoded(bytes[i + n..], urlSafe, padding)
  {
    assert bytes[i..][..n] == bytes[i..i + n] && bytes[i..][n..] == bytes[i + n..];
    var group, rest := Group(bytes[i..i + n], urlSafe, padding), Encoded(bytes[i + n..], urlSafe, padding);
    assert (out + group) + rest == out + (group + rest);
  }

  method EncodeBase64(bytes: seq<Byte>, urlSafe: bool, padding: bool) returns (out: string)
    ensures out == Encoded(bytes, urlSafe, padding)
  {
    out := "";
    var i := 0;
    assert bytes[0..] == bytes;
    while i < |bytes|
      invariant 0 <= i <= |bytes|
      invariant out + Encoded(bytes[i..], urlSafe, padding) == Encoded(bytes, urlSafe, padding)
    {
      var n := ChunkLength(bytes[i..]);
      EncodedFrom(out, bytes, i, n, urlSafe, padding);
      out := PushChunk(out, bytes[i..i + n], urlSafe, padding);
      i := i + n;
    }
  }

  function Tail(n: nat): string {
    if n % 3 == 1 then "==" else if n % 3 == 2 then "=" else ""
  }

  lemma PaddedGroup(chunk: seq<Byte>, urlSafe: bool)
    requires 1 <= |chunk| <= 3
    ensures Group(chunk, urlSafe, true) == Group(chunk, urlSafe, false) + Tail(|chunk|)
    ensures |Group(chunk, urlSafe, true)| == 4
  {
    hide Letters, Sextets;
    var letters := Letters(Sextets(chunk), urlSafe);
    assert letters + "" == letters;
  }

  /** Padding only appends one `=` per byte missing from the last group of three. */
  lemma {:induction false} PaddedForm(bytes: seq<Byte>, urlSafe: bool)
    ensures Encoded(bytes, urlSafe, true) == Encoded(bytes, urlSafe, false) + Tail(|bytes|)
    ensures |Encoded(bytes, urlSafe, true)| == (|bytes| + 2) / 3 * 4
    decreases |bytes|
  {
    hide Group;
    if bytes != [] {
      var n := ChunkLength(bytes);
      PaddedGroup(bytes[..n], urlSafe);
      PaddedForm(bytes[n..], urlSafe);
      if |bytes| <= 3 {
        assert bytes[n..] == [] && Encoded([], urlSafe, true) == Encoded([], urlSafe, false) == "";
      } else {
        assert |bytes[n..]| == |bytes| - 3 && Tail(|bytes| - 3) == Tail(|bytes|) && Tail(3) == "";
      }
    }
  }
}
