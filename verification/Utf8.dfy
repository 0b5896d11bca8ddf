/** Well-formed UTF-8 (section 4 of RFC 3629): which byte strings are text, and which text is blank. */
module Utf8 {
  import opened Common
  import opened Text

  predicate Continues(bytes: seq<Byte>, i: nat) {
    i < |bytes| && 0x80 <= bytes[i] < 0xc0
  }

  /** The six payload bits of a continuation byte. */
  function Low(b: Byte): int {
    b as int - 0x80
  }

  predicate IsScalar(n: int) {
    0 <= n < 0xd800 || 0xe000 <= n < 0x110000
  }

  /** The first scalar value and its length in bytes. */
  function FirstScalar(bytes: seq<Byte>): (first: Option<Taken<int>>)
    requires bytes != []
    ensures first.Some? ==> IsScalar(first.value.value) && 1 <= first.value.cursor <= |bytes|
  {
    var a: int := bytes[0];
    if a < 0x80 then Some(Taken(a, 1))
    else if 0xc2 <= a < 0xe0 && Continues(bytes, 1) then Some(Taken((a - 0xc0) * 64 + Low(bytes[1]), 2))
    else if 0xe0 <= a < 0xf0 && Continues(bytes, 1) && Continues(bytes, 2) then
      var scalar := (a - 0xe0) * 4096 + Low(bytes[1]) * 64 + Low(bytes[2]);
      if scalar < 0x800 || !IsScalar(scalar) then None else Some(Taken(scalar, 3))
    else if 0xf0 <= a < 0xf5 && Continues(bytes, 1) && Continues(bytes, 2) && Continues(bytes, 3) then
      var scalar := (a - 0xf0) * 262144 + Low(bytes[1]) * 4096 + Low(bytes[2]) * 64 + Low(bytes[3]);
      if scalar < 0x10000 || !IsScalar(scalar) then None else Some(Taken(scalar, 4))
    else None
  }

  /** `from_utf8`. */
  function Decode(bytes: seq<Byte>): Option<string>
    decreases |bytes|
  {
    if bytes == [] then Some("")
    else
      match FirstScalar(bytes)
      case None => None
      case Some(first) =>
        match Decode(bytes[first.cursor..])
        case None => None
        case Some(rest) => Some([first.value as char] + rest)
  }

  predicate IsText(bytes: seq<Byte>) {
    Decode(bytes).Some?
  }

  /** `trim().is_empty()`. */
  predicate Blank(bytes: seq<Byte>)
    requires IsText(bytes)
  {
    forall i | 0 <= i < |Decode(bytes).value| :: IsWhitespace(Decode(bytes).value[i])
  }

  function CharBytes(c: char): (bytes: seq<Byte>)
    ensures 1 <= |bytes| <= 4
  {
    var n := c as int;
    if n < 0x80 then [n]
    else if n < 0x800 then [0xc0 + n / 64, 0x80 + n % 64]
    else if n < 0x10000 then [0xe0 + n / 4096, 0x80 + n / 64 % 64, 0x80 + n % 64]
    else [0xf0 + n / 262144, 0x80 + n / 4096 % 64, 0x80 + n / 64 % 64, 0x80 + n % 64]
  }

  function Encode(s: string): seq<Byte> {
    if s == "" then [] else CharBytes(s[0]) + Encode(s[1..])
  }

  lemma SixBits(n: nat)
    ensures n == n / 64 * 64 + n % 64
    ensures n / 64 == n / 4096 * 64 + n / 64 % 64
    ensures n / 4096 == n / 262144 * 64 + n / 4096 % 64
  {
  }

  lemma CharReads(c: char, rest: seq<Byte>)
    ensures FirstScalar(CharBytes(c) + rest) == Some(Taken(c as int, |CharBytes(c)|))
  {
    SixBits(c as int);
  }

  /** Text comes back from its bytes. */
  lemma {:induction false} TextRoundTrip(s: string)
    ensures Decode(Encode(s)) == Some(s)
  {
    if s != "" {
      CharReads(s[0], Encode(s[1..]));
      TextRoundTrip(s[1..]);
      assert (CharBytes(s[0]) + Encode(s[1..]))[|CharBytes(s[0])|..] == Encode(s[1..]);
      assert s == [s[0]] + s[1..];
    }
  }

  /** The bytes of ASCII text. */
  function Ascii(s: string): (bytes: seq<Byte>)
    ensures |bytes| == |s| && forall i | 0 <= i < |s| :: bytes[i] < 128
  {
    seq(|s|, i requires 0 <= i < |s| => s[i] as int % 128)
  }

  predicate IsAscii(s: string) {
    forall i | 0 <= i < |s| :: s[i] as int < 128
  }

  lemma AsciiIsInjective(left: string, right: string)
    requires IsAscii(left) && IsAscii(right)
    ensures Ascii(left) == Ascii(right) <==> left == right
  {
    if Ascii(left) == Ascii(right) {
      forall i | 0 <= i < |left| ensures left[i] == right[i] {
        assert Ascii(left)[i] == Ascii(right)[i];
      }
    }
  }

  lemma {:induction false} AsciiIsText(bytes: seq<Byte>)
    requires forall i | 0 <= i < |bytes| :: bytes[i] < 128
    ensures IsText(bytes)
    decreases |bytes|
  {
    if bytes != [] { AsciiIsText(bytes[1..]); }
  }

  /** An ASCII byte never completes or breaks a character before it. */
  lemma {:induction false} AsciiExtends(bytes: seq<Byte>, b: Byte)
    requires b < 128
    ensures Decode(bytes + [b]) == match Decode(bytes) case None => None case Some(s) => Some(s + [b as char])
    decreases |bytes|
  {
    if bytes == [] {
      assert bytes + [b] == [b] && FirstScalar([b]) == Some(Taken(b as int, 1)) && [b][1..] == [];
      assert Decode([b]) == Some([b as char] + "");
      assert [b as char] + "" == "" + [b as char];
    } else {
      AsciiStaysOut(bytes, b);
      if FirstScalar(bytes).Some? {
        var n := FirstScalar(bytes).value.cursor;
        AsciiExtends(bytes[n..], b);
        assert (bytes + [b])[n..] == bytes[n..] + [b];
        if Decode(bytes[n..]).Some? {
          var first, rest := [FirstScalar(bytes).value.value as char], Decode(bytes[n..]).value;
          assert first + (rest + [b as char]) == (first + rest) + [b as char];
        }
      }
    }
  }

  lemma AsciiStaysOut(bytes: seq<Byte>, b: Byte)
    requires b < 128 && bytes != []
    ensures FirstScalar(bytes + [b]) == FirstScalar(bytes)
  {
    var longer := bytes + [b];
    assert forall i | 0 <= i < |bytes| :: longer[i] == bytes[i];
    assert longer[|bytes|] == b;
  }

  /** ASCII bytes as text. */
  function AsciiText(bytes: seq<Byte>): (s: string)
    requires forall i | 0 <= i < |bytes| :: bytes[i] < 128
    ensures |s| == |bytes|
  {
    if bytes == [] then "" else AsciiText(bytes[..|bytes| - 1]) + [bytes[|bytes| - 1] as char]
  }

  lemma {:induction false} AsciiTail(bytes: seq<Byte>, tail: seq<Byte>)
    requires forall i | 0 <= i < |tail| :: tail[i] < 128
    ensures Decode(bytes + tail) == match Decode(bytes) case None => None case Some(s) => Some(s + AsciiText(tail))
    decreases |tail|
  {
    if tail == [] {
      assert bytes + tail == bytes;
      assert Decode(bytes).Some? ==> Decode(bytes).value + "" == Decode(bytes).value;
    } else {
      var front, b := tail[..|tail| - 1], tail[|tail| - 1];
      AsciiTail(bytes, front);
      AsciiExtends(bytes + front, b);
      assert bytes + tail == (bytes + front) + [b];
      if Decode(bytes).Some? {
        assert Decode(bytes).value + (AsciiText(front) + [b as char]) ==
          (Decode(bytes).value + AsciiText(front)) + [b as char];
      }
    }
  }
}
