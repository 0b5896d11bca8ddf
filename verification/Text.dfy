/** The string operations the root-policy and proxy code rely on, over Unicode scalar values. */
module Text {
  import opened Common

  /** The Unicode `White_Space` property, which `trim` and `split_whitespace` use. */
  predicate IsWhitespaceCode(c: nat) {
    || 0x09 <= c <= 0x0d
    || c in {0x20, 0x85, 0xa0, 0x1680, 0x2028, 0x2029, 0x202f, 0x205f, 0x3000}
    || 0x2000 <= c <= 0x200a
  }

  predicate IsWhitespace(c: char) {
    IsWhitespaceCode(c as int)
  }

  function WordLength(s: string): (n: nat)
    ensures n <= |s|
    ensures s != "" && !IsWhitespace(s[0]) ==> 0 < n
  {
    if s == "" || IsWhitespace(s[0]) then 0 else 1 + WordLength(s[1..])
  }

  /** `str::split_whitespace`: the maximal runs of non-whitespace. */
  function SplitWhitespace(s: string): seq<string>
    decreases |s|
  {
    if s == "" then []
    else if IsWhitespace(s[0]) then SplitWhitespace(s[1..])
    else
      var n := WordLength(s);
      [s[..n]] + SplitWhitespace(s[n..])
  }

  function TrimStart(s: string): string {
    if s != "" && IsWhitespace(s[0]) then TrimStart(s[1..]) else s
  }

  function TrimEnd(s: string): string {
    if s != "" && IsWhitespace(s[|s| - 1]) then TrimEnd(s[..|s| - 1]) else s
  }

  function Trim(s: string): string {
    TrimEnd(TrimStart(s))
  }

  /** `[_]::join(" ")`. */
  function JoinWords(words: seq<string>): string {
    if words == [] then ""
    else if |words| == 1 then words[0]
    else words[0] + " " + JoinWords(words[1..])
  }

  predicate Contains(s: string, part: string) {
    exists i {:trigger s[i..]} | 0 <= i <= |s| - |part| :: part <= s[i..]
  }

  function IndexOf(s: string, c: char): (i: nat)
    ensures i <= |s|
    ensures i < |s| ==> s[i] == c
    ensures forall k | 0 <= k < i :: s[k] != c
  {
    if s == "" || s[0] == c then 0 else 1 + IndexOf(s[1..], c)
  }

  /** `str::split_once(c)`. */
  function SplitOnce(s: string, c: char): Option<(string, string)> {
    var i := IndexOf(s, c);
    if i < |s| then Some((s[..i], s[i + 1..])) else None
  }

  /** `str::split(c)`: always at least one part. */
  function SplitOn(s: string, c: char): (parts: seq<string>)
    ensures |parts| >= 1
    decreases |s|
  {
    var i := IndexOf(s, c);
    if i < |s| then [s[..i]] + SplitOn(s[i + 1..], c) else [s]
  }

  function DigitValue(c: char): nat {
    if '0' <= c <= '9' then c as int - '0' as int
    else if 'a' <= c <= 'f' then 10 + (c as int - 'a' as int)
    else if 'A' <= c <= 'F' then 10 + (c as int - 'A' as int)
    else 16
  }

  function DigitsValue(s: string, radix: nat): Option<nat> {
    if s == "" then Some(0)
    else
      var d := DigitValue(s[|s| - 1]);
      match DigitsValue(s[..|s| - 1], radix)
      case None => None
      case Some(high) => if d < radix then Some(high * radix + d) else None
  }

  /** `from_str_radix` for an unsigned type below `limit`: an optional `+`, then at least one digit. */
  function ParseRadix(raw: string, radix: nat, limit: nat): (r: Option<nat>)
    ensures r.Some? ==> r.value < limit
  {
    var digits := if raw != "" && raw[0] == '+' then raw[1..] else raw;
    if digits == "" then None
    else
      match DigitsValue(digits, radix)
      case None => None
      case Some(n) => if n < limit then Some(n) else None
  }

  /** Decimal rendering, as `format!("{}", n)` gives it. */
  function Decimal(n: nat): string {
    if n < 10 then ["0123456789"[n]] else Decimal(n / 10) + ["0123456789"[n % 10]]
  }

  lemma DigitReads(d: nat)
    requires d < 10
    ensures DigitValue("0123456789"[d]) == d && "0123456789"[d] != '+' && "0123456789"[d] != ':'
  {
  }

  lemma {:induction false} DecimalValue(n: nat)
    ensures Decimal(n) != "" && Decimal(n)[0] != '+' && ':' !in Decimal(n)
    ensures DigitsValue(Decimal(n), 10) == Some(n)
  {
    DigitReads(n % 10);
    if n >= 10 {
      DecimalValue(n / 10);
      assert Decimal(n)[..|Decimal(n)| - 1] == Decimal(n / 10);
    } else {
      assert DigitsValue("", 10) == Some(0);
      assert Decimal(n)[..0] == "";
    }
  }

  /** A rendered number is parsed back. */
  lemma DecimalRoundTrip(n: nat, limit: nat)
    requires n < limit
    ensures ParseRadix(Decimal(n), 10, limit) == Some(n)
  {
    DecimalValue(n);
  }

  lemma {:induction false} DecimalIsShort(n: nat)
    ensures |Decimal(n)| <= n / 10 + 1
  {
    if n >= 10 { DecimalIsShort(n / 10); }
  }

  lemma {:induction false} DecimalIsDigits(n: nat)
    ensures Decimal(n) != "" && forall i | 0 <= i < |Decimal(n)| :: '0' <= Decimal(n)[i] <= '9'
  {
    if n >= 10 { DecimalIsDigits(n / 10); }
  }

  const LOWER_DIGITS: string := "0123456789abcdef"
  const UPPER_DIGITS: string := "0123456789ABCDEF"

  /** Hexadecimal rendering with either set of digits. */
  function Hex(n: nat, digits: string): string
    requires |digits| == 16
  {
    if n < 16 then [digits[n]] else Hex(n / 16, digits) + [digits[n % 16]]
  }

  lemma HexDigitReads(d: nat, digits: string)
    requires d < 16 && (digits == LOWER_DIGITS || digits == UPPER_DIGITS)
    ensures DigitValue(digits[d]) == d && digits[d] != '+'
  {
  }

  lemma {:induction false} HexValue(n: nat, digits: string)
    requires digits == LOWER_DIGITS || digits == UPPER_DIGITS
    ensures Hex(n, digits) != "" && Hex(n, digits)[0] != '+'
    ensures DigitsValue(Hex(n, digits), 16) == Some(n)
  {
    HexDigitReads(n % 16, digits);
    hide DigitValue;
    if n >= 16 {
      HexValue(n / 16, digits);
      var s := Hex(n, digits);
      assert s[..|s| - 1] == Hex(n / 16, digits) && s[|s| - 1] == digits[n % 16];
    } else {
      assert DigitsValue("", 16) == Some(0);
      assert Hex(n, digits)[..0] == "";
    }
  }

  // ----- words written with spaces are read back ------------------------------------------------------

  predicate Spaceless(s: string) {
    forall i | 0 <= i < |s| :: !IsWhitespace(s[i])
  }

  predicate Solid(word: string) {
    word != "" && Spaceless(word)
  }

  lemma {:induction false} WordLengthOf(word: string, rest: string)
    requires Spaceless(word) && (rest == "" || IsWhitespace(rest[0]))
    ensures WordLength(word + rest) == |word|
  {
    if word != "" {
      WordLengthOf(word[1..], rest);
      assert (word + rest)[1..] == word[1..] + rest;
    } else {
      assert word + rest == rest;
    }
  }

  lemma {:induction false} SplitJoined(words: seq<string>)
    requires forall i | 0 <= i < |words| :: Solid(words[i])
    ensures SplitWhitespace(JoinWords(words)) == words
  {
    if |words| == 1 {
      WordLengthOf(words[0], "");
      assert words[0] + "" == words[0];
    } else if |words| > 1 {
      var rest := " " + JoinWords(words[1..]);
      var line := JoinWords(words);
      assert line == words[0] + rest;
      WordLengthOf(words[0], rest);
      assert line[..|words[0]|] == words[0] && line[|words[0]|..] == rest;
      assert rest[1..] == JoinWords(words[1..]);
      SplitJoined(words[1..]);
    }
  }

  lemma {:induction false} JoinedEnds(words: seq<string>)
    requires words != [] && forall i | 0 <= i < |words| :: Solid(words[i])
    ensures var line := JoinWords(words);
      words[0] <= line && line != "" && !IsWhitespace(line[0]) && !IsWhitespace(line[|line| - 1])
  {
    if |words| > 1 { JoinedEnds(words[1..]); }
  }

  lemma TrimJoined(words: seq<string>)
    requires words != [] && forall i | 0 <= i < |words| :: Solid(words[i])
    ensures Trim(JoinWords(words)) == JoinWords(words) != ""
  {
    JoinedEnds(words);
  }
}
