/** One bounded, authenticated HTTP CONNECT request. */
module HttpConnect {
  import opened Common
  import opened Text
  import opened Utf8
  import opened ProxyStream

  datatype Error =
    | HeaderTooLarge
    | IncompleteHeader
    | MalformedHeader
    | MalformedRequestLine
    | MethodNotAllowed
    | UnsupportedHttpVersion
    | DuplicateProxyAuthorization
    | ProxyAuthenticationRequired
    | ProxyAuthenticationFailed
    | InvalidTarget
    | RejectedTarget

  /** The text parsers for addresses; `v4` and `v6` give the octets of what they recognise. */
  datatype Addresses = Addresses(v4: string -> Option<seq<Byte>>, v6: string -> Option<seq<Byte>>)

  ghost predicate SoundAddresses(ip: Addresses) {
    && (forall s: string | ip.v4(s).Some? :: |ip.v4(s).value| == 4)
    && (forall s: string | ip.v6(s).Some? :: |ip.v6(s).value| == 16)
  }

  const MAX_HEADER_BYTES: nat := 16 * 1024
  const END: seq<Byte> := [13, 10, 13, 10]

  predicate Ended(request: seq<Byte>) {
    |request| >= 4 && request[|request| - 4..] == END
  }

  // ----- lines and words -----------------------------------------------------------------------------------

  /** `split("\r\n")`. */
  function SplitLines(s: string): (lines: seq<string>)
    ensures lines != []
    decreases |s|
  {
    if |s| < 2 then [s]
    else if s[0] == '\r' && s[1] == '\n' then [""] + SplitLines(s[2..])
    else
      var rest := SplitLines(s[1..]);
      [[s[0]] + rest[0]] + rest[1..]
  }

  predicate AsciiSpace(c: char) {
    c in {' ', '\t', '\n', '\r'} || c as int == 12
  }

  function AsciiWordLength(s: string): (n: nat)
    ensures n <= |s| && (s != "" && !AsciiSpace(s[0]) ==> n > 0)
  {
    if s == "" || AsciiSpace(s[0]) then 0 else 1 + AsciiWordLength(s[1..])
  }

  /** `split_ascii_whitespace`. */
  function AsciiWords(s: string): seq<string>
    decreases |s|
  {
    if s == "" then []
    else if AsciiSpace(s[0]) then AsciiWords(s[1..])
    else
      var n := AsciiWordLength(s);
      [s[..n]] + AsciiWords(s[n..])
  }

  function Lower(c: char): char {
    if 'A' <= c <= 'Z' then (c as int + 32) as char else c
  }

  predicate SameIgnoringCase(left: string, right: string) {
    |left| == |right| && forall i | 0 <= i < |left| :: Lower(left[i]) == Lower(right[i])
  }

  // ----- header fields ------------------------------------------------------------------------------------

  const AUTHORIZATION: string := "Proxy-Authorization"

  predicate WellFormedLine(line: string) {
    && SplitOnce(line, ':').Some?
    && SplitOnce(line, ':').value.0 != ""
    && forall i | 0 <= i < |SplitOnce(line, ':').value.0| :: !AsciiSpace(SplitOnce(line, ':').value.0[i])
  }

  predicate IsAuthorization(line: string) {
    WellFormedLine(line) && SameIgnoringCase(SplitOnce(line, ':').value.0, AUTHORIZATION)
  }

  function FieldValue(line: string): string
    requires WellFormedLine(line)
  {
    Trim(SplitOnce(line, ':').value.1)
  }

  /** The scan in order: the first fault decides the error. */
  function ScanLines(lines: seq<string>, found: Option<string>): Result<Option<string>, Error>
    decreases |lines|
  {
    if lines == [] then Ok(found)
    else if !WellFormedLine(lines[0]) then Err(MalformedHeader)
    else if !IsAuthorization(lines[0]) then ScanLines(lines[1..], found)
    else if found.Some? then Err(DuplicateProxyAuthorization)
    else ScanLines(lines[1..], Some(FieldValue(lines[0])))
  }

  method ScanHeader(lines: seq<string>) returns (result: Result<Option<string>, Error>)
    ensures result == ScanLines(lines, None)
  {
    var found: Option<string> := None;
    for i := 0 to |lines|
      invariant ScanLines(lines, None) == ScanLines(lines[i..], found)
    {
      assert lines[i..][0] == lines[i] && lines[i..][1..] == lines[i + 1..];
      var line := lines[i];
      if line == "" { return Err(MalformedHeader); }
      var parts := SplitOnce(line, ':');
      if parts.None? { return Err(MalformedHeader); }
      var name, value := parts.value.0, parts.value.1;
      if name == "" || exists k | 0 <= k < |name| :: AsciiSpace(name[k]) { return Err(MalformedHeader); }
      if SameIgnoringCase(name, AUTHORIZATION) {
        if found.Some? { return Err(DuplicateProxyAuthorization); }
        found := Some(Trim(value));
      }
    }
    return Ok(found);
  }

  predicate OnlyAuthorization(lines: seq<string>, k: nat) {
    k < |lines| && forall i | 0 <= i < |lines| :: WellFormedLine(lines[i]) && (IsAuthorization(lines[i]) <==> i == k)
  }

  lemma {:induction false} QuietScan(lines: seq<string>, found: Option<string>)
    requires found.Some?
    ensures ScanLines(lines, found).Ok? <==> forall i | 0 <= i < |lines| ::
      WellFormedLine(lines[i]) && !IsAuthorization(lines[i])
    ensures ScanLines(lines, found).Ok? ==> ScanLines(lines, found).value == found
    decreases |lines|
  {
    if lines != [] {
      QuietScan(lines[1..], found);
      assert forall i | 0 < i < |lines| :: lines[i] == lines[1..][i - 1];
    }
  }

  /** The scan yields a value exactly when every line is well formed and one alone is the authorization. */
  lemma {:induction false} ScanFindsTheOne(lines: seq<string>, k: nat)
    requires OnlyAuthorization(lines, k)
    ensures ScanLines(lines, None) == Ok(Some(FieldValue(lines[k])))
    decreases |lines|
  {
    if k == 0 {
      assert forall i | 0 <= i < |lines| - 1 :: lines[1..][i] == lines[i + 1];
      QuietScan(lines[1..], Some(FieldValue(lines[0])));
    } else {
      assert forall i | 0 <= i < |lines| - 1 :: lines[1..][i] == lines[i + 1];
      ScanFindsTheOne(lines[1..], k - 1);
    }
  }

  lemma {:induction false} TheOneWasScanned(lines: seq<string>) returns (k: nat)
    requires ScanLines(lines, None).Ok? && ScanLines(lines, None).value.Some?
    ensures OnlyAuthorization(lines, k)
    decreases |lines|
  {
    assert forall i | 0 < i < |lines| :: lines[i] == lines[1..][i - 1];
    if IsAuthorization(lines[0]) {
      QuietScan(lines[1..], Some(FieldValue(lines[0])));
      k := 0;
    } else {
      k := TheOneWasScanned(lines[1..]);
      k := k + 1;
    }
  }

  // ----- the authority ------------------------------------------------------------------------------------

  /** `rsplit_once(c)`. */
  function SplitLast(s: string, c: char): (parts: Option<(string, string)>)
    ensures parts.Some? ==> s == parts.value.0 + [c] + parts.value.1 && c !in parts.value.1
    ensures parts.None? ==> c !in s
  {
    if s == "" then None
    else
      var last := |s| - 1;
      if s[last] == c then Some((s[..last], ""))
      else
        match SplitLast(s[..last], c)
        case None => None
        case Some((left, right)) => Some((left, right + [s[last]]))
  }

  predicate ControlChar(c: char) {
    c as int < 32 || c as int == 127
  }

  function ParsePort(raw: string): Option<nat> {
    match ParseRadix(raw, 10, 65536)
    case None => None
    case Some(port) => if port == 0 then None else Some(port)
  }

  function ParseBracketed(rest: string, ip: Addresses): Result<Target, Error> {
    match SplitOnce(rest, ']')
    case None => Err(InvalidTarget)
    case Some((host, tail)) =>
      if tail == "" || tail[0] != ':' || host == "" || tail[1..] == "" || ':' in tail[1..] then Err(InvalidTarget)
      else
        match (ip.v6(host), ParsePort(tail[1..]))
        case (Some(octets), Some(port)) => Ok(Target(Ipv6(octets), port))
        case _ => Err(InvalidTarget)
  }

  function DomainTarget(host: string, port: nat): Result<Target, Error> {
    if |Encode(host)| > 255 then Err(RejectedTarget) else Ok(Target(Domain(Encode(host)), port))
  }

  predicate HostText(host: string) {
    host != "" && forall i | 0 <= i < |host| :: host[i] !in {':', '/', '@', '#', '?'} && !ControlChar(host[i])
  }

  function ParsePlain(authority: string, ip: Addresses): Result<Target, Error> {
    match SplitLast(authority, ':')
    case None => Err(InvalidTarget)
    case Some((host, raw)) =>
      if raw == "" || host == "" || (exists i | 0 <= i < |host| :: host[i] in {':', '/', '@', '#', '?'}) then
        Err(InvalidTarget)
      else
        match ParsePort(raw)
        case None => Err(InvalidTarget)
        case Some(port) =>
          if ip.v4(host).Some? then Ok(Target(Ipv4(ip.v4(host).value), port))
          else if ip.v6(host).Some? then Err(InvalidTarget)
          else DomainTarget(host, port)
  }

  function ParseAuthority(authority: string, ip: Addresses): Result<Target, Error> {
    if authority == "" || exists i | 0 <= i < |authority| :: ControlChar(authority[i]) then Err(InvalidTarget)
    else if authority[0] == '[' then ParseBracketed(authority[1..], ip)
    else ParsePlain(authority, ip)
  }

  lemma {:induction false} EncodeControlFree(s: string)
    requires forall i | 0 <= i < |s| :: !ControlChar(s[i])
    ensures forall i | 0 <= i < |Encode(s)| :: !Control(Encode(s)[i])
  {
    if s != "" {
      EncodeControlFree(s[1..]);
      assert !ControlChar(s[0]);
      assert forall i | 0 <= i < |CharBytes(s[0])| :: !Control(CharBytes(s[0])[i]);
    }
  }

  lemma {:induction false} EncodeNonEmpty(s: string)
    ensures s != "" ==> Encode(s) != []
  {
  }

  /** Every parsed destination is one the proxy may connect to. */
  lemma ParsedTargetIsValid(authority: string, ip: Addresses)
    requires SoundAddresses(ip) && ParseAuthority(authority, ip).Ok?
    ensures ValidTarget(ParseAuthority(authority, ip).value)
  {
    if authority[0] != '[' {
      var host := SplitLast(authority, ':').value.0;
      assert forall i | 0 <= i < |host| :: host[i] == authority[i];
      TextRoundTrip(host);
      EncodeControlFree(host);
      EncodeNonEmpty(host);
    }
  }

  lemma LastCutIsUnique(left: string, right: string, left': string, right': string, c: char)
    requires left + [c] + right == left' + [c] + right' && c !in right && c !in right'
    ensures left == left' && right == right'
  {
    var s, s' := left + [c] + right, left' + [c] + right';
    assert s[|left|] == c && s'[|left'|] == c;
    assert (forall i | |left| < i < |s| :: s[i] != c) && forall i | |left'| < i < |s'| :: s'[i] != c;
    assert |left| == |left'|;
    assert left == s[..|left|] && left' == s'[..|left'|];
    assert right == s[|left| + 1..] && right' == s'[|left'| + 1..];
  }

  lemma SplitLastOf(left: string, c: char, right: string)
    requires c !in right
    ensures SplitLast(left + [c] + right, c) == Some((left, right))
  {
    var s := left + [c] + right;
    assert s[|left|] == c;
    var parts := SplitLast(s, c).value;
    LastCutIsUnique(left, right, parts.0, parts.1, c);
  }

  lemma PlainReads(authority: string, host: string, raw: string, port: nat, ip: Addresses)
    requires SplitLast(authority, ':') == Some((host, raw)) && raw != "" && ParsePort(raw) == Some(port)
    requires HostText(host) && |Encode(host)| <= 255 && ip.v4(host).None? && ip.v6(host).None?
    ensures ParsePlain(authority, ip) == Ok(Target(Domain(Encode(host)), port))
  {
  }

  /** A rendered name and port are parsed back to the same destination. */
  lemma AuthorityRoundTrip(host: string, port: nat, ip: Addresses)
    requires HostText(host) && host[0] != '[' && |Encode(host)| <= 255 && 1 <= port <= 65535
    requires ip.v4(host).None? && ip.v6(host).None?
    ensures ParseAuthority(host + [':'] + Decimal(port), ip) == Ok(Target(Domain(Encode(host)), port))
  {
    DecimalRoundTrip(port, 65536);
    DecimalValue(port);
    SplitLastOf(host, ':', Decimal(port));
    PlainReads(host + [':'] + Decimal(port), host, Decimal(port), port, ip);
    DecimalIsPrintable(port);
    PrintableJoins(host, Decimal(port));
  }

  lemma PrintableJoins(host: string, raw: string)
    requires HostText(host) && forall i | 0 <= i < |raw| :: !ControlChar(raw[i])
    ensures forall i | 0 <= i < |host + [':'] + raw| :: !ControlChar((host + [':'] + raw)[i])
  {
  }

  lemma {:induction false} DecimalIsPrintable(n: nat)
    ensures forall i | 0 <= i < |Decimal(n)| :: !ControlChar(Decimal(n)[i])
  {
    if n >= 10 { DecimalIsPrintable(n / 10); }
    assert !ControlChar("0123456789"[n % 10]);
  }

  // ----- exactly which authorities are accepted -------------------------------------------------------------

  predicate Printable(s: string) {
    forall i | 0 <= i < |s| :: !ControlChar(s[i])
  }

  /** `[host]:raw` with an IPv6 host and a port. */
  predicate Bracketed(authority: string, host: string, raw: string, ip: Addresses, t: Target) {
    && authority == ['['] + (host + ([']'] + ([':'] + raw)))
    && host != "" && ']' !in host && Printable(host)
    && ip.v6(host).Some? && ParsePort(raw).Some?
    && t == Target(Ipv6(ip.v6(host).value), ParsePort(raw).value)
  }

  /** `host:raw` with a port and a host that is IPv4, or else a name of at most 255 bytes that is not IPv6. */
  predicate Plain(authority: string, host: string, raw: string, ip: Addresses, t: Target) {
    && authority == host + [':'] + raw && HostText(host) && host[0] != '[' && ParsePort(raw).Some?
    && t.port == ParsePort(raw).value
    && if ip.v4(host).Some? then t.host == Ipv4(ip.v4(host).value)
       else ip.v6(host).None? && |Encode(host)| <= 255 && t.host == Domain(Encode(host))
  }

  lemma {:induction false} DigitsAreDigits(s: string)
    requires DigitsValue(s, 10).Some?
    ensures forall i | 0 <= i < |s| :: '0' <= s[i] <= '9'
  {
    if s != "" { DigitsAreDigits(s[..|s| - 1]); }
  }

  /** What parses as a port holds no colon and nothing unprintable. */
  lemma PortsArePlain(raw: string)
    requires ParsePort(raw).Some?
    ensures raw != "" && ':' !in raw && Printable(raw)
  {
    var digits := if raw != "" && raw[0] == '+' then raw[1..] else raw;
    DigitsAreDigits(digits);
    forall i | 0 <= i < |raw| ensures raw[i] != ':' && !ControlChar(raw[i]) {
      if digits == raw { assert raw[i] == digits[i]; } else if i > 0 { assert raw[i] == digits[i - 1]; }
    }
  }

  lemma {:induction false} IndexOfCut(left: string, c: char, right: string)
    requires c !in left
    ensures IndexOf(left + ([c] + right), c) == |left|
    decreases |left|
  {
    var s := left + ([c] + right);
    if left == "" {
      assert s == [c] + right;
    } else {
      IndexOfCut(left[1..], c, right);
      assert s[1..] == left[1..] + ([c] + right);
    }
  }

  lemma FirstCut(left: string, c: char, right: string)
    requires c !in left
    ensures SplitOnce(left + ([c] + right), c) == Some((left, right))
  {
    IndexOfCut(left, c, right);
    var s := left + ([c] + right);
    assert s[..|left|] == left && s[|left| + 1..] == right;
  }

  lemma WasFirstCut(s: string, c: char)
    requires SplitOnce(s, c).Some?
    ensures var (left, right) := SplitOnce(s, c).value; s == left + ([c] + right) && c !in left
  {
    var i := IndexOf(s, c);
    assert s == s[..i] + ([s[i]] + s[i + 1..]);
  }

  lemma BracketedIsAccepted(authority: string, host: string, raw: string, ip: Addresses, t: Target)
    requires Bracketed(authority, host, raw, ip, t)
    ensures ParseAuthority(authority, ip) == Ok(t)
  {
    hide ParsePort, ParsePlain;
    PortsArePlain(raw);
    var tail := [':'] + raw;
    FirstCut(host, ']', tail);
    assert authority[1..] == host + ([']'] + tail) && tail[1..] == raw;
    assert forall i | 0 <= i < |authority| :: !ControlChar(authority[i]);
  }

  lemma BracketedWasAccepted(authority: string, ip: Addresses) returns (host: string, raw: string)
    requires ParseAuthority(authority, ip).Ok? && authority[0] == '['
    ensures Bracketed(authority, host, raw, ip, ParseAuthority(authority, ip).value)
  {
    hide ParsePort, ParsePlain;
    var rest := authority[1..];
    WasFirstCut(rest, ']');
    host, raw := SplitOnce(rest, ']').value.0, SplitOnce(rest, ']').value.1[1..];
    assert SplitOnce(rest, ']').value.1 == [':'] + raw;
    assert authority == ['['] + rest;
    assert forall i | 0 <= i < |host| :: host[i] == authority[i + 1];
  }

  lemma PlainIsAccepted(authority: string, host: string, raw: string, ip: Addresses, t: Target)
    requires Plain(authority, host, raw, ip, t)
    ensures ParseAuthority(authority, ip) == Ok(t)
  {
    hide ParsePort, ParseBracketed, Encode;
    PortsArePlain(raw);
    SplitLastOf(host, ':', raw);
    PrintableJoins(host, raw);
    assert authority[0] == host[0];
  }

  lemma PlainWasAccepted(authority: string, ip: Addresses) returns (host: string, raw: string)
    requires ParseAuthority(authority, ip).Ok? && authority[0] != '['
    ensures Plain(authority, host, raw, ip, ParseAuthority(authority, ip).value)
  {
    hide ParsePort, ParseBracketed, Encode;
    host, raw := SplitLast(authority, ':').value.0, SplitLast(authority, ':').value.1;
    assert forall i | 0 <= i < |host| :: host[i] == authority[i];
  }

  /** An authority is accepted exactly in the two forms, and means exactly what they say. */
  lemma AuthorityAcceptedExactly(authority: string, ip: Addresses, t: Target)
    ensures ParseAuthority(authority, ip) == Ok(t) <==>
      exists host: string, raw: string :: Bracketed(authority, host, raw, ip, t) || Plain(authority, host, raw, ip, t)
  {
    hide Bracketed, Plain, ParsePlain, ParseBracketed;
    if ParseAuthority(authority, ip) == Ok(t) {
      var host, raw;
      if authority[0] == '[' {
        host, raw := BracketedWasAccepted(authority, ip);
      } else {
        host, raw := PlainWasAccepted(authority, ip);
      }
      assert Bracketed(authority, host, raw, ip, t) || Plain(authority, host, raw, ip, t);
    }
    forall host: string, raw: string | Bracketed(authority, host, raw, ip, t) || Plain(authority, host, raw, ip, t)
      ensures ParseAuthority(authority, ip) == Ok(t)
    {
      if Bracketed(authority, host, raw, ip, t) {
        BracketedIsAccepted(authority, host, raw, ip, t);
      } else {
        PlainIsAccepted(authority, host, raw, ip, t);
      }
    }
  }

  // ----- the request --------------------------------------------------------------------------------------

  /** A request with an ASCII end is text exactly when what precedes the end is. */
  lemma HeaderIsText(request: seq<Byte>)
    requires Ended(request)
    ensures Decode(request) == match Decode(request[..|request| - 4])
      case None => None
      case Some(header) => Some(header + AsciiText(END))
  {
    AsciiTail(request[..|request| - 4], END);
    assert request == request[..|request| - 4] + END;
  }

  function RequestLineError(words: seq<string>): Option<Error> {
    if |words| != 3 then Some(MalformedRequestLine)
    else if words[0] != "CONNECT" then Some(MethodNotAllowed)
    else if words[2] != "HTTP/1.1" && words[2] != "HTTP/1.0" then Some(UnsupportedHttpVersion)
    else None
  }

  /** `accepts` is the verdict on the trimmed value of the authorization field. */
  function ParseHeader(header: string, ip: Addresses, accepts: string -> bool): Result<Target, Error> {
    var lines := SplitLines(header);
    var words := AsciiWords(lines[0]);
    if RequestLineError(words).Some? then Err(RequestLineError(words).value)
    else
      match ScanLines(lines[1..], None)
      case Err(error) => Err(error)
      case Ok(None) => Err(ProxyAuthenticationRequired)
      case Ok(Some(value)) => if !accepts(value) then Err(ProxyAuthenticationFailed) else ParseAuthority(words[1], ip)
  }

  function ParseRequest(request: seq<Byte>, ip: Addresses, accepts: string -> bool): Result<Target, Error> {
    if |request| > MAX_HEADER_BYTES then Err(HeaderTooLarge)
    else if !Ended(request) then Err(IncompleteHeader)
    else
      match Decode(request[..|request| - 4])
      case None => Err(MalformedHeader)
      case Some(header) => ParseHeader(header, ip, accepts)
  }

  method ParseHttpConnectRequest(request: seq<Byte>, ip: Addresses, accepts: string -> bool)
    returns (result: Result<Target, Error>)
    ensures result == ParseRequest(request, ip, accepts)
  {
    if |request| > MAX_HEADER_BYTES { return Err(HeaderTooLarge); }
    if !Ended(request) { return Err(IncompleteHeader); }
    HeaderIsText(request);
    var text := Decode(request);
    if text.None? { return Err(MalformedHeader); }
    var header := text.value[..|text.value| - 4];
    assert header == Decode(request[..|request| - 4]).value;
    var lines := SplitLines(header);
    var words := AsciiWords(lines[0]);
    if RequestLineError(words).Some? { return Err(RequestLineError(words).value); }
    var found := ScanHeader(lines[1..]);
    if found.Err? { return Err(found.error); }
    if found.value.None? { return Err(ProxyAuthenticationRequired); }
    if !accepts(found.value.value) { return Err(ProxyAuthenticationFailed); }
    return ParseAuthority(words[1], ip);
  }

  /** A CONNECT request line, well-formed fields, exactly one accepted authorization: nothing less, nothing more. */
  lemma HeaderAcceptedExactly(header: string, ip: Addresses, accepts: string -> bool, target: Target)
    ensures ParseHeader(header, ip, accepts) == Ok(target) <==>
      var lines := SplitLines(header);
      var words := AsciiWords(lines[0]);
      && |words| == 3 && words[0] == "CONNECT" && words[2] in {"HTTP/1.1", "HTTP/1.0"}
      && (exists k | 0 <= k < |lines[1..]| :: OnlyAuthorization(lines[1..], k) && accepts(FieldValue(lines[1..][k])))
      && ParseAuthority(words[1], ip) == Ok(target)
  {
    var fields := SplitLines(header)[1..];
    var scan := ScanLines(fields, None);
    if scan.Ok? && scan.value.Some? {
      var k := TheOneWasScanned(fields);
      ScanFindsTheOne(fields, k);
      assert OnlyAuthorization(fields, k);
    }
    forall k | 0 <= k < |fields| && OnlyAuthorization(fields, k) ensures scan == Ok(Some(FieldValue(fields[k]))) {
      ScanFindsTheOne(fields, k);
    }
  }

  // ----- one byte at a time -------------------------------------------------------------------------------

  /** The least number of bytes, at least `from`, after which the input has ended a header. */
  function HeaderEnd(input: seq<Byte>, from: nat): (end: Option<nat>)
    requires from <= |input|
    ensures end.Some? ==> from <= end.value <= |input| && Ended(input[..end.value])
    ensures forall n | from <= n <= |input| && (end.None? || n < end.value) :: !Ended(input[..n])
    decreases |input| - from
  {
    if Ended(input[..from]) then Some(from)
    else if from == |input| then None
    else HeaderEnd(input, from + 1)
  }

  /** How much of the stream one request takes: through the first end, or one byte past the limit. */
  function RequestLength(input: seq<Byte>): (n: nat)
    ensures n <= |input| && n <= MAX_HEADER_BYTES + 1
  {
    var end := HeaderEnd(input, 0);
    if end.Some? && end.value <= MAX_HEADER_BYTES then end.value
    else if |input| > MAX_HEADER_BYTES then MAX_HEADER_BYTES + 1
    else |input|
  }

  predicate StillOpen(input: seq<Byte>, k: nat) {
    k <= |input| && k <= MAX_HEADER_BYTES && forall n | 0 <= n <= k :: !Ended(input[..n])
  }

  lemma OpenAtStart(input: seq<Byte>)
    ensures StillOpen(input, 0)
  {
  }

  lemma OneMoreByte(input: seq<Byte>, k: nat)
    requires StillOpen(input, k) && k < |input|
    ensures if k + 1 > MAX_HEADER_BYTES || Ended(input[..k + 1]) then RequestLength(input) == k + 1
      else StillOpen(input, k + 1)
  {
  }

  lemma OpenToTheEnd(input: seq<Byte>)
    requires StillOpen(input, |input|)
    ensures RequestLength(input) == |input|
  {
  }

  lemma ScanIsComplete(lines: seq<string>, found: Option<string>)
    ensures ScanLines(lines, found) != Err(IncompleteHeader)
    decreases |lines|
  {
  }

  /** Only a request that has not ended is worth another byte. */
  lemma IncompleteExactly(request: seq<Byte>, ip: Addresses, accepts: string -> bool)
    ensures ParseRequest(request, ip, accepts) == Err(IncompleteHeader) <==>
      |request| <= MAX_HEADER_BYTES && !Ended(request)
  {
    if |request| <= MAX_HEADER_BYTES && Ended(request) && Decode(request[..|request| - 4]).Some? {
      ScanIsComplete(SplitLines(Decode(request[..|request| - 4]).value)[1..], None);
    }
  }

  /** One round of the loop on a stream that was `input`: a verdict, or one more byte of the request. */
  method Feed(stream: ByteStream, request: seq<Byte>, ip: Addresses, accepts: string -> bool, ghost input: seq<Byte>)
    returns (longer: seq<Byte>, verdict: Option<Result<Target, Error>>)
    requires stream.Valid() && StillOpen(input, |request|) && input == request + stream.Pending()
    modifies stream`replay, stream`unread
    ensures verdict.Some? ==> stream.Pending() == input[RequestLength(input)..]
    ensures verdict.Some? ==> verdict.value == ParseRequest(input[..RequestLength(input)], ip, accepts)
    ensures verdict.None? ==> StillOpen(input, |longer|) && input == longer + stream.Pending()
    ensures verdict.None? ==> |stream.Pending()| < |old(stream.Pending())|
  {
    hide ParseRequest, RequestLength, Ended;
    var byte := stream.Read(1);
    longer := request + byte;
    if byte == [] {
      OpenToTheEnd(input);
      assert request == input && input[..|input|] == input;
      IncompleteExactly(input, ip, accepts);
      return longer, Some(Err(IncompleteHeader));
    }
    assert input[..|longer|] == longer && stream.Pending() == input[|longer|..];
    OneMoreByte(input, |request|);
    IncompleteExactly(longer, ip, accepts);
    var result := ParseHttpConnectRequest(longer, ip, accepts);
    verdict := if result == Err(IncompleteHeader) then None else Some(result);
  }

  /** Reads exactly one header and leaves the tunnel bytes unread. */
  method AcceptHttpConnectStream(stream: ByteStream, ip: Addresses, accepts: string -> bool)
    returns (result: Result<Target, Error>)
    requires stream.Valid()
    modifies stream`replay, stream`unread
    ensures result == ParseRequest(old(stream.Pending())[..RequestLength(old(stream.Pending()))], ip, accepts)
    ensures stream.Pending() == old(stream.Pending())[RequestLength(old(stream.Pending()))..]
  {
    var request: seq<Byte>, verdict := [], None;
    ghost var input := stream.Pending();
    OpenAtStart(input);
    while verdict.None?
      invariant verdict.None? ==> StillOpen(input, |request|) && input == request + stream.Pending()
      invariant verdict.Some? ==> stream.Pending() == input[RequestLength(input)..]
      invariant verdict.Some? ==> verdict.value == ParseRequest(input[..RequestLength(input)], ip, accepts)
      decreases verdict.None?, |stream.Pending()|
    {
      request, verdict := Feed(stream, request, ip, accepts, input);
    }
    return verdict.value;
  }
}
