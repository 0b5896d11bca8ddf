/** One client, two protocols: the request it writes over HTTP and the handshake it writes over SOCKS5. */
module ProxyAgreement {
  import opened Common
  import opened Text
  import opened Utf8
  import opened ProxyStream
  import opened HttpConnect
  import ProxyAuth
  import Base64
  import Socks5

  // ----- the request a client writes -----------------------------------------------------------------------

  predicate Word(s: string) {
    s != "" && forall i | 0 <= i < |s| :: !AsciiSpace(s[i])
  }

  predicate OneLine(s: string) {
    '\r' !in s
  }

  function RequestLine(authority: string): string {
    "CONNECT" + ([' '] + (authority + ([' '] + "HTTP/1.1")))
  }

  function AuthorizationLine(value: string): string {
    AUTHORIZATION + ([':'] + ([' '] + value))
  }

  function RequestHeader(authority: string, value: string): string {
    RequestLine(authority) + (['\r', '\n'] + AuthorizationLine(value))
  }

  function RequestOctets(authority: string, value: string): seq<Byte> {
    Encode(RequestHeader(authority, value)) + END
  }

  // ----- lines, words and fields come back -------------------------------------------------------------------

  lemma {:induction false} LineSplits(line: string, rest: string)
    requires OneLine(line)
    ensures SplitLines(line + (['\r', '\n'] + rest)) == [line] + SplitLines(rest)
    decreases |line|
  {
    var s := line + (['\r', '\n'] + rest);
    if line == "" {
      assert s[2..] == rest;
    } else {
      LineSplits(line[1..], rest);
      assert s[1..] == line[1..] + (['\r', '\n'] + rest);
      assert s[0] == line[0] != '\r';
      assert [line[0]] + line[1..] == line;
    }
  }

  lemma {:induction false} LastLine(line: string)
    requires OneLine(line)
    ensures SplitLines(line) == [line]
    decreases |line|
  {
    if |line| >= 2 {
      LastLine(line[1..]);
      assert [line[0]] + line[1..] == line;
    }
  }

  lemma {:induction false} WordLengthOf(word: string, rest: string)
    requires (forall i | 0 <= i < |word| :: !AsciiSpace(word[i])) && (rest == "" || AsciiSpace(rest[0]))
    ensures AsciiWordLength(word + rest) == |word|
    decreases |word|
  {
    if word == "" {
      assert word + rest == rest;
    } else {
      WordLengthOf(word[1..], rest);
      assert (word + rest)[1..] == word[1..] + rest;
    }
  }

  lemma WordSplits(word: string, rest: string)
    requires Word(word)
    ensures AsciiWords(word + ([' '] + rest)) == [word] + AsciiWords(rest)
  {
    var s := word + ([' '] + rest);
    WordLengthOf(word, [' '] + rest);
    assert s[0] == word[0] && s[..|word|] == word && s[|word|..] == [' '] + rest;
    assert ([' '] + rest)[1..] == rest;
  }

  lemma LastWord(word: string)
    requires Word(word)
    ensures AsciiWords(word) == [word]
  {
    WordLengthOf(word, "");
    assert word + "" == word && word[..|word|] == word && word[|word|..] == "";
  }

  lemma RequestLineReads(authority: string)
    requires Word(authority)
    ensures AsciiWords(RequestLine(authority)) == ["CONNECT", authority, "HTTP/1.1"]
  {
    hide AsciiWords, Word;
    PlainWords();
    WordSplits("CONNECT", authority + ([' '] + "HTTP/1.1"));
    WordSplits(authority, "HTTP/1.1");
    LastWord("HTTP/1.1");
    assert ["CONNECT"] + ([authority] + ["HTTP/1.1"]) == ["CONNECT", authority, "HTTP/1.1"];
  }

  lemma PlainWords()
    ensures Word("CONNECT") && Word("HTTP/1.1")
  {
  }

  predicate Trimmed(value: string) {
    value != "" && !IsWhitespace(value[0]) && !IsWhitespace(value[|value| - 1])
  }

  lemma TrimDropsSpace(value: string)
    requires Trimmed(value)
    ensures Trim([' '] + value) == value
  {
    assert ([' '] + value)[1..] == value;
    assert TrimStart([' '] + value) == TrimStart(value) == value;
  }

  lemma NameIsPlain()
    ensures ':' !in AUTHORIZATION && AUTHORIZATION != ""
    ensures forall i | 0 <= i < |AUTHORIZATION| :: !AsciiSpace(AUTHORIZATION[i])
    ensures '\r' !in AUTHORIZATION
  {
  }

  lemma AuthorizationReads(value: string)
    requires Trimmed(value)
    ensures IsAuthorization(AuthorizationLine(value)) && FieldValue(AuthorizationLine(value)) == value
  {
    NameIsPlain();
    FirstCut(AUTHORIZATION, ':', [' '] + value);
    TrimDropsSpace(value);
  }

  /** What the parser makes of a written header: the target for an accepted value, a refusal otherwise. */
  lemma HeaderReads(authority: string, value: string, ip: Addresses, accepts: string -> bool)
    requires Word(authority) && OneLine(authority) && Trimmed(value) && OneLine(value)
    ensures ParseHeader(RequestHeader(authority, value), ip, accepts)
      == if accepts(value) then ParseAuthority(authority, ip) else Err(ProxyAuthenticationFailed)
  {
    hide ParseAuthority, Trim, IsAuthorization, SplitLines, AsciiWords, FieldValue;
    NameIsPlain();
    var line, field := RequestLine(authority), AuthorizationLine(value);
    LineSplits(line, field);
    LastLine(field);
    assert SplitLines(RequestHeader(authority, value)) == [line] + [field];
    RequestLineReads(authority);
    AuthorizationReads(value);
    var lines := SplitLines(RequestHeader(authority, value));
    assert lines[1..] == [field];
    assert OnlyAuthorization([field], 0);
    ScanFindsTheOne([field], 0);
  }

  lemma RequestReads(authority: string, value: string, ip: Addresses, accepts: string -> bool)
    requires Word(authority) && OneLine(authority) && Trimmed(value) && OneLine(value)
    requires |RequestOctets(authority, value)| <= MAX_HEADER_BYTES
    ensures ParseRequest(RequestOctets(authority, value), ip, accepts)
      == if accepts(value) then ParseAuthority(authority, ip) else Err(ProxyAuthenticationFailed)
  {
    hide ParseHeader, ParseAuthority, Encode, Decode, RequestHeader;
    var header := RequestHeader(authority, value);
    var request := RequestOctets(authority, value);
    assert request[|request| - 4..] == END && request[..|request| - 4] == Encode(header);
    TextRoundTrip(header);
    HeaderReads(authority, value, ip, accepts);
  }

  // ----- both protocols judge one client alike ---------------------------------------------------------------

  lemma {:induction false} EncodeIsAscii(s: string)
    requires IsAscii(s)
    ensures Encode(s) == Ascii(s)
  {
    if s != "" {
      EncodeIsAscii(s[1..]);
      assert Encode(s) == [s[0] as int] + Ascii(s[1..]);
    }
  }

  lemma {:induction false} EncodedIsSolid(bytes: seq<Byte>)
    ensures forall i | 0 <= i < |Base64.Encoded(bytes, false, true)| ::
      var c := Base64.Encoded(bytes, false, true)[i]; !IsWhitespace(c) && c != '\r'
  {
    if bytes != [] {
      var n := Base64.ChunkLength(bytes);
      EncodedIsSolid(bytes[n..]);
      LettersAreSolid(Base64.Sextets(bytes[..n]));
    }
  }

  lemma {:induction false} LettersAreSolid(values: seq<Base64.Sextet>)
    ensures forall i | 0 <= i < |Base64.Letters(values, false)| ::
      var c := Base64.Letters(values, false)[i]; !IsWhitespace(c) && c != '\r'
  {
    if values != [] {
      LettersAreSolid(values[1..]);
      LetterIsSolid(values[0]);
    }
  }

  lemma LetterIsSolid(v: Base64.Sextet)
    ensures !IsWhitespace(Base64.Letter(v, false)) && Base64.Letter(v, false) != '\r'
  {
  }

  lemma {:induction false} EncodedIsNotEmpty(bytes: seq<Byte>)
    requires bytes != []
    ensures Base64.Encoded(bytes, false, true) != ""
  {
    Base64.GroupLength(bytes[..Base64.ChunkLength(bytes)], false, true);
  }

  lemma BasicIsOneTrimmedLine(m: ProxyAuth.Material)
    ensures Trimmed(ProxyAuth.BasicText(m)) && OneLine(ProxyAuth.BasicText(m))
  {
    var userPass := ProxyAuth.UserPass(m);
    assert userPass[|m.username|] == ProxyAuth.COLON;
    EncodedIsSolid(userPass);
    EncodedIsNotEmpty(userPass);
    PrefixIsPlain();
    var text, encoded := ProxyAuth.BasicText(m), Base64.Encoded(userPass, false, true);
    assert text[|text| - 1] == encoded[|encoded| - 1];
    assert forall i | 0 <= i < |text| :: text[i] == if i < 6 then "Basic "[i] else encoded[i - 6];
  }

  lemma PrefixIsPlain()
    ensures |"Basic "| == 6 && !IsWhitespace("Basic "[0]) && '\r' !in "Basic "
  {
  }

  function SocksVerdict(a: ProxyAuth.Admission, available: bool): Socks5.Pair -> bool {
    (pair: Socks5.Pair) => ProxyAuth.PairPrincipal(a, available, pair.username, pair.password).Some?
  }

  function HttpVerdict(a: ProxyAuth.Admission, available: bool): string -> bool {
    (value: string) => ProxyAuth.BasicPrincipal(a, available, Encode(value)).Some?
  }

  lemma VerdictsAgree(a: ProxyAuth.Admission, available: bool, pair: Socks5.Pair)
    requires ProxyAuth.Unambiguous(a) && ProxyAuth.ColonFree(pair.username)
    ensures SocksVerdict(a, available)(pair)
      == HttpVerdict(a, available)(ProxyAuth.BasicText(ProxyAuth.Material(pair.username, pair.password)))
  {
    hide ProxyAuth.Unambiguous, ProxyAuth.BasicText, Encode;
    var m := ProxyAuth.Material(pair.username, pair.password);
    ProxyAuth.BasicTextIsAscii(m);
    EncodeIsAscii(ProxyAuth.BasicText(m));
    ProxyAuth.UnambiguousAgrees(a, available, pair.username, pair.password);
  }

  /** A name both protocols can carry. */
  predicate CarriedName(host: string, ip: Addresses) {
    && HostText(host) && Word(host) && host[0] != '[' && |Encode(host)| <= 255
    && ip.v4(host).None? && ip.v6(host).None?
  }

  lemma CarriedAuthority(host: string, port: nat, ip: Addresses)
    requires CarriedName(host, ip) && 1 <= port <= 65535
    ensures Word(host + [':'] + Decimal(port)) && OneLine(host + [':'] + Decimal(port))
    ensures ParseAuthority(host + [':'] + Decimal(port), ip) == Ok(Target(Domain(Encode(host)), port))
    ensures ValidTarget(Target(Domain(Encode(host)), port))
  {
    hide ParseAuthority, ParsePlain;
    DecimalIsDigits(port);
    AuthorityRoundTrip(host, port, ip);
    TextRoundTrip(host);
    EncodeControlFree(host);
    EncodeNonEmpty(host);
  }

  lemma {:induction false} EncodeJoins(left: string, right: string)
    ensures |Encode(left + right)| == |Encode(left)| + |Encode(right)|
  {
    if left == "" {
      assert left + right == right;
    } else {
      EncodeJoins(left[1..], right);
      assert (left + right)[1..] == left[1..] + right;
    }
  }

  lemma {:induction false} EncodedIsShort(bytes: seq<Byte>)
    ensures |Base64.Encoded(bytes, false, true)| <= 4 * |bytes|
  {
    if bytes != [] {
      var n := Base64.ChunkLength(bytes);
      EncodedIsShort(bytes[n..]);
      Base64.GroupLength(bytes[..n], false, true);
    }
  }

  lemma {:induction false} DecimalIsAscii(n: nat)
    ensures IsAscii(Decimal(n))
  {
    if n >= 10 { DecimalIsAscii(n / 10); }
    assert "0123456789"[n % 10] as int < 128;
  }

  lemma AsciiJoins(left: string, right: string)
    requires IsAscii(left)
    ensures |Encode(left + right)| == |left| + |Encode(right)|
  {
    EncodeJoins(left, right);
    EncodeIsAscii(left);
  }

  lemma FixedPartsAreAscii()
    ensures IsAscii(FIRST) && IsAscii(MIDDLE)
  {
  }

  const FIRST: string := "CONNECT" + [' ']
  const MIDDLE: string := [' '] + "HTTP/1.1" + ['\r', '\n'] + AUTHORIZATION + [':'] + [' ']

  lemma HeaderShape(host: string, raw: string, value: string)
    ensures RequestHeader(host + [':'] + raw, value) == FIRST + (host + ([':'] + raw + (MIDDLE + value)))
  {
  }

  lemma HeaderLength(host: string, raw: string, value: string)
    requires IsAscii(raw) && IsAscii(value)
    ensures |Encode(RequestHeader(host + [':'] + raw, value))| ==
      |FIRST| + |Encode(host)| + 1 + |raw| + |MIDDLE| + |value|
  {
    hide Encode, RequestHeader;
    HeaderShape(host, raw, value);
    FixedPartsAreAscii();
    var tail := [':'] + raw + (MIDDLE + value);
    AsciiJoins(FIRST, host + tail);
    EncodeJoins(host, tail);
    AsciiJoins([':'] + raw, MIDDLE + value);
    AsciiJoins(MIDDLE, value);
    EncodeIsAscii(value);
  }

  lemma FixedLengths()
    ensures |FIRST| == 8 && |MIDDLE| == 32
  {
  }

  /** With a pair of at most 255 bytes each, the written request is far below the limit. */
  lemma RequestFits(host: string, port: nat, m: ProxyAuth.Material)
    requires |Encode(host)| <= 255 && 1 <= port <= 65535 && |m.username| <= 255 && |m.password| <= 255
    ensures |RequestOctets(host + [':'] + Decimal(port), ProxyAuth.BasicText(m))| <= MAX_HEADER_BYTES
  {
    hide Encode, RequestHeader, Base64.Encoded;
    DecimalIsShort(port);
    DecimalIsAscii(port);
    ProxyAuth.BasicTextIsAscii(m);
    HeaderLength(host, Decimal(port), ProxyAuth.BasicText(m));
    FixedLengths();
    EncodedIsShort(ProxyAuth.UserPass(m));
  }

  // ----- what one client is answered -------------------------------------------------------------------------

  /** What a client writes and where it wants to go, in either protocol. */
  datatype Setting = Setting(methods: seq<Byte>, host: string, port: nat, ip: Addresses, rest: seq<Byte>)

  ghost predicate ValidSetting(w: Setting) {
    Socks5.ValidMethods(w.methods) && CarriedName(w.host, w.ip) && 1 <= w.port <= 65535
  }

  ghost function Destination(w: Setting): (target: Target)
    requires ValidSetting(w)
    ensures ValidTarget(target)
  {
    CarriedAuthority(w.host, w.port, w.ip);
    Target(Domain(Encode(w.host)), w.port)
  }

  function MaterialOf(pair: Socks5.Pair): ProxyAuth.Material {
    ProxyAuth.Material(pair.username, pair.password)
  }

  ghost function SocksAnswer(a: ProxyAuth.Admission, available: bool, pair: Socks5.Pair, w: Setting)
    : Result<Target, Socks5.Error>
    requires Socks5.ValidPair(pair) && ValidSetting(w)
  {
    var h := Socks5.Handshake(w.methods, pair, Destination(w));
    Socks5.Accepted(Socks5.HandshakeBytes(h) + w.rest, ProxyAuth.Compatible(a), SocksVerdict(a, available)).result
  }

  ghost function HttpAnswer(a: ProxyAuth.Admission, available: bool, pair: Socks5.Pair, w: Setting)
    : Result<Target, HttpConnect.Error>
  {
    ParseRequest(RequestOctets(w.host + [':'] + Decimal(w.port), ProxyAuth.BasicText(MaterialOf(pair))),
                 w.ip, HttpVerdict(a, available))
  }

  /** The stored pairs a client may stand for: as they are over SOCKS5, as they are read over HTTP. */
  predicate SocksAdmits(a: ProxyAuth.Admission, available: bool, client: ProxyAuth.Material) {
    client == a.primary || (available && a.temporary == Some(client))
  }

  predicate HttpAdmits(a: ProxyAuth.Admission, available: bool, client: ProxyAuth.Material) {
    || client == ProxyAuth.Reading(a.primary)
    || (available && a.temporary.Some? && client == ProxyAuth.Reading(a.temporary.value))
  }

  lemma HttpVerdictMeaning(a: ProxyAuth.Admission, available: bool, pair: Socks5.Pair)
    requires ProxyAuth.ColonFree(pair.username)
    ensures HttpVerdict(a, available)(ProxyAuth.BasicText(MaterialOf(pair))) <==>
      HttpAdmits(a, available, MaterialOf(pair))
  {
    hide ProxyAuth.BasicText, Encode, ProxyAuth.Reading;
    var m := MaterialOf(pair);
    ProxyAuth.BasicTextIsAscii(m);
    EncodeIsAscii(ProxyAuth.BasicText(m));
    ProxyAuth.BasicMeansReading(a.primary, m);
    if a.temporary.Some? { ProxyAuth.BasicMeansReading(a.temporary.value, m); }
  }

  lemma HttpAnswers(a: ProxyAuth.Admission, available: bool, pair: Socks5.Pair, w: Setting)
    requires ProxyAuth.ColonFree(pair.username) && Socks5.ValidPair(pair) && ValidSetting(w)
    ensures HttpAnswer(a, available, pair, w) ==
      if HttpAdmits(a, available, MaterialOf(pair)) then Ok(Destination(w)) else Err(ProxyAuthenticationFailed)
  {
    hide ParseRequest, RequestOctets, HttpVerdict, ParseAuthority, ProxyAuth.BasicText, HttpAdmits;
    BasicIsOneTrimmedLine(MaterialOf(pair));
    CarriedAuthority(w.host, w.port, w.ip);
    RequestFits(w.host, w.port, MaterialOf(pair));
    RequestReads(w.host + [':'] + Decimal(w.port), ProxyAuth.BasicText(MaterialOf(pair)), w.ip,
                 HttpVerdict(a, available));
    HttpVerdictMeaning(a, available, pair);
  }

  lemma SocksAnswers(a: ProxyAuth.Admission, available: bool, pair: Socks5.Pair, w: Setting)
    requires Socks5.ValidPair(pair) && ValidSetting(w)
    ensures SocksAnswer(a, available, pair, w) ==
      if !ProxyAuth.Compatible(a) then Err(Socks5.InvalidCredentialLength)
      else if SocksAdmits(a, available, MaterialOf(pair)) then Ok(Destination(w))
      else Err(Socks5.AuthenticationFailed)
  {
    hide Socks5.HandshakeBytes;
    var h := Socks5.Handshake(w.methods, pair, Destination(w));
    if SocksVerdict(a, available)(pair) {
      Socks5.HandshakeReads(h, w.rest, SocksVerdict(a, available));
    } else {
      Socks5.HandshakeRefused(h, w.rest, SocksVerdict(a, available));
    }
  }

  /**
   Under an unambiguous admission a client that presents one pair and names one destination is judged by that
   pair alone: over HTTP CONNECT always, over SOCKS5 if every stored pair fits. If one does not, SOCKS5 refuses
   whatever HTTP answers.
   */
  lemma OneClientOneAnswer(a: ProxyAuth.Admission, available: bool, pair: Socks5.Pair, w: Setting)
    requires ProxyAuth.Unambiguous(a) && ProxyAuth.ColonFree(pair.username) && Socks5.ValidPair(pair) && ValidSetting(w)
    ensures HttpAnswer(a, available, pair, w) ==
      if SocksVerdict(a, available)(pair) then Ok(Destination(w)) else Err(ProxyAuthenticationFailed)
    ensures SocksAnswer(a, available, pair, w) ==
      if !ProxyAuth.Compatible(a) then Err(Socks5.InvalidCredentialLength)
      else if SocksVerdict(a, available)(pair) then Ok(Destination(w)) else Err(Socks5.AuthenticationFailed)
  {
    hide SocksAnswer, HttpAnswer, HttpVerdict, ProxyAuth.Unambiguous;
    VerdictsAgree(a, available, pair);
    HttpVerdictMeaning(a, available, pair);
    HttpAnswers(a, available, pair, w);
    SocksAnswers(a, available, pair, w);
  }

  /** A stored primary too long for SOCKS5 shuts that path to the temporary client that HTTP admits. */
  lemma LongPrimarySplits(w: Setting) returns (a: ProxyAuth.Admission, pair: Socks5.Pair)
    requires ValidSetting(w)
    ensures ProxyAuth.Unambiguous(a) && Socks5.ValidPair(pair) && ProxyAuth.ColonFree(pair.username)
    ensures HttpAnswer(a, true, pair, w) == Ok(Destination(w))
    ensures SocksAnswer(a, true, pair, w) == Err(Socks5.InvalidCredentialLength)
  {
    hide SocksAnswer, HttpAnswer;
    pair := Socks5.Pair([116], [116]);
    a := ProxyAuth.Admission(ProxyAuth.Material(seq(300, _ => 112), [112]), Some(MaterialOf(pair)));
    OneClientOneAnswer(a, true, pair, w);
  }

  // ----- exactly when the two protocols agree ---------------------------------------------------------------

  /** Every client with a colon-free username is admitted by both or by neither, whatever the temporary grant is. */
  ghost predicate ProtocolsAgree(a: ProxyAuth.Admission, w: Setting)
    requires ValidSetting(w)
  {
    forall available: bool, pair: Socks5.Pair | Socks5.ValidPair(pair) && ProxyAuth.ColonFree(pair.username) ::
      SocksAnswer(a, available, pair, w).Ok? <==> HttpAnswer(a, available, pair, w).Ok?
  }

  /** No client that SOCKS5 can carry is read out of the stored pair in place of the pair itself. */
  predicate ReadAsStored(m: ProxyAuth.Material) {
    ProxyAuth.ColonFree(m.username) || !ProxyAuth.Fits(ProxyAuth.Reading(m))
  }

  /** What the stored pairs decide, for any admission. */
  predicate Aligned(a: ProxyAuth.Admission) {
    if ProxyAuth.Compatible(a) then
      && ReadAsStored(a.primary)
      && (a.temporary.Some? ==> ReadAsStored(a.temporary.value) || ProxyAuth.Reading(a.temporary.value) == a.primary)
    else
      && !ProxyAuth.Fits(ProxyAuth.Reading(a.primary))
      && (a.temporary.Some? ==> !ProxyAuth.Fits(ProxyAuth.Reading(a.temporary.value)))
  }

  lemma AnswersMeaning(a: ProxyAuth.Admission, available: bool, pair: Socks5.Pair, w: Setting)
    requires ProxyAuth.ColonFree(pair.username) && Socks5.ValidPair(pair) && ValidSetting(w)
    ensures SocksAnswer(a, available, pair, w).Ok? <==>
      ProxyAuth.Compatible(a) && SocksAdmits(a, available, MaterialOf(pair))
    ensures HttpAnswer(a, available, pair, w).Ok? <==> HttpAdmits(a, available, MaterialOf(pair))
  {
    hide SocksAnswer, HttpAnswer, SocksAdmits, HttpAdmits, ProxyAuth.Compatible;
    HttpAnswers(a, available, pair, w);
    SocksAnswers(a, available, pair, w);
  }

  lemma AlignedAgrees(a: ProxyAuth.Admission, available: bool, client: ProxyAuth.Material)
    requires Aligned(a) && ProxyAuth.Fits(client) && ProxyAuth.ColonFree(client.username)
    ensures ProxyAuth.Compatible(a) && SocksAdmits(a, available, client) <==> HttpAdmits(a, available, client)
  {
  }

  /** An admission that is not aligned has a client that one protocol admits and the other refuses. */
  lemma UnalignedSplits(a: ProxyAuth.Admission) returns (client: ProxyAuth.Material, available: bool)
    requires !Aligned(a)
    ensures ProxyAuth.Fits(client) && ProxyAuth.ColonFree(client.username)
    ensures HttpAdmits(a, available, client) && !(ProxyAuth.Compatible(a) && SocksAdmits(a, available, client))
  {
    var primary := ProxyAuth.Reading(a.primary);
    if ProxyAuth.Compatible(a) {
      if !ReadAsStored(a.primary) {
        client, available := primary, false;
      } else {
        client, available := ProxyAuth.Reading(a.temporary.value), true;
      }
    } else if ProxyAuth.Fits(primary) {
      client, available := primary, false;
    } else {
      client, available := ProxyAuth.Reading(a.temporary.value), true;
    }
  }

  /** For every admission and every destination: the two protocols agree exactly when the admission is aligned. */
  lemma ProtocolsAgreeExactly(a: ProxyAuth.Admission, w: Setting)
    requires ValidSetting(w)
    ensures ProtocolsAgree(a, w) <==> Aligned(a)
  {
    hide SocksAnswer, HttpAnswer, SocksAdmits, HttpAdmits, ProxyAuth.Compatible, Aligned, ValidSetting;
    if Aligned(a) {
      forall available: bool, pair: Socks5.Pair | Socks5.ValidPair(pair) && ProxyAuth.ColonFree(pair.username)
        ensures SocksAnswer(a, available, pair, w).Ok? <==> HttpAnswer(a, available, pair, w).Ok?
      {
        AnswersMeaning(a, available, pair, w);
        AlignedAgrees(a, available, MaterialOf(pair));
      }
    } else {
      var client, available := UnalignedSplits(a);
      var pair := Socks5.Pair(client.username, client.password);
      AnswersMeaning(a, available, pair, w);
      assert MaterialOf(pair) == client;
    }
  }

  /** A stored pair that a client with a colon-free username can present over SOCKS5. */
  predicate Presentable(m: ProxyAuth.Material) {
    ProxyAuth.Fits(m) && ProxyAuth.ColonFree(m.username)
  }

  /** Unambiguous admissions on which the protocols part hold a pair a client can present and one that does not fit. */
  lemma UnambiguousAgreeExactly(a: ProxyAuth.Admission, w: Setting)
    requires ProxyAuth.Unambiguous(a) && ValidSetting(w)
    ensures ProtocolsAgree(a, w) <==>
      || ProxyAuth.Compatible(a)
      || (!Presentable(a.primary) && (a.temporary.Some? ==> !Presentable(a.temporary.value)))
  {
    hide ProtocolsAgree, ValidSetting;
    ProtocolsAgreeExactly(a, w);
  }

  function Stored(a: ProxyAuth.Admission): set<ProxyAuth.Material> {
    {a.primary} + if a.temporary.Some? then {a.temporary.value} else {}
  }

  /** SOCKS5 is shut to every client exactly when a stored username or password has no byte or more than 255. */
  lemma SocksShutExactly(a: ProxyAuth.Admission, available: bool, pair: Socks5.Pair, w: Setting)
    requires Socks5.ValidPair(pair) && ValidSetting(w)
    ensures SocksAnswer(a, available, pair, w) == Err(Socks5.InvalidCredentialLength) <==>
      exists m | m in Stored(a) ::
        |m.username| == 0 || |m.username| > 255 || |m.password| == 0 || |m.password| > 255
  {
    hide SocksAnswer, ValidSetting;
    SocksAnswers(a, available, pair, w);
    assert a.primary in Stored(a);
  }
}
