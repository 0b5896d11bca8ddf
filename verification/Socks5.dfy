/** The SOCKS5 handshake: sections 3 and 4 of RFC 1928 and section 2 of RFC 1929. */
module Socks5 {
  import opened Common
  import opened Utf8
  import opened ProxyStream

  datatype Error =
    | EndOfStream
    | UnsupportedVersion
    | UnsupportedAuthenticationMethod
    | InvalidCredentialLength
    | MalformedAuthentication
    | AuthenticationFailed
    | MalformedRequest
    | BindNotSupported
    | UdpAssociateNotSupported
    | CommandNotSupported
    | AddressNotSupported
    | InvalidDomain
    | InvalidPort

  /** What a stage returns, leaves unread and writes back. */
  datatype Outcome<+T> = Outcome(result: Result<T, Error>, rest: seq<Byte>, replies: seq<Byte>)

  const GENERAL_FAILURE: Byte := 1
  const COMMAND_NOT_SUPPORTED: Byte := 7
  const ADDRESS_TYPE_NOT_SUPPORTED: Byte := 8

  function PortBytes(port: nat): seq<Byte>
    requires port < 65536
  {
    [port / 256, port % 256]
  }

  /** A reply that names the unspecified IPv4 address and port zero. */
  function Refusal(code: Byte): seq<Byte> {
    [5, code, 0, 1, 0, 0, 0, 0] + PortBytes(0)
  }

  function Failed<T>(error: Error, rest: seq<Byte>, replies: seq<Byte>): Outcome<T> {
    Outcome(Err(error), rest, replies)
  }

  // ----- the frames -----------------------------------------------------------------------------------------

  predicate ValidMethods(methods: seq<Byte>) {
    |methods| <= 255 && 2 in methods
  }

  function GreetingBytes(methods: seq<Byte>): seq<Byte>
    requires |methods| <= 255
  {
    [5, |methods|] + methods
  }

  datatype Pair = Pair(username: seq<Byte>, password: seq<Byte>)

  predicate ValidPair(pair: Pair) {
    1 <= |pair.username| <= 255 && 1 <= |pair.password| <= 255
  }

  function PairBytes(pair: Pair): seq<Byte>
    requires ValidPair(pair)
  {
    [1, |pair.username|] + pair.username + ([|pair.password|] + pair.password)
  }

  function HostBytes(h: Host): seq<Byte>
    requires ValidHost(h)
  {
    match h
    case Ipv4(octets) => [1] + octets
    case Ipv6(octets) => [4] + octets
    case Domain(name) => [3, |name|] + name
  }

  function RequestBytes(t: Target): seq<Byte>
    requires ValidTarget(t)
  {
    [5, 1, 0] + HostBytes(t.host) + PortBytes(t.port)
  }

  // ----- the stages -----------------------------------------------------------------------------------------

  function Negotiated(input: seq<Byte>): Outcome<()> {
    if |input| < 2 then Failed(EndOfStream, [], [])
    else if input[0] != 5 then Failed(UnsupportedVersion, input[2..], [])
    else if input[1] == 0 then Failed(UnsupportedAuthenticationMethod, input[2..], [5, 255])
    else
      var end := 2 + input[1] as int;
      if |input| < end then Failed(EndOfStream, [], [])
      else if 2 !in input[2..end] then Failed(UnsupportedAuthenticationMethod, input[end..], [5, 255])
      else Outcome(Ok(()), input[end..], [5, 2])
  }

  method NegotiateUsernamePassword(stream: ByteStream) returns (result: Result<(), Error>)
    requires stream.Valid()
    modifies stream
    ensures Outcome(result, stream.Pending(), stream.written)
      == Negotiated(old(stream.Pending())).(replies := old(stream.written) + Negotiated(old(stream.Pending())).replies)
  {
    var header := stream.ReadExact(2);
    if header.None? { return Err(EndOfStream); }
    if header.value[0] != 5 { return Err(UnsupportedVersion); }
    var count := header.value[1];
    if count == 0 {
      stream.WriteAll([5, 255]);
      return Err(UnsupportedAuthenticationMethod);
    }
    var methods := stream.ReadExact(count);
    if methods.None? { return Err(EndOfStream); }
    if 2 !in methods.value {
      stream.WriteAll([5, 255]);
      return Err(UnsupportedAuthenticationMethod);
    }
    stream.WriteAll([5, 2]);
    return Ok(());
  }

  /** The pair that was presented, whether or not it is then accepted. */
  function Presented(input: seq<Byte>): Outcome<Pair> {
    if |input| < 2 then Failed(EndOfStream, [], [])
    else if input[0] != 1 || input[1] == 0 then Failed(MalformedAuthentication, input[2..], [1, 1])
    else
      var middle := 2 + input[1] as int;
      if |input| <= middle then Failed(EndOfStream, [], [])
      else if input[middle] == 0 then Failed(MalformedAuthentication, input[middle + 1..], [1, 1])
      else
        var end := middle + 1 + input[middle] as int;
        if |input| < end then Failed(EndOfStream, [], [])
        else Outcome(Ok(Pair(input[2..middle], input[middle + 1..end])), input[end..], [])
  }

  function Authenticated(input: seq<Byte>, accepts: Pair -> bool): Outcome<Pair> {
    var presented := Presented(input);
    if presented.result.Err? then presented
    else if accepts(presented.result.value) then presented.(replies := [1, 0])
    else Failed(AuthenticationFailed, presented.rest, [1, 1])
  }

  method ReadPair(stream: ByteStream) returns (result: Result<Pair, Error>)
    requires stream.Valid()
    modifies stream
    ensures Outcome(result, stream.Pending(), stream.written)
      == Presented(old(stream.Pending())).(replies := old(stream.written) + Presented(old(stream.Pending())).replies)
  {
    var header := stream.ReadExact(2);
    if header.None? { return Err(EndOfStream); }
    if header.value[0] != 1 || header.value[1] == 0 {
      stream.WriteAll([1, 1]);
      return Err(MalformedAuthentication);
    }
    ghost var input, middle := old(stream.Pending()), 2 + header.value[1] as int;
    var username := stream.ReadExact(header.value[1]);
    if username.None? { return Err(EndOfStream); }
    assert username.value == input[2..middle] && stream.Pending() == input[middle..];
    var length := stream.ReadExact(1);
    if length.None? { return Err(EndOfStream); }
    if length.value[0] == 0 {
      stream.WriteAll([1, 1]);
      return Err(MalformedAuthentication);
    }
    ghost var end := middle + 1 + length.value[0] as int;
    assert stream.Pending() == input[middle + 1..];
    var password := stream.ReadExact(length.value[0]);
    if password.None? { return Err(EndOfStream); }
    assert password.value == input[middle + 1..end] && stream.Pending() == input[end..];
    return Ok(Pair(username.value, password.value));
  }

  method Authenticate(stream: ByteStream, accepts: Pair -> bool) returns (result: Result<Pair, Error>)
    requires stream.Valid()
    modifies stream
    ensures Outcome(result, stream.Pending(), stream.written)
      == Authenticated(old(stream.Pending()), accepts)
        .(replies := old(stream.written) + Authenticated(old(stream.Pending()), accepts).replies)
  {
    result := ReadPair(stream);
    if result.Err? { return; }
    if !accepts(result.value) {
      stream.WriteAll([1, 1]);
      return Err(AuthenticationFailed);
    }
    stream.WriteAll([1, 0]);
  }

  /** The command octet: only CONNECT goes on. */
  function CommandError(command: Byte): Option<Error> {
    if command == 1 then None
    else if command == 2 then Some(BindNotSupported)
    else if command == 3 then Some(UdpAssociateNotSupported)
    else Some(CommandNotSupported)
  }

  function FixedHost(input: seq<Byte>, n: nat, host: Host): Outcome<Host> {
    if |input| < n then Failed(EndOfStream, [], []) else Outcome(Ok(host), input[n..], [])
  }

  function DomainHost(input: seq<Byte>): Outcome<Host> {
    if input == [] then Failed(EndOfStream, [], [])
    else if input[0] == 0 then Failed(InvalidDomain, input[1..], Refusal(ADDRESS_TYPE_NOT_SUPPORTED))
    else
      var end := 1 + input[0] as int;
      if |input| < end then Failed(EndOfStream, [], [])
      else if !IsText(input[1..end]) then Failed(InvalidDomain, input[end..], [])
      else if exists i | 1 <= i < end :: Control(input[i]) then
        Failed(InvalidDomain, input[end..], Refusal(ADDRESS_TYPE_NOT_SUPPORTED))
      else Outcome(Ok(Domain(input[1..end])), input[end..], [])
  }

  /** The address after its type octet. */
  function HostRead(addressType: Byte, input: seq<Byte>): Outcome<Host> {
    if addressType == 1 then FixedHost(input, 4, Ipv4(if |input| < 4 then [] else input[..4]))
    else if addressType == 4 then FixedHost(input, 16, Ipv6(if |input| < 16 then [] else input[..16]))
    else if addressType == 3 then DomainHost(input)
    else Failed(AddressNotSupported, input, Refusal(ADDRESS_TYPE_NOT_SUPPORTED))
  }

  function PortRead(input: seq<Byte>): Outcome<nat> {
    if |input| < 2 then Failed(EndOfStream, [], [])
    else
      var port := input[0] as int * 256 + input[1];
      if port == 0 then Failed(InvalidPort, input[2..], Refusal(GENERAL_FAILURE)) else Outcome(Ok(port), input[2..], [])
  }

  /** The address and the port after the type octet. */
  function TargetRead(addressType: Byte, input: seq<Byte>): Outcome<Target> {
    var host := HostRead(addressType, input);
    if host.result.Err? then Failed(host.result.error, host.rest, host.replies)
    else
      var port := PortRead(host.rest);
      if port.result.Err? then Failed(port.result.error, port.rest, port.replies)
      else Outcome(Ok(Target(host.result.value, port.result.value)), port.rest, [])
  }

  function Requested(input: seq<Byte>): Outcome<Target> {
    if |input| < 4 then Failed(EndOfStream, [], [])
    else if input[0] != 5 || input[2] != 0 then Failed(MalformedRequest, input[4..], Refusal(GENERAL_FAILURE))
    else if CommandError(input[1]).Some? then
      Failed(CommandError(input[1]).value, input[4..], Refusal(COMMAND_NOT_SUPPORTED))
    else TargetRead(input[3], input[4..])
  }

  method ReadHost(stream: ByteStream, addressType: Byte) returns (result: Result<Host, Error>)
    requires stream.Valid()
    modifies stream
    ensures Outcome(result, stream.Pending(), stream.written) == HostRead(addressType, old(stream.Pending()))
      .(replies := old(stream.written) + HostRead(addressType, old(stream.Pending())).replies)
  {
    if addressType == 1 || addressType == 4 {
      var octets := stream.ReadExact(if addressType == 1 then 4 else 16);
      if octets.None? { return Err(EndOfStream); }
      return Ok(if addressType == 1 then Ipv4(octets.value) else Ipv6(octets.value));
    } else if addressType == 3 {
      result := ReadDomain(stream);
    } else {
      stream.WriteAll(Refusal(ADDRESS_TYPE_NOT_SUPPORTED));
      return Err(AddressNotSupported);
    }
  }

  method ReadDomain(stream: ByteStream) returns (result: Result<Host, Error>)
    requires stream.Valid()
    modifies stream
    ensures Outcome(result, stream.Pending(), stream.written)
      == DomainHost(old(stream.Pending())).(replies := old(stream.written) + DomainHost(old(stream.Pending())).replies)
  {
    var length := stream.ReadExact(1);
    if length.None? { return Err(EndOfStream); }
    if length.value[0] == 0 {
      stream.WriteAll(Refusal(ADDRESS_TYPE_NOT_SUPPORTED));
      return Err(InvalidDomain);
    }
    ghost var input := old(stream.Pending());
    var bytes := stream.ReadExact(length.value[0]);
    if bytes.None? { return Err(EndOfStream); }
    assert bytes.value == input[1..1 + length.value[0] as int];
    if !IsText(bytes.value) { return Err(InvalidDomain); }
    assert forall i | 1 <= i < 1 + length.value[0] as int :: input[i] == bytes.value[i - 1];
    if exists i | 0 <= i < |bytes.value| :: Control(bytes.value[i]) {
      stream.WriteAll(Refusal(ADDRESS_TYPE_NOT_SUPPORTED));
      ghost var i :| 0 <= i < |bytes.value| && Control(bytes.value[i]);
      assert Control(input[i + 1]);
      return Err(InvalidDomain);
    }
    return Ok(Domain(bytes.value));
  }

  method ReadPort(stream: ByteStream) returns (result: Result<nat, Error>)
    requires stream.Valid()
    modifies stream
    ensures Outcome(result, stream.Pending(), stream.written)
      == PortRead(old(stream.Pending())).(replies := old(stream.written) + PortRead(old(stream.Pending())).replies)
  {
    var bytes := stream.ReadExact(2);
    if bytes.None? { return Err(EndOfStream); }
    var port := bytes.value[0] as int * 256 + bytes.value[1];
    if port == 0 {
      stream.WriteAll(Refusal(GENERAL_FAILURE));
      return Err(InvalidPort);
    }
    return Ok(port);
  }

  lemma HostSaysNothing(addressType: Byte, input: seq<Byte>)
    ensures HostRead(addressType, input).result.Ok? ==> HostRead(addressType, input).replies == []
  {
  }

  method ReadTarget(stream: ByteStream, addressType: Byte) returns (result: Result<Target, Error>)
    requires stream.Valid()
    modifies stream
    ensures result == TargetRead(addressType, old(stream.Pending())).result
    ensures stream.Pending() == TargetRead(addressType, old(stream.Pending())).rest
    ensures stream.written == old(stream.written) + TargetRead(addressType, old(stream.Pending())).replies
  {
    HostSaysNothing(addressType, stream.Pending());
    var host := ReadHost(stream, addressType);
    if host.Err? { return Err(host.error); }
    var port := ReadPort(stream);
    if port.Err? { return Err(port.error); }
    return Ok(Target(host.value, port.value));
  }

  method ReadConnectRequest(stream: ByteStream) returns (result: Result<Target, Error>)
    requires stream.Valid()
    modifies stream
    ensures result == Requested(old(stream.Pending())).result
    ensures stream.Pending() == Requested(old(stream.Pending())).rest
    ensures stream.written == old(stream.written) + Requested(old(stream.Pending())).replies
  {
    var header := stream.ReadExact(4);
    if header.None? { return Err(EndOfStream); }
    if header.value[0] != 5 || header.value[2] != 0 {
      stream.WriteAll(Refusal(GENERAL_FAILURE));
      return Err(MalformedRequest);
    }
    if CommandError(header.value[1]).Some? {
      stream.WriteAll(Refusal(COMMAND_NOT_SUPPORTED));
      return Err(CommandError(header.value[1]).value);
    }
    result := ReadTarget(stream, header.value[3]);
  }

  // ----- the whole handshake --------------------------------------------------------------------------------

  function Then<S, T>(first: Outcome<S>, second: Outcome<T>): Outcome<T> {
    if first.result.Err? then Failed(first.result.error, first.rest, first.replies)
    else second.(replies := first.replies + second.replies)
  }

  function Admitted(input: seq<Byte>, accepts: Pair -> bool): Outcome<Target> {
    Then(Authenticated(input, accepts), Requested(Authenticated(input, accepts).rest))
  }

  function Accepted(input: seq<Byte>, compatible: bool, accepts: Pair -> bool): Outcome<Target> {
    if !compatible then Failed(InvalidCredentialLength, input, [])
    else Then(Negotiated(input), Admitted(Negotiated(input).rest, accepts))
  }

  method AdmitConnect(stream: ByteStream, accepts: Pair -> bool) returns (result: Result<Target, Error>)
    requires stream.Valid()
    modifies stream
    ensures result == Admitted(old(stream.Pending()), accepts).result
    ensures stream.Pending() == Admitted(old(stream.Pending()), accepts).rest
    ensures stream.written == old(stream.written) + Admitted(old(stream.Pending()), accepts).replies
  {
    ghost var first := Authenticated(stream.Pending(), accepts);
    var pair := Authenticate(stream, accepts);
    if pair.Err? { return Err(pair.error); }
    ghost var second := Requested(stream.Pending());
    result := ReadConnectRequest(stream);
    RepliesJoin(old(stream.written), first, second);
  }

  lemma RepliesJoin<S, T>(before: seq<Byte>, first: Outcome<S>, second: Outcome<T>)
    requires first.result.Ok?
    ensures (before + first.replies) + second.replies == before + Then(first, second).replies
  {
  }

  method AcceptSocks5Connect(stream: ByteStream, compatible: bool, accepts: Pair -> bool)
    returns (result: Result<Target, Error>)
    requires stream.Valid()
    modifies stream
    ensures result == Accepted(old(stream.Pending()), compatible, accepts).result
    ensures stream.Pending() == Accepted(old(stream.Pending()), compatible, accepts).rest
    ensures stream.written == old(stream.written) + Accepted(old(stream.Pending()), compatible, accepts).replies
  {
    if !compatible { return Err(InvalidCredentialLength); }
    ghost var first := Negotiated(stream.Pending());
    var greeting := NegotiateUsernamePassword(stream);
    if greeting.Err? { return Err(greeting.error); }
    ghost var second := Admitted(stream.Pending(), accepts);
    result := AdmitConnect(stream, accepts);
    RepliesJoin(old(stream.written), first, second);
  }

  datatype Handshake = Handshake(methods: seq<Byte>, pair: Pair, target: Target)

  predicate ValidHandshake(h: Handshake) {
    ValidMethods(h.methods) && ValidPair(h.pair) && ValidTarget(h.target)
  }

  function HandshakeBytes(h: Handshake): seq<Byte>
    requires ValidHandshake(h)
  {
    GreetingBytes(h.methods) + (PairBytes(h.pair) + RequestBytes(h.target))
  }

  lemma GreetingReads(methods: seq<Byte>, rest: seq<Byte>)
    requires ValidMethods(methods)
    ensures Negotiated(GreetingBytes(methods) + rest) == Outcome(Ok(()), rest, [5, 2])
  {
    var input := GreetingBytes(methods) + rest;
    assert input[2..2 + |methods|] == methods && input[2 + |methods|..] == rest;
  }

  lemma GreetingRead(input: seq<Byte>)
    requires Negotiated(input).result.Ok?
    ensures ValidMethods(input[2..2 + input[1] as int])
    ensures input == GreetingBytes(input[2..2 + input[1] as int]) + Negotiated(input).rest
  {
  }

  lemma PairReads(pair: Pair, rest: seq<Byte>)
    requires ValidPair(pair)
    ensures Presented(PairBytes(pair) + rest) == Outcome(Ok(pair), rest, [])
  {
    var input := PairBytes(pair) + rest;
    var middle := 2 + |pair.username|;
    var end := middle + 1 + |pair.password|;
    assert input[2..middle] == pair.username && input[middle] == |pair.password|;
    assert input[middle + 1..end] == pair.password && input[end..] == rest;
  }

  lemma PairRead(input: seq<Byte>)
    requires Presented(input).result.Ok?
    ensures ValidPair(Presented(input).result.value)
    ensures input == PairBytes(Presented(input).result.value) + Presented(input).rest
  {
  }

  /** The address octets after the type octet. */
  function AddressType(h: Host): Byte {
    match h
    case Ipv4(_) => 1
    case Ipv6(_) => 4
    case Domain(_) => 3
  }

  lemma HostReads(h: Host, rest: seq<Byte>)
    requires ValidHost(h)
    ensures HostRead(AddressType(h), HostBytes(h)[1..] + rest) == Outcome(Ok(h), rest, [])
  {
    var input := HostBytes(h)[1..] + rest;
    match h
    case Ipv4(octets) =>
      assert input[..4] == octets && input[4..] == rest;
    case Ipv6(octets) =>
      assert input[..16] == octets && input[16..] == rest;
    case Domain(name) =>
      assert input[1..1 + |name|] == name && input[1 + |name|..] == rest;
      assert forall i | 1 <= i < 1 + |name| :: input[i] == name[i - 1];
  }

  lemma HostWasRead(addressType: Byte, input: seq<Byte>)
    requires HostRead(addressType, input).result.Ok?
    ensures var h := HostRead(addressType, input).result.value;
      ValidHost(h) && AddressType(h) == addressType && input == HostBytes(h)[1..] + HostRead(addressType, input).rest
  {
    if addressType == 3 {
      var end := 1 + input[0] as int;
      assert forall i | 0 <= i < |input[1..end]| :: input[1..end][i] == input[i + 1];
    }
  }

  lemma TargetReads(t: Target, rest: seq<Byte>)
    requires ValidTarget(t)
    ensures TargetRead(AddressType(t.host), HostBytes(t.host)[1..] + (PortBytes(t.port) + rest)) ==
      Outcome(Ok(t), rest, [])
  {
    HostReads(t.host, PortBytes(t.port) + rest);
    assert (PortBytes(t.port) + rest)[2..] == rest;
  }

  lemma TargetWasRead(addressType: Byte, input: seq<Byte>)
    requires TargetRead(addressType, input).result.Ok?
    ensures var t := TargetRead(addressType, input).result.value;
      && ValidTarget(t) && AddressType(t.host) == addressType
      && input == HostBytes(t.host)[1..] + (PortBytes(t.port) + TargetRead(addressType, input).rest)
  {
    hide HostRead, HostBytes, ValidHost;
    HostWasRead(addressType, input);
    var rest := HostRead(addressType, input).rest;
    assert rest == PortBytes(PortRead(rest).result.value) + rest[2..];
  }

  lemma AddressLeads(host: Host)
    requires ValidHost(host)
    ensures HostBytes(host) != [] && HostBytes(host) == [AddressType(host)] + HostBytes(host)[1..]
  {
  }

  lemma RequestSplits(t: Target, rest: seq<Byte>)
    requires ValidTarget(t)
    ensures HostBytes(t.host) != []
    ensures RequestBytes(t) + rest ==
      [5, 1, 0, AddressType(t.host)] + (HostBytes(t.host)[1..] + (PortBytes(t.port) + rest))
  {
    hide HostBytes, AddressType, PortBytes, ValidHost;
    AddressLeads(t.host);
    var tail, port := HostBytes(t.host)[1..], PortBytes(t.port);
    assert [5, 1, 0] + HostBytes(t.host) == [5, 1, 0, AddressType(t.host)] + tail;
    assert RequestBytes(t) + rest == [5, 1, 0, AddressType(t.host)] + tail + port + rest;
  }

  lemma RequestReads(t: Target, rest: seq<Byte>)
    requires ValidTarget(t)
    ensures Requested(RequestBytes(t) + rest) == Outcome(Ok(t), rest, [])
  {
    var tail := HostBytes(t.host)[1..] + (PortBytes(t.port) + rest);
    RequestSplits(t, rest);
    assert ([5, 1, 0, AddressType(t.host)] + tail)[4..] == tail;
    TargetReads(t, rest);
  }

  lemma RequestRead(input: seq<Byte>)
    requires Requested(input).result.Ok?
    ensures ValidTarget(Requested(input).result.value)
    ensures input == RequestBytes(Requested(input).result.value) + Requested(input).rest
  {
    TargetWasRead(input[3], input[4..]);
    RequestSplits(Requested(input).result.value, Requested(input).rest);
    assert input == [input[0], input[1], input[2], input[3]] + input[4..];
  }

  /** Every well-formed handshake with an accepted pair yields its target and leaves what follows unread. */
  lemma HandshakeReads(h: Handshake, rest: seq<Byte>, accepts: Pair -> bool)
    requires ValidHandshake(h) && accepts(h.pair)
    ensures Accepted(HandshakeBytes(h) + rest, true, accepts) == Outcome(Ok(h.target), rest, [5, 2, 1, 0])
  {
    var afterPair := RequestBytes(h.target) + rest;
    var afterGreeting := PairBytes(h.pair) + afterPair;
    assert HandshakeBytes(h) + rest == GreetingBytes(h.methods) + afterGreeting;
    GreetingReads(h.methods, afterGreeting);
    PairReads(h.pair, afterPair);
    RequestReads(h.target, rest);
  }

  /** A handshake whose pair is not accepted is answered and refused after exactly that pair. */
  lemma HandshakeRefused(h: Handshake, rest: seq<Byte>, accepts: Pair -> bool)
    requires ValidHandshake(h) && !accepts(h.pair)
    ensures Accepted(HandshakeBytes(h) + rest, true, accepts)
      == Outcome(Err(AuthenticationFailed), RequestBytes(h.target) + rest, [5, 2, 1, 1])
  {
    var afterPair := RequestBytes(h.target) + rest;
    var afterGreeting := PairBytes(h.pair) + afterPair;
    assert HandshakeBytes(h) + rest == GreetingBytes(h.methods) + afterGreeting;
    GreetingReads(h.methods, afterGreeting);
    PairReads(h.pair, afterPair);
  }

  /** The handshake a stream starts with when it is accepted. */
  function HandshakeOf(input: seq<Byte>, accepts: Pair -> bool): Handshake
    requires Accepted(input, true, accepts).result.Ok?
  {
    Handshake(input[2..2 + input[1] as int], Presented(Negotiated(input).rest).result.value,
              Accepted(input, true, accepts).result.value)
  }

  /** Nothing else is accepted. */
  lemma AcceptedIsHandshake(input: seq<Byte>, accepts: Pair -> bool)
    requires Accepted(input, true, accepts).result.Ok?
    ensures var h := HandshakeOf(input, accepts);
      && ValidHandshake(h) && accepts(h.pair)
      && input == HandshakeBytes(h) + Accepted(input, true, accepts).rest
  {
    var afterGreeting := Negotiated(input).rest;
    var afterPair := Presented(afterGreeting).rest;
    GreetingRead(input);
    PairRead(afterGreeting);
    RequestRead(afterPair);
    var h := HandshakeOf(input, accepts);
    var rest := Accepted(input, true, accepts).rest;
    assert input == GreetingBytes(h.methods) + (PairBytes(h.pair) + (RequestBytes(h.target) + rest));
  }

  /**
   A stream is accepted exactly when the stored credentials fit the protocol and it starts with a well-formed
   handshake that presents an accepted pair.
   */
  lemma AcceptedExactly(input: seq<Byte>, compatible: bool, accepts: Pair -> bool)
    ensures Accepted(input, compatible, accepts).result.Ok? <==>
      compatible && exists h | ValidHandshake(h) && accepts(h.pair) :: HandshakeBytes(h) <= input
  {
    if Accepted(input, true, accepts).result.Ok? {
      AcceptedIsHandshake(input, accepts);
    }
    forall h | ValidHandshake(h) && accepts(h.pair) && HandshakeBytes(h) <= input
      ensures Accepted(input, true, accepts).result.Ok?
    {
      HandshakeReads(h, input[|HandshakeBytes(h)|..], accepts);
      assert input == HandshakeBytes(h) + input[|HandshakeBytes(h)|..];
    }
  }
}
