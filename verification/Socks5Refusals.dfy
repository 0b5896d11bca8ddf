/** How each malformed or unsupported SOCKS5 frame is answered: the error, the reply and what stays unread. */
module Socks5Refusals {
  import opened Common
  import opened Utf8
  import opened ProxyStream
  import opened Socks5

  /** The reply of section 6 of RFC 1928 with the unspecified address. */
  function Reply(code: Byte): seq<Byte> {
    [5, code, 0, 1, 0, 0, 0, 0, 0, 0]
  }

  // ----- the greeting ---------------------------------------------------------------------------------------

  /** Another protocol version is refused without a reply. */
  lemma OtherVersionRefused(input: seq<Byte>, accepts: Pair -> bool)
    requires |input| >= 2 && input[0] != 5
    ensures Accepted(input, true, accepts) == Outcome(Err(UnsupportedVersion), input[2..], [])
  {
  }

  /** A greeting that does not offer username and password, an empty one included, is told so. */
  lemma OtherMethodsRefused(methods: seq<Byte>, rest: seq<Byte>, accepts: Pair -> bool)
    requires |methods| <= 255 && 2 !in methods
    ensures Accepted(GreetingBytes(methods) + rest, true, accepts)
      == Outcome(Err(UnsupportedAuthenticationMethod), rest, [5, 255])
  {
    var input := GreetingBytes(methods) + rest;
    assert input[2..2 + |methods|] == methods && input[2 + |methods|..] == rest;
  }

  // ----- the pair -------------------------------------------------------------------------------------------

  lemma AfterGreeting(methods: seq<Byte>, input: seq<Byte>, accepts: Pair -> bool)
    requires ValidMethods(methods)
    ensures var first := Authenticated(input, accepts);
      first.result.Err? ==>
        Accepted(GreetingBytes(methods) + input, true, accepts)
        == Outcome(Err(first.result.error), first.rest, [5, 2] + first.replies)
  {
    GreetingReads(methods, input);
  }

  /** Another version of the subnegotiation, or no username. */
  lemma NoUsernameRefused(methods: seq<Byte>, version: Byte, length: Byte, rest: seq<Byte>, accepts: Pair -> bool)
    requires ValidMethods(methods) && (version != 1 || length == 0)
    ensures Accepted(GreetingBytes(methods) + ([version, length] + rest), true, accepts)
      == Outcome(Err(MalformedAuthentication), rest, [5, 2, 1, 1])
  {
    assert ([version, length] + rest)[2..] == rest;
    AfterGreeting(methods, [version, length] + rest, accepts);
  }

  lemma NoPasswordRefused(methods: seq<Byte>, username: seq<Byte>, rest: seq<Byte>, accepts: Pair -> bool)
    requires ValidMethods(methods) && 1 <= |username| <= 255
    ensures Accepted(GreetingBytes(methods) + ([1, |username|] + username + [0] + rest), true, accepts)
      == Outcome(Err(MalformedAuthentication), rest, [5, 2, 1, 1])
  {
    var input: seq<Byte> := [1, |username|] + username + [0] + rest;
    assert input[2 + |username|] == 0 && input[3 + |username|..] == rest;
    AfterGreeting(methods, input, accepts);
  }

  // ----- the request ----------------------------------------------------------------------------------------

  /** The greeting and an accepted pair. */
  function Opening(methods: seq<Byte>, pair: Pair): seq<Byte>
    requires ValidMethods(methods) && ValidPair(pair)
  {
    GreetingBytes(methods) + PairBytes(pair)
  }

  ghost predicate Admits(methods: seq<Byte>, pair: Pair, accepts: Pair -> bool) {
    ValidMethods(methods) && ValidPair(pair) && accepts(pair)
  }

  /** The request after an accepted pair is answered with this error and reply, and `rest` stays unread. */
  ghost predicate RequestRefused(request: seq<Byte>, error: Error, reply: seq<Byte>, rest: seq<Byte>) {
    forall methods, pair, accepts | Admits(methods, pair, accepts) ::
      Accepted(Opening(methods, pair) + request, true, accepts) == Outcome(Err(error), rest, [5, 2, 1, 0] + reply)
  }

  lemma OpeningReads(methods: seq<Byte>, pair: Pair, accepts: Pair -> bool, request: seq<Byte>)
    requires Admits(methods, pair, accepts)
    ensures var last := Requested(request);
      Accepted(Opening(methods, pair) + request, true, accepts)
      == Outcome(last.result, last.rest, [5, 2, 1, 0] + last.replies)
  {
    hide GreetingBytes, PairBytes, Negotiated, Presented, Requested;
    assert Opening(methods, pair) + request == GreetingBytes(methods) + (PairBytes(pair) + request);
    GreetingReads(methods, PairBytes(pair) + request);
    PairReads(pair, request);
    assert [5, 2] + ([1, 0] + Requested(request).replies) == [5, 2, 1, 0] + Requested(request).replies;
  }

  lemma AfterOpening(request: seq<Byte>)
    requires Requested(request).result.Err?
    ensures RequestRefused(request, Requested(request).result.error, Requested(request).replies,
                           Requested(request).rest)
  {
    hide Requested, Accepted, Opening;
    forall methods, pair, accepts | Admits(methods, pair, accepts)
      ensures Accepted(Opening(methods, pair) + request, true, accepts)
        == Outcome(Err(Requested(request).result.error), Requested(request).rest,
                   [5, 2, 1, 0] + Requested(request).replies)
    {
      OpeningReads(methods, pair, accepts, request);
    }
  }

  lemma MalformedRequestRefused(version: Byte, command: Byte, reserved: Byte, addressType: Byte, rest: seq<Byte>)
    requires version != 5 || reserved != 0
    ensures RequestRefused([version, command, reserved, addressType] + rest, MalformedRequest, Reply(1), rest)
  {
    var request: seq<Byte> := [version, command, reserved, addressType] + rest;
    assert request[4..] == rest;
    AfterOpening(request);
  }

  /** Only CONNECT is served; the other commands have their own errors and one reply. */
  lemma OtherCommandRefused(command: Byte, addressType: Byte, rest: seq<Byte>)
    requires command != 1
    ensures RequestRefused([5, command, 0, addressType] + rest,
                           match command as int
                           case 2 => BindNotSupported
                           case 3 => UdpAssociateNotSupported
                           case _ => CommandNotSupported,
                           Reply(7), rest)
  {
    hide RequestRefused, TargetRead;
    var request: seq<Byte> := [5, command, 0, addressType] + rest;
    assert request[4..] == rest;
    assert Refusal(COMMAND_NOT_SUPPORTED) == Reply(7);
    AfterOpening(request);
  }

  lemma OtherAddressTypeRefused(addressType: Byte, rest: seq<Byte>)
    requires addressType != 1 && addressType != 3 && addressType != 4
    ensures RequestRefused([5, 1, 0, addressType] + rest, AddressNotSupported, Reply(8), rest)
  {
    var request: seq<Byte> := [5, 1, 0, addressType] + rest;
    assert request[4..] == rest;
    AfterOpening(request);
  }

  ghost predicate BadName(name: seq<Byte>) {
    name == [] || !IsText(name) || exists i | 0 <= i < |name| :: Control(name[i])
  }

  lemma BadNameRead(name: seq<Byte>, rest: seq<Byte>)
    requires |name| <= 255 && BadName(name)
    ensures HostRead(3, [|name|] + name + rest)
      == Outcome(Err(InvalidDomain), rest, if IsText(name) || name == [] then Reply(8) else [])
  {
    hide IsText, Control;
    var tail: seq<Byte> := [|name|] + name + rest;
    assert tail[1..1 + |name|] == name && tail[1 + |name|..] == rest;
    if i :| 0 <= i < |name| && Control(name[i]) { assert Control(tail[i + 1]); }
  }

  /** A name that is empty or holds a control character is answered; one that is not UTF-8 is not. */
  lemma BadNameRefused(name: seq<Byte>, rest: seq<Byte>)
    requires |name| <= 255 && BadName(name)
    ensures RequestRefused([5, 1, 0, 3] + ([|name|] + name + rest), InvalidDomain,
                           if IsText(name) || name == [] then Reply(8) else [], rest)
  {
    hide HostRead, IsText, BadName, RequestRefused;
    var tail: seq<Byte> := [|name|] + name + rest;
    assert ([5, 1, 0, 3] + tail)[4..] == tail;
    BadNameRead(name, rest);
    AfterOpening([5, 1, 0, 3] + tail);
  }

  lemma ZeroPortRefused(host: Host, rest: seq<Byte>)
    requires ValidHost(host)
    ensures RequestRefused([5, 1, 0] + HostBytes(host) + ([0, 0] + rest), InvalidPort, Reply(1), rest)
  {
    hide HostRead, HostBytes, ValidHost, RequestRefused;
    AddressLeads(host);
    var tail: seq<Byte> := HostBytes(host)[1..] + ([0, 0] + rest);
    assert [5, 1, 0] + HostBytes(host) + ([0, 0] + rest) == [5, 1, 0, AddressType(host)] + tail;
    assert ([5, 1, 0, AddressType(host)] + tail)[4..] == tail;
    HostReads(host, [0, 0] + rest);
    assert ([0, 0] + rest)[2..] == rest;
    assert Refusal(GENERAL_FAILURE) == Reply(1);
    AfterOpening([5, 1, 0, AddressType(host)] + tail);
  }

  // ----- a stream that ends early ---------------------------------------------------------------------------

  lemma GreetingCut(methods: seq<Byte>, n: nat)
    requires ValidMethods(methods) && n < |GreetingBytes(methods)|
    ensures Negotiated(GreetingBytes(methods)[..n]) == Outcome(Err(EndOfStream), [], [])
  {
  }

  lemma PairCut(pair: Pair, n: nat)
    requires ValidPair(pair) && n < |PairBytes(pair)|
    ensures Presented(PairBytes(pair)[..n]) == Outcome(Err(EndOfStream), [], [])
  {
    var bytes, middle := PairBytes(pair), 2 + |pair.username|;
    assert bytes[middle] == |pair.password| && bytes[1] == |pair.username|;
  }

  lemma RequestCut(target: Target, n: nat)
    requires ValidTarget(target) && n < |RequestBytes(target)|
    ensures Requested(RequestBytes(target)[..n]) == Outcome(Err(EndOfStream), [], [])
  {
    var bytes, address := RequestBytes(target), HostBytes(target.host);
    var cut := bytes[..n];
    assert address == [AddressType(target.host)] + address[1..];
    assert bytes == [5, 1, 0, AddressType(target.host)] + (address[1..] + PortBytes(target.port));
    if n >= 4 {
      assert cut[4..] == (address[1..] + PortBytes(target.port))[..n - 4];
      TargetCut(target, n - 4);
    }
  }

  lemma TargetCut(target: Target, n: nat)
    requires ValidTarget(target) && n < |HostBytes(target.host)| + 1
    ensures TargetRead(AddressType(target.host), (HostBytes(target.host)[1..] + PortBytes(target.port))[..n])
      == Outcome(Err(EndOfStream), [], [])
  {
    var address, port := HostBytes(target.host)[1..], PortBytes(target.port);
    var cut := (address + port)[..n];
    if n < |address| {
      assert cut == address[..n];
      HostCut(target.host, n);
    } else {
      assert cut == address + port[..n - |address|];
      HostReads(target.host, port[..n - |address|]);
    }
  }

  lemma HostCut(host: Host, n: nat)
    requires ValidHost(host) && n + 1 < |HostBytes(host)|
    ensures HostRead(AddressType(host), HostBytes(host)[1..][..n]) == Outcome(Err(EndOfStream), [], [])
  {
  }

  /** What was written before the stream ended. */
  function RepliesBefore(h: Handshake, n: nat): seq<Byte>
    requires ValidHandshake(h)
  {
    if n < |GreetingBytes(h.methods)| then []
    else if n < |Opening(h.methods, h.pair)| then [5, 2]
    else [5, 2, 1, 0]
  }

  /** A handshake cut anywhere is an early end of the stream, answered only as far as it was understood. */
  lemma HandshakeCut(h: Handshake, n: nat, accepts: Pair -> bool)
    requires ValidHandshake(h) && accepts(h.pair) && n < |HandshakeBytes(h)|
    ensures Accepted(HandshakeBytes(h)[..n], true, accepts) == Outcome(Err(EndOfStream), [], RepliesBefore(h, n))
  {
    hide GreetingBytes, PairBytes, RequestBytes, Negotiated, Presented, Requested;
    var greeting, pair, request := GreetingBytes(h.methods), PairBytes(h.pair), RequestBytes(h.target);
    var cut := HandshakeBytes(h)[..n];
    if n < |greeting| {
      assert cut == greeting[..n];
      GreetingCut(h.methods, n);
    } else if n < |greeting| + |pair| {
      assert cut == greeting + pair[..n - |greeting|];
      GreetingReads(h.methods, pair[..n - |greeting|]);
      PairCut(h.pair, n - |greeting|);
    } else {
      var sent := request[..n - |greeting| - |pair|];
      assert cut == greeting + (pair + sent);
      GreetingReads(h.methods, pair + sent);
      PairReads(h.pair, sent);
      RequestCut(h.target, n - |greeting| - |pair|);
    }
  }

  /** The control characters a name may not hold: everything below space, and DEL. */
  lemma ControlExactly(b: Byte)
    ensures Control(b) <==> b as int in [127] || b as int <= 31
  {
  }
}
