/** One port for two protocols: the first byte selects the parser and is replayed into it. */
module MixedIngress {
  import opened Common
  import opened ProxyStream
  import Socks5
  import HttpConnect

  datatype Protocol = Socks | Http

  datatype Error =
    | EmptyStream
    | UnsupportedProtocol
    | SocksFailed(socks: Socks5.Error)
    | HttpFailed(http: HttpConnect.Error)

  datatype Accepted = Accepted(protocol: Protocol, target: Target)

  const SOCKS5_DISCRIMINATOR: Byte := 5
  const HTTP_DISCRIMINATOR: Byte := 67

  /** The credential policy, seen through the two wire forms. */
  datatype Policy = Policy(compatible: bool, pair: Socks5.Pair -> bool, basic: string -> bool)

  function FromSocks(result: Result<Target, Socks5.Error>): Result<Accepted, Error> {
    match result
    case Ok(target) => Ok(Accepted(Socks, target))
    case Err(error) => Err(SocksFailed(error))
  }

  function FromHttp(result: Result<Target, HttpConnect.Error>): Result<Accepted, Error> {
    match result
    case Ok(target) => Ok(Accepted(Http, target))
    case Err(error) => Err(HttpFailed(error))
  }

  /**
   The selected parser sees the stream as it was: its result, what it leaves unread and what it writes are
   those of the direct parser on the same bytes.
   */
  method AcceptMixedConnect(stream: ByteStream, policy: Policy, ip: HttpConnect.Addresses)
    returns (result: Result<Accepted, Error>)
    requires stream.Valid() && stream.replay.None?
    modifies stream
    ensures old(stream.Pending()) == [] ==> result == Err(EmptyStream) && stream.Pending() == []
    ensures old(stream.Pending()) != [] && old(stream.Pending())[0] == SOCKS5_DISCRIMINATOR ==>
      var direct := Socks5.Accepted(old(stream.Pending()), policy.compatible, policy.pair);
      && result == FromSocks(direct.result) && stream.Pending() == direct.rest
      && stream.written == old(stream.written) + direct.replies
    ensures old(stream.Pending()) != [] && old(stream.Pending())[0] == HTTP_DISCRIMINATOR ==>
      var input := old(stream.Pending());
      var n := HttpConnect.RequestLength(input);
      && result == FromHttp(HttpConnect.ParseRequest(input[..n], ip, policy.basic)) && stream.Pending() == input[n..]
      && stream.written == old(stream.written)
    ensures old(stream.Pending()) != [] && old(stream.Pending())[0] !in {SOCKS5_DISCRIMINATOR, HTTP_DISCRIMINATOR} ==>
      && result == Err(UnsupportedProtocol) && stream.Pending() == old(stream.Pending())[1..]
      && stream.written == old(stream.written)
  {
    ghost var input := stream.Pending();
    var first := stream.Read(1);
    if first == [] { return Err(EmptyStream); }
    if first[0] == SOCKS5_DISCRIMINATOR {
      Replay(stream, first[0], input);
      var target := Socks5.AcceptSocks5Connect(stream, policy.compatible, policy.pair);
      return FromSocks(target);
    } else if first[0] == HTTP_DISCRIMINATOR {
      Replay(stream, first[0], input);
      var target := HttpConnect.AcceptHttpConnectStream(stream, ip, policy.basic);
      return FromHttp(target);
    }
    return Err(UnsupportedProtocol);
  }

  /** Wraps the stream so that a byte already taken is seen again. */
  method Replay(stream: ByteStream, first: Byte, ghost input: seq<Byte>)
    requires stream.replay.None? && input == [first] + stream.Pending()
    modifies stream`replay
    ensures stream.Pending() == input
  {
    stream.replay := Some(first);
    assert stream.unread == input[1..];
  }
}
