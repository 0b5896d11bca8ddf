/** The byte streams the proxy parsers read, and the destinations they produce. */
module ProxyStream {
  import opened Common
  import opened Utf8

  datatype Host = Ipv4(octets: seq<Byte>) | Ipv6(octets: seq<Byte>) | Domain(name: seq<Byte>)

  datatype Target = Target(host: Host, port: nat)

  predicate Control(b: Byte) {
    b < 32 || b == 127
  }

  predicate ValidHost(h: Host) {
    match h
    case Ipv4(octets) => |octets| == 4
    case Ipv6(octets) => |octets| == 16
    case Domain(name) => 1 <= |name| <= 255 && IsText(name) && forall i | 0 <= i < |name| :: !Control(name[i])
  }

  predicate ValidTarget(t: Target) {
    1 <= t.port <= 65535 && ValidHost(t.host)
  }

  /**
   One connection: what the peer will have sent before it closes, what was written back, and the byte the
   replay adapter still holds. A single read delivers at most `segment` bytes.
   */
  class ByteStream {
    var replay: Option<Byte>
    var unread: seq<Byte>
    var written: seq<Byte>
    const segment: nat

    constructor (sent: seq<Byte>, segment: nat)
      requires segment > 0
      ensures Valid() && Pending() == sent && written == []
    {
      replay, unread, written := None, sent, [];
      this.segment := segment;
    }

    predicate Valid() {
      segment > 0
    }

    /** Everything a reader of this stream will still see. */
    function Pending(): seq<Byte>
      reads this
    {
      (if replay.Some? then [replay.value] else []) + unread
    }

    method Read(n: nat) returns (bytes: seq<Byte>)
      requires Valid()
      modifies this`replay, this`unread
      ensures |bytes| <= n && (bytes == [] <==> n == 0 || old(Pending()) == [])
      ensures old(Pending()) == bytes + Pending()
      ensures old(replay).None? ==> replay.None?
    {
      if n == 0 { return []; }
      if replay.Some? {
        bytes := [replay.value];
        replay := None;
        return;
      }
      var most := if n < segment then n else segment;
      var count := if |unread| < most then |unread| else most;
      bytes := unread[..count];
      unread := unread[count..];
    }

    /** Fills a buffer of `n` bytes however the reads are cut up; nothing is left when the stream ends first. */
    method ReadExact(n: nat) returns (bytes: Option<seq<Byte>>)
      requires Valid()
      modifies this`replay, this`unread
      ensures |old(Pending())| >= n ==> bytes == Some(old(Pending())[..n]) && Pending() == old(Pending())[n..]
      ensures |old(Pending())| < n ==> bytes == None && Pending() == []
    {
      var filled := [];
      while |filled| < n
        invariant |filled| <= n && old(Pending()) == filled + Pending()
      {
        ghost var before := Pending();
        var chunk := Read(n - |filled|);
        if chunk == [] { return None; }
        assert filled + before == (filled + chunk) + Pending();
        filled := filled + chunk;
      }
      return Some(filled);
    }

    method WriteAll(bytes: seq<Byte>)
      modifies this`written
      ensures written == old(written) + bytes
    {
      written := written + bytes;
    }
  }
}
