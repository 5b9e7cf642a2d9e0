/** What a client handler does, seen from outside: the abstract network it
    runs against and the record of what it did. The client stream is a
    fully buffered byte sequence; name resolution and the outbound connect
    are oracles supplied by the caller. */
module Session {
  import opened Python
  import opened Bytes
  import opened Wire

  /** The address family of the outbound socket the handler creates. */
  datatype Family = Inet | Inet6

  /** The local name of a connected outbound socket, as the success reply
      carries it: the IPv4 address inet_pton packs from getsockname's host,
      and the port. */
  datatype Bound = Bound(addr: Addr4, port: Port)

  /** An oracle standing for socket(family).connect((host, port)) followed
      by getsockname: the local name of the connected socket, or None when
      the connect raises. The host is the packed destination address. */
  type Connector = (Family, seq<byte>, Port) -> Option<Bound>

  /** How the handler ended: by returning, or by an exception that escapes
      it (nothing in the handler catches it). */
  datatype Exit = Returned | Raised(error: PyError)

  /** Everything a handler run is observed to do: the bytes it sent to the
      client, in order; whether it asked the network for an outbound
      connection; whether it hands the two sockets to the relay loop;
      whether it closes the client socket on its way out; how it ended. */
  datatype Outcome = Outcome(sent: seq<byte>, dialled: bool, relays: bool, closesClient: bool, exit: Exit)

  /** Both handlers open an AF_INET6 socket for ATYP 4 and AF_INET otherwise. */
  function FamilyFor(atyp: byte): Family {
    if atyp == AtypIpv6 then Inet6 else Inet
  }

  /** `host, port = sock.getsockname()`: an AF_INET socket's name is a pair;
      an AF_INET6 socket's is a 4-tuple, which cannot be unpacked into two
      names and raises ValueError. */
  function UnpackSockName(family: Family, b: Bound): Result<Bound> {
    if family == Inet then Ok(b) else Raise(ValueError)
  }

  /** The client was sent a reply to its request with code 0 (success). */
  predicate RepliedSuccess(o: Outcome) {
    |o.sent| > 3 && o.sent[3] == RepSucceeded
  }

  /** Where the request at the front of `s` asks to connect: the packed
      address the shared readers produce for a known address type, and the
      big-endian port after it. None when the header is short, the type is
      unknown, or the address read raises. */
  function RequestTarget(s: seq<byte>, resolve: Resolver): (r: Option<(seq<byte>, Port)>)
    ensures r.Some? <==> |s| >= 4 && KnownAtyp(s[3]) && ReadKnownAddress(s[3], s[4..], resolve).Ok?
  {
    if |s| < 4 || !KnownAtyp(s[3]) then None
    else
      match ReadKnownAddress(s[3], s[4..], resolve)
      case Raise(_) => None
      case Ok(a) => Some((a.value, ReadPort(a.rest).value))
  }

  /** The target of an RFC 1928 request with a literal IPv4 or IPv6
      address is that address's packed bytes and the request's port,
      whatever follows the request. */
  lemma LiteralRequestTarget(q: Request, rest: seq<byte>, resolve: Resolver)
    requires ValidAddress(q.dst) && !q.dst.DomainName?
    ensures RequestTarget(EncodeRequest(q) + rest, resolve) == Some((q.dst.addr, q.port))
  {
    var s := EncodeRequest(q) + rest;
    LiteralRequestRead(q, rest, resolve);
    assert s[3] == AtypOf(q.dst) && s[4..] == EncodeAddress(q.dst) + PortBytes(q.port) + rest;
  }

  /** The request at the front of `s` is a CONNECT over an AF_INET socket
      whose connect succeeds: the only case in which either handler starts
      the relay. */
  predicate ConnectSucceeds(s: seq<byte>, resolve: Resolver, connect: Connector) {
    && RequestTarget(s, resolve).Some?
    && s[1] == CmdConnect
    && s[3] != AtypIpv6
    && connect(Inet, RequestTarget(s, resolve).value.0, RequestTarget(s, resolve).value.1).Some?
  }

  /** The local name of the connected socket in that case. */
  function BoundFor(s: seq<byte>, resolve: Resolver, connect: Connector): Bound
    requires ConnectSucceeds(s, resolve, connect)
  {
    connect(Inet, RequestTarget(s, resolve).value.0, RequestTarget(s, resolve).value.1).value
  }
}
