/** The handler of server.py (class Proxy): the same greeting and address
    readers as Proxy.py, but no exception handling around the parsing, an
    unknown address type that yields no host instead of failing, a success
    reply that always claims an IPv4 bound address, and a close of the
    client socket at the end of every path that gets there. */
module ServerPy {
  import opened Python
  import opened Bytes
  import opened Wire
  import opened Session

  /** prepare_addr: the packed address for the three known types, None
      (having read nothing) for any other type. Its exceptions are not
      caught anywhere in the handler. */
  function PrepareAddr(atyp: byte, s: seq<byte>, resolve: Resolver): (r: Result<Read<Option<seq<byte>>>>)
    ensures !KnownAtyp(atyp) ==> r == Ok(Read(None, s))
    ensures KnownAtyp(atyp) && r.Ok? ==> r.value.value.Some?
    ensures KnownAtyp(atyp) ==>
              (r.Ok? <==> ReadKnownAddress(atyp, s, resolve).Ok?)
    ensures KnownAtyp(atyp) && r.Ok? ==>
              r.value == Read(Some(ReadKnownAddress(atyp, s, resolve).value.value),
                              ReadKnownAddress(atyp, s, resolve).value.rest)
  {
    if KnownAtyp(atyp) then
      var a :- ReadKnownAddress(atyp, s, resolve);
      Ok(Read(Some(a.value), a.rest))
    else Ok(Read(None, s))
  }

  /** The connect block of handle_client for a CONNECT request. Connecting
      to the None host of an unknown type raises TypeError before any
      network call; a failed connect, or the 4-tuple name of an AF_INET6
      socket, raises too. Every one of these is caught and answered with
      the failure reply carrying the request's address type. On success
      the reply always has ATYP 1. The client is closed in every case. */
  function ConnectAndReply(host: Option<seq<byte>>, port: Port, atyp: byte, connect: Connector): (o: Outcome)
    ensures o.exit == Returned && o.closesClient
    ensures o.dialled <==> host.Some?
    ensures o.relays <==> host.Some? && FamilyFor(atyp) == Inet && connect(Inet, host.value, port).Some?
    ensures o.relays ==> o.sent == SuccessReply(AtypIpv4, connect(Inet, host.value, port).value.addr,
                                                connect(Inet, host.value, port).value.port)
    ensures !o.relays ==> o.sent == ErrorReply(atyp)
  {
    var family := FamilyFor(atyp);
    match host
    case None => Outcome(ErrorReply(atyp), false, false, true, Returned)
    case Some(h) =>
      match connect(family, h, port)
      case None => Outcome(ErrorReply(atyp), true, false, true, Returned)
      case Some(b) =>
        match UnpackSockName(family, b)
        case Raise(_) => Outcome(ErrorReply(atyp), true, false, true, Returned)
        case Ok(name) => Outcome(SuccessReply(AtypIpv4, name.addr, name.port), true, true, true, Returned)
  }

  /** Everything after the method selection: request header, address,
      port, command check, connect and reply. */
  function HandleRequest(s: seq<byte>, resolve: Resolver, connect: Connector): (o: Outcome)
    ensures o.relays <==> |o.sent| > 1 && o.sent[1] == RepSucceeded
    ensures o.relays ==> o.dialled && |o.sent| == 10 && o.sent[3] == AtypIpv4
    ensures o.sent != [] ==> o.closesClient && o.exit == Returned && |o.sent| >= 10
    ensures o.sent != [] && !o.relays ==> |s| >= 4 && o.sent == ErrorReply(s[3])
  {
    match ReadHeader(s)
    case Raise(e) => Outcome([], false, false, false, Raised(e))
    case Ok(h) =>
      match PrepareAddr(h.value.atyp, h.rest, resolve)
      case Raise(e) => Outcome([], false, false, false, Raised(e))
      case Ok(a) =>
        var port := ReadPort(a.rest);
        if h.value.command != CmdConnect then Outcome([], false, false, true, Returned)
        else
          var o := ConnectAndReply(a.value, port.value, h.value.atyp, connect);
          assert ([5, 0] + o.sent)[3] == o.sent[1];
          o
  }

  /** One client session of server.py. */
  function Handle(s: seq<byte>, resolve: Resolver, connect: Connector): (o: Outcome)
    ensures o.sent == [] || (|o.sent| >= 2 && o.sent[..2] == MethodSelection(NoAuth))
    ensures o.relays <==> RepliedSuccess(o)
    ensures o.relays ==> o.dialled && |o.sent| == 12 && o.sent[5] == AtypIpv4
    ensures |o.sent| > 2 ==> o.closesClient && o.exit == Returned
    ensures |o.sent| > 2 && !o.relays ==>
              && ReadGreeting(s).Ok? && |ReadGreeting(s).value.rest| >= 4
              && |o.sent| == 14 && o.sent[2..] == ErrorReply(ReadGreeting(s).value.rest[3])
  {
    match ReadGreeting(s)
    case Raise(e) => Outcome([], false, false, false, Raised(e))
    case Ok(g) =>
      if !AcceptsNoAuth(g.value) then Outcome([], false, false, true, Raised(SystemExit))
      else
        var chosen := MethodSelection(NoAuth);
        var o := HandleRequest(g.rest, resolve, connect);
        assert (chosen + o.sent)[2..] == o.sent;
        o.(sent := chosen + o.sent)
  }

  // ---------------------------------------------------------------------
  // Session properties
  // ---------------------------------------------------------------------

  /** A session is the method selection followed by the request phase
      when the greeting is read and offers method 0; otherwise it never
      reaches the relay. */
  lemma SelectionThenRequest(s: seq<byte>, resolve: Resolver, connect: Connector)
    ensures ReadGreeting(s).Ok? && AcceptsNoAuth(ReadGreeting(s).value.value) ==>
              var o := HandleRequest(ReadGreeting(s).value.rest, resolve, connect);
              Handle(s, resolve, connect) == o.(sent := [5, 0] + o.sent)
    ensures !(ReadGreeting(s).Ok? && AcceptsNoAuth(ReadGreeting(s).value.value)) ==>
              !Handle(s, resolve, connect).relays && Handle(s, resolve, connect).sent == []
  {
  }

  /** Without "no authentication" among the offered methods nothing is
      sent, the client is closed and sys.exit raises SystemExit out of the
      handler; nothing after the greeting is read. */
  lemma RefusedWithoutNoAuth(g: Greeting, rest: seq<byte>, resolve: Resolver, connect: Connector)
    requires ValidGreeting(g) && !AcceptsNoAuth(g)
    ensures Handle(EncodeGreeting(g) + rest, resolve, connect) == Outcome([], false, false, true, Raised(SystemExit))
  {
    GreetingRoundTrip(g, rest);
  }

  /** After the method selection, a header shorter than four bytes raises
      ValueError out of the handler; the client is not closed. */
  lemma ShortRequestRaises(g: Greeting, rest: seq<byte>, resolve: Resolver, connect: Connector)
    requires ValidGreeting(g) && AcceptsNoAuth(g) && |rest| < 4
    ensures Handle(EncodeGreeting(g) + rest, resolve, connect) == Outcome([5, 0], false, false, false, Raised(ValueError))
  {
    GreetingRoundTrip(g, rest);
  }

  /** With "no authentication" offered, whatever follows the greeting,
      the first two bytes sent are the method selection [5, 0]. */
  lemma NoAuthSelected(g: Greeting, rest: seq<byte>, resolve: Resolver, connect: Connector)
    requires ValidGreeting(g) && AcceptsNoAuth(g)
    ensures |Handle(EncodeGreeting(g) + rest, resolve, connect).sent| >= 2
    ensures Handle(EncodeGreeting(g) + rest, resolve, connect).sent[..2] == [5, 0]
  {
    GreetingRoundTrip(g, rest);
  }

  /** After the method selection, a domain length byte that is not an
      ASCII digit raises ValueError with nothing more sent. */
  lemma NonDigitLengthRequestRaises(v: byte, cmd: byte, rsv: byte, b: byte, rest: seq<byte>,
                                    resolve: Resolver, connect: Connector)
    requires !(0x30 <= b <= 0x39)
    ensures HandleRequest([v, cmd, rsv, AtypDomain, b] + rest, resolve, connect)
         == Outcome([], false, false, false, Raised(ValueError))
  {
    var s := [v, cmd, rsv, AtypDomain, b] + rest;
    assert s[4..] == [b] + rest;
    assert ReadHeader(s) == Ok(Read(Header(v, cmd, rsv, AtypDomain), [b] + rest));
    assert ReadKnownAddress(AtypDomain, [b] + rest, resolve) == Raise(ValueError);
  }

  /** A domain length byte that is not an ASCII digit raises ValueError out
      of the handler, after the method selection and before any reply. */
  lemma NonDigitDomainLengthRaises(g: Greeting, v: byte, cmd: byte, rsv: byte, b: byte, rest: seq<byte>,
                                   resolve: Resolver, connect: Connector)
    requires ValidGreeting(g) && AcceptsNoAuth(g) && !(0x30 <= b <= 0x39)
    ensures Handle(EncodeGreeting(g) + ([v, cmd, rsv, AtypDomain, b] + rest), resolve, connect)
         == Outcome([5, 0], false, false, false, Raised(ValueError))
  {
    GreetingRoundTrip(g, [v, cmd, rsv, AtypDomain, b] + rest);
    NonDigitLengthRequestRaises(v, cmd, rsv, b, rest, resolve, connect);
  }

  /** The relay starts exactly when the request is a CONNECT whose AF_INET
      connect succeeds, and the reply sent then carries ATYP 1 over the
      bound name, whatever type was requested. */
  lemma RelayExactly(s: seq<byte>, resolve: Resolver, connect: Connector)
    ensures HandleRequest(s, resolve, connect).relays <==> ConnectSucceeds(s, resolve, connect)
    ensures ConnectSucceeds(s, resolve, connect) ==>
              HandleRequest(s, resolve, connect).sent
              == SuccessReply(AtypIpv4, BoundFor(s, resolve, connect).addr, BoundFor(s, resolve, connect).port)
  {
    if |s| >= 4 && KnownAtyp(s[3]) {
      assert ReadHeader(s) == Ok(Read(Header(s[0], s[1], s[2], s[3]), s[4..]));
      match ReadKnownAddress(s[3], s[4..], resolve)
      case Raise(_) =>
      case Ok(a) =>
        assert PrepareAddr(s[3], s[4..], resolve) == Ok(Read(Some(a.value), a.rest));
    }
  }

  /** A command other than CONNECT closes the client with no reply beyond
      the method selection and no outbound connection, whatever the
      address type (the address and port are still read). */
  lemma UnsupportedCommandClosesSilently(g: Greeting, v: byte, cmd: byte, rsv: byte, atyp: byte, rest: seq<byte>,
                                         resolve: Resolver, connect: Connector)
    requires ValidGreeting(g) && AcceptsNoAuth(g) && cmd != CmdConnect
    requires KnownAtyp(atyp) ==> ReadKnownAddress(atyp, rest, resolve).Ok?
    ensures Handle(EncodeGreeting(g) + ([v, cmd, rsv, atyp] + rest), resolve, connect)
         == Outcome([5, 0], false, false, true, Returned)
  {
    GreetingRoundTrip(g, [v, cmd, rsv, atyp] + rest);
    assert ([v, cmd, rsv, atyp] + rest)[4..] == rest;
  }

  /** A CONNECT with an address type other than 1, 3 or 4 reads no address,
      attempts no connection, answers with the failure reply echoing the
      unknown type, and closes the client. */
  lemma UnknownAtypFails(g: Greeting, v: byte, rsv: byte, atyp: byte, rest: seq<byte>,
                         resolve: Resolver, connect: Connector)
    requires ValidGreeting(g) && AcceptsNoAuth(g) && !KnownAtyp(atyp)
    ensures Handle(EncodeGreeting(g) + ([v, CmdConnect, rsv, atyp] + rest), resolve, connect)
         == Outcome([5, 0] + ErrorReply(atyp), false, false, true, Returned)
  {
    GreetingRoundTrip(g, [v, CmdConnect, rsv, atyp] + rest);
    assert ([v, CmdConnect, rsv, atyp] + rest)[4..] == rest;
  }

  /** An IPv4 or IPv6 request is read completely by the header, address and
      port readers, so the connect block sees the requested host and port. */
  lemma LiteralRequestHandled(q: Request, rest: seq<byte>, resolve: Resolver, connect: Connector)
    requires ValidAddress(q.dst) && !q.dst.DomainName?
    ensures HandleRequest(EncodeRequest(q) + rest, resolve, connect)
         == if q.command != CmdConnect then Outcome([], false, false, true, Returned)
            else ConnectAndReply(Some(q.dst.addr), q.port, AtypOf(q.dst), connect)
  {
    LiteralRequestRead(q, rest, resolve);
  }

  /** An IPv4 CONNECT: success is answered with the 10-byte IPv4 reply
      carrying the bound name and the relay starts; a failed connect gets
      the failure reply. The client is closed either way. */
  lemma Ipv4Connect(g: Greeting, q: Request, rest: seq<byte>, resolve: Resolver, connect: Connector)
    requires ValidGreeting(g) && AcceptsNoAuth(g)
    requires ValidAddress(q.dst) && q.dst.Ipv4? && q.command == CmdConnect
    ensures var o := Handle(EncodeGreeting(g) + (EncodeRequest(q) + rest), resolve, connect);
      match connect(Inet, q.dst.addr, q.port)
      case None => o == Outcome([5, 0] + ErrorReply(AtypIpv4), true, false, true, Returned)
      case Some(b) => o == Outcome([5, 0] + SuccessReply(AtypIpv4, b.addr, b.port), true, true, true, Returned)
  {
    GreetingRoundTrip(g, EncodeRequest(q) + rest);
    LiteralRequestHandled(q, rest, resolve, connect);
  }

  /** An IPv6 CONNECT never succeeds: the connect is attempted over
      AF_INET6, but the name of that socket cannot be unpacked into two,
      so the client gets the failure reply with ATYP 4 and is closed. */
  lemma Ipv6NeverSucceeds(g: Greeting, q: Request, rest: seq<byte>, resolve: Resolver, connect: Connector)
    requires ValidGreeting(g) && AcceptsNoAuth(g)
    requires ValidAddress(q.dst) && q.dst.Ipv6? && q.command == CmdConnect
    ensures Handle(EncodeGreeting(g) + (EncodeRequest(q) + rest), resolve, connect)
         == Outcome([5, 0] + ErrorReply(AtypIpv6), true, false, true, Returned)
  {
    GreetingRoundTrip(g, EncodeRequest(q) + rest);
    LiteralRequestHandled(q, rest, resolve, connect);
  }

  /** A domain request whose length is one ASCII digit resolves exactly
      the name; a failed lookup raises OSError out of the handler, and a
      resolved address goes to the connect block. */
  lemma DigitDomainHandled(v: byte, cmd: byte, rsv: byte, name: seq<byte>, port: Port,
                           rest: seq<byte>, resolve: Resolver, connect: Connector)
    requires |name| <= 9
    ensures var o := HandleRequest([v, cmd, rsv, AtypDomain] + DigitText(|name|) + name + PortBytes(port) + rest,
                                   resolve, connect);
      match resolve(name)
      case None => o == Outcome([], false, false, false, Raised(OSError))
      case Some(ip) =>
        o == if cmd != CmdConnect then Outcome([], false, false, true, Returned)
             else ConnectAndReply(Some(ip), port, AtypDomain, connect)
  {
    var req := [v, cmd, rsv, AtypDomain] + DigitText(|name|) + name + PortBytes(port) + rest;
    assert req[4..] == DigitText(|name|) + name + (PortBytes(port) + rest);
    DigitDomainAccepted(name, PortBytes(port) + rest, resolve);
    PortRoundTrip(port, rest);
  }

  /** A resolved domain CONNECT that succeeds is answered with ATYP 1, not
      the requested 3: the reply always claims an IPv4 bound address. */
  lemma DigitDomainSuccessClaimsIpv4(g: Greeting, v: byte, rsv: byte, name: seq<byte>, port: Port,
                                     rest: seq<byte>, resolve: Resolver, connect: Connector)
    requires ValidGreeting(g) && AcceptsNoAuth(g) && |name| <= 9
    requires resolve(name).Some? && connect(Inet, resolve(name).value, port).Some?
    ensures var b := connect(Inet, resolve(name).value, port).value;
      Handle(EncodeGreeting(g) + ([v, CmdConnect, rsv, AtypDomain] + DigitText(|name|) + name + PortBytes(port) + rest),
             resolve, connect)
      == Outcome([5, 0] + SuccessReply(AtypIpv4, b.addr, b.port), true, true, true, Returned)
  {
    var req := [v, CmdConnect, rsv, AtypDomain] + DigitText(|name|) + name + PortBytes(port) + rest;
    GreetingRoundTrip(g, req);
    DigitDomainHandled(v, CmdConnect, rsv, name, port, rest, resolve, connect);
  }
}
