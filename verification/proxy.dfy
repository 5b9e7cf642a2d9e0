/** The handler of Proxy.py (class SOCKS5Proxy): greeting and method check,
    request parsing with ValueError caught, then connect, reply and relay
    inside one broad exception handler. */
module ProxyPy {
  import opened Python
  import opened Bytes
  import opened Wire
  import opened Session

  /** What the request parser hands back: the packed destination address,
      the port, the command byte and the address type. */
  datatype Prepared = Prepared(host: seq<byte>, port: Port, command: byte, atyp: byte)

  /** The greeting step: None when the handler must stop (the client
      offered no acceptable method), otherwise the stream after the
      greeting. A short greeting raises out of the handler. */
  function CheckAuthMethod(s: seq<byte>): (r: Result<Option<seq<byte>>>)
    ensures r.Raise? <==> ReadGreeting(s).Raise?
    ensures r.Ok? ==> (r.value.Some? <==> AcceptsNoAuth(ReadGreeting(s).value.value))
    ensures r.Ok? && r.value.Some? ==> r.value.value == ReadGreeting(s).value.rest
  {
    var g :- ReadGreeting(s);
    if AcceptsNoAuth(g.value) then Ok(Some(g.rest)) else Ok(None)
  }

  /** The request parser. Every ValueError inside it (a header shorter than
      four bytes, a short packed address, a length byte that is not an ASCII
      digit) is caught and turned into None. Other exceptions escape: a
      failed lookup (OSError), and, for an address type other than 1, 3 or
      4, the read of the never-assigned address after the port has been
      received (UnboundLocalError). */
  function PrepareAddress(s: seq<byte>, resolve: Resolver): (r: Result<Option<Read<Prepared>>>)
    ensures |s| < 4 ==> r == Ok(None)
    ensures |s| >= 4 && !KnownAtyp(s[3]) ==> r == Raise(UnboundLocalError)
    ensures |s| >= 4 && KnownAtyp(s[3]) && ReadKnownAddress(s[3], s[4..], resolve) == Raise(ValueError) ==> r == Ok(None)
    ensures r.Raise? ==> r.error == OSError || r.error == UnboundLocalError
    ensures r.Ok? && r.value.Some? ==>
              && r.value.value.value.command == s[1]
              && r.value.value.value.atyp == s[3]
              && KnownAtyp(s[3])
  {
    match ReadHeader(s)
    case Raise(_) => Ok(None)
    case Ok(h) =>
      if !KnownAtyp(h.value.atyp) then
        // no branch assigned `address`; the port is still received first
        Raise(UnboundLocalError)
      else
        match ReadKnownAddress(h.value.atyp, h.rest, resolve)
        case Raise(ValueError) => Ok(None)
        case Raise(e) => Raise(e)
        case Ok(a) =>
          var port := ReadPort(a.rest);
          Ok(Some(Read(Prepared(a.value, port.value, h.value.command, h.value.atyp), port.rest)))
  }

  /** The protocol version and reserved bytes of the request header take no
      part in parsing: changing them changes nothing. */
  lemma HeaderVersionAndReservedIgnored(v: byte, cmd: byte, rsv: byte, atyp: byte,
                                        v': byte, rsv': byte, t: seq<byte>, resolve: Resolver)
    ensures PrepareAddress([v, cmd, rsv, atyp] + t, resolve) == PrepareAddress([v', cmd, rsv', atyp] + t, resolve)
  {
    assert ([v, cmd, rsv, atyp] + t)[4..] == t;
    assert ([v', cmd, rsv', atyp] + t)[4..] == t;
  }

  /** An IPv4 or IPv6 request is parsed into its command, type, packed
      address and port, consuming exactly the request. */
  lemma LiteralRequestPrepared(q: Request, rest: seq<byte>, resolve: Resolver)
    requires ValidAddress(q.dst) && !q.dst.DomainName?
    ensures PrepareAddress(EncodeRequest(q) + rest, resolve)
         == Ok(Some(Read(Prepared(q.dst.addr, q.port, q.command, AtypOf(q.dst)), rest)))
  {
    LiteralRequestRead(q, rest, resolve);
  }

  /** A domain request whose length byte is binary, as RFC 1928 writes it,
      and not the code of an ASCII digit, is dropped: the parser returns
      None. */
  lemma BinaryDomainRequestDropped(q: Request, rest: seq<byte>, resolve: Resolver)
    requires ValidAddress(q.dst) && q.dst.DomainName?
    requires |q.dst.name| < 0x30 || 0x39 < |q.dst.name|
    ensures PrepareAddress(EncodeRequest(q) + rest, resolve) == Ok(None)
  {
    var s := EncodeRequest(q) + rest;
    var n := q.dst.name;
    assert s[4..] == [|n|] + n + (PortBytes(q.port) + rest);
    BinaryDomainLengthRefused(n, PortBytes(q.port) + rest, resolve);
  }

  /** The connect block: the socket family follows the address type, the
      connect goes to the parsed host and port, and the success reply
      echoes the request's address type over the packed IPv4 bound address.
      Any exception (a failed connect, or the 4-tuple name of an AF_INET6
      socket) is caught and answered with the failure reply. */
  function ConnectAndReply(p: Prepared, connect: Connector): (o: Outcome)
    ensures o.dialled && o.exit == Returned && !o.closesClient
    ensures o.relays <==> FamilyFor(p.atyp) == Inet && connect(Inet, p.host, p.port).Some?
    ensures o.relays ==> o.sent == SuccessReply(p.atyp, connect(Inet, p.host, p.port).value.addr,
                                                connect(Inet, p.host, p.port).value.port)
    ensures !o.relays ==> o.sent == ErrorReply(p.atyp)
  {
    var family := FamilyFor(p.atyp);
    match connect(family, p.host, p.port)
    case None => Outcome(ErrorReply(p.atyp), true, false, false, Returned)
    case Some(b) =>
      match UnpackSockName(family, b)
      case Raise(_) => Outcome(ErrorReply(p.atyp), true, false, false, Returned)
      case Ok(name) => Outcome(SuccessReply(p.atyp, name.addr, name.port), true, true, false, Returned)
  }

  /** Everything after the method selection: request parsing, command
      check, connect and reply. */
  function HandleRequest(s: seq<byte>, resolve: Resolver, connect: Connector): (o: Outcome)
    ensures o.relays <==> |o.sent| > 1 && o.sent[1] == RepSucceeded
    ensures o.relays ==> |o.sent| == 10
    ensures o.sent != [] ==> o.dialled && o.exit == Returned && !o.closesClient && |o.sent| >= 10
    ensures o.sent != [] && !o.relays ==> |s| >= 4 && o.sent == ErrorReply(s[3])
    ensures o.relays ==> |s| >= 4 && o.sent[3] == s[3]
    ensures o.closesClient ==> o.sent == [] && !o.dialled && o.exit == Returned
  {
    match PrepareAddress(s, resolve)
    case Raise(e) => Outcome([], false, false, false, Raised(e))
    case Ok(None) => Outcome([], false, false, false, Returned)
    case Ok(Some(req)) =>
      if req.value.command != CmdConnect then Outcome([], false, false, true, Returned)
      else
        var o := ConnectAndReply(req.value, connect);
        assert ([5, 0] + o.sent)[3] == o.sent[1];
        o
  }

  /** One client session of Proxy.py. */
  function Handle(s: seq<byte>, resolve: Resolver, connect: Connector): (o: Outcome)
    ensures o.sent == [] || (|o.sent| >= 2 && o.sent[..2] == MethodSelection(NoAuth))
    ensures o.relays <==> RepliedSuccess(o)
    ensures o.relays ==> o.dialled && |o.sent| == 12
    ensures |o.sent| > 2 ==> o.dialled && o.exit == Returned && !o.closesClient
    ensures |o.sent| > 2 ==>
              && |o.sent| >= 12 && ReadGreeting(s).Ok? && |ReadGreeting(s).value.rest| >= 4
              && o.sent[5] == ReadGreeting(s).value.rest[3]
    ensures |o.sent| > 2 && !o.relays ==> |o.sent| == 14 && o.sent[2..] == ErrorReply(ReadGreeting(s).value.rest[3])
    ensures o.closesClient ==> |o.sent| <= 2 && !o.dialled && o.exit == Returned
  {
    match CheckAuthMethod(s)
    case Raise(e) => Outcome([], false, false, false, Raised(e))
    case Ok(None) => Outcome([], false, false, true, Returned)
    case Ok(Some(afterGreeting)) =>
      var chosen := MethodSelection(NoAuth);
      var o := HandleRequest(afterGreeting, resolve, connect);
      assert (chosen + o.sent)[2..] == o.sent;
      o.(sent := chosen + o.sent)
  }

  // ---------------------------------------------------------------------
  // Session properties
  // ---------------------------------------------------------------------

  /** A session is the method selection followed by the request phase
      when the greeting is read and offers method 0; otherwise it never
      reaches the relay. */
  lemma SelectionThenRequest(s: seq<byte>, resolve: Resolver, connect: Connector)
    ensures ReadGreeting(s).Ok? && AcceptsNoAuth(ReadGreeting(s).value.value) ==>
              var o := HandleRequest(ReadGreeting(s).value.rest, resolve, connect);
              Handle(s, resolve, connect) == o.(sent := [5, 0] + o.sent)
    ensures !(ReadGreeting(s).Ok? && AcceptsNoAuth(ReadGreeting(s).value.value)) ==>
              !Handle(s, resolve, connect).relays && Handle(s, resolve, connect).sent == []
  {
  }

  /** Without "no authentication" among the offered methods nothing is
      sent, the client is closed, and nothing after the greeting is read:
      the outcome does not depend on it. */
  lemma RefusedWithoutNoAuth(g: Greeting, rest: seq<byte>, resolve: Resolver, connect: Connector)
    requires ValidGreeting(g) && !AcceptsNoAuth(g)
    ensures Handle(EncodeGreeting(g) + rest, resolve, connect) == Outcome([], false, false, true, Returned)
  {
    GreetingRoundTrip(g, rest);
  }

  /** A truncated greeting raises out of the handler before anything is sent. */
  lemma TruncatedGreetingRaises(s: seq<byte>, resolve: Resolver, connect: Connector)
    requires |s| < 2 || s[1] > |s| - 2
    ensures Handle(s, resolve, connect).exit.Raised?
    ensures Handle(s, resolve, connect).sent == []
  {
  }

  /** With "no authentication" offered, the method selection [5, 0] is sent
      first; a request header shorter than four bytes then ends the session
      silently, without closing the client. */
  lemma ShortRequestEndsSilently(g: Greeting, rest: seq<byte>, resolve: Resolver, connect: Connector)
    requires ValidGreeting(g) && AcceptsNoAuth(g) && |rest| < 4
    ensures Handle(EncodeGreeting(g) + rest, resolve, connect) == Outcome([5, 0], false, false, false, Returned)
  {
    GreetingRoundTrip(g, rest);
  }

  /** An IPv4 or IPv6 request reaches the command check, and for CONNECT
      the connect block, with exactly the requested address, port and type. */
  lemma LiteralRequestHandled(q: Request, rest: seq<byte>, resolve: Resolver, connect: Connector)
    requires ValidAddress(q.dst) && !q.dst.DomainName?
    ensures HandleRequest(EncodeRequest(q) + rest, resolve, connect)
         == if q.command != CmdConnect then Outcome([], false, false, true, Returned)
            else ConnectAndReply(Prepared(q.dst.addr, q.port, q.command, AtypOf(q.dst)), connect)
  {
    LiteralRequestPrepared(q, rest, resolve);
  }

  /** With "no authentication" offered, whatever follows the greeting,
      the first two bytes sent are the method selection [5, 0]. */
  lemma NoAuthSelected(g: Greeting, rest: seq<byte>, resolve: Resolver, connect: Connector)
    requires ValidGreeting(g) && AcceptsNoAuth(g)
    ensures |Handle(EncodeGreeting(g) + rest, resolve, connect).sent| >= 2
    ensures Handle(EncodeGreeting(g) + rest, resolve, connect).sent[..2] == [5, 0]
  {
    GreetingRoundTrip(g, rest);
  }

  /** A request the parser drops (any ValueError while reading it) ends the
      session after [5, 0] with no reply, no connect, and the client left
      open. */
  lemma DroppedRequestEndsSilently(g: Greeting, rest: seq<byte>, resolve: Resolver, connect: Connector)
    requires ValidGreeting(g) && AcceptsNoAuth(g) && PrepareAddress(rest, resolve) == Ok(None)
    ensures Handle(EncodeGreeting(g) + rest, resolve, connect) == Outcome([5, 0], false, false, false, Returned)
  {
    GreetingRoundTrip(g, rest);
  }

  /** Every request the parser accepts whose command is not CONNECT closes
      the client with no reply beyond the method selection and no outbound
      connection, whatever its address type. */
  lemma UnsupportedCommandClosesSilently(g: Greeting, rest: seq<byte>, resolve: Resolver, connect: Connector)
    requires ValidGreeting(g) && AcceptsNoAuth(g)
    requires PrepareAddress(rest, resolve).Ok? && PrepareAddress(rest, resolve).value.Some?
    requires PrepareAddress(rest, resolve).value.value.value.command != CmdConnect
    ensures Handle(EncodeGreeting(g) + rest, resolve, connect) == Outcome([5, 0], false, false, true, Returned)
  {
    GreetingRoundTrip(g, rest);
  }

  /** The relay starts exactly when the request is a CONNECT whose AF_INET
      connect succeeds, and the reply sent then echoes the request's
      address type over the bound name. */
  lemma RelayExactly(s: seq<byte>, resolve: Resolver, connect: Connector)
    ensures HandleRequest(s, resolve, connect).relays <==> ConnectSucceeds(s, resolve, connect)
    ensures ConnectSucceeds(s, resolve, connect) ==>
              HandleRequest(s, resolve, connect).sent
              == SuccessReply(s[3], BoundFor(s, resolve, connect).addr, BoundFor(s, resolve, connect).port)
  {
    if |s| >= 4 && KnownAtyp(s[3]) {
      assert ReadHeader(s) == Ok(Read(Header(s[0], s[1], s[2], s[3]), s[4..]));
      match ReadKnownAddress(s[3], s[4..], resolve)
      case Raise(_) =>
      case Ok(a) =>
        var port := ReadPort(a.rest);
        assert PrepareAddress(s, resolve) == Ok(Some(Read(Prepared(a.value, port.value, s[1], s[3]), port.rest)));
    }
  }

  /** An IPv4 CONNECT: the connect goes to the requested address and port
      over AF_INET; success is answered with the 10-byte reply carrying the
      bound name and the relay starts, failure with the 12-byte failure
      reply and no relay. */
  lemma Ipv4Connect(g: Greeting, q: Request, rest: seq<byte>, resolve: Resolver, connect: Connector)
    requires ValidGreeting(g) && AcceptsNoAuth(g)
    requires ValidAddress(q.dst) && q.dst.Ipv4? && q.command == CmdConnect
    ensures var o := Handle(EncodeGreeting(g) + (EncodeRequest(q) + rest), resolve, connect);
      match connect(Inet, q.dst.addr, q.port)
      case None => o == Outcome([5, 0] + ErrorReply(AtypIpv4), true, false, false, Returned)
      case Some(b) => o == Outcome([5, 0] + SuccessReply(AtypIpv4, b.addr, b.port), true, true, false, Returned)
  {
    GreetingRoundTrip(g, EncodeRequest(q) + rest);
    LiteralRequestHandled(q, rest, resolve, connect);
  }

  /** An IPv6 CONNECT never succeeds: whatever the network does, the client
      gets the failure reply with ATYP 4 and no relay starts, although the
      outbound connect is attempted. */
  lemma Ipv6NeverSucceeds(g: Greeting, q: Request, rest: seq<byte>, resolve: Resolver, connect: Connector)
    requires ValidGreeting(g) && AcceptsNoAuth(g)
    requires ValidAddress(q.dst) && q.dst.Ipv6? && q.command == CmdConnect
    ensures Handle(EncodeGreeting(g) + (EncodeRequest(q) + rest), resolve, connect)
         == Outcome([5, 0] + ErrorReply(AtypIpv6), true, false, false, Returned)
  {
    GreetingRoundTrip(g, EncodeRequest(q) + rest);
    LiteralRequestHandled(q, rest, resolve, connect);
  }

  /** A domain request whose length is one ASCII digit is parsed by
      resolving exactly the name; a failed lookup escapes as OSError. */
  lemma DigitDomainPrepared(v: byte, cmd: byte, rsv: byte, name: seq<byte>, port: Port,
                            rest: seq<byte>, resolve: Resolver)
    requires |name| <= 9
    ensures PrepareAddress([v, cmd, rsv, AtypDomain] + DigitText(|name|) + name + PortBytes(port) + rest, resolve)
         == match resolve(name)
            case None => Raise(OSError)
            case Some(ip) => Ok(Some(Read(Prepared(ip, port, cmd, AtypDomain), rest)))
  {
    var req := [v, cmd, rsv, AtypDomain] + DigitText(|name|) + name + PortBytes(port) + rest;
    assert req[4..] == DigitText(|name|) + name + (PortBytes(port) + rest);
    DigitDomainAccepted(name, PortBytes(port) + rest, resolve);
    PortRoundTrip(port, rest);
  }

  /** A domain CONNECT whose length is one ASCII digit: a failed lookup
      escapes the handler after the method selection; a resolved address is
      connected over AF_INET, and the success reply echoes ATYP 3 over the
      four bound address bytes. */
  lemma DigitDomainConnect(g: Greeting, v: byte, rsv: byte, name: seq<byte>, port: Port,
                           rest: seq<byte>, resolve: Resolver, connect: Connector)
    requires ValidGreeting(g) && AcceptsNoAuth(g) && |name| <= 9
    ensures var o := Handle(EncodeGreeting(g) + ([v, CmdConnect, rsv, AtypDomain] + DigitText(|name|)
                                                 + name + PortBytes(port) + rest), resolve, connect);
      match resolve(name)
      case None => o == Outcome([5, 0], false, false, false, Raised(OSError))
      case Some(ip) =>
        match connect(Inet, ip, port)
        case None => o == Outcome([5, 0] + ErrorReply(AtypDomain), true, false, false, Returned)
        case Some(b) => o == Outcome([5, 0] + SuccessReply(AtypDomain, b.addr, b.port), true, true, false, Returned)
  {
    var req := [v, CmdConnect, rsv, AtypDomain] + DigitText(|name|) + name + PortBytes(port) + rest;
    GreetingRoundTrip(g, req);
    DigitDomainPrepared(v, CmdConnect, rsv, name, port, rest, resolve);
  }
}
