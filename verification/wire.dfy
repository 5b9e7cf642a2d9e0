/** The SOCKS5 wire format as the two handlers read and write it, next to a
    reference encoder and decoder for the layouts of RFC 1928 (section 3 for
    method negotiation, section 4 for requests, section 5 for addresses and
    section 6 for replies). The handlers' own readers are the `Read...`
    functions; the RFC layouts are `Encode...` and `Parse...`. */
module Wire {
  import opened Python
  import opened Bytes

  const SocksVersion: byte := 5
  const NoAuth: byte := 0
  const CmdConnect: byte := 1
  const AtypIpv4: byte := 1
  const AtypDomain: byte := 3
  const AtypIpv6: byte := 4
  const RepSucceeded: byte := 0
  const RepConnectionRefused: byte := 5

  // ---------------------------------------------------------------------
  // Method negotiation (RFC 1928 section 3)
  // ---------------------------------------------------------------------

  datatype Greeting = Greeting(version: byte, methods: seq<byte>)

  predicate ValidGreeting(g: Greeting) {
    |g.methods| < 0x100
  }

  function EncodeGreeting(g: Greeting): seq<byte>
    requires ValidGreeting(g)
  {
    [g.version, |g.methods|] + g.methods
  }

  /** The loop `for _ in range(n): methods.append(ord(recv(1)))`: each
      iteration takes one byte, and `ord` of the empty result at end of
      stream raises TypeError. */
  function ReadMethods(s: seq<byte>, n: nat): (r: Result<Read<seq<byte>>>)
    ensures r.Ok? <==> n <= |s|
    ensures r.Ok? ==> r.value.value == s[..n] && r.value.rest == s[n..]
    ensures r.Raise? ==> r.error == TypeError
  {
    if n == 0 then Ok(Read([], s))
    else
      var one := Recv(s, 1);
      if |one.value| == 0 then Raise(TypeError)
      else
        var more :- ReadMethods(one.rest, n - 1);
        Ok(Read(one.value + more.value, more.rest))
  }

  /** The client greeting: recv(2) unpacked into a version and a count
      (fewer than two bytes cannot be unpacked: ValueError), then the count's
      worth of method bytes. The version byte is kept but never checked. */
  function ReadGreeting(s: seq<byte>): (r: Result<Read<Greeting>>)
    ensures r.Ok? <==> 2 <= |s| && s[1] <= |s| - 2
    ensures r.Ok? ==> r.value.value == Greeting(s[0], s[2..2 + s[1]])
    ensures r.Ok? ==> r.value.rest == s[2 + s[1]..]
    ensures r.Raise? ==> r.error == (if |s| < 2 then ValueError else TypeError)
  {
    var head := Recv(s, 2);
    if |head.value| < 2 then Raise(ValueError)
    else
      var methods :- ReadMethods(head.rest, head.value[1]);
      Ok(Read(Greeting(head.value[0], methods.value), methods.rest))
  }

  /** A well-formed greeting is read back exactly, whatever its version byte
      and whatever follows it; nothing after the method list is consumed. */
  lemma GreetingRoundTrip(g: Greeting, rest: seq<byte>)
    requires ValidGreeting(g)
    ensures ReadGreeting(EncodeGreeting(g) + rest) == Ok(Read(g, rest))
  {
    var s := EncodeGreeting(g) + rest;
    assert s[2..2 + |g.methods|] == g.methods;
    assert s[2 + |g.methods|..] == rest;
  }

  /** Whether the only method this proxy implements, "no authentication",
      is among those the client offered. */
  predicate AcceptsNoAuth(g: Greeting) {
    NoAuth in g.methods
  }

  /** The method-selection message: version, then the chosen method. */
  function MethodSelection(choice: byte): seq<byte> {
    [SocksVersion, choice]
  }

  // ---------------------------------------------------------------------
  // Addresses and requests (RFC 1928 sections 4 and 5)
  // ---------------------------------------------------------------------

  /** A name-resolution oracle standing for socket.gethostbyname: it maps
      the received host-name bytes to an IPv4 address, or to None when the
      lookup fails (socket.gaierror, an OSError). */
  type Resolver = seq<byte> -> Option<Addr4>

  datatype Header = Header(version: byte, command: byte, reserved: byte, atyp: byte)

  /** recv(4) unpacked into four fields; a short read cannot be unpacked. */
  function ReadHeader(s: seq<byte>): (r: Result<Read<Header>>)
    ensures r.Ok? <==> |s| >= 4
    ensures r.Ok? ==> r.value.value.command == s[1] && r.value.value.atyp == s[3]
    ensures r.Ok? ==> r.value.rest == s[4..]
    ensures r.Raise? ==> r.error == ValueError
  {
    var h := Recv(s, 4);
    if |h.value| < 4 then Raise(ValueError)
    else Ok(Read(Header(h.value[0], h.value[1], h.value[2], h.value[3]), h.rest))
  }

  predicate KnownAtyp(atyp: byte) {
    atyp == AtypIpv4 || atyp == AtypDomain || atyp == AtypIpv6
  }

  /** The three address branches both handlers share. IPv4 and IPv6
      addresses go through inet_ntop, which raises ValueError on a packed
      address of the wrong length; a domain name is preceded by a length
      parsed with int() and is resolved to an IPv4 address. The result is
      the packed address the outbound connect is given. */
  function ReadKnownAddress(atyp: byte, s: seq<byte>, resolve: Resolver): (r: Result<Read<seq<byte>>>)
    requires KnownAtyp(atyp)
    ensures atyp == AtypIpv4 ==> (r.Ok? <==> |s| >= 4)
    ensures atyp == AtypIpv4 && r.Ok? ==> r.value == Read(s[..4], s[4..])
    ensures atyp == AtypIpv6 ==> (r.Ok? <==> |s| >= 16)
    ensures atyp == AtypIpv6 && r.Ok? ==> r.value == Read(s[..16], s[16..])
    ensures atyp == AtypDomain && r.Ok? ==> |r.value.value| == 4
    ensures atyp != AtypDomain && r.Raise? ==> r.error == ValueError
    ensures atyp == AtypDomain ==>
              (r == Raise(ValueError) <==> |s| == 0 || !(0x30 <= s[0] <= 0x39))
    ensures r.Raise? ==> r.error == ValueError || r.error == OSError
  {
    if atyp == AtypIpv4 then
      var a := Recv(s, 4);
      if |a.value| < 4 then Raise(ValueError) else Ok(a)
    else if atyp == AtypDomain then
      var lengthText := Recv(s, 1);
      var length :- IntOfDigit(lengthText.value);
      var name := Recv(lengthText.rest, length);
      match resolve(name.value)
      case None => Raise(OSError)
      case Some(ip) => Ok(Read(ip, name.rest))
    else
      var a := Recv(s, 16);
      if |a.value| < 16 then Raise(ValueError) else Ok(a)
  }

  /** The domain form the handlers do accept: a name of at most nine bytes
      whose length is written as one ASCII digit. The name, and nothing
      else, is handed to the resolver, and its answer decides the outcome. */
  lemma DigitDomainAccepted(name: seq<byte>, rest: seq<byte>, resolve: Resolver)
    requires |name| <= 9
    ensures ReadKnownAddress(AtypDomain, DigitText(|name|) + name + rest, resolve)
         == match resolve(name)
            case None => Raise(OSError)
            case Some(ip) => Ok(Read(ip, rest))
  {
    var s := DigitText(|name|) + name + rest;
    assert Recv(s, 1).value == DigitText(|name|);
    DigitRoundTrip(|name|, 0);
    assert Recv(s, 1).rest == name + rest;
    assert Recv(name + rest, |name|) == Read(name, rest);
  }

  /** A domain name whose length byte is written in binary, as RFC 1928
      section 5 prescribes, is refused with ValueError unless its length is
      48 to 57, the codes of the ASCII digits. */
  lemma BinaryDomainLengthRefused(name: seq<byte>, rest: seq<byte>, resolve: Resolver)
    requires |name| < 0x30 || 0x39 < |name| < 0x100
    ensures ReadKnownAddress(AtypDomain, [|name|] + name + rest, resolve) == Raise(ValueError)
  {
    var s := [|name|] + name + rest;
    assert Recv(s, 1).value == [|name|];
  }

  /** The destination (or bound) address of RFC 1928 section 5. */
  datatype Address = Ipv4(addr: seq<byte>) | DomainName(name: seq<byte>) | Ipv6(addr: seq<byte>)

  predicate ValidAddress(a: Address) {
    match a
    case Ipv4(x) => |x| == 4
    case DomainName(n) => |n| < 0x100
    case Ipv6(x) => |x| == 16
  }

  function AtypOf(a: Address): byte {
    match a
    case Ipv4(_) => AtypIpv4
    case DomainName(_) => AtypDomain
    case Ipv6(_) => AtypIpv6
  }

  /** The address field as RFC 1928 section 5 lays it out, without the
      ATYP byte: a domain name is prefixed by its length as one octet. */
  function EncodeAddress(a: Address): seq<byte>
    requires ValidAddress(a)
  {
    match a
    case Ipv4(x) => x
    case DomainName(n) => [|n|] + n
    case Ipv6(x) => x
  }

  /** The RFC 1928 section 5 reader for an address of type `atyp`. */
  function ParseAddress(atyp: byte, s: seq<byte>): (r: Option<Read<Address>>)
    ensures r.Some? ==> ValidAddress(r.value.value) && AtypOf(r.value.value) == atyp
    ensures r.Some? ==> EncodeAddress(r.value.value) + r.value.rest == s
  {
    if atyp == AtypIpv4 && |s| >= 4 then Some(Read(Ipv4(s[..4]), s[4..]))
    else if atyp == AtypIpv6 && |s| >= 16 then Some(Read(Ipv6(s[..16]), s[16..]))
    else if atyp == AtypDomain && |s| >= 1 && s[0] <= |s| - 1 then
      assert [s[0]] + s[1..1 + s[0]] + s[1 + s[0]..] == s;
      Some(Read(DomainName(s[1..1 + s[0]]), s[1 + s[0]..]))
    else None
  }

  lemma AddressRoundTrip(a: Address, rest: seq<byte>)
    requires ValidAddress(a)
    ensures ParseAddress(AtypOf(a), EncodeAddress(a) + rest) == Some(Read(a, rest))
  {
    var s := EncodeAddress(a) + rest;
    match a
    case Ipv4(x) =>
      assert s[..4] == x && s[4..] == rest;
    case Ipv6(x) =>
      assert s[..16] == x && s[16..] == rest;
    case DomainName(n) =>
      assert s[1..1 + |n|] == n && s[1 + |n|..] == rest;
  }

  /** A request of RFC 1928 section 4. */
  datatype Request = Request(version: byte, command: byte, reserved: byte, dst: Address, port: Port)

  function EncodeRequest(q: Request): seq<byte>
    requires ValidAddress(q.dst)
  {
    [q.version, q.command, q.reserved, AtypOf(q.dst)] + EncodeAddress(q.dst) + PortBytes(q.port)
  }

  /** An IPv4 or IPv6 request read by the handlers' shared readers: the
      header yields the command and type, the address branch takes exactly
      4 or 16 bytes, and the port is the next two bytes, big-endian. */
  lemma LiteralRequestRead(q: Request, rest: seq<byte>, resolve: Resolver)
    requires ValidAddress(q.dst) && !q.dst.DomainName?
    ensures var s := EncodeRequest(q) + rest;
      && ReadHeader(s) == Ok(Read(Header(q.version, q.command, q.reserved, AtypOf(q.dst)),
                                  EncodeAddress(q.dst) + PortBytes(q.port) + rest))
      && ReadKnownAddress(AtypOf(q.dst), EncodeAddress(q.dst) + PortBytes(q.port) + rest, resolve)
         == Ok(Read(q.dst.addr, PortBytes(q.port) + rest))
      && ReadPort(PortBytes(q.port) + rest) == Read(q.port, rest)
  {
    var s := EncodeRequest(q) + rest;
    var pr := PortBytes(q.port) + rest;
    var tail := EncodeAddress(q.dst) + pr;
    assert ReadHeader(s) == Ok(Read(Header(q.version, q.command, q.reserved, AtypOf(q.dst)), tail)) by {
      assert s[..4] == [q.version, q.command, q.reserved, AtypOf(q.dst)];
      assert s[4..] == tail;
    }
    assert ReadKnownAddress(AtypOf(q.dst), tail, resolve) == Ok(Read(q.dst.addr, pr)) by {
      var k := |q.dst.addr|;
      assert tail[..k] == q.dst.addr && tail[k..] == pr;
    }
    assert tail == EncodeAddress(q.dst) + PortBytes(q.port) + rest;
    PortRoundTrip(q.port, rest);
  }

  // ---------------------------------------------------------------------
  // Replies (RFC 1928 section 6)
  // ---------------------------------------------------------------------

  datatype Reply = Reply(version: byte, rep: byte, reserved: byte, bound: Address, port: Port)

  function EncodeReply(r: Reply): seq<byte>
    requires ValidAddress(r.bound)
  {
    [r.version, r.rep, r.reserved, AtypOf(r.bound)] + EncodeAddress(r.bound) + PortBytes(r.port)
  }

  /** How an RFC 1928 client reads a reply: four fixed bytes, the bound
      address by its type, then exactly two port bytes. */
  function ParseReply(s: seq<byte>): (r: Option<Read<Reply>>)
    ensures r.Some? ==> ValidAddress(r.value.value.bound)
    ensures r.Some? ==> EncodeReply(r.value.value) + r.value.rest == s
  {
    if |s| < 4 then None
    else
      match ParseAddress(s[3], s[4..])
      case None => None
      case Some(a) =>
        if |a.rest| < 2 then None
        else
          var port := a.rest[0] as int * 256 + a.rest[1];
          ReplyRebuilt(s, a.value, a.rest, port);
          Some(Read(Reply(s[0], s[1], s[2], a.value, port), a.rest[2..]))
  }

  /** The bytes a reply was parsed from are its encoding and what follows. */
  lemma ReplyRebuilt(s: seq<byte>, a: Address, rest: seq<byte>, port: Port)
    requires |s| >= 4 && |rest| >= 2 && port == rest[0] as int * 256 + rest[1]
    requires ValidAddress(a) && AtypOf(a) == s[3] && EncodeAddress(a) + rest == s[4..]
    ensures EncodeReply(Reply(s[0], s[1], s[2], a, port)) + rest[2..] == s
  {
    PortRoundTrip(port, rest[2..]);
    assert rest == PortBytes(port) + rest[2..];
    assert s == s[..4] + s[4..];
    assert s[..4] == [s[0], s[1], s[2], AtypOf(a)];
  }

  lemma ReplyRoundTrip(r: Reply, rest: seq<byte>)
    requires ValidAddress(r.bound)
    ensures ParseReply(EncodeReply(r) + rest) == Some(Read(r, rest))
  {
    var s := EncodeReply(r) + rest;
    var pb := PortBytes(r.port) + rest;
    assert s[..4] == [r.version, r.rep, r.reserved, AtypOf(r.bound)];
    assert ParseAddress(s[3], s[4..]) == Some(Read(r.bound, pb)) by {
      assert s[4..] == EncodeAddress(r.bound) + pb;
      AddressRoundTrip(r.bound, pb);
    }
    assert pb[0] as int * 256 + pb[1] == r.port && pb[2..] == rest by {
      PortRoundTrip(r.port, rest);
    }
    ParseReplyFields(s, r.bound, pb);
  }

  /** Once the address has been read, the reply's fields are the four
      leading bytes, that address, and the two port bytes after it. */
  lemma ParseReplyFields(s: seq<byte>, a: Address, pb: seq<byte>)
    requires |s| >= 4 && |pb| >= 2
    requires ParseAddress(s[3], s[4..]) == Some(Read(a, pb))
    ensures ParseReply(s) == Some(Read(Reply(s[0], s[1], s[2], a, pb[0] as int * 256 + pb[1]), pb[2..]))
  {
  }

  /** The success reply both handlers build: version 5, code 0, a zero
      reserved byte, an address type, the packed bound address and the
      bound port in two big-endian bytes. */
  function SuccessReply(atyp: byte, bound: seq<byte>, port: Port): (r: seq<byte>)
    ensures |r| == 6 + |bound|
    ensures r[0] == SocksVersion && r[1] == RepSucceeded && r[2] == 0 && r[3] == atyp
    ensures r[4..4 + |bound|] == bound
    ensures ReadPort(r[4 + |bound|..]) == Read(port, [])
  {
    var r := [SocksVersion, RepSucceeded, 0, atyp] + bound + PortBytes(port);
    assert r[4..4 + |bound|] == bound;
    assert r[4 + |bound|..] == PortBytes(port) + [];
    PortRoundTrip(port, []);
    r
  }

  /** The failure reply both handlers build: code 5 (connection refused),
      the request's address type, then eight zero bytes, four standing for
      the address and four (not two) for the port. An RFC 1928 client that
      reads it with ATYP 1 sees a complete refusal for 0.0.0.0 port 0 and
      two stray bytes after it. */
  function ErrorReply(atyp: byte): (r: seq<byte>)
    ensures |r| == 12
    ensures r[1] == RepConnectionRefused && r[3] == atyp
    ensures atyp == AtypIpv4 ==>
              ParseReply(r) == Some(Read(Reply(5, 5, 0, Ipv4([0, 0, 0, 0]), 0), [0, 0]))
  {
    var r := [SocksVersion, RepConnectionRefused, 0, atyp] + [0, 0, 0, 0] + [0, 0, 0, 0];
    var refusal := Reply(5, 5, 0, Ipv4([0, 0, 0, 0]), 0);
    ErrorRefusalRead(atyp, r, refusal);
    r
  }

  /** The step the failure reply's contract needs: with ATYP 1 its first
      ten bytes are the RFC encoding of a refusal for 0.0.0.0 port 0. */
  lemma ErrorRefusalRead(atyp: byte, r: seq<byte>, refusal: Reply)
    requires r == [SocksVersion, RepConnectionRefused, 0, atyp] + [0, 0, 0, 0] + [0, 0, 0, 0]
    requires refusal == Reply(5, 5, 0, Ipv4([0, 0, 0, 0]), 0)
    ensures atyp == AtypIpv4 ==> ParseReply(r) == Some(Read(refusal, [0, 0]))
  {
    if atyp == AtypIpv4 {
      PortRoundTrip(0, []);
      assert r == EncodeReply(refusal) + [0, 0];
      ReplyRoundTrip(refusal, [0, 0]);
    }
  }

  /** With an IPv4 bound address the success reply is a 10-byte RFC 1928
      reply that a client reads back completely: the bound address and port
      it carries are recovered, the port by the big-endian rule that reads
      request ports. */
  lemma SuccessReplyIsRfcReply(bound: Addr4, port: Port)
    ensures |SuccessReply(AtypIpv4, bound, port)| == 10
    ensures SuccessReply(AtypIpv4, bound, port) == EncodeReply(Reply(5, 0, 0, Ipv4(bound), port))
    ensures ParseReply(SuccessReply(AtypIpv4, bound, port)) == Some(Read(Reply(5, 0, 0, Ipv4(bound), port), []))
    ensures ReadPort(SuccessReply(AtypIpv4, bound, port)[8..]) == Read(port, [])
  {
    var r := Reply(5, 0, 0, Ipv4(bound), port);
    ReplyRoundTrip(r, []);
    assert EncodeReply(r) + [] == EncodeReply(r);
    assert SuccessReply(AtypIpv4, bound, port)[8..] == PortBytes(port) + [];
    PortRoundTrip(port, []);
  }

  /** A success reply that echoes ATYP 3 over four packed address bytes is
      not read by an RFC 1928 client as carrying that address: the first
      address byte is taken as a name length. If it is above 3 the client
      finds no complete reply at all; otherwise it reads a short domain
      name out of the remaining address bytes, never the bound IPv4
      address. */
  lemma DomainSuccessReplyMisread(bound: Addr4, port: Port)
    ensures |SuccessReply(AtypDomain, bound, port)| == 10
    ensures bound[0] > 3 ==> ParseReply(SuccessReply(AtypDomain, bound, port)).None?
    ensures bound[0] <= 3 ==>
              && ParseReply(SuccessReply(AtypDomain, bound, port)).Some?
              && ParseReply(SuccessReply(AtypDomain, bound, port)).value.value.bound == DomainName(bound[1..1 + bound[0]])
  {
    var r := SuccessReply(AtypDomain, bound, port);
    assert r[4..] == bound + PortBytes(port);
    if bound[0] <= 3 {
      assert r[4..][1..1 + bound[0]] == bound[1..1 + bound[0]];
    }
  }

  /** The failure reply is 12 bytes with code 5 and zeros after the type;
      read as an RFC 1928 reply with an IPv4 address type it is a complete
      10-byte reply (address 0.0.0.0, port 0) followed by two stray zero
      bytes. */
  lemma ErrorReplyLayout(atyp: byte)
    ensures |ErrorReply(atyp)| == 12
    ensures ErrorReply(atyp)[..4] == [5, 5, 0, atyp]
    ensures forall i :: 4 <= i < 12 ==> ErrorReply(atyp)[i] == 0
    ensures atyp == AtypIpv4 ==>
              ParseReply(ErrorReply(atyp)) == Some(Read(Reply(5, 5, 0, Ipv4([0, 0, 0, 0]), 0), [0, 0]))
  {
    if atyp == AtypIpv4 {
      var r := Reply(5, 5, 0, Ipv4([0, 0, 0, 0]), 0);
      PortRoundTrip(0, []);
      assert ErrorReply(atyp) == EncodeReply(r) + [0, 0];
      ReplyRoundTrip(r, [0, 0]);
    }
  }
}
