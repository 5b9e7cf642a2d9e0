# SOCKS5 handshake of python_proxy_server, modelled in Dafny

The repository implements the server side of the SOCKS5 handshake of
RFC 1928 twice: `Proxy.py` (class `SOCKS5Proxy`) and `server.py` (class
`Proxy`). Each accepted client goes through a short linear state machine:
read the greeting, check that "no authentication" (method 0) is offered,
read the request (header, address by type, big-endian port), check that the
command is CONNECT, connect outbound, send a success or failure reply, then
relay or stop.

This project models both handlers as pure functions of

- the client stream, a fully buffered `seq<byte>`; `recv(n)` takes
  `min(n, remaining)` bytes of it (`Bytes.Recv`);
- a resolver oracle (`Wire.Resolver`) standing for `socket.gethostbyname`:
  host-name bytes to an optional packed IPv4 address;
- a connect oracle (`Session.Connector`) standing for `connect` followed by
  `getsockname`: given the socket family, packed destination and port, the
  optional bound name (packed IPv4 address and port).

A run yields a `Session.Outcome`: the bytes sent to the client, whether the
outbound connect was attempted, whether the relay starts, whether the
handler closes the client socket, and whether it returned or an exception
escaped it. Python exceptions are `Python.PyError` values.

Files: `python.dfy` (exceptions, `Result`, `Option`), `bytes.dfy` (receive,
`int.from_bytes`, `int.to_bytes`, `int()` of one byte), `wire.dfy` (the
readers and reply builders both handlers share, plus an RFC 1928 reference
encoder and decoder used as their partner), `session.dfy` (oracles and
outcome), `proxy.dfy` (`Proxy.py`), `server.dfy` (`server.py`),
`compare.dfy` (the two handlers against each other).

Where the two implementations and the protocol disagree, the model follows
the code: no `0xFF` reply when method 0 is missing; reply code 5 for every
failure (never 4, 7 or 8); unsupported commands get no reply at all; a
failed lookup is an uncaught exception rather than a reply; IPv6 CONNECT
requests always fail; the domain length byte is read as ASCII decimal text,
so RFC-encoded names are refused unless their length is 48 to 57; the
failure reply has 8 trailing zero bytes instead of the 6 of an IPv4 reply.

## Model

| member | source | states |
|---|---|---|
| Bytes.FromBytesBig | Proxy.py:93 | a big-endian byte string denotes a value below 256 to the power of its length |
| Bytes.Recv | Proxy.py:78 | a receive of n bytes returns the first `min(n, remaining)` bytes of the stream, and what it leaves is exactly the rest |
| Bytes.ToBytesBig | Proxy.py:114 | `to_bytes(len, 'big')` yields exactly `len` bytes, and reading them big-endian gives the number back |
| Bytes.ReadPort | Proxy.py:92-93 | the port is `b0*256+b1` of the next two bytes, so below 65536; a short read is not an error and yields the value of the bytes received |
| Bytes.PortBytes | Proxy.py:114 | a port is written as exactly two bytes that read back big-endian to the port |
| Bytes.PortRoundTrip | Proxy.py:114 | encoding a port in two bytes is inverted by the port reader of line 93, whatever follows |
| Bytes.DigitRoundTrip | Proxy.py:82 | `int()` of the length byte accepts exactly the ASCII digits `0x30..0x39`, with value `b-0x30`, which differs from the byte's binary value |
| Bytes.IntOfDigit | Proxy.py:82 | `int()` of the received length byte succeeds exactly for one ASCII digit, with a value of at most 9 whose digit text is the byte received; otherwise ValueError |
| Wire.ReadMethods | Proxy.py:49-51 | the method loop succeeds iff N bytes remain, then takes exactly the next N bytes; otherwise `ord` of an empty read raises TypeError |
| Wire.ReadGreeting | Proxy.py:47-51 | the greeting is version, count N, then N method bytes; the version is not checked; fewer than 2 bytes raise ValueError, a short method list TypeError |
| Wire.GreetingRoundTrip | server.py:47-52 | a well-formed greeting is read back exactly and nothing after it is consumed |
| Wire.ReadHeader | Proxy.py:74 | the header needs four bytes; only command (index 1) and type (index 3) are exposed; a short header raises ValueError |
| Wire.ReadKnownAddress | Proxy.py:77-88 | type 1 takes exactly 4 bytes and type 4 exactly 16, raising only ValueError when short; type 3 raises ValueError exactly when the length byte is missing or not an ASCII digit, and otherwise yields a 4-byte resolved address or OSError |
| Wire.DigitDomainAccepted | Proxy.py:81-84 | a name of up to nine bytes with an ASCII-digit length is handed whole to the resolver, whose answer decides the result, and exactly the name is consumed |
| Wire.BinaryDomainLengthRefused | server.py:34 | an RFC-encoded (binary) length byte outside 48..57 makes the domain branch raise ValueError |
| Wire.LiteralRequestRead | server.py:69-73 | for an IPv4 or IPv6 request the header, address and port readers recover every field and consume exactly the request |
| Wire.SuccessReplyIsRfcReply | Proxy.py:108-115 | with an IPv4 bound address the success reply is 10 bytes, an RFC 1928 reply that a client reads back to the same bound address and port |
| Wire.DomainSuccessReplyMisread | Proxy.py:112-113 | a success reply echoing ATYP 3 over four address bytes is unreadable to an RFC client when the first address byte exceeds 3, and otherwise read as a short domain name cut from the address bytes, never as the IPv4 bound address |
| Wire.SuccessReply | Proxy.py:108-115 | the success reply is `[5,0,0,ATYP]`, then the bound address bytes unchanged, then two bytes that the port reader turns back into the bound port |
| Wire.ErrorReplyLayout | Proxy.py:128-135 | the failure reply is `[5,5,0,ATYP]` and 8 zero bytes, 12 in all; with ATYP 1 it reads as a complete RFC reply for 0.0.0.0:0 plus two stray zero bytes |
| Wire.ErrorReply | server.py:109-118 | the failure reply is 12 bytes with code 5 and the request's ATYP; with ATYP 1 an RFC 1928 client reads it as a complete refusal for 0.0.0.0 port 0 followed by two stray bytes, because the code writes four zero port bytes where the RFC has two |
| Session.RequestTarget | server.py:69-73 | a connect target exists exactly when the header has at least four bytes, the address type is known and the shared address read succeeds |
| Session.LiteralRequestTarget | server.py:69-73 | for an RFC-encoded IPv4 or IPv6 request the target is the packed address and the request's port, whatever follows the request |
| ProxyPy.CheckAuthMethod | Proxy.py:42-64 | the greeting step continues exactly when method 0 is offered, with the stream after the greeting; a short greeting raises |
| ProxyPy.PrepareAddress | Proxy.py:66-97 | a short header gives None, and so does every ValueError of the address readers (short IPv4/IPv6 address, missing or non-digit length byte); an unknown type raises UnboundLocalError; only OSError and UnboundLocalError escape; a parsed request carries the header's command and a known type |
| ProxyPy.HeaderVersionAndReservedIgnored | Proxy.py:74 | the version and reserved bytes of the request header do not affect parsing |
| ProxyPy.LiteralRequestPrepared | Proxy.py:77-95 | an IPv4 or IPv6 request parses to its packed address, port, command and type and consumes exactly the request |
| ProxyPy.BinaryDomainRequestDropped | Proxy.py:81-97 | an RFC-encoded domain request whose length is not 48..57 makes the parser return None |
| ProxyPy.DigitDomainPrepared | Proxy.py:81-95 | a digit-length domain request resolves exactly the name; a failed lookup escapes as OSError |
| ProxyPy.ConnectAndReply | Proxy.py:177-203 | the connect is always attempted; the relay starts iff the socket is AF_INET and the connect succeeds, after the success reply echoing the request's type; otherwise the failure reply is sent |
| ProxyPy.HandleRequest | Proxy.py:172-203 | after negotiation, any reply is the 10-byte success reply echoing the request's type (then the relay starts) or the 12-byte failure reply `ErrorReply` of the request's type byte; closing the client comes only with no reply and no connect |
| ProxyPy.Handle | Proxy.py:165-203 | output is empty or starts with `[5,0]`; the relay starts iff a reply with code 0 was sent; a reply implies a connect attempt and no close; its type byte is the request's type byte, and the failure reply is `ErrorReply` of that byte |
| ProxyPy.SelectionThenRequest | Proxy.py:169-172 | a session is `[5,0]` followed by the request phase when the greeting is read and offers method 0, and otherwise sends nothing and never relays |
| ProxyPy.RefusedWithoutNoAuth | Proxy.py:53-56 | without method 0 nothing is sent, the client is closed, and the outcome does not depend on anything after the greeting |
| ProxyPy.NoAuthSelected | Proxy.py:58-63 | with method 0 offered, whatever follows the greeting, the first two bytes sent are `[5,0]` |
| ProxyPy.TruncatedGreetingRaises | Proxy.py:47-51 | a truncated greeting raises out of the handler before anything is sent |
| ProxyPy.ShortRequestEndsSilently | Proxy.py:172-174 | after `[5,0]`, a request header shorter than 4 bytes ends the session with nothing more sent |
| ProxyPy.DroppedRequestEndsSilently | Proxy.py:172-174 | every request the parser drops through its ValueError handler ends the session after `[5,0]` with no reply, no connect and the client left open |
| ProxyPy.UnsupportedCommandClosesSilently | Proxy.py:196-198 | every request the parser accepts (IPv4, IPv6, or a resolved digit-length domain) with a command other than 1 closes the client with no reply and no outbound connect; a request the parser drops is not closed (DroppedRequestEndsSilently) |
| ProxyPy.LiteralRequestHandled | Proxy.py:172-187 | an IPv4 or IPv6 request reaches the command check and the connect block with exactly the requested address, port and type |
| ProxyPy.RelayExactly | Proxy.py:179-194 | the relay starts exactly when the request is a CONNECT, not IPv6, whose address reads and whose AF_INET connect succeeds; the reply then echoes the request's type over the bound name |
| ProxyPy.Ipv4Connect | Proxy.py:179-194 | an IPv4 CONNECT is connected over AF_INET to the requested address and port; success sends the success reply and relays, failure sends the failure reply |
| ProxyPy.Ipv6NeverSucceeds | Proxy.py:182-201 | an IPv6 CONNECT always ends with the failure reply with ATYP 4 and no relay, whatever the network does |
| ProxyPy.DigitDomainConnect | Proxy.py:105-115 | a resolved domain CONNECT is connected over AF_INET and its success reply carries ATYP 3; a failed lookup escapes after `[5,0]` |
| ServerPy.PrepareAddr | server.py:26-42 | an unknown type reads nothing and yields None; the known types behave as the shared address reader, without catching its exceptions |
| ServerPy.ConnectAndReply | server.py:76-119 | a None host gives the failure reply without a connect; the relay starts iff there is a host, the socket is AF_INET and the connect succeeds, after a success reply with ATYP 1; the client is always closed |
| ServerPy.HandleRequest | server.py:68-119 | after negotiation, any reply is the 10-byte ATYP 1 success reply (then relay) or the 12-byte failure reply `ErrorReply` of the request's type byte, and a reply implies the client is closed |
| ServerPy.Handle | server.py:44-126 | output is empty or starts with `[5,0]`; the relay starts iff a reply with code 0 was sent, always with ATYP 1; every reply path closes the client; the failure reply is `ErrorReply` of the request's type byte |
| ServerPy.SelectionThenRequest | server.py:56-69 | a session is `[5,0]` followed by the request phase when the greeting is read and offers method 0, and otherwise sends nothing and never relays |
| ServerPy.RefusedWithoutNoAuth | server.py:56-59 | without method 0 nothing is sent, the client is closed and SystemExit escapes, whatever follows the greeting |
| ServerPy.NoAuthSelected | server.py:61-66 | with method 0 offered, whatever follows the greeting, the first two bytes sent are `[5,0]` |
| ServerPy.ShortRequestRaises | server.py:69 | a request header shorter than 4 bytes raises ValueError out of the handler after `[5,0]` |
| ServerPy.NonDigitLengthRequestRaises | server.py:69-73 | in the request phase a non-digit domain length byte raises ValueError before anything is sent |
| ServerPy.NonDigitDomainLengthRaises | server.py:33-34 | a non-digit domain length byte raises ValueError out of the handler, with no reply |
| ServerPy.UnsupportedCommandClosesSilently | server.py:87-89 | a command other than 1 closes the client with no reply and no connect, whatever the address type |
| ServerPy.UnknownAtypFails | server.py:83-119 | a CONNECT with an unknown type attempts no connect and gets the failure reply echoing that type, and the client is closed |
| ServerPy.LiteralRequestHandled | server.py:69-73 | an IPv4 or IPv6 request reaches the connect block with exactly the requested address, port and type |
| ServerPy.Ipv4Connect | server.py:79-105 | an IPv4 CONNECT succeeds with the success reply and relay, or fails with the failure reply; the client is closed either way |
| ServerPy.Ipv6NeverSucceeds | server.py:83-92 | an IPv6 CONNECT is attempted but always ends with the failure reply with ATYP 4 |
| ServerPy.DigitDomainHandled | server.py:33-37 | a digit-length domain request resolves exactly the name; a failed lookup raises OSError out of the handler |
| ServerPy.DigitDomainSuccessClaimsIpv4 | server.py:94-103 | a successful domain CONNECT is answered with ATYP 1, not the requested 3 |
| ServerPy.RelayExactly | server.py:79-105 | the relay starts exactly when the request is a CONNECT, not IPv6, whose address reads and whose AF_INET connect succeeds; the reply then carries ATYP 1 over the bound name whatever type was requested |
| Compare.SuccessRepliesDifferOnlyInType | server.py:94-103 | two success replies over the same bound name differ at most in the address-type byte |
| Compare.RequestRelayAgreement | server.py:92-104 | both handlers start the relay on exactly the same request bytes and oracles, and their replies then differ only in the ATYP byte |
| Compare.SessionRelayAgreement | server.py:121-124 | over whole sessions both handlers relay on the same inputs and have sent the same bytes except the reply's ATYP |

## Left out

- Listener and threading (`Proxy.py:20-40, 205-215`, `server.py:13-24, 147-171`): socket creation, bind, accept, and `Thread.run()` called in place of `start()`; they are concurrency plumbing with no byte-level content.
- The relay loops `__transact` and `run_transaction`: they depend on `select` readiness, timeouts and socket semantics; only the "relay starts" flag is modelled. Consequences not modelled: an exception inside `__transact` is caught by the surrounding handler in Proxy.py and sends a failure reply after relayed data; `run_transaction` in server.py never returns normally (its `break` leaves only the inner `for`), so the close after the relay is only the path's last statement, not something the program reaches.
- `Session.Outcome.closesClient`: states that the path's statements include closing the client socket, not that it happens in time; on server.py's relay path it would only happen after the relay returns.
- Sends to the client: every `send`/`sendall` is taken to deliver the whole packet; the `return False` branches of `__success_packet` and `__error_packet` and an exception from `sendall` in server.py's failure branch are not modelled.
- Partial reads: `recv(n)` is taken to return `min(n, remaining)` bytes of a fully buffered stream, never fewer while data is pending.
- `gethostbyname`, `connect`, `getsockname`, `inet_ntop` and `inet_pton` are oracles or identities on packed bytes; text formatting of addresses is not modelled, and every resolver failure is an OSError (errors of other classes it might raise on malformed names are not distinguished).
- Printing, `sys.exit` beyond the SystemExit it raises, `KeyboardInterrupt`, and the outbound sockets that are never closed.
- RFC 1928 behaviour the code does not implement (the `0xFF` method reply, reply codes other than 0 and 5, a bound address type that follows the outbound socket's family) is absent on purpose.
- Wire.ReadKnownAddress: for type 3 it states only that the result is a 4-byte address; the exact consumption is stated by Wire.DigitDomainAccepted for well-formed names, and truncated names (fewer bytes than the length digit) are not described by a lemma.
