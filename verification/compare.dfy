/** The two handlers side by side: they read the same bytes the same way
    up to the connect, so they start relaying on exactly the same client
    streams and network behaviours; what they then send differs only in the
    address type of the success reply. */
module Compare {
  import opened Python
  import opened Bytes
  import opened Wire
  import opened Session
  import ProxyPy
  import ServerPy

  /** Two success replies over the same bound name agree everywhere but in
      their address-type byte. */
  lemma SuccessRepliesDifferOnlyInType(x: byte, y: byte, bound: seq<byte>, port: Port)
    ensures SuccessReply(x, bound, port)[..3] == SuccessReply(y, bound, port)[..3]
    ensures SuccessReply(x, bound, port)[4..] == SuccessReply(y, bound, port)[4..]
  {
    assert SuccessReply(x, bound, port)[4..] == bound + PortBytes(port);
    assert SuccessReply(y, bound, port)[4..] == bound + PortBytes(port);
  }

  /** Prefixing two sequences with the method selection shifts the
      positions where they may differ by two. */
  lemma SelectionShift(p: seq<byte>, q: seq<byte>)
    requires |p| >= 4 && |q| >= 4 && p[..3] == q[..3] && p[4..] == q[4..]
    ensures ([5, 0] + p)[..5] == ([5, 0] + q)[..5]
    ensures ([5, 0] + p)[6..] == ([5, 0] + q)[6..]
  {
    assert ([5, 0] + p)[..5] == [5, 0] + p[..3];
    assert ([5, 0] + q)[..5] == [5, 0] + q[..3];
    assert ([5, 0] + p)[6..] == p[4..];
    assert ([5, 0] + q)[6..] == q[4..];
  }

  /** After the method selection: both handlers relay on the same inputs;
      when they do, their replies agree except for byte 3, which Proxy.py
      copies from the request and server.py fixes at 1. */
  lemma RequestRelayAgreement(s: seq<byte>, resolve: Resolver, connect: Connector)
    ensures ProxyPy.HandleRequest(s, resolve, connect).relays <==> ServerPy.HandleRequest(s, resolve, connect).relays
    ensures ProxyPy.HandleRequest(s, resolve, connect).relays ==>
              var p := ProxyPy.HandleRequest(s, resolve, connect).sent;
              var q := ServerPy.HandleRequest(s, resolve, connect).sent;
              && p[..3] == q[..3] && p[4..] == q[4..]
              && p[3] == s[3] && q[3] == AtypIpv4
  {
    ProxyPy.RelayExactly(s, resolve, connect);
    ServerPy.RelayExactly(s, resolve, connect);
    if ConnectSucceeds(s, resolve, connect) {
      var b := BoundFor(s, resolve, connect);
      SuccessRepliesDifferOnlyInType(s[3], AtypIpv4, b.addr, b.port);
    }
  }

  /** Whole sessions: both handlers relay on exactly the same client
      streams and oracles, and the bytes they have sent by then agree
      except for the reply's address type. */
  lemma SessionRelayAgreement(s: seq<byte>, resolve: Resolver, connect: Connector)
    ensures ProxyPy.Handle(s, resolve, connect).relays <==> ServerPy.Handle(s, resolve, connect).relays
    ensures ProxyPy.Handle(s, resolve, connect).relays ==>
              var p := ProxyPy.Handle(s, resolve, connect).sent;
              var q := ServerPy.Handle(s, resolve, connect).sent;
              && p[..5] == q[..5] && p[6..] == q[6..] && q[5] == AtypIpv4
  {
    ProxyPy.SelectionThenRequest(s, resolve, connect);
    ServerPy.SelectionThenRequest(s, resolve, connect);
    if ReadGreeting(s).Ok? && AcceptsNoAuth(ReadGreeting(s).value.value) {
      var t := ReadGreeting(s).value.rest;
      var po := ProxyPy.HandleRequest(t, resolve, connect);
      var so := ServerPy.HandleRequest(t, resolve, connect);
      RequestRelayAgreement(t, resolve, connect);
      assert ProxyPy.Handle(s, resolve, connect) == po.(sent := [5, 0] + po.sent);
      assert ServerPy.Handle(s, resolve, connect) == so.(sent := [5, 0] + so.sent);
      if po.relays {
        SelectionShift(po.sent, so.sent);
      }
    }
  }
}
