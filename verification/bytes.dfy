/** Byte-level primitives: the receive call on a fully buffered stream and
    the integer/bytes conversions of the Python standard library that the
    handshake uses (int.from_bytes, int.to_bytes, int() of a bytes object). */
module Bytes {
  import opened Python

  type byte = b: int | 0 <= b < 0x100

  /** A TCP port number, as carried in two big-endian bytes. */
  type Port = p: int | 0 <= p < 0x1_0000

  /** A packed IPv4 address. */
  type Addr4 = s: seq<byte> | |s| == 4 witness [0, 0, 0, 0]

  /** A value read from the front of a stream, and what remains unread. */
  datatype Read<+T> = Read(value: T, rest: seq<byte>)

  function Min(a: int, b: int): int {
    if a <= b then a else b
  }

  /** sock.recv(n) on a stream whose bytes are all buffered: it returns at
      most n bytes, and fewer only when the stream is exhausted. */
  function Recv(s: seq<byte>, n: nat): (r: Read<seq<byte>>)
    ensures |r.value| == Min(n, |s|)
    ensures r.value + r.rest == s
  {
    Read(s[..Min(n, |s|)], s[Min(n, |s|)..])
  }

  function Pow256(k: nat): (p: nat)
    ensures p > 0
  {
    if k == 0 then 1 else 256 * Pow256(k - 1)
  }

  /** int.from_bytes(bs, 'big'); the empty sequence denotes 0. */
  function FromBytesBig(bs: seq<byte>): (n: nat)
    ensures n < Pow256(|bs|)
  {
    if bs == [] then 0
    else
      var high := FromBytesBig(bs[..|bs| - 1]);
      assert high + 1 <= Pow256(|bs| - 1);
      assert (high + 1) * 256 <= Pow256(|bs| - 1) * 256;
      high * 256 + bs[|bs| - 1]
  }

  /** n.to_bytes(len, 'big'), for the values the handlers pass to it (Python
      raises OverflowError otherwise; the handlers never do). */
  function ToBytesBig(n: nat, len: nat): (bs: seq<byte>)
    requires n < Pow256(len)
    ensures |bs| == len
    ensures FromBytesBig(bs) == n
  {
    if len == 0 then []
    else
      var high := ToBytesBig(n / 256, len - 1);
      assert (high + [n % 256])[..len - 1] == high;
      high + [n % 256]
  }

  /** Python's int() applied to the result of recv(1): a bytes object of one
      ASCII decimal digit yields that digit; anything else, including the
      empty result at end of stream, raises ValueError. */
  function IntOfDigit(bs: seq<byte>): (r: Result<nat>)
    requires |bs| <= 1
    ensures r.Ok? <==> |bs| == 1 && 0x30 <= bs[0] <= 0x39
    ensures r.Ok? ==> r.value <= 9 && DigitText(r.value) == bs
    ensures r.Raise? ==> r.error == ValueError
  {
    if |bs| == 1 && '0' as int <= bs[0] <= '9' as int then Ok(bs[0] - '0' as int)
    else Raise(ValueError)
  }

  /** The one-byte text that the digit parser accepts for a value up to 9. */
  function DigitText(d: nat): (bs: seq<byte>)
    requires d <= 9
    ensures |bs| == 1
  {
    [d + '0' as int]
  }

  /** int() inverts the digit text, and accepts nothing else: a length byte
      written as a raw binary value (as RFC 1928 section 5 does) is accepted
      only when it happens to be the code of an ASCII digit, and then it
      denotes a different number. */
  lemma DigitRoundTrip(d: nat, b: byte)
    requires d <= 9
    ensures IntOfDigit(DigitText(d)) == Ok(d)
    ensures IntOfDigit([b]).Ok? <==> 0x30 <= b <= 0x39
    ensures IntOfDigit([b]).Ok? ==> IntOfDigit([b]).value == b - 0x30 != b
  {
  }

  /** Reading the port: recv(2) followed by int.from_bytes(..., 'big'). A
      short read is not an error; it yields the value of the bytes received. */
  function ReadPort(s: seq<byte>): (r: Read<Port>)
    ensures |s| >= 2 ==> r.value == s[0] as int * 256 + s[1] && r.rest == s[2..]
    ensures |s| == 1 ==> r.value == s[0] && r.rest == []
    ensures |s| == 0 ==> r.value == 0 && r.rest == []
  {
    var p := Recv(s, 2);
    assert Pow256(2) == 0x1_0000;
    if |p.value| == 2 then
      assert p.value[..1][..0] == [];
      assert FromBytesBig(p.value[..1]) == p.value[0];
      Read(FromBytesBig(p.value), p.rest)
    else
      assert |p.value| == 1 ==> p.value[..0] == [];
      Read(FromBytesBig(p.value), p.rest)
  }

  /** port.to_bytes(2, 'big'). */
  function PortBytes(p: Port): (bs: seq<byte>)
    ensures |bs| == 2
    ensures FromBytesBig(bs) == p
  {
    assert Pow256(2) == 0x1_0000;
    ToBytesBig(p, 2)
  }

  /** Encoding a port and reading it back is the identity, whatever follows. */
  lemma PortRoundTrip(p: Port, rest: seq<byte>)
    ensures ReadPort(PortBytes(p) + rest) == Read(p, rest)
    ensures PortBytes(p) == [p / 256, p % 256]
  {
    var bs := PortBytes(p);
    assert (bs + rest)[..2] == bs;
    assert (bs + rest)[2..] == rest;
    assert FromBytesBig(bs) == p;
  }
}
