/**
 * The liveness probe of `check_status`: a fixed two-byte query, then a
 * decision on the reply.  A reply whose first byte is nonzero yields 1 (the
 * caller treats it as "receiver not ready"); a zero first byte yields 0; a
 * socket error, a timeout included, is only logged and also yields 0.
 * Socket creation, sending and the one-second receive timeout are I/O and
 * appear here only through their outcome, `Receive`.
 */
module StatusCheck {
  import opened Wrappers
  import opened ValueCodec
  import opened UpdatePacket

  const STATUS_TYPE: byte := 0x00

  /** The query datagram: the status type byte and a reserved zero byte. */
  function StatusQuery(): (q: seq<byte>)
    ensures |q| == 2 && q[0] == STATUS_TYPE && q[1] == 0x00
    ensures q[0] != UPDATE_TYPE && DecodeUpdate(q) == None
  {
    [STATUS_TYPE, 0x00]
  }

  /** What `recvfrom(2)` produced: a datagram (at most its first two bytes) or a raised `socket.error`. */
  datatype Receive = Datagram(data: seq<byte>) | SocketError

  /**
   * Reading `response[0]` of an empty datagram raises `IndexError`, which the
   * `except socket.error` clause does not catch, so it leaves `check_status`.
   */
  datatype StatusFault = EmptyReply

  /** The value `check_status` returns, or the exception that escapes it. */
  function CheckStatus(received: Receive): (r: Result<int, StatusFault>)
    ensures r == Success(1) <==> received.Datagram? && |received.data| > 0 && received.data[0] != 0x00
    ensures r == Success(0) <==>
      received == SocketError || (received.Datagram? && |received.data| > 0 && received.data[0] == 0x00)
    ensures r == Failure(EmptyReply) <==> received == Datagram([])
  {
    match received
    case SocketError => Success(0)
    case Datagram(data) =>
      if |data| == 0 then Failure(EmptyReply)
      else if data[0] != 0x00 then Success(1)
      else Success(0)
  }

  /** The first `n` bytes of a datagram, as `recvfrom(n)` delivers on a datagram socket. */
  function Truncate(datagram: seq<byte>, n: nat): (d: seq<byte>)
    ensures |d| == if |datagram| <= n then |datagram| else n
    ensures d <= datagram
    ensures |datagram| <= n ==> d == datagram
  {
    if |datagram| <= n then datagram else datagram[..n]
  }

  /** Only the first reply byte matters: truncation by `recvfrom(2)` and any further bytes are irrelevant. */
  lemma CheckStatusReadsFirstByte(d1: seq<byte>, d2: seq<byte>)
    requires |d1| > 0 && |d2| > 0 && d1[0] == d2[0]
    ensures CheckStatus(Datagram(d1)) == CheckStatus(Datagram(d2))
    ensures CheckStatus(Datagram(Truncate(d1, 2))) == CheckStatus(Datagram(d1))
  {
    assert Truncate(d1, 2)[0] == d1[0];
  }

  /** The lenient path: a timeout or socket error is indistinguishable from an OK reply. */
  lemma SocketErrorReadsAsOk(reserved: byte)
    ensures CheckStatus(SocketError) == CheckStatus(Datagram([0x00, reserved])) == Success(0)
  {
  }

  /**
   * The query is [0x00, 0x00] and can never be mistaken for an update: its
   * type byte differs from that of every encoded update, and a receiver
   * parsing it as an update rejects it.
   */
  lemma QueryIsNotAnUpdate(cs: Changes)
    ensures StatusQuery() == [0x00, 0x00]
    ensures DecodeUpdate(StatusQuery()) == None
    ensures Update(cs).Success? ==> Update(cs).value[0] != StatusQuery()[0] && Update(cs).value != StatusQuery()
  {
    if Update(cs).Success? {
      UpdateLayout(cs);
    }
  }
}
