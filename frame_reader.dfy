/**
 * The server's frame reader, `recv_all` (scripts/server.py), over an
 * abstract TCP socket. The socket holds the bytes the peer has sent and the
 * server has not yet received, and how the stream ends once they are gone.
 * How the transport fragments the bytes is left open: each `recv` may hand
 * over any non-empty prefix no longer than it asked for.
 */
module FrameReader {
  import opened Bytes
  import opened Wrappers

  /** How the peer's stream ends after its last byte. */
  datatype StreamEnd = PeerClosed | PeerSilent | PeerReset

  /** The exceptions `handle_client` catches: `ConnectionError` (closed or reset) and `socket.timeout`. */
  datatype TransportError = ConnectionClosed | TimedOut | ConnectionReset

  /** What `recv` does once nothing is left: an empty read, a timeout, or a reset. */
  function EndOfStream(end: StreamEnd): (r: Result<seq<uint8>, TransportError>)
    ensures r.Ok? <==> end == PeerClosed
    ensures r.Ok? ==> r.value == []
    ensures r.Err? ==> r.error != ConnectionClosed
  {
    match end
    case PeerClosed => Ok([])
    case PeerSilent => Err(TimedOut)
    case PeerReset => Err(ConnectionReset)
  }

  /** The error `recv_all` ends with when the stream runs out before the frame is complete. */
  function ShortReadError(end: StreamEnd): TransportError
  {
    match end
    case PeerClosed => ConnectionClosed
    case PeerSilent => TimedOut
    case PeerReset => ConnectionReset
  }

  class Socket {
    var unread: seq<uint8>
    const end: StreamEnd

    constructor (sent: seq<uint8>, end: StreamEnd)
      ensures unread == sent && this.end == end
    {
      unread := sent;
      this.end := end;
    }

    /** `sock.recv(bufsize)`: some non-empty prefix of what is pending, at most `bufsize` bytes long. */
    method Recv(bufsize: nat) returns (r: Result<seq<uint8>, TransportError>)
      requires bufsize > 0
      modifies this
      ensures old(unread) != [] ==>
        && r.Ok? && 0 < |r.value| <= bufsize
        && old(unread) == r.value + unread
      ensures old(unread) == [] ==> unread == [] && r == EndOfStream(end)
    {
      if unread == [] {
        r := EndOfStream(end);
      } else {
        var k :| 1 <= k <= bufsize && k <= |unread|;
        r := Ok(unread[..k]);
        unread := unread[k..];
      }
    }
  }

  /**
   * `recv_all(sock, length)`: exactly the next `length` bytes of the stream,
   * whatever the fragmentation; if the stream ends first, an error and no data.
   */
  method RecvAll(sock: Socket, length: nat) returns (r: Result<seq<uint8>, TransportError>)
    modifies sock
    ensures |old(sock.unread)| >= length ==>
      r == Ok(old(sock.unread)[..length]) && sock.unread == old(sock.unread)[length..]
    ensures |old(sock.unread)| < length ==>
      r == Err(ShortReadError(sock.end)) && sock.unread == []
  {
    var data: seq<uint8> := [];
    while |data| < length
      invariant old(sock.unread) == data + sock.unread
      invariant |data| <= length
      decreases length - |data|
    {
      var packet := sock.Recv(length - |data|);
      if packet.Err? {
        return Err(packet.error);
      }
      if packet.value == [] {
        return Err(ConnectionClosed);
      }
      data := data + packet.value;
    }
    assert old(sock.unread)[..length] == data;
    return Ok(data);
  }
}
