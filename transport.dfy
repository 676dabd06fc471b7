/**
 * A stream socket as the protocol sees it: the bytes this end has sent, and
 * the bytes the peer has sent that this end has not read yet. A peer that
 * has closed its end has nothing more to send, so reading past the end of
 * `unread` is end of stream.
 */
module Transport {
  import opened Utf8

  class Connection {
    var sent: seq<byte>
    var unread: seq<byte>
    var closed: bool

    /** A socket whose peer will send `incoming` and then close its end. */
    constructor (incoming: seq<byte>)
      ensures sent == [] && unread == incoming && !closed
    {
      sent := [];
      unread := incoming;
      closed := false;
    }

    /** `socket.send`: the whole of `data` goes out, after everything sent before. */
    method Send(data: seq<byte>)
      modifies this`sent
      ensures sent == old(sent) + data
      ensures unread == old(unread) && closed == old(closed)
    {
      sent := sent + data;
    }

    /**
     * `socket.recv(n)`: the next `n` unread bytes, or all that are left when
     * fewer remain; an empty result means the peer closed the connection.
     */
    method Recv(n: nat) returns (data: seq<byte>)
      modifies this`unread
      ensures data == old(unread)[..if n < |old(unread)| then n else |old(unread)|]
      ensures old(unread) == data + unread
      ensures sent == old(sent) && closed == old(closed)
    {
      var k := if n < |unread| then n else |unread|;
      data := unread[..k];
      unread := unread[k..];
    }

    method Close()
      modifies this`closed
      ensures closed
      ensures sent == old(sent) && unread == old(unread)
    {
      closed := true;
    }
  }
}
