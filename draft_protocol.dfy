/**
 * The first JSON-header draft of the Tumult wire protocol. Its header has
 * the same five fields in the same order as the shared protocol, and the
 * same CR LF delimiter, so the header codec of `Protocol` is the codec of
 * this draft too; what differs is the version string, the module's own
 * import-time timestamp, and that `write_message` lets the caller choose
 * the request type of a frame that carries a payload.
 */
module DraftProtocol {
  import opened Options
  import opened Utf8
  import Json
  import Transport
  import Protocol

  const DraftVersion := "0.1.0"
  const DraftDefaultIpv4Address := "127.0.0.1"
  const DraftDefaultPort := 65535

  /** The `time.time()` value this module's header class was defined with. */
  const DraftImportTime: Json.Float

  /** What `write_message(nickname, message, request_type)` sends. */
  function DraftMessageRequest(nickname: Option<string>, message: string, kind: Protocol.RequestType): Protocol.Request {
    Protocol.MessageFrame(DraftVersion, DraftImportTime, kind, nickname, message)
  }

  function DraftJoinRequest(nickname: Option<string>): Protocol.Request {
    Protocol.NoticeFrame(DraftVersion, DraftImportTime, Protocol.JoinMessage, nickname)
  }

  function DraftLeaveRequest(nickname: Option<string>): Protocol.Request {
    Protocol.NoticeFrame(DraftVersion, DraftImportTime, Protocol.LeaveMessage, nickname)
  }

  function DraftNicknameRequest(nickname: Option<string>): Protocol.Request {
    Protocol.NoticeFrame(DraftVersion, DraftImportTime, Protocol.Nickname, nickname)
  }

  /**
   * A draft header carries the draft version and the import-time timestamp,
   * and reads back field for field.
   */
  lemma DraftHeaderRoundTrip(kind: Protocol.RequestType, nickname: Option<string>, contentLength: nat)
    ensures var h := Protocol.Header(kind, DraftVersion, Some(DraftImportTime), nickname, contentLength);
      Protocol.FromBytes(Protocol.ToBytes(h)) == Some(h)
      && Protocol.ToBytes(h) == Encode(Protocol.HeaderText(DraftVersion, Some(DraftImportTime), Protocol.Code(kind), nickname, contentLength) + "\r\n")
  {
    Protocol.HeaderRoundTrip(Protocol.Header(kind, DraftVersion, Some(DraftImportTime), nickname, contentLength));
  }

  /**
   * A frame from `write_message`, whatever its kind, reads back as that kind,
   * that nickname and the UTF-8 text of the message, and leaves what follows.
   */
  lemma DraftMessageReadBack(nickname: Option<string>, message: string, kind: Protocol.RequestType, rest: seq<byte>)
    ensures var r := DraftMessageRequest(nickname, message, kind);
      Protocol.NextRequest(Protocol.RequestBytes(r) + rest) == (Protocol.Received(r), rest)
      && r.header.requestType == kind && r.header.nickname == nickname && r.header.version == DraftVersion
      && r.header.contentLength == |Encode(message)| && Decode(r.contents) == Some(message)
  {
    Protocol.ReadWritten(DraftMessageRequest(nickname, message, kind), rest);
  }

  /** A header-only frame reads back with its kind, its nickname and no payload. */
  lemma DraftNoticeReadBack(nickname: Option<string>, kind: Protocol.RequestType, rest: seq<byte>)
    ensures var r := Protocol.NoticeFrame(DraftVersion, DraftImportTime, kind, nickname);
      Protocol.NextRequest(Protocol.RequestBytes(r) + rest) == (Protocol.Received(r), rest)
      && r.header.requestType == kind && r.header.nickname == nickname
      && r.header.contentLength == 0 && r.contents == []
  {
    Protocol.ReadWritten(Protocol.NoticeFrame(DraftVersion, DraftImportTime, kind, nickname), rest);
  }

  /** `TumultSocket` of the draft: a connected stream socket that reads and writes frames. */
  class DraftSocket {
    const raw: Transport.Connection
    /** The frames written through this socket, in order; what its peer is sent, frame by frame. */
    ghost var written: seq<Protocol.Request>

    /** `TumultSocket.from_socket`: wraps a connected socket. */
    constructor (raw: Transport.Connection)
      ensures this.raw == raw && written == []
    {
      this.raw := raw;
      written := [];
    }

    /** `TumultSocket()`: a new socket, connected to nothing yet. */
    constructor Fresh()
      ensures fresh(raw) && raw.sent == [] && raw.unread == [] && !raw.closed && written == []
    {
      raw := new Transport.Connection([]);
      written := [];
    }

    /** `write_message`: a header of the given kind sized to the UTF-8 payload, then the payload, in one send. */
    method WriteMessage(nickname: Option<string>, message: string, kind: Protocol.RequestType)
      modifies this`written, raw`sent
      ensures written == old(written) + [DraftMessageRequest(nickname, message, kind)]
      ensures raw.sent == old(raw.sent) + Protocol.RequestBytes(DraftMessageRequest(nickname, message, kind))
      ensures raw.unread == old(raw.unread) && raw.closed == old(raw.closed)
    {
      var messageBytes := Encode(message);
      var headerBytes := Protocol.ToBytes(Protocol.Header(kind, DraftVersion, Some(DraftImportTime), nickname, |messageBytes|));
      written := written + [DraftMessageRequest(nickname, message, kind)];
      raw.Send(headerBytes + messageBytes);
    }

    method WriteJoinMessage(nickname: Option<string>)
      modifies this`written, raw`sent
      ensures written == old(written) + [DraftJoinRequest(nickname)]
      ensures raw.sent == old(raw.sent) + Protocol.RequestBytes(DraftJoinRequest(nickname))
      ensures raw.unread == old(raw.unread) && raw.closed == old(raw.closed)
    {
      var headerBytes := Protocol.ToBytes(Protocol.Header(Protocol.JoinMessage, DraftVersion, Some(DraftImportTime), nickname, 0));
      written := written + [DraftJoinRequest(nickname)];
      raw.Send(headerBytes);
    }

    method WriteLeaveMessage(nickname: Option<string>)
      modifies this`written, raw`sent
      ensures written == old(written) + [DraftLeaveRequest(nickname)]
      ensures raw.sent == old(raw.sent) + Protocol.RequestBytes(DraftLeaveRequest(nickname))
      ensures raw.unread == old(raw.unread) && raw.closed == old(raw.closed)
    {
      var headerBytes := Protocol.ToBytes(Protocol.Header(Protocol.LeaveMessage, DraftVersion, Some(DraftImportTime), nickname, 0));
      written := written + [DraftLeaveRequest(nickname)];
      raw.Send(headerBytes);
    }

    method WriteNickname(nickname: Option<string>)
      modifies this`written, raw`sent
      ensures written == old(written) + [DraftNicknameRequest(nickname)]
      ensures raw.sent == old(raw.sent) + Protocol.RequestBytes(DraftNicknameRequest(nickname))
      ensures raw.unread == old(raw.unread) && raw.closed == old(raw.closed)
    {
      var headerBytes := Protocol.ToBytes(Protocol.Header(Protocol.Nickname, DraftVersion, Some(DraftImportTime), nickname, 0));
      written := written + [DraftNicknameRequest(nickname)];
      raw.Send(headerBytes);
    }

    /**
     * The header-reading loop of `read_request`: bytes one at a time up to
     * and including the first CR LF; None when the stream ends first.
     */
    method ReadHeaderBytes() returns (headerBytes: Option<seq<byte>>)
      modifies raw`unread
      ensures headerBytes.None? ==> Protocol.HeaderEnd(old(raw.unread)).None? && raw.unread == []
      ensures headerBytes.Some? ==>
        Protocol.HeaderEnd(old(raw.unread)) == Some(|headerBytes.value|) && old(raw.unread) == headerBytes.value + raw.unread
      ensures raw.sent == old(raw.sent) && raw.closed == old(raw.closed)
    {
      var stream := raw.unread;
      ghost var end := Protocol.HeaderEnd(stream);
      var bytes: seq<byte> := [];
      var readingBytes := true;
      while readingBytes
        invariant stream == bytes + raw.unread
        invariant raw.sent == old(raw.sent) && raw.closed == old(raw.closed)
        invariant readingBytes ==> Protocol.Beyond(end, |bytes|)
        invariant !readingBytes ==> end == Some(|bytes|)
        decreases |raw.unread|, readingBytes
      {
        var b := raw.Recv(1);
        if b == [] {
          Protocol.HeaderEndMissing(stream, bytes, end);
          return None;
        }
        Protocol.HeaderByteStep(stream, end, bytes, b, raw.unread);
        bytes := bytes + b;
        if |bytes| >= 2 && bytes[|bytes| - 2..] == [CR, LF] {
          readingBytes := false;
        }
      }
      headerBytes := Some(bytes);
    }

    /**
     * `read_request`: the header up to the first CR LF (a ConnectionError
     * when the stream ends first), decoded, then the payload only when the
     * header announces one.
     */
    method ReadRequest() returns (r: Protocol.ReadResult)
      modifies raw`unread
      ensures (r, raw.unread) == Protocol.NextRequest(old(raw.unread))
      ensures raw.sent == old(raw.sent) && raw.closed == old(raw.closed)
    {
      ghost var stream := raw.unread;
      var headerBytes := ReadHeaderBytes();
      if headerBytes.None? {
        return Protocol.Failed(Protocol.ConnectionClosed);
      }
      Protocol.SplitAt(stream, headerBytes.value, raw.unread);
      var header := Protocol.FromBytes(headerBytes.value);
      if header.None? {
        return Protocol.Failed(Protocol.MalformedHeader);
      }
      Protocol.NextRequestReceived(stream, |headerBytes.value|, header.value);
      var contents: seq<byte> := [];
      if header.value.contentLength > 0 {
        contents := raw.Recv(header.value.contentLength);
      }
      r := Protocol.Received(Protocol.Request(header.value, contents));
    }

    /** `wait_for_request`: returns from inside the loop at the first request of the given kind. */
    method WaitForRequest(kind: Protocol.RequestType) returns (r: Protocol.ReadResult)
      modifies raw`unread
      ensures (r, raw.unread) == Protocol.WaitFor(old(raw.unread), kind)
      ensures raw.sent == old(raw.sent) && raw.closed == old(raw.closed)
    {
      while true
        invariant raw.sent == old(raw.sent) && raw.closed == old(raw.closed)
        invariant Protocol.WaitFor(raw.unread, kind) == Protocol.WaitFor(old(raw.unread), kind)
        decreases |raw.unread|
      {
        r := ReadRequest();
        if r.Failed? || r.request.header.requestType == kind {
          return;
        }
      }
    }
  }
}
