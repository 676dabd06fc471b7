/**
 * The Tumult client: where the server is (`ServerInfo`), and a
 * `TumultClient` that connects, sends its nickname and messages, and runs
 * a loop that answers the server's nickname requests and turns every
 * other request into one event for the window. The window's Qt signals
 * are modelled as an event log the client appends to.
 */
module Client {
  import opened Options
  import opened Utf8
  import Ipv4
  import Protocol
  import Server

  /** The signals the client emits, in the order it emits them. */
  datatype Event =
    | MessageReceived(sender: Option<string>, message: string)
    | JoinMessageReceived(joiner: Option<string>)
    | LeaveMessageReceived(leaver: Option<string>)
    | Disconnected

  /**
   * What the operating system makes of `socket.connect` for a set address:
   * a connection, one of the connection errors `connect` catches, or any
   * other OSError, which it does not catch.
   */
  datatype ConnectOutcome = Connected | ConnectionFailed | OtherFailure

  /**
   * How the request loop ends: the ConnectionError of an ended stream (the
   * one exit that is caught), a header that does not decode, or a MESSAGE
   * payload that is not UTF-8 (exceptions that end the thread).
   */
  datatype Ending = ConnectionEnded | BadHeader | BadPayload

  /** What one pass of the request loop does with what it read: stop, or go on having emitted `events` and written `replies`. */
  datatype Step = Halt(ending: Ending) | Next(events: seq<Event>, replies: seq<Protocol.Request>)

  /**
   * One pass of the loop of `_handle_server_requests`: a NICKNAME request
   * is answered with a NICKNAME frame carrying the client's own nickname;
   * MESSAGE, JOIN and LEAVE requests each give the matching event with the
   * nickname from the header.
   */
  function React(r: Protocol.ReadResult, nickname: Option<string>): (t: Step)
    ensures t.Halt? <==> r.Failed? || (r.request.header.requestType == Protocol.Message && Decode(r.request.contents).None?)
    ensures t.Halt? ==> (t.ending == ConnectionEnded <==> r == Protocol.Failed(Protocol.ConnectionClosed))
    ensures t.Next? ==> |t.events| + |t.replies| == 1 && Disconnected !in t.events
    ensures t.Next? ==> (t.replies == [Protocol.NicknameRequest(nickname)] <==> r.request.header.requestType == Protocol.Nickname)
    ensures t.Next? ==> t.replies == [] || t.replies == [Protocol.NicknameRequest(nickname)]
    ensures t.Next? && r.request.header.requestType == Protocol.Message ==>
      t.events == [MessageReceived(r.request.header.nickname, Decode(r.request.contents).value)]
    ensures t.Next? && r.request.header.requestType == Protocol.JoinMessage ==> t.events == [JoinMessageReceived(r.request.header.nickname)]
    ensures t.Next? && r.request.header.requestType == Protocol.LeaveMessage ==> t.events == [LeaveMessageReceived(r.request.header.nickname)]
  {
    match r
    case Failed(e) => Halt(if e == Protocol.ConnectionClosed then ConnectionEnded else BadHeader)
    case Received(req) =>
      match req.header.requestType
      case Nickname => Next([], [Protocol.NicknameRequest(nickname)])
      case Message =>
        (match Decode(req.contents)
         case None => Halt(BadPayload)
         case Some(text) => Next([MessageReceived(req.header.nickname, text)], []))
      case JoinMessage => Next([JoinMessageReceived(req.header.nickname)], [])
      case LeaveMessage => Next([LeaveMessageReceived(req.header.nickname)], [])
  }

  /** What the request loop does with a whole unread stream: its events, its replies, how it ends, what is left unread. */
  datatype Listening = Listening(events: seq<Event>, replies: seq<Protocol.Request>, ending: Ending, rest: seq<byte>)

  /**
   * `_handle_server_requests` on the unread stream `s` of a client holding
   * `nickname`: the loop, then one `disconnected` event when it ended with
   * a ConnectionError, and none when another exception ended the thread.
   */
  function Listen(s: seq<byte>, nickname: Option<string>): Listening
    decreases |s|
  {
    var (r, rest) := Protocol.NextRequest(s);
    match React(r, nickname)
    case Halt(ending) => Listening(if ending == ConnectionEnded then [Disconnected] else [], [], ending, rest)
    case Next(events, replies) =>
      var later := Listen(rest, nickname);
      later.(events := events + later.events, replies := replies + later.replies)
  }

  /** One pass of the loop that goes on: its event or reply, then whatever the rest of the stream gives. */
  lemma ListenNext(s: seq<byte>, nickname: Option<string>)
    requires React(Protocol.NextRequest(s).0, nickname).Next?
    ensures var t := React(Protocol.NextRequest(s).0, nickname);
      var later := Listen(Protocol.NextRequest(s).1, nickname);
      Listen(s, nickname) == Listening(t.events + later.events, t.replies + later.replies, later.ending, later.rest)
  {
  }

  /** A pass of the loop that stops: `disconnected` alone after a ConnectionError, nothing after any other exception. */
  lemma ListenHalt(s: seq<byte>, nickname: Option<string>)
    requires React(Protocol.NextRequest(s).0, nickname).Halt?
    ensures var ending := React(Protocol.NextRequest(s).0, nickname).ending;
      Listen(s, nickname) == Listening(if ending == ConnectionEnded then [Disconnected] else [], [], ending, Protocol.NextRequest(s).1)
  {
  }

  /** Every reply of the loop is a NICKNAME frame carrying the client's own nickname. */
  lemma {:induction false} ListenReplies(s: seq<byte>, nickname: Option<string>)
    ensures var l := Listen(s, nickname);
      forall k :: 0 <= k < |l.replies| ==> l.replies[k] == Protocol.NicknameRequest(nickname)
    decreases |s|
  {
    var (r, rest) := Protocol.NextRequest(s);
    var t := React(r, nickname);
    if t.Next? {
      ListenReplies(rest, nickname);
      ListenNext(s, nickname);
      var later := Listen(rest, nickname);
      var replies := Listen(s, nickname).replies;
      assert replies == t.replies + later.replies;
      forall k | 0 <= k < |replies| ensures replies[k] == Protocol.NicknameRequest(nickname) {
        if k >= |t.replies| {
          assert replies[k] == later.replies[k - |t.replies|];
        }
      }
    } else {
      ListenHalt(s, nickname);
    }
  }

  /**
   * `disconnected` is emitted exactly when the loop ends with a
   * ConnectionError, and then once, as the last event.
   */
  lemma {:induction false} ListenDisconnects(s: seq<byte>, nickname: Option<string>)
    ensures var l := Listen(s, nickname);
      && (l.ending == ConnectionEnded ==>
            l.events != [] && l.events[|l.events| - 1] == Disconnected && Disconnected !in l.events[..|l.events| - 1])
      && (l.ending != ConnectionEnded ==> Disconnected !in l.events)
    decreases |s|
  {
    var (r, rest) := Protocol.NextRequest(s);
    var t := React(r, nickname);
    if t.Next? {
      ListenDisconnects(rest, nickname);
      ListenNext(s, nickname);
      var later := Listen(rest, nickname);
      DisconnectedAfter(t.events, later.events, later.ending == ConnectionEnded);
    } else {
      ListenHalt(s, nickname);
      assert [Disconnected][..0] == [];
    }
  }

  /** Events without `disconnected`, then events that end with it once (or hold none), keep that shape. */
  lemma DisconnectedAfter(first: seq<Event>, later: seq<Event>, ended: bool)
    requires Disconnected !in first
    requires ended ==> later != [] && later[|later| - 1] == Disconnected && Disconnected !in later[..|later| - 1]
    requires !ended ==> Disconnected !in later
    ensures var events := first + later;
      && (ended ==> events != [] && events[|events| - 1] == Disconnected && Disconnected !in events[..|events| - 1])
      && (!ended ==> Disconnected !in events)
  {
    var events := first + later;
    if ended {
      assert events[..|events| - 1] == first + later[..|later| - 1];
    }
  }

  /** The event the client shows for one history entry the server replays or broadcasts. */
  function EntryEvent(m: Server.Message): (e: Event)
    requires m.messageType != Protocol.Nickname
    ensures e != Disconnected
  {
    match m.messageType
    case Message => MessageReceived(m.nickname, m.contents)
    case JoinMessage => JoinMessageReceived(m.nickname)
    case LeaveMessage => LeaveMessageReceived(m.nickname)
  }

  /** The events for a run of entries, one per entry, in order. */
  function HistoryEvents(h: seq<Server.Message>): (r: seq<Event>)
    requires Server.NoNicknameEntries(h)
    ensures |r| == |h| && forall k :: 0 <= k < |h| ==> r[k] == EntryEvent(h[k])
  {
    if h == [] then [] else [EntryEvent(h[0])] + HistoryEvents(h[1..])
  }

  /** The frame the server sends for an entry reads back, at the client, as that entry's event. */
  lemma EntryReadBack(m: Server.Message, nickname: Option<string>)
    requires m.messageType != Protocol.Nickname
    ensures React(Protocol.Received(Server.EntryRequest(m)), nickname) == Next([EntryEvent(m)], [])
  {
  }

  /**
   * What a newly connected client makes of what the server first writes to
   * it: the history replay, then the request for its nickname, then the end
   * of the stream. It shows every history entry, in order, with its kind,
   * nickname and text; answers the request with exactly one NICKNAME frame
   * carrying its own nickname; and then emits `disconnected` once.
   */
  lemma {:induction false} ListenToWelcome(h: seq<Server.Message>, asked: Option<string>, nickname: Option<string>)
    requires Server.NoNicknameEntries(h)
    ensures Listen(Protocol.FramesBytes(Server.ReplayFrames(h) + [Protocol.NicknameRequest(asked)]), nickname)
      == Listening(HistoryEvents(h) + [Disconnected], [Protocol.NicknameRequest(nickname)], ConnectionEnded, [])
  {
    if h == [] {
      assert Server.ReplayFrames(h) + [Protocol.NicknameRequest(asked)] == [Protocol.NicknameRequest(asked)];
      ListenToNicknameRequest(asked, nickname);
    } else {
      assert Server.NoNicknameEntries(h[1..]) by {
        forall k | 0 <= k < |h[1..]| ensures h[1..][k].messageType != Protocol.Nickname {
          assert h[1..][k] == h[k + 1];
        }
      }
      ListenToWelcome(h[1..], asked, nickname);
      ListenToEntry(h, asked, nickname);
      var shown := HistoryEvents(h[1..]);
      assert HistoryEvents(h) == [EntryEvent(h[0])] + shown;
      Server.ConcatAssoc([EntryEvent(h[0])], shown, [Disconnected]);
    }
  }

  /** The inductive step of `ListenToWelcome`: the first replayed entry is shown first. */
  lemma ListenToEntry(h: seq<Server.Message>, asked: Option<string>, nickname: Option<string>)
    requires h != [] && Server.NoNicknameEntries(h)
    ensures var later := Server.ReplayFrames(h[1..]) + [Protocol.NicknameRequest(asked)];
      var l := Listen(Protocol.FramesBytes(later), nickname);
      Listen(Protocol.FramesBytes(Server.ReplayFrames(h) + [Protocol.NicknameRequest(asked)]), nickname)
        == l.(events := [EntryEvent(h[0])] + l.events)
  {
    var entry := Server.EntryRequest(h[0]);
    var later := Server.ReplayFrames(h[1..]) + [Protocol.NicknameRequest(asked)];
    var frames := Server.ReplayFrames(h) + [Protocol.NicknameRequest(asked)];
    Server.ReplayFramesCons(h);
    Server.ConcatAssoc([entry], Server.ReplayFrames(h[1..]), [Protocol.NicknameRequest(asked)]);
    Protocol.FramesPrepend(entry, later);
    ListenToEntryFrame(h[0], Protocol.FramesBytes(later), nickname);
  }

  /** The frame of a history entry is shown as that entry's event, and the loop goes on. */
  lemma ListenToEntryFrame(m: Server.Message, rest: seq<byte>, nickname: Option<string>)
    requires m.messageType != Protocol.Nickname
    ensures var later := Listen(rest, nickname);
      Listen(Protocol.RequestBytes(Server.EntryRequest(m)) + rest, nickname) == later.(events := [EntryEvent(m)] + later.events)
  {
    EntryReadBack(m, nickname);
    ListenToFrame(Server.EntryRequest(m), rest, nickname);
  }

  /** A lone nickname request is answered with the client's own nickname, and the end of the stream then disconnects. */
  lemma ListenToNicknameRequest(asked: Option<string>, nickname: Option<string>)
    ensures Listen(Protocol.FramesBytes([Protocol.NicknameRequest(asked)]), nickname)
      == Listening([Disconnected], [Protocol.NicknameRequest(nickname)], ConnectionEnded, [])
  {
    Protocol.FramesOne(Protocol.NicknameRequest(asked));
    ListenToNicknameFrame(asked, [], nickname);
    ListenToEnd(nickname);
  }

  /** A nickname request is answered with one NICKNAME frame carrying the client's own nickname, and the loop goes on. */
  lemma ListenToNicknameFrame(asked: Option<string>, rest: seq<byte>, nickname: Option<string>)
    ensures var later := Listen(rest, nickname);
      Listen(Protocol.RequestBytes(Protocol.NicknameRequest(asked)) + rest, nickname)
        == later.(replies := [Protocol.NicknameRequest(nickname)] + later.replies)
  {
    ListenToFrame(Protocol.NicknameRequest(asked), rest, nickname);
  }

  /** A well-formed frame the loop goes on after: its event or reply, then whatever follows it gives. */
  lemma ListenToFrame(r: Protocol.Request, rest: seq<byte>, nickname: Option<string>)
    requires Protocol.WellFormed(r) && React(Protocol.Received(r), nickname).Next?
    ensures var t := React(Protocol.Received(r), nickname);
      var later := Listen(rest, nickname);
      Listen(Protocol.RequestBytes(r) + rest, nickname) == Listening(t.events + later.events, t.replies + later.replies, later.ending, later.rest)
  {
    Protocol.ReadWritten(r, rest);
    ListenNext(Protocol.RequestBytes(r) + rest, nickname);
  }

  /** At the end of the stream the loop stops with a ConnectionError, and `disconnected` is emitted. */
  lemma ListenToEnd(nickname: Option<string>)
    ensures Listen([], nickname) == Listening([Disconnected], [], ConnectionEnded, [])
  {
    assert Protocol.HeaderEnd([]).None?;
    ListenHalt([], nickname);
  }

  /** `ServerInfo`: the address and port of the server, and the socket to it. */
  class ServerInfo {
    var ipv4Address: Option<string>
    var port: Option<int>
    var socket: Protocol.TumultSocket

    /**
     * `ServerInfo()`: no address and no port yet. The socket is the field's
     * default, one `TumultSocket()` made when the class is defined and so
     * shared by every `ServerInfo` built without one.
     */
    constructor (defaultSocket: Protocol.TumultSocket)
      ensures ipv4Address == None && port == None && socket == defaultSocket
    {
      ipv4Address := None;
      port := None;
      socket := defaultSocket;
    }

    /** The `socket_address` getter: the address and the port, as a pair. */
    function SocketAddress(): (Option<string>, Option<int>)
      reads this
    {
      (ipv4Address, port)
    }

    /** The `socket_address` setter: reading the pair back gives what was set; the socket stays. */
    method SetSocketAddress(socketAddress: (string, int))
      modifies this
      ensures SocketAddress() == (Some(socketAddress.0), Some(socketAddress.1))
      ensures socket == old(socket)
    {
      ipv4Address, port := Some(socketAddress.0), Some(socketAddress.1);
    }

    /**
     * `address_scope`: "unknown" when there is no address or it is not a
     * dotted quad; otherwise loopback first, then private, then global
     * ("public"), and "reserved" for the rest. The private and global
     * tables of `ipaddress` are parameters.
     */
    function AddressScope(isPrivate: Ipv4.Octets -> bool, isGlobal: Ipv4.Octets -> bool): (scope: string)
      reads this
      ensures scope in {"unknown", "loopback", "private", "public", "reserved"}
      ensures scope == "unknown" <==> ipv4Address.None? || Ipv4.Parse(ipv4Address.value).None?
      ensures scope == "loopback" <==> ipv4Address.Some? && Ipv4.Parse(ipv4Address.value).Some? && Ipv4.IsLoopback(Ipv4.Parse(ipv4Address.value).value)
      ensures scope == "private" <==>
        (ipv4Address.Some? && Ipv4.Parse(ipv4Address.value).Some?
         && !Ipv4.IsLoopback(Ipv4.Parse(ipv4Address.value).value) && isPrivate(Ipv4.Parse(ipv4Address.value).value))
      ensures scope == "public" <==>
        (ipv4Address.Some? && Ipv4.Parse(ipv4Address.value).Some?
         && !Ipv4.IsLoopback(Ipv4.Parse(ipv4Address.value).value) && !isPrivate(Ipv4.Parse(ipv4Address.value).value)
         && isGlobal(Ipv4.Parse(ipv4Address.value).value))
    {
      if ipv4Address.None? then "unknown"
      else
        match Ipv4.Parse(ipv4Address.value)
        case None => "unknown"
        case Some(octets) =>
          if Ipv4.IsLoopback(octets) then "loopback"
          else if isPrivate(octets) then "private"
          else if isGlobal(octets) then "public"
          else "reserved"
    }
  }

  /** `TumultClient`: the user's nickname, the server it talks to, and the signals it has emitted. */
  class TumultClient {
    var nickname: Option<string>
    const server: ServerInfo
    var events: seq<Event>

    /** The connection to the server has sent exactly the frames written to the client's socket. */
    ghost predicate Valid()
      reads server, server.socket`written, server.socket.raw`sent
    {
      server.socket.Synced()
    }

    /** A client with no nickname, a `ServerInfo()` over the default socket, and nothing emitted. */
    constructor (defaultSocket: Protocol.TumultSocket)
      requires defaultSocket.Synced()
      ensures nickname == None && events == [] && fresh(server)
      ensures server.ipv4Address == None && server.port == None && server.socket == defaultSocket
      ensures Valid()
    {
      nickname := None;
      server := new ServerInfo(defaultSocket);
      events := [];
    }

    /** `send_nickname`: one NICKNAME frame carrying the client's nickname, None included. */
    method SendNickname()
      requires Valid()
      modifies server.socket`written, server.socket.raw`sent
      ensures Valid()
      ensures server.socket.written == old(server.socket.written) + [Protocol.NicknameRequest(nickname)]
      ensures server.socket.raw.sent == old(server.socket.raw.sent) + Protocol.FramesBytes([Protocol.NicknameRequest(nickname)])
      ensures server.socket.raw.unread == old(server.socket.raw.unread) && server.socket.raw.closed == old(server.socket.raw.closed)
    {
      var request := Protocol.NicknameRequest(nickname);
      server.socket.StaysSynced(server.socket.raw.sent, server.socket.written, [request]);
      Protocol.FramesOne(request);
      server.socket.WriteNickname(nickname);
      assert Protocol.RequestBytes(request) + [] == Protocol.RequestBytes(request);
    }

    /** `send_message`: one MESSAGE frame with the client's current nickname and the text. */
    method SendMessage(message: string)
      requires Valid()
      modifies server.socket`written, server.socket.raw`sent
      ensures Valid()
      ensures server.socket.written == old(server.socket.written) + [Protocol.MessageRequest(nickname, message)]
      ensures server.socket.raw.sent == old(server.socket.raw.sent) + Protocol.FramesBytes([Protocol.MessageRequest(nickname, message)])
      ensures server.socket.raw.unread == old(server.socket.raw.unread) && server.socket.raw.closed == old(server.socket.raw.closed)
    {
      var request := Protocol.MessageRequest(nickname, message);
      server.socket.StaysSynced(server.socket.raw.sent, server.socket.written, [request]);
      Protocol.FramesOne(request);
      server.socket.WriteMessage(nickname, message);
      assert Protocol.RequestBytes(request) + [] == Protocol.RequestBytes(request);
    }

    /**
     * `connect`: True once the socket is connected (the request loop then
     * runs on its own thread, `HandleServerRequests`); False, after one
     * `disconnected` event, on a caught connection error. None stands for
     * an exception that leaves `connect`: an address or port that is not
     * set, which `socket.connect` rejects before any attempt, or an OSError
     * that is not a connection error.
     */
    method Connect(outcome: ConnectOutcome) returns (connected: Option<bool>)
      modifies this
      ensures connected == Some(true) <==> server.ipv4Address.Some? && server.port.Some? && outcome == Connected
      ensures connected == Some(false) <==> server.ipv4Address.Some? && server.port.Some? && outcome == ConnectionFailed
      ensures events == old(events) + (if connected == Some(false) then [Disconnected] else [])
      ensures nickname == old(nickname)
    {
      if server.ipv4Address.None? || server.port.None? || outcome == OtherFailure {
        return None;
      }
      if outcome == Connected {
        return Some(true);
      }
      events := events + [Disconnected];
      connected := Some(false);
    }

    /**
     * `_handle_server_requests`: reads requests until one raises, answering
     * nickname requests and emitting one event per other request, and does
     * what `Listen` says of the unread stream: `disconnected` is emitted
     * after the loop only when a ConnectionError ended it.
     */
    method HandleServerRequests()
      requires Valid()
      modifies this, server.socket`written, server.socket.raw`sent, server.socket.raw`unread
      ensures Valid()
      ensures var l := Listen(old(server.socket.raw.unread), nickname);
        && events == old(events) + l.events
        && server.socket.written == old(server.socket.written) + l.replies
        && server.socket.raw.sent == old(server.socket.raw.sent) + Protocol.FramesBytes(l.replies)
        && server.socket.raw.unread == l.rest
      ensures nickname == old(nickname) && server.socket.raw.closed == old(server.socket.raw.closed)
    {
      var ending := RequestLoop();
      if ending == ConnectionEnded {
        events := events + [Disconnected];
      } else {
        assert events + [] == events;
      }
    }

    /**
     * The `while` loop of `_handle_server_requests`: the events and replies
     * of `Listen`, but for the `disconnected` emitted after the loop, and
     * the way the loop ended.
     */
    method RequestLoop() returns (ending: Ending)
      requires Valid()
      modifies this, server.socket`written, server.socket.raw`sent, server.socket.raw`unread
      ensures Valid()
      ensures var l := Listen(old(server.socket.raw.unread), nickname);
        && ending == l.ending
        && events + (if ending == ConnectionEnded then [Disconnected] else []) == old(events) + l.events
        && server.socket.written == old(server.socket.written) + l.replies
        && server.socket.raw.sent == old(server.socket.raw.sent) + Protocol.FramesBytes(l.replies)
        && server.socket.raw.unread == l.rest
      ensures nickname == old(nickname) && server.socket.raw.closed == old(server.socket.raw.closed)
    {
      var socket := server.socket;
      ghost var whole := Listen(socket.raw.unread, nickname);
      ghost var seen: seq<Event> := [];
      ghost var replied: seq<Protocol.Request> := [];
      while true
        invariant server.socket == socket && nickname == old(nickname)
        invariant var now := Listen(socket.raw.unread, nickname);
          && whole.events == seen + now.events && whole.replies == replied + now.replies
          && whole.ending == now.ending && whole.rest == now.rest
        invariant events == old(events) + seen
        invariant socket.written == old(socket.written) + replied
        invariant socket.raw.closed == old(socket.raw.closed) && Valid()
        decreases |socket.raw.unread|
      {
        var step := HandleRequest();
        if step.Halt? {
          ending := step.ending;
          break;
        }
        ghost var now := Listen(socket.raw.unread, nickname);
        Server.ConcatAssoc(seen, step.events, now.events);
        Server.ConcatAssoc(replied, step.replies, now.replies);
        Server.ConcatAssoc(old(events), seen, step.events);
        Server.ConcatAssoc(old(socket.written), replied, step.replies);
        seen := seen + step.events;
        replied := replied + step.replies;
      }
      assert replied + [] == replied;
      Server.ConcatAssoc(old(events), seen, if ending == ConnectionEnded then [Disconnected] else []);
      Protocol.SentFollowsWritten(socket.sentBefore, old(socket.raw.sent), old(socket.written), socket.raw.sent, replied);
    }

    /**
     * One pass of the loop of `_handle_server_requests`: one request read,
     * then the reply written or the event emitted that `React` says.
     */
    method HandleRequest() returns (step: Step)
      requires Valid()
      modifies this, server.socket`written, server.socket.raw`sent, server.socket.raw`unread
      ensures Valid()
      ensures server.socket.raw.unread == Protocol.NextRequest(old(server.socket.raw.unread)).1
      ensures step.Next? ==> |server.socket.raw.unread| < |old(server.socket.raw.unread)|
      ensures nickname == old(nickname) && server.socket == old(server.socket)
      ensures server.socket.raw.closed == old(server.socket.raw.closed)
      ensures step.Next? ==>
        events == old(events) + step.events && server.socket.written == old(server.socket.written) + step.replies
      ensures step.Halt? ==> events == old(events) && server.socket.written == old(server.socket.written)
      ensures step.Halt? ==>
        Listen(old(server.socket.raw.unread), nickname)
          == Listening(if step.ending == ConnectionEnded then [Disconnected] else [], [], step.ending, server.socket.raw.unread)
      ensures step.Next? ==> var later := Listen(server.socket.raw.unread, nickname);
        Listen(old(server.socket.raw.unread), nickname)
          == Listening(step.events + later.events, step.replies + later.replies, later.ending, later.rest)
    {
      ghost var before := server.socket.raw.unread;
      var request := server.socket.ReadRequest();
      step := React(request, nickname);
      if step.Halt? {
        ListenHalt(before, nickname);
        return;
      }
      ListenNext(before, nickname);
      match request.request.header.requestType
      case Nickname =>
        SendNickname();
        assert events + [] == events;
      case Message =>
        var message := Decode(request.request.contents).value;
        events := events + [MessageReceived(request.request.header.nickname, message)];
        assert server.socket.written + [] == server.socket.written;
      case JoinMessage =>
        events := events + [JoinMessageReceived(request.request.header.nickname)];
        assert server.socket.written + [] == server.socket.written;
      case LeaveMessage =>
        events := events + [LeaveMessageReceived(request.request.header.nickname)];
        assert server.socket.written + [] == server.socket.written;
    }

    /**
     * `leave_server`: the address and port cleared, the socket closed and
     * replaced by a new one. The state it leaves does not depend on the
     * state before, so leaving again leaves the same address and port.
     */
    method LeaveServer()
      modifies server, server.socket.raw`closed
      ensures Valid()
      ensures server.ipv4Address == None && server.port == None
      ensures old(server.socket).raw.closed
      ensures fresh(server.socket) && fresh(server.socket.raw)
      ensures server.socket.written == [] && server.socket.raw.sent == [] && server.socket.raw.unread == [] && !server.socket.raw.closed
      ensures nickname == old(nickname) && events == old(events)
    {
      server.ipv4Address := None;
      server.port := None;
      server.socket.Close();
      server.socket := new Protocol.TumultSocket.Fresh();
    }
  }
}
