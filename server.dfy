/**
 * The Tumult server: a registry of connected clients in connection order,
 * an append-only message history, and one handler per client that replays
 * the history, negotiates a nickname, then serves the client's requests
 * until the connection ends. One handler is modelled at a time; each
 * client's socket is a `Protocol.TumultSocket` whose sent bytes are what
 * that client receives.
 */
module Server {
  import opened Options
  import opened Utf8
  import opened PyText
  import Transport
  import Protocol

  /** `ClientInfo`: where a client connected from, its socket, and its nickname. */
  class ClientInfo {
    const ipv4Address: string
    const port: int
    const socket: Protocol.TumultSocket
    var nickname: Option<string>

    constructor (ipv4Address: string, port: int, socket: Protocol.TumultSocket)
      ensures this.ipv4Address == ipv4Address && this.port == port && this.socket == socket
      ensures nickname == None
    {
      this.ipv4Address := ipv4Address;
      this.port := port;
      this.socket := socket;
      nickname := None;
    }
  }

  /** `Message`: one history entry. */
  datatype Message = Message(nickname: Option<string>, contents: string, messageType: Protocol.RequestType)

  function ChatEntry(nickname: Option<string>, contents: string): Message {
    Message(nickname, contents, Protocol.Message)
  }

  function JoinEntry(nickname: Option<string>): Message {
    Message(nickname, "joined", Protocol.JoinMessage)
  }

  function LeaveEntry(nickname: Option<string>): Message {
    Message(nickname, "left", Protocol.LeaveMessage)
  }

  /** The frame an entry of a sendable kind goes out as, to live clients and in the replay alike. */
  function EntryRequest(m: Message): (r: Protocol.Request)
    requires m.messageType != Protocol.Nickname
    ensures Protocol.WellFormed(r) && r.header.requestType == m.messageType && r.header.nickname == m.nickname
    ensures m.messageType == Protocol.Message ==> Decode(r.contents) == Some(m.contents)
  {
    match m.messageType
    case Message => Protocol.MessageRequest(m.nickname, m.contents)
    case JoinMessage => Protocol.JoinRequest(m.nickname)
    case LeaveMessage => Protocol.LeaveRequest(m.nickname)
  }

  /** The frames the replay writes for one entry: none for a NICKNAME entry, which its `match` has no case for. */
  function EntryFrames(m: Message): seq<Protocol.Request> {
    if m.messageType == Protocol.Nickname then [] else [EntryRequest(m)]
  }

  /** What `f` gives for each element, one after another. */
  function ConcatMap<T, U>(f: T -> seq<U>, xs: seq<T>): seq<U> {
    if xs == [] then [] else f(xs[0]) + ConcatMap(f, xs[1..])
  }

  lemma {:induction false} ConcatMapSnoc<T, U>(f: T -> seq<U>, xs: seq<T>, x: T)
    ensures ConcatMap(f, xs + [x]) == ConcatMap(f, xs) + f(x)
  {
    if xs == [] {
      assert [] + [x] == [x];
    } else {
      assert (xs + [x])[1..] == xs[1..] + [x];
      ConcatMapSnoc(f, xs[1..], x);
    }
  }

  lemma {:induction false} ConcatMapConcat<T, U>(f: T -> seq<U>, xs: seq<T>, ys: seq<T>)
    ensures ConcatMap(f, xs + ys) == ConcatMap(f, xs) + ConcatMap(f, ys)
  {
    if xs == [] {
      assert xs + ys == ys;
    } else {
      assert (xs + ys)[1..] == xs[1..] + ys;
      ConcatMapConcat(f, xs[1..], ys);
    }
  }

  lemma ConcatEmpty<T>(a: seq<T>)
    ensures a + [] == a
  {
  }

  lemma ConcatAssoc<T>(a: seq<T>, b: seq<T>, c: seq<T>)
    ensures a + (b + c) == (a + b) + c
  {
  }

  /** The frames `send_message_history` writes for a run of entries, in order. */
  function ReplayFrames(h: seq<Message>): seq<Protocol.Request> {
    ConcatMap(EntryFrames, h)
  }

  /** Replaying one more entry writes that entry's frames after the earlier ones. */
  lemma ReplayFramesSnoc(h: seq<Message>, m: Message)
    ensures ReplayFrames(h + [m]) == ReplayFrames(h) + EntryFrames(m)
  {
    ConcatMapSnoc(EntryFrames, h, m);
  }

  /** The bytes of a replay grow by the bytes of the entry appended. */
  lemma ReplayBytesSnoc(h: seq<Message>, m: Message)
    ensures ReplayFrames(h + [m]) == ReplayFrames(h) + EntryFrames(m)
    ensures Protocol.FramesBytes(ReplayFrames(h + [m])) == Protocol.FramesBytes(ReplayFrames(h)) + Protocol.FramesBytes(EntryFrames(m))
  {
    ReplayFramesSnoc(h, m);
    Protocol.FramesBytesConcat(ReplayFrames(h), EntryFrames(m));
  }

  /** What has been replayed of a prefix, followed by the next entry's frames, is the replay of the longer prefix. */
  lemma ReplayPrefixStep(h: seq<Message>, i: nat, sent0: seq<byte>, written0: seq<Protocol.Request>)
    requires i < |h|
    ensures written0 + ReplayFrames(h[..i]) + EntryFrames(h[i]) == written0 + ReplayFrames(h[..i + 1])
    ensures sent0 + Protocol.FramesBytes(ReplayFrames(h[..i])) + Protocol.FramesBytes(EntryFrames(h[i]))
      == sent0 + Protocol.FramesBytes(ReplayFrames(h[..i + 1]))
  {
    assert h[..i + 1] == h[..i] + [h[i]];
    ReplayBytesSnoc(h[..i], h[i]);
    ConcatAssoc(written0, ReplayFrames(h[..i]), EntryFrames(h[i]));
    ConcatAssoc(sent0, Protocol.FramesBytes(ReplayFrames(h[..i])), Protocol.FramesBytes(EntryFrames(h[i])));
  }

  /** A single entry of a sendable kind replays as its one frame. */
  lemma ReplayFramesOne(m: Message)
    requires m.messageType != Protocol.Nickname
    ensures ReplayFrames([m]) == [EntryRequest(m)]
  {
    ReplayFramesSnoc([], m);
    assert [] + [m] == [m];
  }

  /** The replay of a history starts with the frame of its first entry. */
  lemma ReplayFramesCons(h: seq<Message>)
    requires h != [] && h[0].messageType != Protocol.Nickname
    ensures ReplayFrames(h) == [EntryRequest(h[0])] + ReplayFrames(h[1..])
  {
    assert h == [h[0]] + h[1..];
    ReplayFramesOne(h[0]);
    ReplayFramesConcat([h[0]], h[1..]);
  }

  /** The replay of two runs of entries is the replay of the first, then of the second. */
  lemma ReplayFramesConcat(a: seq<Message>, b: seq<Message>)
    ensures ReplayFrames(a + b) == ReplayFrames(a) + ReplayFrames(b)
  {
    ConcatMapConcat(EntryFrames, a, b);
  }

  predicate NoNicknameEntries(h: seq<Message>) {
    forall k :: 0 <= k < |h| ==> h[k].messageType != Protocol.Nickname
  }

  /** A history of sendable entries replays as one frame per entry, each with the entry's kind and nickname. */
  lemma {:induction false} ReplayFramesEntries(h: seq<Message>)
    requires NoNicknameEntries(h)
    ensures |ReplayFrames(h)| == |h|
    ensures forall k :: 0 <= k < |h| ==> ReplayFrames(h)[k] == EntryRequest(h[k])
  {
    if h != [] {
      assert NoNicknameEntries(h[1..]) by {
        forall k | 0 <= k < |h[1..]| ensures h[1..][k].messageType != Protocol.Nickname {
          assert h[1..][k] == h[k + 1];
        }
      }
      ReplayFramesEntries(h[1..]);
      assert ReplayFrames(h) == [EntryRequest(h[0])] + ReplayFrames(h[1..]);
    }
  }

  /**
   * A client reading the replay of a history reads its first entry's frame
   * and is left with the replay of the rest: the history arrives entry by
   * entry, in order, with each entry's kind and nickname.
   */
  lemma ReplayReadBack(h: seq<Message>, rest: seq<byte>)
    requires h != [] && NoNicknameEntries(h)
    ensures var replay := Protocol.FramesBytes(ReplayFrames(h)) + rest;
      Protocol.NextRequest(replay) == (Protocol.Received(EntryRequest(h[0])), Protocol.FramesBytes(ReplayFrames(h[1..])) + rest)
  {
    var r := EntryRequest(h[0]);
    var frames := ReplayFrames(h);
    assert frames == [r] + ReplayFrames(h[1..]);
    assert frames[1..] == ReplayFrames(h[1..]);
    Protocol.FramesCons(frames, rest);
    Protocol.ReadWritten(r, Protocol.FramesBytes(frames[1..]) + rest);
  }

  /** `_generate_nickname`: "User" and the decimal of the registry position plus one. */
  function DefaultNickname(index: nat): string {
    "User" + NatToString(index + 1)
  }

  /** The first client gets "User1", and clients at different positions get different defaults. */
  lemma DefaultNicknames(i: nat, j: nat)
    ensures DefaultNickname(0) == "User1"
    ensures DefaultNickname(i) == DefaultNickname(j) ==> i == j
  {
    assert NatToString(1) == "1";
    if DefaultNickname(i) == DefaultNickname(j) {
      assert NatToString(i + 1) == DefaultNickname(i)[4..];
      assert NatToString(j + 1) == DefaultNickname(j)[4..];
      NatToStringDigits(i + 1);
      NatToStringDigits(j + 1);
    }
  }

  /** The nickname `_wait_for_nickname` settles on: the reply's, unless it is None. */
  function ResolvedNickname(reply: Option<string>, index: nat): (r: Option<string>)
    ensures r.Some?
    ensures reply.Some? ==> r == reply
    ensures reply.None? ==> r == Some(DefaultNickname(index))
  {
    if reply.None? then Some(DefaultNickname(index)) else reply
  }

  /**
   * How a handler's request loop ends: the connection closed (a
   * ConnectionError, caught), or an exception the handler does not catch
   * (a header that does not decode, a MESSAGE payload that is not UTF-8).
   */
  datatype Exit = ConnectionLost | BadHeader | BadPayload

  /** What serving a stream of requests does: the entries it broadcasts, the nickname it ends with, how it ends, what is left unread. */
  datatype Session = Session(said: seq<Message>, nickname: Option<string>, exit: Exit, rest: seq<byte>)

  /** What one pass of the request loop does with what it read: stop, or go on with the entries it broadcast and the nickname it keeps. */
  datatype Turn = Stop(exit: Exit) | Go(said: seq<Message>, nickname: Option<string>)

  /**
   * One pass of the request loop of `_handle_client_requests` over one read:
   * a NICKNAME request renames the client, a MESSAGE is broadcast under the
   * current nickname, JOIN and LEAVE requests are dropped. A failed read
   * stops the loop (the ConnectionError it catches, or the header error it
   * does not), and so does a MESSAGE payload that is not UTF-8.
   */
  function Handle(r: Protocol.ReadResult, nickname: Option<string>): (t: Turn)
    ensures t.Stop? <==> r.Failed? || (r.request.header.requestType == Protocol.Message && Decode(r.request.contents).None?)
    ensures t.Stop? ==> (t.exit == ConnectionLost <==> r == Protocol.Failed(Protocol.ConnectionClosed))
    ensures t.Go? ==> AllChat(t.said) && |t.said| <= 1
    ensures t.Go? ==> (t.said != [] <==> r.request.header.requestType == Protocol.Message)
    ensures t.Go? && t.said != [] ==>
      t.said == [ChatEntry(nickname, Decode(r.request.contents).value)] && t.nickname == nickname
    ensures t.Go? && t.said == [] ==>
      t.nickname == (if r.request.header.requestType == Protocol.Nickname then r.request.header.nickname else nickname)
  {
    match r
    case Failed(e) => Stop(if e == Protocol.ConnectionClosed then ConnectionLost else BadHeader)
    case Received(req) =>
      match req.header.requestType
      case Nickname => Go([], req.header.nickname)
      case Message =>
        (match Decode(req.contents)
         case None => Stop(BadPayload)
         case Some(text) => Go([ChatEntry(nickname, text)], nickname))
      case _ => Go([], nickname)
  }

  /** The request loop of `_handle_client_requests` on the unread stream `s`, starting from `nickname`. */
  function Serve(s: seq<byte>, nickname: Option<string>): Session
    decreases |s|
  {
    var (r, rest) := Protocol.NextRequest(s);
    match Handle(r, nickname)
    case Stop(exit) => Session([], nickname, exit, rest)
    case Go(said, next) =>
      var later := Serve(rest, next);
      later.(said := said + later.said)
  }

  /** One pass of the loop that goes on: its entries, then whatever the rest of the stream gives under the nickname it keeps. */
  lemma ServeGo(s: seq<byte>, nickname: Option<string>)
    requires Handle(Protocol.NextRequest(s).0, nickname).Go?
    ensures var t := Handle(Protocol.NextRequest(s).0, nickname);
      var later := Serve(Protocol.NextRequest(s).1, t.nickname);
      Serve(s, nickname) == later.(said := t.said + later.said)
  {
  }

  /** A pass of the loop that stops: nothing said, the nickname kept, what the read left unread. */
  lemma ServeStop(s: seq<byte>, nickname: Option<string>)
    requires Handle(Protocol.NextRequest(s).0, nickname).Stop?
    ensures Serve(s, nickname) == Session([], nickname, Handle(Protocol.NextRequest(s).0, nickname).exit, Protocol.NextRequest(s).1)
  {
  }

  /** A well-formed frame the loop goes on after: its entries, then whatever follows it gives. */
  lemma ServeFrame(r: Protocol.Request, rest: seq<byte>, nickname: Option<string>)
    requires Protocol.WellFormed(r) && Handle(Protocol.Received(r), nickname).Go?
    ensures var t := Handle(Protocol.Received(r), nickname);
      var later := Serve(rest, t.nickname);
      Serve(Protocol.RequestBytes(r) + rest, nickname) == later.(said := t.said + later.said)
  {
    Protocol.ReadWritten(r, rest);
    ServeGo(Protocol.RequestBytes(r) + rest, nickname);
  }

  /** At the end of the stream the loop stops with a ConnectionError, having said nothing. */
  lemma ServeToEnd(nickname: Option<string>)
    ensures Serve([], nickname) == Session([], nickname, ConnectionLost, [])
  {
    assert Protocol.HeaderEnd([]).None?;
    ServeStop([], nickname);
  }

  predicate AllChat(said: seq<Message>) {
    forall k :: 0 <= k < |said| ==> said[k].messageType == Protocol.Message
  }

  lemma AllChatConcat(a: seq<Message>, b: seq<Message>)
    requires AllChat(a) && AllChat(b)
    ensures AllChat(a + b)
  {
  }

  /** Every entry the loop adds is a MESSAGE: NICKNAME requests add none. */
  lemma {:induction false} ServeSaysMessages(s: seq<byte>, nickname: Option<string>)
    ensures AllChat(Serve(s, nickname).said)
    decreases |s|
  {
    var (r, rest) := Protocol.NextRequest(s);
    var t := Handle(r, nickname);
    if t.Go? {
      ServeSaysMessages(rest, t.nickname);
      AllChatConcat(t.said, Serve(rest, t.nickname).said);
    }
  }

  /** The loop serving the requests a client wrote, in order, ending when the client closes. */
  lemma {:induction false} ServeWritten(rs: seq<Protocol.Request>, nickname: Option<string>)
    requires forall k :: 0 <= k < |rs| ==> Protocol.WellFormed(rs[k]) && rs[k].header.requestType == Protocol.Nickname
    ensures Serve(Protocol.FramesBytes(rs), nickname)
      == Session([], if rs == [] then nickname else rs[|rs| - 1].header.nickname, ConnectionLost, [])
  {
    if rs == [] {
      ServeToEnd(nickname);
    } else {
      var later := rs[1..];
      assert Protocol.FramesBytes(rs) == Protocol.RequestBytes(rs[0]) + Protocol.FramesBytes(later);
      forall k | 0 <= k < |later|
        ensures Protocol.WellFormed(later[k]) && later[k].header.requestType == Protocol.Nickname
      {
        assert later[k] == rs[k + 1];
      }
      assert Handle(Protocol.Received(rs[0]), nickname) == Go([], rs[0].header.nickname);
      ServeFrame(rs[0], Protocol.FramesBytes(later), nickname);
      ServeWritten(later, rs[0].header.nickname);
    }
  }

  /** The entries the loop broadcasts for the messages of `messages`, each under `nickname`. */
  function ChatEntries(nickname: Option<string>, messages: seq<string>): (r: seq<Message>)
    ensures |r| == |messages| && AllChat(r)
    ensures forall k :: 0 <= k < |messages| ==> r[k] == ChatEntry(nickname, messages[k])
  {
    if messages == [] then [] else [ChatEntry(nickname, messages[0])] + ChatEntries(nickname, messages[1..])
  }

  /** The frames `write_message` sends for each of `messages`, in order, all under `nickname`. */
  function MessageFrames(nickname: Option<string>, messages: seq<string>): (r: seq<Protocol.Request>)
    ensures |r| == |messages|
    ensures forall k :: 0 <= k < |messages| ==> r[k] == Protocol.MessageRequest(nickname, messages[k])
  {
    if messages == [] then [] else [Protocol.MessageRequest(nickname, messages[0])] + MessageFrames(nickname, messages[1..])
  }

  /**
   * A client that sends MESSAGE frames and then closes its side has every
   * message broadcast, in order, under the nickname the server holds for
   * it, whatever nickname the frames carry, and the loop ends with the
   * ConnectionError that leads to a disconnect.
   */
  lemma {:induction false} ServeMessages(sender: Option<string>, messages: seq<string>, nickname: Option<string>)
    ensures Serve(Protocol.FramesBytes(MessageFrames(sender, messages)), nickname)
      == Session(ChatEntries(nickname, messages), nickname, ConnectionLost, [])
  {
    var frames := MessageFrames(sender, messages);
    if messages == [] {
      assert Protocol.HeaderEnd([]).None?;
    } else {
      var r := Protocol.MessageRequest(sender, messages[0]);
      var later := Protocol.FramesBytes(MessageFrames(sender, messages[1..]));
      assert frames[1..] == MessageFrames(sender, messages[1..]);
      Protocol.FramesCons(frames, []);
      assert Protocol.FramesBytes(frames) + [] == Protocol.FramesBytes(frames);
      assert later + [] == later;
      Protocol.ReadWritten(r, later);
      ServeMessages(sender, messages[1..], nickname);
    }
  }

  /**
   * `_handle_client_requests` for a client registered at position `index`
   * with the unread stream `s`: the entries broadcast while the client is
   * registered (`joined`), the LEAVE broadcast after it is removed
   * (`left`), whether it is disconnected, its last nickname, and what stays
   * unread. A failed wait for the nickname ends the handler at once, with
   * no JOIN, no LEAVE and the client still registered, since that wait is
   * outside the `try`; so does every loop exit other than a ConnectionError.
   */
  datatype Handling = Handling(joined: seq<Message>, left: seq<Message>, disconnected: bool, nickname: Option<string>, rest: seq<byte>)

  function Handled(s: seq<byte>, index: nat, nickname: Option<string>): Handling {
    match Protocol.WaitFor(s, Protocol.Nickname)
    case (Failed(_), rest) => Handling([], [], false, nickname, rest)
    case (Received(reply), rest) =>
      var n := ResolvedNickname(reply.header.nickname, index);
      var session := Serve(rest, n);
      var lost := session.exit == ConnectionLost;
      Handling([JoinEntry(n)] + session.said, if lost then [LeaveEntry(session.nickname)] else [], lost, session.nickname, session.rest)
  }

  /**
   * What a handler adds to the history: nothing when the nickname never
   * comes, otherwise one JOIN under a nickname that is never None, then
   * only MESSAGE entries, then one LEAVE exactly when the client is
   * disconnected, under its last nickname.
   */
  lemma HandledShape(s: seq<byte>, index: nat, nickname: Option<string>)
    ensures var h := Handled(s, index, nickname);
      && (h.joined == [] <==> Protocol.WaitFor(s, Protocol.Nickname).0.Failed?)
      && (h.joined != [] ==> h.joined[0].messageType == Protocol.JoinMessage && h.joined[0].nickname.Some? && AllChat(h.joined[1..]))
      && (h.left != [] <==> h.disconnected)
      && (h.disconnected ==> h.joined != [] && h.left == [LeaveEntry(h.nickname)])
  {
    var (reply, rest) := Protocol.WaitFor(s, Protocol.Nickname);
    if reply.Received? {
      var n := ResolvedNickname(reply.request.header.nickname, index);
      ServeSaysMessages(rest, n);
      var h := Handled(s, index, nickname);
      assert h.joined[1..] == Serve(rest, n).said;
    }
  }

  /**
   * A client that answers the nickname request with `name`, sends
   * `messages` and closes: one JOIN, its messages under `name`, one LEAVE,
   * and the client is disconnected with nothing left unread.
   */
  lemma WellBehavedClient(name: string, messages: seq<string>, index: nat, nickname: Option<string>)
    ensures var s := Protocol.FramesBytes([Protocol.NicknameRequest(Some(name))] + MessageFrames(Some(name), messages));
      Handled(s, index, nickname)
        == Handling([JoinEntry(Some(name))] + ChatEntries(Some(name), messages), [LeaveEntry(Some(name))], true, Some(name), [])
  {
    var frames := [Protocol.NicknameRequest(Some(name))] + MessageFrames(Some(name), messages);
    var later := Protocol.FramesBytes(MessageFrames(Some(name), messages));
    assert frames[1..] == MessageFrames(Some(name), messages);
    Protocol.FramesCons(frames, []);
    assert Protocol.FramesBytes(frames) + [] == Protocol.FramesBytes(frames);
    assert later + [] == later;
    Protocol.WaitForTakesFrame(Protocol.NicknameRequest(Some(name)), later);
    ServeMessages(Some(name), messages, Some(name));
  }

  /** The frames a handler's broadcasts send, split the way the registry changes between them. */
  lemma ReplayHandled(n: Option<string>, said: seq<Message>, left: seq<Message>)
    ensures ReplayFrames([JoinEntry(n)] + said) == [Protocol.JoinRequest(n)] + ReplayFrames(said)
    ensures ReplayFrames([JoinEntry(n)] + said + left) == ReplayFrames([JoinEntry(n)] + said) + ReplayFrames(left)
  {
    ReplayFramesConcat([JoinEntry(n)], said);
    ReplayFramesConcat([JoinEntry(n)] + said, left);
    ReplayFramesOne(JoinEntry(n));
  }

  /** The connections under a sequence of clients. */
  function RawsOf(cs: seq<ClientInfo>): set<Transport.Connection> {
    set c | c in cs :: c.socket.raw
  }

  /** The sockets of a sequence of clients, as a set. */
  function SocketSet(cs: seq<ClientInfo>): set<Protocol.TumultSocket> {
    set c | c in cs :: c.socket
  }

  /** No two registered clients share a socket, so no two are the same client. */
  predicate DistinctSockets(cs: seq<ClientInfo>) {
    forall i, j :: 0 <= i < j < |cs| ==> cs[i].socket.raw != cs[j].socket.raw
  }

  /** Every client's connection has sent exactly the frames written to its socket. */
  ghost predicate AllSynced(cs: seq<ClientInfo>)
    reads SocketSet(cs)`written, RawsOf(cs)`sent
  {
    forall i :: 0 <= i < |cs| ==> cs[i].socket.Synced()
  }

  /** `list.index`: the first position holding the client. */
  function IndexOf(cs: seq<ClientInfo>, c: ClientInfo): (k: nat)
    requires c in cs
    ensures k < |cs| && cs[k] == c
    ensures forall j :: 0 <= j < k ==> cs[j] != c
  {
    if cs[0] == c then 0 else 1 + IndexOf(cs[1..], c)
  }

  /** `client_sockets`: one socket per client, in registry order. */
  function SocketsOf(cs: seq<ClientInfo>): (r: seq<Protocol.TumultSocket>)
    ensures |r| == |cs| && forall i :: 0 <= i < |cs| ==> r[i] == cs[i].socket
  {
    if cs == [] then [] else [cs[0].socket] + SocketsOf(cs[1..])
  }

  /** `client_nicknames`: one nickname per client, in registry order. */
  function NicknamesOf(cs: seq<ClientInfo>): (r: seq<Option<string>>)
    reads cs
    ensures |r| == |cs| && forall i :: 0 <= i < |cs| ==> r[i] == cs[i].nickname
  {
    if cs == [] then [] else [cs[0].nickname] + NicknamesOf(cs[1..])
  }

  /** `client_ipv4_addresses`: one address per client, in registry order. */
  function AddressesOf(cs: seq<ClientInfo>): (r: seq<string>)
    ensures |r| == |cs| && forall i :: 0 <= i < |cs| ==> r[i] == cs[i].ipv4Address
  {
    if cs == [] then [] else [cs[0].ipv4Address] + AddressesOf(cs[1..])
  }

  /** Writes one entry's frame to one socket, by kind, as the replay's `match` does. */
  method WriteEntry(socket: Protocol.TumultSocket, m: Message)
    modifies socket`written, socket.raw`sent
    ensures socket.written == old(socket.written) + EntryFrames(m)
    ensures socket.raw.sent == old(socket.raw.sent) + Protocol.FramesBytes(EntryFrames(m))
    ensures socket.raw.unread == old(socket.raw.unread) && socket.raw.closed == old(socket.raw.closed)
  {
    match m.messageType
    case Message =>
      socket.WriteMessage(m.nickname, m.contents);
      EntryFramesBytes(m);
    case JoinMessage =>
      socket.WriteJoinMessage(m.nickname);
      EntryFramesBytes(m);
    case LeaveMessage =>
      socket.WriteLeaveMessage(m.nickname);
      EntryFramesBytes(m);
    case Nickname =>
      assert socket.raw.sent + [] == socket.raw.sent;
  }

  /** The fan-out loop of the broadcasts: the entry's frame to every client, in registry order. */
  method SendToAll(cs: seq<ClientInfo>, m: Message)
    requires DistinctSockets(cs) && AllSynced(cs) && m.messageType != Protocol.Nickname
    modifies SocketSet(cs)`written, RawsOf(cs)`sent
    ensures AllSynced(cs)
    ensures forall i :: 0 <= i < |cs| ==> cs[i].socket.written == old(cs[i].socket.written) + [EntryRequest(m)]
    ensures forall i :: 0 <= i < |cs| ==> cs[i].socket.raw.sent == old(cs[i].socket.raw.sent) + Protocol.FramesBytes([EntryRequest(m)])
    ensures forall i :: 0 <= i < |cs| ==>
      cs[i].socket.raw.unread == old(cs[i].socket.raw.unread) && cs[i].socket.raw.closed == old(cs[i].socket.raw.closed)
  {
    ghost var frames := EntryFrames(m);
    ghost var bytes := Protocol.FramesBytes(frames);
    var i := 0;
    while i < |cs|
      invariant 0 <= i <= |cs|
      invariant forall j :: 0 <= j < |cs| ==>
        cs[j].socket.written == old(cs[j].socket.written) + (if j < i then frames else [])
        && cs[j].socket.raw.sent == old(cs[j].socket.raw.sent) + (if j < i then bytes else [])
        && cs[j].socket.raw.unread == old(cs[j].socket.raw.unread) && cs[j].socket.raw.closed == old(cs[j].socket.raw.closed)
    {
      WriteTo(cs, i, m);
      i := i + 1;
    }
    assert frames == [EntryRequest(m)];
    forall j | 0 <= j < |cs|
      ensures cs[j].socket.Synced()
    {
      assert old(cs[j].socket.Synced());
      cs[j].socket.StaysSynced(old(cs[j].socket.raw.sent), old(cs[j].socket.written), frames);
    }
  }

  /** One client of the fan-out written to; every other client's socket is left as it was. */
  method WriteTo(cs: seq<ClientInfo>, i: nat, m: Message)
    requires DistinctSockets(cs) && i < |cs|
    modifies cs[i].socket`written, cs[i].socket.raw`sent
    ensures forall j :: 0 <= j < |cs| ==>
      cs[j].socket.written == old(cs[j].socket.written) + (if j == i then EntryFrames(m) else [])
      && cs[j].socket.raw.sent == old(cs[j].socket.raw.sent) + (if j == i then Protocol.FramesBytes(EntryFrames(m)) else [])
      && cs[j].socket.raw.unread == old(cs[j].socket.raw.unread) && cs[j].socket.raw.closed == old(cs[j].socket.raw.closed)
  {
    WriteEntry(cs[i].socket, m);
    forall j | 0 <= j < |cs| && j != i
      ensures cs[j].socket.raw != cs[i].socket.raw
    {
      assert j < i || i < j;
    }
  }

  /** An entry of a sendable kind is sent as its one frame's bytes. */
  lemma EntryFramesBytes(m: Message)
    requires m.messageType != Protocol.Nickname
    ensures Protocol.FramesBytes(EntryFrames(m)) == Protocol.RequestBytes(EntryRequest(m))
  {
    Protocol.FramesOne(EntryRequest(m));
    assert Protocol.RequestBytes(EntryRequest(m)) + [] == Protocol.RequestBytes(EntryRequest(m));
  }

  lemma RemoveKeepsDistinct(cs: seq<ClientInfo>, k: nat)
    requires DistinctSockets(cs) && k < |cs|
    ensures DistinctSockets(cs[..k] + cs[k + 1..])
    ensures cs[k].socket.raw !in RawsOf(cs[..k] + cs[k + 1..])
  {
    var r := cs[..k] + cs[k + 1..];
    forall i | 0 <= i < |r|
      ensures r[i] == cs[if i < k then i else i + 1]
    {
    }
    forall c | c in r
      ensures c.socket.raw != cs[k].socket.raw
    {
      var i :| 0 <= i < |r| && r[i] == c;
    }
  }

  /** The client at the end of a sequence that holds it nowhere else is found there. */
  lemma IndexOfLast(cs: seq<ClientInfo>, c: ClientInfo)
    requires cs != [] && cs[|cs| - 1] == c && c !in cs[..|cs| - 1]
    ensures IndexOf(cs, c) == |cs| - 1
  {
    assert cs == cs[..|cs| - 1] + [c];
  }

  /** A client whose connection is in step joins a registry whose connections all are. */
  lemma AllSyncedSnoc(cs: seq<ClientInfo>, c: ClientInfo)
    requires AllSynced(cs) && c.socket.Synced()
    ensures AllSynced(cs + [c])
  {
    forall i | 0 <= i < |cs + [c]|
      ensures (cs + [c])[i].socket.Synced()
    {
      if i < |cs| {
        assert (cs + [c])[i] == cs[i];
      }
    }
  }

  lemma AppendKeepsDistinct(cs: seq<ClientInfo>, c: ClientInfo)
    requires DistinctSockets(cs) && c.socket.raw !in RawsOf(cs)
    ensures DistinctSockets(cs + [c])
    ensures c !in cs && IndexOf(cs + [c], c) == |cs|
  {
    forall i | 0 <= i < |cs|
      ensures cs[i].socket.raw != c.socket.raw
    {
      assert cs[i].socket.raw in RawsOf(cs);
    }
  }

  /** `TumultServer`: the registry of clients and the message history. */
  class TumultServer {
    const ipv4Address: string
    const port: int
    const socket: Protocol.TumultSocket
    var clients: seq<ClientInfo>
    var messageHistory: seq<Message>

    /**
     * No two registered clients share a socket, every client's connection
     * has sent exactly the frames written to it, and the history holds only
     * the three kinds the broadcasts append.
     */
    ghost predicate Valid()
      reads this, SocketSet(clients)`written, RawsOf(clients)`sent
    {
      DistinctSockets(clients) && AllSynced(clients) && NoNicknameEntries(messageHistory)
    }

    /** A server at the given address with no clients and no history; binding is not modelled. */
    constructor (ipv4Address: string, port: int)
      ensures this.ipv4Address == ipv4Address && this.port == port
      ensures clients == [] && messageHistory == [] && fresh(socket.raw)
      ensures Valid()
    {
      this.ipv4Address := ipv4Address;
      this.port := port;
      socket := new Protocol.TumultSocket.Fresh();
      clients := [];
      messageHistory := [];
    }

    function ClientSockets(): (r: seq<Protocol.TumultSocket>)
      reads this
      ensures |r| == |clients| && forall i :: 0 <= i < |clients| ==> r[i] == clients[i].socket
    {
      SocketsOf(clients)
    }

    function ClientNicknames(): (r: seq<Option<string>>)
      reads this, clients
      ensures |r| == |clients| && forall i :: 0 <= i < |clients| ==> r[i] == clients[i].nickname
    {
      NicknamesOf(clients)
    }

    function ClientIpv4Addresses(): (r: seq<string>)
      reads this
      ensures |r| == |clients| && forall i :: 0 <= i < |clients| ==> r[i] == clients[i].ipv4Address
    {
      AddressesOf(clients)
    }

    /** Appends one entry and writes its frame to every registered client. */
    method Broadcast(m: Message)
      requires Valid() && m.messageType != Protocol.Nickname
      modifies this, SocketSet(clients)`written, RawsOf(clients)`sent
      ensures Valid() && clients == old(clients)
      ensures messageHistory == old(messageHistory) + [m]
      ensures forall i :: 0 <= i < |clients| ==> clients[i].socket.written == old(clients[i].socket.written) + [EntryRequest(m)]
      ensures forall i :: 0 <= i < |clients| ==>
        clients[i].socket.raw.sent == old(clients[i].socket.raw.sent) + Protocol.FramesBytes([EntryRequest(m)])
      ensures forall i :: 0 <= i < |clients| ==>
        clients[i].socket.raw.unread == old(clients[i].socket.raw.unread) && clients[i].socket.raw.closed == old(clients[i].socket.raw.closed)
    {
      messageHistory := messageHistory + [m];
      SendToAll(clients, m);
    }

    /** `broadcast_message`: one MESSAGE entry appended and written to every client, the sender included. */
    method BroadcastMessage(nickname: Option<string>, contents: string)
      requires Valid()
      modifies this, SocketSet(clients)`written, RawsOf(clients)`sent
      ensures Valid() && clients == old(clients)
      ensures messageHistory == old(messageHistory) + [ChatEntry(nickname, contents)]
      ensures forall i :: 0 <= i < |clients| ==>
        clients[i].socket.written == old(clients[i].socket.written) + [Protocol.MessageRequest(nickname, contents)]
      ensures forall i :: 0 <= i < |clients| ==>
        clients[i].socket.raw.sent == old(clients[i].socket.raw.sent) + Protocol.FramesBytes([Protocol.MessageRequest(nickname, contents)])
      ensures forall i :: 0 <= i < |clients| ==>
        clients[i].socket.raw.unread == old(clients[i].socket.raw.unread) && clients[i].socket.raw.closed == old(clients[i].socket.raw.closed)
    {
      Broadcast(ChatEntry(nickname, contents));
    }

    /** `broadcast_join_message`: a "joined" entry appended and a JOIN frame written to every client. */
    method BroadcastJoinMessage(nickname: Option<string>)
      requires Valid()
      modifies this, SocketSet(clients)`written, RawsOf(clients)`sent
      ensures Valid() && clients == old(clients)
      ensures messageHistory == old(messageHistory) + [JoinEntry(nickname)]
      ensures forall i :: 0 <= i < |clients| ==>
        clients[i].socket.written == old(clients[i].socket.written) + [Protocol.JoinRequest(nickname)]
      ensures forall i :: 0 <= i < |clients| ==>
        clients[i].socket.raw.sent == old(clients[i].socket.raw.sent) + Protocol.FramesBytes([Protocol.JoinRequest(nickname)])
      ensures forall i :: 0 <= i < |clients| ==>
        clients[i].socket.raw.unread == old(clients[i].socket.raw.unread) && clients[i].socket.raw.closed == old(clients[i].socket.raw.closed)
    {
      Broadcast(JoinEntry(nickname));
    }

    /** `broadcast_leave_message`: a "left" entry appended and a LEAVE frame written to every client. */
    method BroadcastLeaveMessage(nickname: Option<string>)
      requires Valid()
      modifies this, SocketSet(clients)`written, RawsOf(clients)`sent
      ensures Valid() && clients == old(clients)
      ensures messageHistory == old(messageHistory) + [LeaveEntry(nickname)]
      ensures forall i :: 0 <= i < |clients| ==>
        clients[i].socket.written == old(clients[i].socket.written) + [Protocol.LeaveRequest(nickname)]
      ensures forall i :: 0 <= i < |clients| ==>
        clients[i].socket.raw.sent == old(clients[i].socket.raw.sent) + Protocol.FramesBytes([Protocol.LeaveRequest(nickname)])
      ensures forall i :: 0 <= i < |clients| ==>
        clients[i].socket.raw.unread == old(clients[i].socket.raw.unread) && clients[i].socket.raw.closed == old(clients[i].socket.raw.closed)
    {
      Broadcast(LeaveEntry(nickname));
    }

    /** `send_message_history`: every entry's frame, in history order, to the one client only. */
    method SendMessageHistory(client: ClientInfo)
      requires client.socket.Synced()
      modifies client.socket`written, client.socket.raw`sent
      ensures client.socket.Synced()
      ensures client.socket.written == old(client.socket.written) + ReplayFrames(messageHistory)
      ensures client.socket.raw.sent == old(client.socket.raw.sent) + Protocol.FramesBytes(ReplayFrames(messageHistory))
      ensures client.socket.raw.unread == old(client.socket.raw.unread) && client.socket.raw.closed == old(client.socket.raw.closed)
    {
      var clientSocket := client.socket;
      ghost var sent0, written0 := clientSocket.raw.sent, clientSocket.written;
      var i := 0;
      while i < |messageHistory|
        invariant 0 <= i <= |messageHistory|
        invariant clientSocket.written == written0 + ReplayFrames(messageHistory[..i])
        invariant clientSocket.raw.sent == sent0 + Protocol.FramesBytes(ReplayFrames(messageHistory[..i]))
      {
        ReplayOne(clientSocket, messageHistory, i, sent0, written0);
        i := i + 1;
      }
      assert messageHistory[..i] == messageHistory;
      clientSocket.StaysSynced(sent0, written0, ReplayFrames(messageHistory));
    }

    /** One step of the replay: entry `i` written after the frames of the entries before it. */
    static method ReplayOne(socket: Protocol.TumultSocket, h: seq<Message>, i: nat, ghost sent0: seq<byte>, ghost written0: seq<Protocol.Request>)
      requires i < |h|
      requires socket.written == written0 + ReplayFrames(h[..i])
      requires socket.raw.sent == sent0 + Protocol.FramesBytes(ReplayFrames(h[..i]))
      modifies socket`written, socket.raw`sent
      ensures socket.written == written0 + ReplayFrames(h[..i + 1])
      ensures socket.raw.sent == sent0 + Protocol.FramesBytes(ReplayFrames(h[..i + 1]))
    {
      WriteEntry(socket, h[i]);
      ReplayPrefixStep(h, i, sent0, written0);
    }

    /** `_request_nickname`: a NICKNAME frame carrying the client's current nickname. */
    static method RequestNickname(client: ClientInfo)
      requires client.socket.Synced()
      modifies client.socket`written, client.socket.raw`sent
      ensures client.socket.Synced()
      ensures client.socket.written == old(client.socket.written) + [Protocol.NicknameRequest(client.nickname)]
      ensures client.socket.raw.sent == old(client.socket.raw.sent) + Protocol.FramesBytes([Protocol.NicknameRequest(client.nickname)])
      ensures client.socket.raw.unread == old(client.socket.raw.unread) && client.socket.raw.closed == old(client.socket.raw.closed)
    {
      var request := Protocol.NicknameRequest(client.nickname);
      client.socket.StaysSynced(client.socket.raw.sent, client.socket.written, [request]);
      Protocol.FramesOne(request);
      client.socket.WriteNickname(client.nickname);
      assert Protocol.RequestBytes(request) + [] == Protocol.RequestBytes(request);
    }

    /** `_generate_nickname`: the default name for the client's registry position. */
    method GenerateNickname(client: ClientInfo)
      requires client in clients
      modifies client`nickname
      ensures client.nickname == Some(DefaultNickname(IndexOf(clients, client)))
    {
      client.nickname := Some("User" + NatToString(IndexOf(clients, client) + 1));
    }

    /**
     * `_wait_for_nickname`: the first NICKNAME reply, other requests dropped,
     * then the reply's nickname accepted. When the stream fails first the
     * exception (here the Failed result) leaves everything else as it was.
     */
    method WaitForNickname(client: ClientInfo) returns (reply: Protocol.ReadResult)
      requires Valid() && client in clients
      modifies this, client`nickname, client.socket.raw`unread, SocketSet(clients)`written, RawsOf(clients)`sent
      ensures Valid() && clients == old(clients)
      ensures forall i :: 0 <= i < |clients| ==>
        clients[i].socket.raw.closed == old(clients[i].socket.raw.closed)
        && (clients[i] != client ==> clients[i].socket.raw.unread == old(clients[i].socket.raw.unread))
      ensures reply == Protocol.WaitFor(old(client.socket.raw.unread), Protocol.Nickname).0
      ensures client.socket.raw.unread == Protocol.WaitFor(old(client.socket.raw.unread), Protocol.Nickname).1
      ensures reply.Failed? ==>
        messageHistory == old(messageHistory) && client.nickname == old(client.nickname)
        && forall i :: 0 <= i < |clients| ==> clients[i].socket.written == old(clients[i].socket.written)
      ensures reply.Received? ==>
        && client.nickname == ResolvedNickname(reply.request.header.nickname, IndexOf(clients, client))
        && messageHistory == old(messageHistory) + [JoinEntry(client.nickname)]
        && forall i :: 0 <= i < |clients| ==> clients[i].socket.written == old(clients[i].socket.written) + [Protocol.JoinRequest(client.nickname)]
    {
      ghost var k := IndexOf(clients, client);
      reply := WaitFrom(client);
      if reply.Received? {
        AcceptNickname(client, reply.request.header.nickname);
        assert clients[k] == client;
      }
    }

    /** `client.socket.wait_for_request(NICKNAME)`: only that client's stream moves. */
    method WaitFrom(client: ClientInfo) returns (reply: Protocol.ReadResult)
      requires Valid() && client in clients
      modifies client.socket.raw`unread
      ensures reply == Protocol.WaitFor(old(client.socket.raw.unread), Protocol.Nickname).0
      ensures client.socket.raw.unread == Protocol.WaitFor(old(client.socket.raw.unread), Protocol.Nickname).1
      ensures client.socket.raw.sent == old(client.socket.raw.sent) && client.socket.written == old(client.socket.written)
      ensures forall i :: 0 <= i < |clients| ==>
        clients[i].socket.raw.closed == old(clients[i].socket.raw.closed)
        && (clients[i] != client ==> clients[i].socket.raw.unread == old(clients[i].socket.raw.unread))
    {
      ghost var k := IndexOf(clients, client);
      reply := client.socket.WaitForRequest(Protocol.Nickname);
      forall i | 0 <= i < |clients| && clients[i] != client
        ensures clients[i].socket.raw.unread == old(clients[i].socket.raw.unread)
      {
        assert i < k || k < i;
      }
    }

    /** The reply's nickname adopted unless None (then the default), then one JOIN to every client. */
    method AcceptNickname(client: ClientInfo, reply: Option<string>)
      requires Valid() && client in clients
      modifies this, client`nickname, SocketSet(clients)`written, RawsOf(clients)`sent
      ensures Valid() && clients == old(clients)
      ensures client.nickname == ResolvedNickname(reply, IndexOf(clients, client))
      ensures messageHistory == old(messageHistory) + [JoinEntry(client.nickname)]
      ensures forall i :: 0 <= i < |clients| ==>
        clients[i].socket.written == old(clients[i].socket.written) + [Protocol.JoinRequest(client.nickname)]
      ensures forall i :: 0 <= i < |clients| ==>
        clients[i].socket.raw.unread == old(clients[i].socket.raw.unread) && clients[i].socket.raw.closed == old(clients[i].socket.raw.closed)
    {
      if reply.None? {
        GenerateNickname(client);
      } else {
        client.nickname := reply;
      }
      BroadcastJoinMessage(client.nickname);
    }

    /**
     * `_disconnect_client`: the client leaves the registry, its socket is
     * closed, then a LEAVE with its last nickname goes to the remaining
     * clients, so the leaver gets no LEAVE of its own.
     */
    method DisconnectClient(client: ClientInfo)
      requires Valid() && client in clients
      modifies this, client.socket.raw`closed, SocketSet(clients)`written, RawsOf(clients)`sent
      ensures Valid()
      ensures var k := IndexOf(old(clients), client); clients == old(clients)[..k] + old(clients)[k + 1..]
      ensures client !in clients
      ensures client.socket.raw.closed && client.socket.raw.unread == old(client.socket.raw.unread)
      ensures client.socket.written == old(client.socket.written) && client.socket.raw.sent == old(client.socket.raw.sent)
      ensures client.socket.Synced()
      ensures messageHistory == old(messageHistory) + [LeaveEntry(client.nickname)]
      ensures forall c :: c in clients ==> c.socket.written == old(c.socket.written) + [Protocol.LeaveRequest(client.nickname)]
      ensures forall c :: c in clients ==> c.socket.raw.unread == old(c.socket.raw.unread) && c.socket.raw.closed == old(c.socket.raw.closed)
    {
      var k := IndexOf(clients, client);
      RemoveKeepsDistinct(clients, k);
      clients := clients[..k] + clients[k + 1..];
      client.socket.Close();
      BroadcastLeaveMessage(client.nickname);
    }

    /**
     * `_handle_client_requests`: the client is registered, sent the
     * history and asked for its nickname; once the nickname is settled its
     * requests are served until a read or a decode raises, and only the
     * ConnectionError of an ended stream leads to `_disconnect_client`.
     * The handler does what `Handled` says of the client's unread stream.
     */
    method HandleClientRequests(client: ClientInfo)
      requires Valid() && client.socket.Synced() && client.socket.raw !in RawsOf(clients)
      modifies this, client, client.socket, client.socket.raw, SocketSet(clients), RawsOf(clients)
      ensures Valid() && client.socket.Synced()
      ensures forall i :: 0 <= i < |old(clients)| ==>
        old(clients)[i].socket.raw.unread == old(clients[i].socket.raw.unread)
        && old(clients)[i].socket.raw.closed == old(clients[i].socket.raw.closed)
      ensures var h := Handled(old(client.socket.raw.unread), |old(clients)|, old(client.nickname));
        && clients == (if h.disconnected then old(clients) else old(clients) + [client])
        && messageHistory == old(messageHistory) + h.joined + h.left
        && client.nickname == h.nickname && client.socket.raw.unread == h.rest
        && client.socket.raw.closed == (h.disconnected || old(client.socket.raw.closed))
        && client.socket.written == old(client.socket.written) + ReplayFrames(old(messageHistory))
          + [Protocol.NicknameRequest(old(client.nickname))] + ReplayFrames(h.joined)
        && forall i :: 0 <= i < |old(clients)| ==>
          old(clients)[i].socket.written == old(clients[i].socket.written) + ReplayFrames(h.joined + h.left)
    {
      ghost var h := Handled(client.socket.raw.unread, |clients|, client.nickname);
      var reply := Welcome(client);
      if reply.Failed? {
        assert ReplayFrames([]) == [];
        ConcatEmpty(messageHistory);
        ConcatEmpty(client.socket.written);
        forall i | 0 <= i < |old(clients)|
          ensures old(clients)[i].socket.written == old(clients[i].socket.written) + ReplayFrames(h.joined + h.left)
        {
          ConcatEmpty(old(clients[i].socket.written));
        }
        assert clients[|clients| - 1] == client;
        return;
      }
      ghost var n := client.nickname;
      ghost var session := Serve(client.socket.raw.unread, n);
      ghost var left := if session.exit == ConnectionLost then [LeaveEntry(session.nickname)] else [];
      assert h.joined == [JoinEntry(n)] + session.said && h.left == left;
      var exit := ServeUntilExit(client);
      ReplayHandled(n, session.said, left);
      ReplayFramesOne(JoinEntry(n));
      var join := [Protocol.JoinRequest(n)];
      ConcatAssoc(old(messageHistory), [JoinEntry(n)], session.said);
      forall i | 0 <= i < |old(clients)|
        ensures old(clients)[i].socket.written == old(clients[i].socket.written) + ReplayFrames(h.joined + h.left)
      {
        ConcatAssoc(old(clients[i].socket.written), join, ReplayFrames(session.said));
        ConcatAssoc(old(clients[i].socket.written), join + ReplayFrames(session.said), ReplayFrames(left));
      }
      ghost var asked := old(client.socket.written) + ReplayFrames(old(messageHistory)) + [Protocol.NicknameRequest(old(client.nickname))];
      ConcatAssoc(asked, join, ReplayFrames(session.said));
    }

    /**
     * The handler up to a settled nickname: the client registered, sent the
     * history and the nickname request, then `_wait_for_nickname`, whose
     * JOIN goes to every client, the new one included.
     */
    method Welcome(client: ClientInfo) returns (reply: Protocol.ReadResult)
      requires Valid() && client.socket.Synced() && client.socket.raw !in RawsOf(clients)
      modifies this, client, client.socket, client.socket.raw, SocketSet(clients), RawsOf(clients)
      ensures Valid() && clients == old(clients) + [client] && client !in old(clients)
      ensures forall i :: 0 <= i < |old(clients)| ==>
        clients[i].socket.raw.unread == old(clients[i].socket.raw.unread)
        && clients[i].socket.raw.closed == old(clients[i].socket.raw.closed)
      ensures reply == Protocol.WaitFor(old(client.socket.raw.unread), Protocol.Nickname).0
      ensures client.socket.raw.unread == Protocol.WaitFor(old(client.socket.raw.unread), Protocol.Nickname).1
      ensures client.socket.raw.closed == old(client.socket.raw.closed)
      ensures reply.Failed? ==>
        && client.nickname == old(client.nickname)
        && messageHistory == old(messageHistory)
        && client.socket.written == old(client.socket.written) + ReplayFrames(old(messageHistory))
          + [Protocol.NicknameRequest(old(client.nickname))]
        && forall i :: 0 <= i < |old(clients)| ==> clients[i].socket.written == old(clients[i].socket.written)
      ensures reply.Received? ==>
        && client.nickname == ResolvedNickname(reply.request.header.nickname, |old(clients)|)
        && messageHistory == old(messageHistory) + [JoinEntry(client.nickname)]
        && client.socket.written == old(client.socket.written) + ReplayFrames(old(messageHistory))
          + [Protocol.NicknameRequest(old(client.nickname))] + [Protocol.JoinRequest(client.nickname)]
        && forall i :: 0 <= i < |old(clients)| ==>
          clients[i].socket.written == old(clients[i].socket.written) + [Protocol.JoinRequest(client.nickname)]
    {
      Admit(client);
      ghost var k := |old(clients)|;
      assert clients[k] == client;
      reply := WaitForNickname(client);
    }

    /**
     * The handler once the nickname is settled: the request loop, then
     * `_disconnect_client` after a ConnectionError and after nothing else.
     * The client is the last one registered.
     */
    method ServeUntilExit(client: ClientInfo) returns (exit: Exit)
      requires Valid() && clients != [] && client == clients[|clients| - 1] && client !in clients[..|clients| - 1]
      modifies this, client`nickname, client.socket.raw`unread, client.socket.raw`closed, SocketSet(clients)`written, RawsOf(clients)`sent
      ensures Valid() && client.socket.Synced()
      ensures forall i :: 0 <= i < |old(clients)| - 1 ==>
        old(clients)[i].socket.raw.unread == old(clients[i].socket.raw.unread)
        && old(clients)[i].socket.raw.closed == old(clients[i].socket.raw.closed)
      ensures var session := Serve(old(client.socket.raw.unread), old(client.nickname));
        var left := if session.exit == ConnectionLost then [LeaveEntry(session.nickname)] else [];
        && exit == session.exit
        && clients == (if exit == ConnectionLost then old(clients)[..|old(clients)| - 1] else old(clients))
        && messageHistory == old(messageHistory) + session.said + left
        && client.nickname == session.nickname && client.socket.raw.unread == session.rest
        && client.socket.raw.closed == (exit == ConnectionLost || old(client.socket.raw.closed))
        && client.socket.written == old(client.socket.written) + ReplayFrames(session.said)
        && forall i :: 0 <= i < |old(clients)| - 1 ==>
          old(clients)[i].socket.written == old(clients[i].socket.written) + ReplayFrames(session.said) + ReplayFrames(left)
    {
      exit := ServeRequests(client);
      ghost var session := Serve(old(client.socket.raw.unread), old(client.nickname));
      ghost var left := if exit == ConnectionLost then [LeaveEntry(session.nickname)] else [];
      if exit == ConnectionLost {
        label served:
        DisconnectLast(client);
        ReplayFramesOne(LeaveEntry(session.nickname));
        forall i | 0 <= i < |old(clients)| - 1
          ensures old(clients)[i].socket.written == old(clients[i].socket.written) + ReplayFrames(session.said) + ReplayFrames(left)
          ensures old(clients)[i].socket.raw.unread == old(clients[i].socket.raw.unread)
          ensures old(clients)[i].socket.raw.closed == old(clients[i].socket.raw.closed)
        {
          assert clients[i] == old(clients)[i] == old@served(clients[i]);
        }
        assert messageHistory == old(messageHistory) + session.said + left;
      } else {
        ghost var k := |clients| - 1;
        assert clients[k] == client;
        assert client.socket.Synced();
        assert client.socket.written == old(client.socket.written) + ReplayFrames(session.said);
        assert client.socket.raw.closed == old(client.socket.raw.closed);
        assert ReplayFrames(left) == [];
        ConcatEmpty(messageHistory);
        forall i | 0 <= i < |old(clients)| - 1
          ensures old(clients)[i].socket.written == old(clients[i].socket.written) + ReplayFrames(session.said) + ReplayFrames(left)
          ensures old(clients)[i].socket.raw.unread == old(clients[i].socket.raw.unread)
          ensures old(clients)[i].socket.raw.closed == old(clients[i].socket.raw.closed)
        {
          assert clients[i] == old(clients)[i] && clients[i] in old(clients)[..k];
          ConcatEmpty(old(clients[i].socket.written) + ReplayFrames(session.said));
        }
        assert messageHistory == old(messageHistory) + session.said + left;
      }
    }

    /** `_disconnect_client` for the client registered last, stated position by position. */
    method DisconnectLast(client: ClientInfo)
      requires Valid() && clients != [] && client == clients[|clients| - 1] && client !in clients[..|clients| - 1]
      modifies this, client.socket.raw`closed, SocketSet(clients)`written, RawsOf(clients)`sent
      ensures Valid() && clients == old(clients)[..|old(clients)| - 1]
      ensures forall i :: 0 <= i < |clients| ==>
        clients[i].socket.written == old(clients[i].socket.written) + [Protocol.LeaveRequest(client.nickname)]
        && clients[i].socket.raw.unread == old(clients[i].socket.raw.unread)
        && clients[i].socket.raw.closed == old(clients[i].socket.raw.closed)
      ensures messageHistory == old(messageHistory) + [LeaveEntry(client.nickname)]
      ensures client.socket.raw.closed && client.socket.raw.unread == old(client.socket.raw.unread)
      ensures client.socket.written == old(client.socket.written) && client.socket.raw.sent == old(client.socket.raw.sent)
      ensures client.socket.Synced()
    {
      ghost var k := |clients| - 1;
      ghost var before := clients;
      IndexOfLast(clients, client);
      DisconnectClient(client);
      assert before[..k] + before[k + 1..] == before[..k];
      forall i | 0 <= i < |clients|
        ensures clients[i].socket.written == old(clients[i].socket.written) + [Protocol.LeaveRequest(client.nickname)]
        ensures clients[i].socket.raw.unread == old(clients[i].socket.raw.unread)
        ensures clients[i].socket.raw.closed == old(clients[i].socket.raw.closed)
      {
        assert clients[i] in clients && clients[i] == before[i];
      }
    }

    /** The start of `_handle_client_requests`: the client appended, sent the history, asked for its nickname. */
    method Admit(client: ClientInfo)
      requires Valid() && client.socket.Synced() && client.socket.raw !in RawsOf(clients)
      modifies this, client.socket`written, client.socket.raw`sent
      ensures Valid() && clients == old(clients) + [client] && messageHistory == old(messageHistory)
      ensures client !in old(clients) && IndexOf(clients, client) == |old(clients)|
      ensures client.socket.written == old(client.socket.written) + ReplayFrames(messageHistory) + [Protocol.NicknameRequest(client.nickname)]
      ensures client.socket.raw.unread == old(client.socket.raw.unread) && client.socket.raw.closed == old(client.socket.raw.closed)
      ensures forall i :: 0 <= i < |old(clients)| ==>
        clients[i].socket.written == old(clients[i].socket.written)
        && clients[i].socket.raw.sent == old(clients[i].socket.raw.sent)
        && clients[i].socket.raw.unread == old(clients[i].socket.raw.unread)
        && clients[i].socket.raw.closed == old(clients[i].socket.raw.closed)
    {
      AppendKeepsDistinct(clients, client);
      ghost var others := clients;
      forall i | 0 <= i < |others|
        ensures others[i].socket != client.socket && others[i].socket.raw != client.socket.raw
      {
        assert others[i].socket.raw in RawsOf(others);
      }
      clients := clients + [client];
      Greet(others, client);
      AllSyncedSnoc(others, client);
      assert forall i :: 0 <= i < |others| ==> clients[i] == others[i];
    }

    /** The history replay and the nickname request of `_handle_client_requests`, which write to the new client only. */
    method Greet(ghost others: seq<ClientInfo>, client: ClientInfo)
      requires AllSynced(others) && client.socket.Synced()
      requires forall i :: 0 <= i < |others| ==> others[i].socket != client.socket && others[i].socket.raw != client.socket.raw
      modifies client.socket`written, client.socket.raw`sent
      ensures AllSynced(others) && client.socket.Synced()
      ensures client.socket.written == old(client.socket.written) + ReplayFrames(messageHistory) + [Protocol.NicknameRequest(client.nickname)]
      ensures forall i :: 0 <= i < |others| ==>
        others[i].socket.written == old(others[i].socket.written) && others[i].socket.raw.sent == old(others[i].socket.raw.sent)
    {
      SendMessageHistory(client);
      RequestNickname(client);
      forall i | 0 <= i < |others|
        ensures others[i].socket.written == old(others[i].socket.written)
        ensures others[i].socket.raw.sent == old(others[i].socket.raw.sent)
        ensures others[i].socket.Synced()
      {
        assert old(others[i].socket.Synced());
      }
    }

    /**
     * The request loop of `_handle_client_requests`: it runs until a read
     * or a decode raises, and does what `Serve` says of the unread stream.
     */
    method ServeRequests(client: ClientInfo) returns (exit: Exit)
      requires Valid() && client in clients
      modifies this, client`nickname, client.socket.raw`unread, SocketSet(clients)`written, RawsOf(clients)`sent
      ensures Valid() && clients == old(clients)
      ensures var session := Serve(old(client.socket.raw.unread), old(client.nickname));
        exit == session.exit && client.nickname == session.nickname && client.socket.raw.unread == session.rest
        && messageHistory == old(messageHistory) + session.said
        && forall i :: 0 <= i < |clients| ==> clients[i].socket.written == old(clients[i].socket.written) + ReplayFrames(session.said)
      ensures forall i :: 0 <= i < |clients| ==> clients[i].socket.raw.closed == old(clients[i].socket.raw.closed)
      ensures forall i :: 0 <= i < |clients| && clients[i] != client ==> clients[i].socket.raw.unread == old(clients[i].socket.raw.unread)
    {
      ghost var session := Serve(client.socket.raw.unread, client.nickname);
      ghost var said: seq<Message> := [];
      ghost var frames: seq<Protocol.Request> := [];
      while true
        invariant Valid() && clients == old(clients) && client in clients
        invariant var now := Serve(client.socket.raw.unread, client.nickname);
          session.exit == now.exit && session.nickname == now.nickname && session.rest == now.rest && session.said == said + now.said
        invariant messageHistory == old(messageHistory) + said
        invariant frames == ReplayFrames(said)
        invariant forall i :: 0 <= i < |clients| ==>
          clients[i].socket.written == old(clients[i].socket.written) + frames
          && clients[i].socket.raw.closed == old(clients[i].socket.raw.closed)
          && (clients[i] != client ==> clients[i].socket.raw.unread == old(clients[i].socket.raw.unread))
        decreases |client.socket.raw.unread|
      {
        var turn := ServeStep(client);
        if turn.Stop? {
          assert said + [] == said;
          return turn.exit;
        }
        ConcatAssoc(said, turn.said, Serve(client.socket.raw.unread, client.nickname).said);
        ConcatAssoc(old(messageHistory), said, turn.said);
        ReplayFramesConcat(said, turn.said);
        ghost var more := ReplayFrames(turn.said);
        forall i | 0 <= i < |clients|
          ensures clients[i].socket.written == old(clients[i].socket.written) + (frames + more)
        {
          ConcatAssoc(old(clients[i].socket.written), frames, more);
        }
        said := said + turn.said;
        frames := frames + more;
      }
    }

    /** One pass of the request loop: one request read from the client, then what `Handle` says done with it. */
    method ServeStep(client: ClientInfo) returns (turn: Turn)
      requires Valid() && client in clients
      modifies this, client`nickname, client.socket.raw`unread, SocketSet(clients)`written, RawsOf(clients)`sent
      ensures Valid() && clients == old(clients)
      ensures turn.Stop? ==>
        Serve(old(client.socket.raw.unread), old(client.nickname))
          == Session([], old(client.nickname), turn.exit, client.socket.raw.unread)
        && client.nickname == old(client.nickname) && messageHistory == old(messageHistory)
        && forall i :: 0 <= i < |clients| ==> clients[i].socket.written == old(clients[i].socket.written)
      ensures turn.Go? ==>
        |client.socket.raw.unread| < |old(client.socket.raw.unread)|
        && client.nickname == turn.nickname && messageHistory == old(messageHistory) + turn.said
        && (forall i :: 0 <= i < |clients| ==> clients[i].socket.written == old(clients[i].socket.written) + ReplayFrames(turn.said))
        && var later := Serve(client.socket.raw.unread, turn.nickname);
          Serve(old(client.socket.raw.unread), old(client.nickname)) == later.(said := turn.said + later.said)
      ensures forall i :: 0 <= i < |clients| ==> clients[i].socket.raw.closed == old(clients[i].socket.raw.closed)
      ensures forall i :: 0 <= i < |clients| && clients[i] != client ==> clients[i].socket.raw.unread == old(clients[i].socket.raw.unread)
    {
      ghost var before := client.socket.raw.unread;
      var request := ReadFrom(client);
      turn := Dispatch(client, request);
      if turn.Go? {
        ServeGo(before, old(client.nickname));
      } else {
        ServeStop(before, old(client.nickname));
      }
    }

    /** `client.socket.read_request()`: one request read from that client; no other client's stream moves. */
    method ReadFrom(client: ClientInfo) returns (r: Protocol.ReadResult)
      requires Valid() && client in clients
      modifies client.socket.raw`unread
      ensures (r, client.socket.raw.unread) == Protocol.NextRequest(old(client.socket.raw.unread))
      ensures client.socket.raw.sent == old(client.socket.raw.sent) && client.socket.written == old(client.socket.written)
      ensures forall i :: 0 <= i < |clients| ==> clients[i].socket.raw.closed == old(clients[i].socket.raw.closed)
      ensures forall i :: 0 <= i < |clients| && clients[i] != client ==> clients[i].socket.raw.unread == old(clients[i].socket.raw.unread)
    {
      ghost var k := IndexOf(clients, client);
      r := client.socket.ReadRequest();
      forall i | 0 <= i < |clients| && clients[i] != client
        ensures clients[i].socket.raw.unread == old(clients[i].socket.raw.unread)
      {
        assert i < k || k < i;
      }
    }

    /** The body of the request loop after the read: what `Handle` says, done to the registry and the history. */
    method Dispatch(client: ClientInfo, r: Protocol.ReadResult) returns (turn: Turn)
      requires Valid() && client in clients
      modifies this, client`nickname, SocketSet(clients)`written, RawsOf(clients)`sent
      ensures turn == Handle(r, old(client.nickname))
      ensures Valid() && clients == old(clients)
      ensures turn.Go? ==>
        client.nickname == turn.nickname && messageHistory == old(messageHistory) + turn.said
        && forall i :: 0 <= i < |clients| ==> clients[i].socket.written == old(clients[i].socket.written) + ReplayFrames(turn.said)
      ensures turn.Stop? ==>
        client.nickname == old(client.nickname) && messageHistory == old(messageHistory)
        && forall i :: 0 <= i < |clients| ==> clients[i].socket.written == old(clients[i].socket.written)
      ensures forall i :: 0 <= i < |clients| ==>
        clients[i].socket.raw.unread == old(clients[i].socket.raw.unread) && clients[i].socket.raw.closed == old(clients[i].socket.raw.closed)
    {
      turn := Handle(r, client.nickname);
      if r.Failed? {
        return;
      }
      var header := r.request.header;
      if header.requestType == Protocol.Nickname {
        client.nickname := header.nickname;
        assert messageHistory + [] == messageHistory;
      } else if header.requestType == Protocol.Message {
        var text := Decode(r.request.contents);
        if text.None? {
          return;
        }
        ReplayFramesOne(ChatEntry(client.nickname, text.value));
        BroadcastMessage(client.nickname, text.value);
      } else {
        assert messageHistory + [] == messageHistory;
      }
    }
  }
}
