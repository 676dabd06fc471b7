/**
 * The first draft of the Tumult server. Its registry, history, broadcasts,
 * replay and nickname negotiation are those of the final server, over the
 * same shared-protocol sockets; what differs is that the registry
 * projections are built by explicit loops, and that the request loop
 * catches every exception, so whatever ends the loop (a closed stream, a
 * header that does not decode, a payload that is not UTF-8) is followed by
 * the disconnect and its LEAVE broadcast.
 */
module DraftServer {
  import opened Options
  import opened Utf8
  import opened PyText
  import Protocol
  import opened Server

  /** `TumultClient` of the draft: the same four fields as the final server's `ClientInfo`. */
  type TumultClient = ClientInfo

  /**
   * `handle_client_requests` of the draft for a client registered at
   * position `index` with the unread stream `s`. A failed wait for the
   * nickname still ends the handler at once, with no JOIN and the client
   * still registered, since that wait is outside the `try`; every exit of
   * the request loop leads to the disconnect.
   */
  function DraftHandled(s: seq<byte>, index: nat, nickname: Option<string>): Handling {
    match Protocol.WaitFor(s, Protocol.Nickname)
    case (Failed(_), rest) => Handling([], [], false, nickname, rest)
    case (Received(reply), rest) =>
      var n := ResolvedNickname(reply.header.nickname, index);
      var session := Serve(rest, n);
      Handling([JoinEntry(n)] + session.said, [LeaveEntry(session.nickname)], true, session.nickname, session.rest)
  }

  /**
   * What the draft handler adds to the history: nothing when the nickname
   * never comes; otherwise one JOIN under a nickname that is never None,
   * only MESSAGE entries, and always one LEAVE under the last nickname.
   */
  lemma DraftHandledShape(s: seq<byte>, index: nat, nickname: Option<string>)
    ensures var h := DraftHandled(s, index, nickname);
      && (h.joined == [] <==> Protocol.WaitFor(s, Protocol.Nickname).0.Failed?)
      && (h.disconnected <==> Protocol.WaitFor(s, Protocol.Nickname).0.Received?)
      && (h.joined != [] ==> h.joined[0].messageType == Protocol.JoinMessage && h.joined[0].nickname.Some? && AllChat(h.joined[1..]))
      && (h.left != [] <==> h.disconnected)
      && (h.disconnected ==> h.left == [LeaveEntry(h.nickname)])
  {
    var (reply, rest) := Protocol.WaitFor(s, Protocol.Nickname);
    if reply.Received? {
      var n := ResolvedNickname(reply.request.header.nickname, index);
      ServeSaysMessages(rest, n);
      var h := DraftHandled(s, index, nickname);
      assert h.joined[1..] == Serve(rest, n).said;
    }
  }

  /**
   * The draft and the final server broadcast the same entries while the
   * client is registered and leave it with the same nickname and stream;
   * they differ only after a loop exit other than a closed connection,
   * where only the draft disconnects the client.
   */
  lemma DraftAgreesWithServer(s: seq<byte>, index: nat, nickname: Option<string>)
    ensures var d := DraftHandled(s, index, nickname);
      var h := Handled(s, index, nickname);
      && d.joined == h.joined && d.nickname == h.nickname && d.rest == h.rest
      && (h.disconnected ==> d == h)
      && (d.disconnected && !h.disconnected ==>
            h.left == [] && Serve(Protocol.WaitFor(s, Protocol.Nickname).1, ResolvedNickname(
              Protocol.WaitFor(s, Protocol.Nickname).0.request.header.nickname, index)).exit != ConnectionLost)
  {
  }

  /** `TumultServer` of the draft: the registry of clients and the message history. */
  class TumultServer {
    const ipv4Address: string
    const port: int
    const socket: Protocol.TumultSocket
    var clients: seq<TumultClient>
    var messageHistory: seq<Message>

    /**
     * No two registered clients share a socket, every client's connection
     * has sent exactly the frames written to it, and the history holds only
     * the three kinds the broadcasts append.
     */
    ghost predicate Valid()
      reads this, SocketSet(clients)`written, RawsOf(clients)`sent
    {
      DistinctSockets(clients) && AllSynced(clients) && NoNicknameEntries(messageHistory)
    }

    /** A server at the given address with no clients and no history; binding is not modelled. */
    constructor (ipv4Address: string, port: int)
      ensures this.ipv4Address == ipv4Address && this.port == port
      ensures clients == [] && messageHistory == [] && fresh(socket.raw)
      ensures Valid()
    {
      this.ipv4Address := ipv4Address;
      this.port := port;
      socket := new Protocol.TumultSocket.Fresh();
      clients := [];
      messageHistory := [];
    }

    /** `client_sockets`, built by appending one socket per client: the final server's projection, in registry order. */
    method ClientSockets() returns (clientSockets: seq<Protocol.TumultSocket>)
      ensures |clientSockets| == |clients| && forall i :: 0 <= i < |clients| ==> clientSockets[i] == clients[i].socket
      ensures clientSockets == SocketsOf(clients)
    {
      clientSockets := [];
      var i := 0;
      while i < |clients|
        invariant 0 <= i <= |clients|
        invariant |clientSockets| == i && forall j :: 0 <= j < i ==> clientSockets[j] == clients[j].socket
      {
        clientSockets := clientSockets + [clients[i].socket];
        i := i + 1;
      }
    }

    /** `client_nicknames`, built by appending one nickname per client. */
    method ClientNicknames() returns (clientNicknames: seq<Option<string>>)
      ensures |clientNicknames| == |clients| && forall i :: 0 <= i < |clients| ==> clientNicknames[i] == clients[i].nickname
      ensures clientNicknames == NicknamesOf(clients)
    {
      clientNicknames := [];
      var i := 0;
      while i < |clients|
        invariant 0 <= i <= |clients|
        invariant |clientNicknames| == i && forall j :: 0 <= j < i ==> clientNicknames[j] == clients[j].nickname
      {
        clientNicknames := clientNicknames + [clients[i].nickname];
        i := i + 1;
      }
    }

    /** `client_ipv4_addresses`, built by appending one address per client. */
    method ClientIpv4Addresses() returns (clientIpv4Addresses: seq<string>)
      ensures |clientIpv4Addresses| == |clients| && forall i :: 0 <= i < |clients| ==> clientIpv4Addresses[i] == clients[i].ipv4Address
      ensures clientIpv4Addresses == AddressesOf(clients)
    {
      clientIpv4Addresses := [];
      var i := 0;
      while i < |clients|
        invariant 0 <= i <= |clients|
        invariant |clientIpv4Addresses| == i && forall j :: 0 <= j < i ==> clientIpv4Addresses[j] == clients[j].ipv4Address
      {
        clientIpv4Addresses := clientIpv4Addresses + [clients[i].ipv4Address];
        i := i + 1;
      }
    }

    /** Appends one entry and writes its frame to every registered client. */
    method Broadcast(m: Message)
      requires Valid() && m.messageType != Protocol.Nickname
      modifies this, SocketSet(clients)`written, RawsOf(clients)`sent
      ensures Valid() && clients == old(clients)
      ensures messageHistory == old(messageHistory) + [m]
      ensures forall i :: 0 <= i < |clients| ==> clients[i].socket.written == old(clients[i].socket.written) + [EntryRequest(m)]
      ensures forall i :: 0 <= i < |clients| ==>
        clients[i].socket.raw.sent == old(clients[i].socket.raw.sent) + Protocol.FramesBytes([EntryRequest(m)])
      ensures forall i :: 0 <= i < |clients| ==>
        clients[i].socket.raw.unread == old(clients[i].socket.raw.unread) && clients[i].socket.raw.closed == old(clients[i].socket.raw.closed)
    {
      messageHistory := messageHistory + [m];
      SendToAll(clients, m);
    }

    /** `broadcast_message`: one MESSAGE entry appended and written to every client, the sender included. */
    method BroadcastMessage(nickname: Option<string>, contents: string)
      requires Valid()
      modifies this, SocketSet(clients)`written, RawsOf(clients)`sent
      ensures Valid() && clients == old(clients)
      ensures messageHistory == old(messageHistory) + [ChatEntry(nickname, contents)]
      ensures forall i :: 0 <= i < |clients| ==>
        clients[i].socket.written == old(clients[i].socket.written) + [Protocol.MessageRequest(nickname, contents)]
      ensures forall i :: 0 <= i < |clients| ==>
        clients[i].socket.raw.sent == old(clients[i].socket.raw.sent) + Protocol.FramesBytes([Protocol.MessageRequest(nickname, contents)])
      ensures forall i :: 0 <= i < |clients| ==>
        clients[i].socket.raw.unread == old(clients[i].socket.raw.unread) && clients[i].socket.raw.closed == old(clients[i].socket.raw.closed)
    {
      Broadcast(ChatEntry(nickname, contents));
    }

    /** `broadcast_join_message`: a "joined" entry appended and a JOIN frame written to every client. */
    method BroadcastJoinMessage(nickname: Option<string>)
      requires Valid()
      modifies this, SocketSet(clients)`written, RawsOf(clients)`sent
      ensures Valid() && clients == old(clients)
      ensures messageHistory == old(messageHistory) + [JoinEntry(nickname)]
      ensures forall i :: 0 <= i < |clients| ==>
        clients[i].socket.written == old(clients[i].socket.written) + [Protocol.JoinRequest(nickname)]
      ensures forall i :: 0 <= i < |clients| ==>
        clients[i].socket.raw.sent == old(clients[i].socket.raw.sent) + Protocol.FramesBytes([Protocol.JoinRequest(nickname)])
      ensures forall i :: 0 <= i < |clients| ==>
        clients[i].socket.raw.unread == old(clients[i].socket.raw.unread) && clients[i].socket.raw.closed == old(clients[i].socket.raw.closed)
    {
      Broadcast(JoinEntry(nickname));
    }

    /** `broadcast_leave_message`: a "left" entry appended and a LEAVE frame written to every client. */
    method BroadcastLeaveMessage(nickname: Option<string>)
      requires Valid()
      modifies this, SocketSet(clients)`written, RawsOf(clients)`sent
      ensures Valid() && clients == old(clients)
      ensures messageHistory == old(messageHistory) + [LeaveEntry(nickname)]
      ensures forall i :: 0 <= i < |clients| ==>
        clients[i].socket.written == old(clients[i].socket.written) + [Protocol.LeaveRequest(nickname)]
      ensures forall i :: 0 <= i < |clients| ==>
        clients[i].socket.raw.sent == old(clients[i].socket.raw.sent) + Protocol.FramesBytes([Protocol.LeaveRequest(nickname)])
      ensures forall i :: 0 <= i < |clients| ==>
        clients[i].socket.raw.unread == old(clients[i].socket.raw.unread) && clients[i].socket.raw.closed == old(clients[i].socket.raw.closed)
    {
      Broadcast(LeaveEntry(nickname));
    }

    /** `send_message_history`: every entry's frame, in history order, to the one client only. */
    method SendMessageHistory(client: TumultClient)
      requires client.socket.Synced()
      modifies client.socket`written, client.socket.raw`sent
      ensures client.socket.Synced()
      ensures client.socket.written == old(client.socket.written) + ReplayFrames(messageHistory)
      ensures client.socket.raw.sent == old(client.socket.raw.sent) + Protocol.FramesBytes(ReplayFrames(messageHistory))
      ensures client.socket.raw.unread == old(client.socket.raw.unread) && client.socket.raw.closed == old(client.socket.raw.closed)
    {
      var clientSocket := client.socket;
      ghost var sent0, written0 := clientSocket.raw.sent, clientSocket.written;
      var i := 0;
      while i < |messageHistory|
        invariant 0 <= i <= |messageHistory|
        invariant clientSocket.written == written0 + ReplayFrames(messageHistory[..i])
        invariant clientSocket.raw.sent == sent0 + Protocol.FramesBytes(ReplayFrames(messageHistory[..i]))
      {
        ReplayOne(clientSocket, messageHistory, i, sent0, written0);
        i := i + 1;
      }
      assert messageHistory[..i] == messageHistory;
      clientSocket.StaysSynced(sent0, written0, ReplayFrames(messageHistory));
    }

    /** One step of the replay: entry `i` written after the frames of the entries before it. */
    static method ReplayOne(socket: Protocol.TumultSocket, h: seq<Message>, i: nat, ghost sent0: seq<byte>, ghost written0: seq<Protocol.Request>)
      requires i < |h|
      requires socket.written == written0 + ReplayFrames(h[..i])
      requires socket.raw.sent == sent0 + Protocol.FramesBytes(ReplayFrames(h[..i]))
      modifies socket`written, socket.raw`sent
      ensures socket.written == written0 + ReplayFrames(h[..i + 1])
      ensures socket.raw.sent == sent0 + Protocol.FramesBytes(ReplayFrames(h[..i + 1]))
    {
      WriteEntry(socket, h[i]);
      ReplayPrefixStep(h, i, sent0, written0);
    }

    /** `request_nickname`: a NICKNAME frame carrying the client's current nickname. */
    static method RequestNickname(client: TumultClient)
      requires client.socket.Synced()
      modifies client.socket`written, client.socket.raw`sent
      ensures client.socket.Synced()
      ensures client.socket.written == old(client.socket.written) + [Protocol.NicknameRequest(client.nickname)]
      ensures client.socket.raw.sent == old(client.socket.raw.sent) + Protocol.FramesBytes([Protocol.NicknameRequest(client.nickname)])
      ensures client.socket.raw.unread == old(client.socket.raw.unread) && client.socket.raw.closed == old(client.socket.raw.closed)
    {
      var request := Protocol.NicknameRequest(client.nickname);
      client.socket.StaysSynced(client.socket.raw.sent, client.socket.written, [request]);
      Protocol.FramesOne(request);
      client.socket.WriteNickname(client.nickname);
      assert Protocol.RequestBytes(request) + [] == Protocol.RequestBytes(request);
    }

    /** `generate_nickname`: the default name for the client's registry position. */
    method GenerateNickname(client: TumultClient)
      requires client in clients
      modifies client`nickname
      ensures client.nickname == Some(DefaultNickname(IndexOf(clients, client)))
    {
      client.nickname := Some("User" + NatToString(IndexOf(clients, client) + 1));
    }

    /**
     * `wait_for_nickname`: the first NICKNAME reply, other requests dropped,
     * then the reply's nickname accepted. When the stream fails first the
     * exception (here the Failed result) leaves everything else as it was.
     */
    method WaitForNickname(client: TumultClient) returns (reply: Protocol.ReadResult)
      requires Valid() && client in clients
      modifies this, client`nickname, client.socket.raw`unread, SocketSet(clients)`written, RawsOf(clients)`sent
      ensures Valid() && clients == old(clients)
      ensures forall i :: 0 <= i < |clients| ==>
        clients[i].socket.raw.closed == old(clients[i].socket.raw.closed)
        && (clients[i] != client ==> clients[i].socket.raw.unread == old(clients[i].socket.raw.unread))
      ensures reply == Protocol.WaitFor(old(client.socket.raw.unread), Protocol.Nickname).0
      ensures client.socket.raw.unread == Protocol.WaitFor(old(client.socket.raw.unread), Protocol.Nickname).1
      ensures reply.Failed? ==>
        messageHistory == old(messageHistory) && client.nickname == old(client.nickname)
        && forall i :: 0 <= i < |clients| ==> clients[i].socket.written == old(clients[i].socket.written)
      ensures reply.Received? ==>
        && client.nickname == ResolvedNickname(reply.request.header.nickname, IndexOf(clients, client))
        && messageHistory == old(messageHistory) + [JoinEntry(client.nickname)]
        && forall i :: 0 <= i < |clients| ==> clients[i].socket.written == old(clients[i].socket.written) + [Protocol.JoinRequest(client.nickname)]
    {
      ghost var k := IndexOf(clients, client);
      reply := WaitFrom(client);
      if reply.Received? {
        AcceptNickname(client, reply.request.header.nickname);
        assert clients[k] == client;
      }
    }

    /** `client.socket.wait_for_request(NICKNAME)`: only that client's stream moves. */
    method WaitFrom(client: TumultClient) returns (reply: Protocol.ReadResult)
      requires Valid() && client in clients
      modifies client.socket.raw`unread
      ensures reply == Protocol.WaitFor(old(client.socket.raw.unread), Protocol.Nickname).0
      ensures client.socket.raw.unread == Protocol.WaitFor(old(client.socket.raw.unread), Protocol.Nickname).1
      ensures client.socket.raw.sent == old(client.socket.raw.sent) && client.socket.written == old(client.socket.written)
      ensures forall i :: 0 <= i < |clients| ==>
        clients[i].socket.raw.closed == old(clients[i].socket.raw.closed)
        && (clients[i] != client ==> clients[i].socket.raw.unread == old(clients[i].socket.raw.unread))
    {
      ghost var k := IndexOf(clients, client);
      reply := client.socket.WaitForRequest(Protocol.Nickname);
      forall i | 0 <= i < |clients| && clients[i] != client
        ensures clients[i].socket.raw.unread == old(clients[i].socket.raw.unread)
      {
        assert i < k || k < i;
      }
    }

    /** The reply's nickname adopted unless None (then the default), then one JOIN to every client. */
    method AcceptNickname(client: TumultClient, reply: Option<string>)
      requires Valid() && client in clients
      modifies this, client`nickname, SocketSet(clients)`written, RawsOf(clients)`sent
      ensures Valid() && clients == old(clients)
      ensures client.nickname == ResolvedNickname(reply, IndexOf(clients, client))
      ensures messageHistory == old(messageHistory) + [JoinEntry(client.nickname)]
      ensures forall i :: 0 <= i < |clients| ==>
        clients[i].socket.written == old(clients[i].socket.written) + [Protocol.JoinRequest(client.nickname)]
      ensures forall i :: 0 <= i < |clients| ==>
        clients[i].socket.raw.unread == old(clients[i].socket.raw.unread) && clients[i].socket.raw.closed == old(clients[i].socket.raw.closed)
    {
      if reply.None? {
        GenerateNickname(client);
      } else {
        client.nickname := reply;
      }
      BroadcastJoinMessage(client.nickname);
    }

    /**
     * `disconnect_client`: the client leaves the registry, its socket is
     * closed, then a LEAVE with its last nickname goes to the remaining
     * clients, so the leaver gets no LEAVE of its own.
     */
    method DisconnectClient(client: TumultClient)
      requires Valid() && client in clients
      modifies this, client.socket.raw`closed, SocketSet(clients)`written, RawsOf(clients)`sent
      ensures Valid()
      ensures var k := IndexOf(old(clients), client); clients == old(clients)[..k] + old(clients)[k + 1..]
      ensures client !in clients
      ensures client.socket.raw.closed && client.socket.raw.unread == old(client.socket.raw.unread)
      ensures client.socket.written == old(client.socket.written) && client.socket.raw.sent == old(client.socket.raw.sent)
      ensures client.socket.Synced()
      ensures messageHistory == old(messageHistory) + [LeaveEntry(client.nickname)]
      ensures forall c :: c in clients ==> c.socket.written == old(c.socket.written) + [Protocol.LeaveRequest(client.nickname)]
      ensures forall c :: c in clients ==> c.socket.raw.unread == old(c.socket.raw.unread) && c.socket.raw.closed == old(c.socket.raw.closed)
    {
      var k := IndexOf(clients, client);
      RemoveKeepsDistinct(clients, k);
      clients := clients[..k] + clients[k + 1..];
      client.socket.Close();
      BroadcastLeaveMessage(client.nickname);
    }

    /**
     * `handle_client_requests`: the client is registered, sent the history
     * and asked for its nickname; once the nickname is settled its requests
     * are served until anything raises, and then the client is always
     * disconnected. The handler does what `DraftHandled` says of the
     * client's unread stream.
     */
    method HandleClientRequests(client: TumultClient)
      requires Valid() && client.socket.Synced() && client.socket.raw !in RawsOf(clients)
      modifies this, client, client.socket, client.socket.raw, SocketSet(clients), RawsOf(clients)
      ensures Valid() && client.socket.Synced()
      ensures forall i :: 0 <= i < |old(clients)| ==>
        old(clients)[i].socket.raw.unread == old(clients[i].socket.raw.unread)
        && old(clients)[i].socket.raw.closed == old(clients[i].socket.raw.closed)
      ensures var h := DraftHandled(old(client.socket.raw.unread), |old(clients)|, old(client.nickname));
        && clients == (if h.disconnected then old(clients) else old(clients) + [client])
        && messageHistory == old(messageHistory) + h.joined + h.left
        && client.nickname == h.nickname && client.socket.raw.unread == h.rest
        && client.socket.raw.closed == (h.disconnected || old(client.socket.raw.closed))
        && client.socket.written == old(client.socket.written) + ReplayFrames(old(messageHistory))
          + [Protocol.NicknameRequest(old(client.nickname))] + ReplayFrames(h.joined)
        && forall i :: 0 <= i < |old(clients)| ==>
          old(clients)[i].socket.written == old(clients[i].socket.written) + ReplayFrames(h.joined + h.left)
    {
      ghost var h := DraftHandled(client.socket.raw.unread, |clients|, client.nickname);
      var reply := Welcome(client);
      if reply.Failed? {
        assert ReplayFrames([]) == [];
        ConcatEmpty(messageHistory);
        ConcatEmpty(client.socket.written);
        forall i | 0 <= i < |old(clients)|
          ensures old(clients)[i].socket.written == old(clients[i].socket.written) + ReplayFrames(h.joined + h.left)
        {
          ConcatEmpty(old(clients[i].socket.written));
        }
        assert clients[|clients| - 1] == client;
        return;
      }
      ghost var n := client.nickname;
      ghost var session := Serve(client.socket.raw.unread, n);
      ghost var left := [LeaveEntry(session.nickname)];
      assert h.joined == [JoinEntry(n)] + session.said && h.left == left;
      var exit := ServeUntilExit(client);
      ReplayHandled(n, session.said, left);
      ReplayFramesOne(JoinEntry(n));
      var join := [Protocol.JoinRequest(n)];
      ConcatAssoc(old(messageHistory), [JoinEntry(n)], session.said);
      forall i | 0 <= i < |old(clients)|
        ensures old(clients)[i].socket.written == old(clients[i].socket.written) + ReplayFrames(h.joined + h.left)
      {
        ConcatAssoc(old(clients[i].socket.written), join, ReplayFrames(session.said));
        ConcatAssoc(old(clients[i].socket.written), join + ReplayFrames(session.said), ReplayFrames(left));
      }
      ghost var asked := old(client.socket.written) + ReplayFrames(old(messageHistory)) + [Protocol.NicknameRequest(old(client.nickname))];
      ConcatAssoc(asked, join, ReplayFrames(session.said));
    }

    /**
     * The handler up to a settled nickname: the client registered, sent the
     * history and the nickname request, then `wait_for_nickname`, whose
     * JOIN goes to every client, the new one included.
     */
    method Welcome(client: TumultClient) returns (reply: Protocol.ReadResult)
      requires Valid() && client.socket.Synced() && client.socket.raw !in RawsOf(clients)
      modifies this, client, client.socket, client.socket.raw, SocketSet(clients), RawsOf(clients)
      ensures Valid() && clients == old(clients) + [client] && client !in old(clients)
      ensures forall i :: 0 <= i < |old(clients)| ==>
        clients[i].socket.raw.unread == old(clients[i].socket.raw.unread)
        && clients[i].socket.raw.closed == old(clients[i].socket.raw.closed)
      ensures reply == Protocol.WaitFor(old(client.socket.raw.unread), Protocol.Nickname).0
      ensures client.socket.raw.unread == Protocol.WaitFor(old(client.socket.raw.unread), Protocol.Nickname).1
      ensures client.socket.raw.closed == old(client.socket.raw.closed)
      ensures reply.Failed? ==>
        && client.nickname == old(client.nickname)
        && messageHistory == old(messageHistory)
        && client.socket.written == old(client.socket.written) + ReplayFrames(old(messageHistory))
          + [Protocol.NicknameRequest(old(client.nickname))]
        && forall i :: 0 <= i < |old(clients)| ==> clients[i].socket.written == old(clients[i].socket.written)
      ensures reply.Received? ==>
        && client.nickname == ResolvedNickname(reply.request.header.nickname, |old(clients)|)
        && messageHistory == old(messageHistory) + [JoinEntry(client.nickname)]
        && client.socket.written == old(client.socket.written) + ReplayFrames(old(messageHistory))
          + [Protocol.NicknameRequest(old(client.nickname))] + [Protocol.JoinRequest(client.nickname)]
        && forall i :: 0 <= i < |old(clients)| ==>
          clients[i].socket.written == old(clients[i].socket.written) + [Protocol.JoinRequest(client.nickname)]
    {
      Admit(client);
      ghost var k := |old(clients)|;
      assert clients[k] == client;
      reply := WaitForNickname(client);
    }

    /**
     * The handler once the nickname is settled: the request loop, then
     * `disconnect_client` whatever ended it. The client is the last one
     * registered.
     */
    method ServeUntilExit(client: TumultClient) returns (exit: Exit)
      requires Valid() && clients != [] && client == clients[|clients| - 1] && client !in clients[..|clients| - 1]
      modifies this, client`nickname, client.socket.raw`unread, client.socket.raw`closed, SocketSet(clients)`written, RawsOf(clients)`sent
      ensures Valid() && client.socket.Synced()
      ensures forall i :: 0 <= i < |old(clients)| - 1 ==>
        old(clients)[i].socket.raw.unread == old(clients[i].socket.raw.unread)
        && old(clients)[i].socket.raw.closed == old(clients[i].socket.raw.closed)
      ensures var session := Serve(old(client.socket.raw.unread), old(client.nickname));
        && exit == session.exit
        && clients == old(clients)[..|old(clients)| - 1]
        && messageHistory == old(messageHistory) + session.said + [LeaveEntry(session.nickname)]
        && client.nickname == session.nickname && client.socket.raw.unread == session.rest
        && client.socket.raw.closed
        && client.socket.written == old(client.socket.written) + ReplayFrames(session.said)
        && forall i :: 0 <= i < |old(clients)| - 1 ==>
          old(clients)[i].socket.written == old(clients[i].socket.written) + ReplayFrames(session.said) + ReplayFrames([LeaveEntry(session.nickname)])
    {
      exit := ServeRequests(client);
      ghost var session := Serve(old(client.socket.raw.unread), old(client.nickname));
      DisconnectLast(client);
      ReplayFramesOne(LeaveEntry(session.nickname));
    }

    /** `disconnect_client` for the client registered last, stated position by position. */
    method DisconnectLast(client: TumultClient)
      requires Valid() && clients != [] && client == clients[|clients| - 1] && client !in clients[..|clients| - 1]
      modifies this, client.socket.raw`closed, SocketSet(clients)`written, RawsOf(clients)`sent
      ensures Valid() && clients == old(clients)[..|old(clients)| - 1]
      ensures forall i :: 0 <= i < |clients| ==>
        clients[i].socket.written == old(clients[i].socket.written) + [Protocol.LeaveRequest(client.nickname)]
        && clients[i].socket.raw.unread == old(clients[i].socket.raw.unread)
        && clients[i].socket.raw.closed == old(clients[i].socket.raw.closed)
      ensures messageHistory == old(messageHistory) + [LeaveEntry(client.nickname)]
      ensures client.socket.raw.closed && client.socket.raw.unread == old(client.socket.raw.unread)
      ensures client.socket.written == old(client.socket.written) && client.socket.raw.sent == old(client.socket.raw.sent)
      ensures client.socket.Synced()
    {
      ghost var k := |clients| - 1;
      ghost var before := clients;
      IndexOfLast(clients, client);
      DisconnectClient(client);
      assert before[..k] + before[k + 1..] == before[..k];
      forall i | 0 <= i < |clients|
        ensures clients[i].socket.written == old(clients[i].socket.written) + [Protocol.LeaveRequest(client.nickname)]
        ensures clients[i].socket.raw.unread == old(clients[i].socket.raw.unread)
        ensures clients[i].socket.raw.closed == old(clients[i].socket.raw.closed)
      {
        assert clients[i] in clients && clients[i] == before[i];
      }
    }

    /** The start of `handle_client_requests`: the client appended, sent the history, asked for its nickname. */
    method Admit(client: TumultClient)
      requires Valid() && client.socket.Synced() && client.socket.raw !in RawsOf(clients)
      modifies this, client.socket`written, client.socket.raw`sent
      ensures Valid() && clients == old(clients) + [client] && messageHistory == old(messageHistory)
      ensures client !in old(clients) && IndexOf(clients, client) == |old(clients)|
      ensures client.socket.written == old(client.socket.written) + ReplayFrames(messageHistory) + [Protocol.NicknameRequest(client.nickname)]
      ensures client.socket.raw.unread == old(client.socket.raw.unread) && client.socket.raw.closed == old(client.socket.raw.closed)
      ensures forall i :: 0 <= i < |old(clients)| ==>
        clients[i].socket.written == old(clients[i].socket.written)
        && clients[i].socket.raw.sent == old(clients[i].socket.raw.sent)
        && clients[i].socket.raw.unread == old(clients[i].socket.raw.unread)
        && clients[i].socket.raw.closed == old(clients[i].socket.raw.closed)
    {
      AppendKeepsDistinct(clients, client);
      ghost var others := clients;
      forall i | 0 <= i < |others|
        ensures others[i].socket != client.socket && others[i].socket.raw != client.socket.raw
      {
        assert others[i].socket.raw in RawsOf(others);
      }
      clients := clients + [client];
      Greet(others, client);
      AllSyncedSnoc(others, client);
      assert forall i :: 0 <= i < |others| ==> clients[i] == others[i];
    }

    /** The history replay and the nickname request of `handle_client_requests`, which write to the new client only. */
    method Greet(ghost others: seq<TumultClient>, client: TumultClient)
      requires AllSynced(others) && client.socket.Synced()
      requires forall i :: 0 <= i < |others| ==> others[i].socket != client.socket && others[i].socket.raw != client.socket.raw
      modifies client.socket`written, client.socket.raw`sent
      ensures AllSynced(others) && client.socket.Synced()
      ensures client.socket.written == old(client.socket.written) + ReplayFrames(messageHistory) + [Protocol.NicknameRequest(client.nickname)]
      ensures forall i :: 0 <= i < |others| ==>
        others[i].socket.written == old(others[i].socket.written) && others[i].socket.raw.sent == old(others[i].socket.raw.sent)
    {
      SendMessageHistory(client);
      RequestNickname(client);
      forall i | 0 <= i < |others|
        ensures others[i].socket.written == old(others[i].socket.written)
        ensures others[i].socket.raw.sent == old(others[i].socket.raw.sent)
        ensures others[i].socket.Synced()
      {
        assert old(others[i].socket.Synced());
      }
    }

    /**
     * The request loop of `handle_client_requests`: it runs until a read or
     * a decode raises, and does what `Serve` says of the unread stream.
     */
    method ServeRequests(client: TumultClient) returns (exit: Exit)
      requires Valid() && client in clients
      modifies this, client`nickname, client.socket.raw`unread, SocketSet(clients)`written, RawsOf(clients)`sent
      ensures Valid() && clients == old(clients)
      ensures var session := Serve(old(client.socket.raw.unread), old(client.nickname));
        exit == session.exit && client.nickname == session.nickname && client.socket.raw.unread == session.rest
        && messageHistory == old(messageHistory) + session.said
        && forall i :: 0 <= i < |clients| ==> clients[i].socket.written == old(clients[i].socket.written) + ReplayFrames(session.said)
      ensures forall i :: 0 <= i < |clients| ==> clients[i].socket.raw.closed == old(clients[i].socket.raw.closed)
      ensures forall i :: 0 <= i < |clients| && clients[i] != client ==> clients[i].socket.raw.unread == old(clients[i].socket.raw.unread)
    {
      ghost var session := Serve(client.socket.raw.unread, client.nickname);
      ghost var said: seq<Message> := [];
      ghost var frames: seq<Protocol.Request> := [];
      while true
        invariant Valid() && clients == old(clients) && client in clients
        invariant var now := Serve(client.socket.raw.unread, client.nickname);
          session.exit == now.exit && session.nickname == now.nickname && session.rest == now.rest && session.said == said + now.said
        invariant messageHistory == old(messageHistory) + said
        invariant frames == ReplayFrames(said)
        invariant forall i :: 0 <= i < |clients| ==>
          clients[i].socket.written == old(clients[i].socket.written) + frames
          && clients[i].socket.raw.closed == old(clients[i].socket.raw.closed)
          && (clients[i] != client ==> clients[i].socket.raw.unread == old(clients[i].socket.raw.unread))
        decreases |client.socket.raw.unread|
      {
        var turn := ServeStep(client);
        if turn.Stop? {
          assert said + [] == said;
          return turn.exit;
        }
        ConcatAssoc(said, turn.said, Serve(client.socket.raw.unread, client.nickname).said);
        ConcatAssoc(old(messageHistory), said, turn.said);
        ReplayFramesConcat(said, turn.said);
        ghost var more := ReplayFrames(turn.said);
        forall i | 0 <= i < |clients|
          ensures clients[i].socket.written == old(clients[i].socket.written) + (frames + more)
        {
          ConcatAssoc(old(clients[i].socket.written), frames, more);
        }
        said := said + turn.said;
        frames := frames + more;
      }
    }

    /** One pass of the request loop: one request read from the client, then what `Handle` says done with it. */
    method ServeStep(client: TumultClient) returns (turn: Turn)
      requires Valid() && client in clients
      modifies this, client`nickname, client.socket.raw`unread, SocketSet(clients)`written, RawsOf(clients)`sent
      ensures Valid() && clients == old(clients)
      ensures turn.Stop? ==>
        Serve(old(client.socket.raw.unread), old(client.nickname))
          == Session([], old(client.nickname), turn.exit, client.socket.raw.unread)
        && client.nickname == old(client.nickname) && messageHistory == old(messageHistory)
        && forall i :: 0 <= i < |clients| ==> clients[i].socket.written == old(clients[i].socket.written)
      ensures turn.Go? ==>
        |client.socket.raw.unread| < |old(client.socket.raw.unread)|
        && client.nickname == turn.nickname && messageHistory == old(messageHistory) + turn.said
        && (forall i :: 0 <= i < |clients| ==> clients[i].socket.written == old(clients[i].socket.written) + ReplayFrames(turn.said))
        && var later := Serve(client.socket.raw.unread, turn.nickname);
          Serve(old(client.socket.raw.unread), old(client.nickname)) == later.(said := turn.said + later.said)
      ensures forall i :: 0 <= i < |clients| ==> clients[i].socket.raw.closed == old(clients[i].socket.raw.closed)
      ensures forall i :: 0 <= i < |clients| && clients[i] != client ==> clients[i].socket.raw.unread == old(clients[i].socket.raw.unread)
    {
      ghost var before := client.socket.raw.unread;
      var request := ReadFrom(client);
      turn := Dispatch(client, request);
      if turn.Go? {
        ServeGo(before, old(client.nickname));
      } else {
        ServeStop(before, old(client.nickname));
      }
    }

    /** `client.socket.read_request()`: one request read from that client; no other client's stream moves. */
    method ReadFrom(client: TumultClient) returns (r: Protocol.ReadResult)
      requires Valid() && client in clients
      modifies client.socket.raw`unread
      ensures (r, client.socket.raw.unread) == Protocol.NextRequest(old(client.socket.raw.unread))
      ensures client.socket.raw.sent == old(client.socket.raw.sent) && client.socket.written == old(client.socket.written)
      ensures forall i :: 0 <= i < |clients| ==> clients[i].socket.raw.closed == old(clients[i].socket.raw.closed)
      ensures forall i :: 0 <= i < |clients| && clients[i] != client ==> clients[i].socket.raw.unread == old(clients[i].socket.raw.unread)
    {
      ghost var k := IndexOf(clients, client);
      r := client.socket.ReadRequest();
      forall i | 0 <= i < |clients| && clients[i] != client
        ensures clients[i].socket.raw.unread == old(clients[i].socket.raw.unread)
      {
        assert i < k || k < i;
      }
    }

    /** The body of the request loop after the read: what `Handle` says, done to the registry and the history. */
    method Dispatch(client: TumultClient, r: Protocol.ReadResult) returns (turn: Turn)
      requires Valid() && client in clients
      modifies this, client`nickname, SocketSet(clients)`written, RawsOf(clients)`sent
      ensures turn == Handle(r, old(client.nickname))
      ensures Valid() && clients == old(clients)
      ensures turn.Go? ==>
        client.nickname == turn.nickname && messageHistory == old(messageHistory) + turn.said
        && forall i :: 0 <= i < |clients| ==> clients[i].socket.written == old(clients[i].socket.written) + ReplayFrames(turn.said)
      ensures turn.Stop? ==>
        client.nickname == old(client.nickname) && messageHistory == old(messageHistory)
        && forall i :: 0 <= i < |clients| ==> clients[i].socket.written == old(clients[i].socket.written)
      ensures forall i :: 0 <= i < |clients| ==>
        clients[i].socket.raw.unread == old(clients[i].socket.raw.unread) && clients[i].socket.raw.closed == old(clients[i].socket.raw.closed)
    {
      turn := Handle(r, client.nickname);
      if r.Failed? {
        return;
      }
      var header := r.request.header;
      if header.requestType == Protocol.Nickname {
        client.nickname := header.nickname;
        assert messageHistory + [] == messageHistory;
      } else if header.requestType == Protocol.Message {
        var text := Decode(r.request.contents);
        if text.None? {
          return;
        }
        ReplayFramesOne(ChatEntry(client.nickname, text.value));
        BroadcastMessage(client.nickname, text.value);
      } else {
        assert messageHistory + [] == messageHistory;
      }
    }
  }
}
