# Tumult in Dafny

Tumult is a small TCP chat service. A server keeps a registry of connected
clients and an append-only message history. Every client that connects is
sent the history, is asked for a nickname, and then may rename itself or send
chat messages, which the server broadcasts to every registered client. A
client answers the server's nickname requests and turns every other request
into one event for its window.

The wire protocol frames every request as a JSON header of five fields
(version, timestamp, request type code 1 to 4, nickname, content length),
terminated by CR LF, followed by `content_length` bytes of UTF-8 payload.

This project models that core and proves properties of it:

- `protocol.dfy` (`Protocol`): the shared protocol, `src/shared/protocol.py`.
  - The header codec is concrete: `json.dumps` text in, `json.loads` parse out, in UTF-8.
    So the header round trip and the "no raw CR or LF inside a header" property are theorems.
  - `TumultSocket` is a class over a byte stream. `read_request` reads one byte at a time up to
    the first CR LF, then the payload. `wait_for_request` discards frames until one of the
    awaited kind arrives.
- `draft_protocol.dfy` (`DraftProtocol`): the first JSON draft, `src/protocol.py`. It uses the
  same header layout, version "0.1.0", and a `write_message` whose request type is chosen by the
  caller.
- `fixed_width.dfy` (`FixedWidth`): the fixed-width first draft, `src/protocol/protocol.py`.
  Its headers are decimal text padded with spaces to four bytes.
- `server.dfy` (`Server`): `src/server/tumult_server.py`.
  - It has a `TumultServer` class with a client registry (`seq<ClientInfo>`) and a message
    history (`seq<Message>`). Each client's socket records the frames written to it, and the
    server's invariant `Valid` ties that record to the wire: every client connection has sent
    exactly the bytes of those frames, in order, after whatever it had sent before.
  - The request loop is specified by the function `Serve` over the client's unread bytes.
  - The whole handler is specified by `Handled`.
- `draft_server.dfy` (`DraftServer`): `src/server/server.py`. It is the same server, with
  loop-built registry projections and a request loop that catches every exception.
- `client.dfy` (`Client`): `src/client/tumult_client.py`.
  - `ServerInfo` holds the address, port and socket. `TumultClient` holds the nickname and an
    event log that stands for the Qt signals. Its invariant `Valid` says the same of the
    connection to the server: it has sent exactly the bytes of the frames written to it.
  - The request loop is specified by the function `Listen`.
- Supporting modules give the library behaviour the core relies on, stated concretely:
  - `utf8.dfy`: `str.encode` / `bytes.decode` in UTF-8, as in RFC 3629.
  - `json.dfy`: the subset of `json.dumps` / `json.loads` the header uses.
  - `pytext.dfy`: `str(int)`, `int(str)` and `str.strip`.
  - `ipv4.dfy`: dotted-quad parsing as `ipaddress.IPv4Address` does it.
  - `transport.dfy`: a stream socket, as the bytes sent and the bytes not yet read.
  - `options.dfy`: an Option type.

Error handling follows the code for the failures modelled: a read that ends early and a header or
payload that does not decode. Sends never fail in the model (see "Left out"). For the modelled
failures:

- In `tumult_server.py` the request loop catches only `OSError` and its subclasses. A header that
  does not decode, or a MESSAGE payload that is not UTF-8, raises an exception that ends the
  handler thread. The client is then never removed and no LEAVE is broadcast (`Exit.BadHeader`,
  `Exit.BadPayload`). `server.py` catches `Exception`, so every exit of its loop is followed by
  the disconnect.
- Both servers wait for the nickname outside the `try`. A stream that ends before a NICKNAME
  reply ends the handler with the client still registered and no JOIN.
- The client emits `disconnected` after its loop only when a connection error ended the loop.
  Another exception ends the thread silently.

## Model

| member | source | states |
|---|---|---|
| Protocol.Code | src/shared/protocol.py:20-26 | every request type is sent as an integer code from 1 to 4 |
| Protocol.FromCode | src/shared/protocol.py:61 | `RequestType(n)` succeeds exactly for codes 1 to 4, and then gives the type whose code is n |
| Protocol.FromCodeCode | src/shared/protocol.py:20-26 | looking up the code of a request type gives that type back |
| Protocol.PrintableHeaderText | src/shared/protocol.py:41-49 | the JSON text of any header is printable ASCII, whatever its nickname and version hold |
| Protocol.NoRawLineBreak | src/shared/protocol.py:41-50 | printable text holds neither CR nor LF |
| Protocol.ToBytesDelimited | src/shared/protocol.py:39-50 | every encoded header ends with CR LF and holds no other CR or LF byte |
| Protocol.ToBytes | src/shared/protocol.py:39-50 | `to_bytes`: the `json.dumps` text of the five fields, then CR LF, in UTF-8; `ToBytesDelimited` and `HeaderRoundTrip` state its properties |
| Protocol.FromBytes | src/shared/protocol.py:52-64 | `from_bytes`: UTF-8 decoding, `strip`, then the JSON object, failing where `from_bytes` raises; `HeaderRoundTrip` and `UnknownRequestType` state its properties |
| Protocol.ParseHeaderText | src/shared/protocol.py:55-64 | parsing header text gives a header with every field as written when the type code is 1 to 4, and fails otherwise |
| Protocol.ReadBackLine | src/shared/protocol.py:55-57 | decoding and stripping a braced line followed by CR LF gives the line's text back |
| Protocol.HeaderTextBytes | src/shared/protocol.py:39-64 | decoding the encoded bytes of header text gives the header, or fails for an unknown type code |
| Protocol.HeaderRoundTrip | src/shared/protocol.py:39-64 | decoding an encoded header gives back an equal header, field for field |
| Protocol.UnknownRequestType | src/shared/protocol.py:58-64 | a header carrying a type code other than 1 to 4 does not decode |
| Protocol.MessageFrame | src/shared/protocol.py:130-138 | a `write_message` frame has the given kind and nickname, a length equal to its payload, and a payload that decodes to the text; an empty text gives length 0 and no payload |
| Protocol.NoticeFrame | src/shared/protocol.py:140-160 | a header-only frame has the given kind and nickname, length 0 and no payload |
| Protocol.RequestBytes | src/shared/protocol.py:130-160 | the bytes one `write_*` call sends: the encoded header, then the payload; `ReadWritten` reads them back |
| Protocol.FramesBytesConcat | src/shared/protocol.py:130-160 | the bytes of two runs of frames written one after the other are the first run's bytes, then the second's |
| Protocol.SentFollowsWritten | src/shared/protocol.py:130-160 | a connection in step with its frames before and after more frames are written has sent exactly those frames' bytes in between |
| Protocol.HeaderEnd | src/shared/protocol.py:164-172 | the end of the header, when there is one, is a CR LF inside the stream |
| Protocol.HeaderEndFirst | src/shared/protocol.py:166-172 | no CR LF in the stream ends before the header end, so reading stops at the first one |
| Protocol.NextRequest | src/shared/protocol.py:162-180 | a read consumes a prefix of the stream and leaves the rest; a request that is received consumes at least one byte |
| Protocol.HeaderEndOfFrame | src/shared/protocol.py:164-172 | in a stream that starts with an encoded header, the first CR LF ends exactly that header |
| Protocol.ReadAfterHeader | src/shared/protocol.py:174-180 | after a header the reader takes the announced number of payload bytes, or what is left when the stream is shorter, and none for length 0 |
| Protocol.ReadWritten | src/shared/protocol.py:130-180 | reading a stream that starts with any written frame gives that frame, and leaves the rest of the stream unread |
| Protocol.TruncatedHeader | src/shared/protocol.py:166-169 | a stream that ends inside a header gives a ConnectionError and is consumed entirely |
| Protocol.WaitFor | src/shared/protocol.py:182-191 | a request returned while waiting is of the awaited kind, and waiting consumes a prefix of the stream |
| Protocol.WaitForSkipsFrame | src/shared/protocol.py:182-191 | a written frame of another kind is read and discarded by the wait |
| Protocol.WaitForTakesFrame | src/shared/protocol.py:182-191 | a written frame of the awaited kind is what the wait returns, and the rest stays unread |
| Protocol.WaitForFirstMatch | src/shared/protocol.py:182-191 | after any number of frames of other kinds, the wait returns the first frame of the awaited kind and leaves what follows it |
| Protocol.PortPatternRange | src/shared/protocol.py:83-97 | the port pattern matches `str(port)` exactly when 1 <= port <= 65535: no sign, no leading zero |
| Protocol.ValidSocketAddressExact | src/shared/protocol.py:73-101 | a socket address is valid exactly when the address is a dotted-quad IPv4 address and 1 <= port <= 65535 |
| Protocol.ValidSocketAddress | src/shared/protocol.py:72-101 | `valid_socket_address`: the address parses as IPv4 and `str(port)` matches the port pattern; `ValidSocketAddressExact` gives the exact range |
| Protocol.TumultSocket.constructor | src/shared/protocol.py:103-108 | wraps the given connection, with nothing written yet |
| Protocol.TumultSocket.Fresh | src/shared/protocol.py:103-108 | with no connection given, makes a new one that has sent and received nothing |
| Protocol.TumultSocket.StaysSynced | src/shared/protocol.py:130-160 | frames written and sent together keep the bytes on the wire in step with the frames written |
| Protocol.TumultSocket.Close | src/shared/protocol.py:126-128 | closes the connection; sent and unread bytes stay as they were |
| Protocol.TumultSocket.WriteMessage | src/shared/protocol.py:130-138 | sends exactly the MESSAGE frame's bytes, header then payload, and nothing is read |
| Protocol.TumultSocket.WriteJoinMessage | src/shared/protocol.py:140-145 | sends exactly the JOIN header |
| Protocol.TumultSocket.WriteLeaveMessage | src/shared/protocol.py:147-152 | sends exactly the LEAVE header |
| Protocol.TumultSocket.WriteNickname | src/shared/protocol.py:154-160 | sends exactly the NICKNAME header with the given nickname |
| Protocol.TumultSocket.ReadHeaderBytes | src/shared/protocol.py:164-172 | the byte loop takes the stream up to and including its first CR LF, or reports the end of the stream having consumed it all |
| Protocol.TumultSocket.ReadRequest | src/shared/protocol.py:162-180 | returns what `NextRequest` gives for the unread stream and leaves the rest unread; nothing is sent |
| Protocol.TumultSocket.WaitForRequest | src/shared/protocol.py:182-191 | returns what `WaitFor` gives for the unread stream and leaves the rest unread |
| Transport.Connection.Send | src/shared/protocol.py:138 | the bytes are appended to what was sent |
| Transport.Connection.Recv | src/shared/protocol.py:167-179 | returns the first n unread bytes, or all of them when fewer remain, and removes them from the unread stream |
| Transport.Connection.Close | src/shared/protocol.py:126-128 | the connection is closed; nothing else changes |
| Utf8.EncodeChar | src/shared/protocol.py:132 | a character is encoded in one to four bytes; one byte exactly for ASCII, and only bytes of 0x80 or more otherwise |
| Utf8.NoLineBreakBytes | src/shared/protocol.py:50 | text without CR or LF encodes to bytes without CR or LF |
| Utf8.DecodeEncode | src/shared/protocol.py:132 | decoding the UTF-8 form of any text gives the text back |
| Json.PrintableQuote | src/shared/protocol.py:41-49 | `json.dumps` of any string is printable ASCII |
| Json.ScanEscaped | src/shared/protocol.py:55-57 | scanning an escaped string gives it back, and stops right after its closing quote |
| Json.ScanQuotedText | src/shared/protocol.py:55-57 | `json.loads` of `json.dumps` of a string gives the string and the text after it |
| Json.ScanNullableText | src/shared/protocol.py:46 | a nickname written as a string or `null` reads back as itself |
| Json.ScanNatToString | src/shared/protocol.py:45-47 | an integer field reads back as the same number |
| Json.ScanNullableFloatText | src/protocol.py:26 | a timestamp written as a number or `null` reads back as itself |
| Json.ScanFloatText | src/shared/protocol.py:44 | a timestamp reads back as the same value |
| PyText.NatToString | src/server/tumult_server.py:159 | `str(n)` of a natural number is never empty |
| PyText.NatToStringDigits | src/server/tumult_server.py:159 | `str(n)` is decimal digits with no leading zero, "0" only for zero, whose value is n |
| PyText.IntToString | src/shared/protocol.py:95 | `str(i)` starts with a minus sign exactly for negative i |
| PyText.CanonicalDigits | src/shared/protocol.py:83-95 | digit text with no leading zero is `str` of its own value |
| PyText.StripTrailingSpaces | src/shared/protocol.py:55-57 | `strip` of text followed by white space removes exactly the white space |
| PyText.ParseIntPadded | src/protocol/protocol.py:50 | `int()` of a number's digits followed by spaces gives the number |
| Ipv4.ParseOctet | src/shared/protocol.py:78 | an accepted octet is at most 255 |
| Ipv4.ParseFormat | src/shared/protocol.py:78 | every dotted-quad address text parses back to its four octets |
| Ipv4.FormatParse | src/shared/protocol.py:78 | text that parses is the canonical dotted quad of its octets |
| DraftProtocol.DraftHeaderRoundTrip | src/protocol.py:22-51 | a draft header carries version "0.1.0" and the import-time timestamp, is the JSON text of its five fields with CR LF, and decodes back field for field |
| DraftProtocol.DraftMessageReadBack | src/protocol.py:72-120 | a frame from `write_message` reads back with the caller's kind, the nickname, a length equal to the UTF-8 payload and the text, leaving the rest unread |
| DraftProtocol.DraftNoticeReadBack | src/protocol.py:86-120 | a header-only frame reads back with its kind and nickname, length 0 and no payload |
| DraftProtocol.DraftSocket.constructor | src/protocol.py:61-70 | wraps an existing connection, with nothing written yet |
| DraftProtocol.DraftSocket.Fresh | src/protocol.py:58-59 | a new connection that has sent and received nothing |
| DraftProtocol.DraftSocket.WriteMessage | src/protocol.py:72-84 | sends exactly the frame of the caller's kind: header then payload |
| DraftProtocol.DraftSocket.WriteJoinMessage | src/protocol.py:86-90 | sends exactly the JOIN header |
| DraftProtocol.DraftSocket.WriteLeaveMessage | src/protocol.py:92-96 | sends exactly the LEAVE header |
| DraftProtocol.DraftSocket.WriteNickname | src/protocol.py:98-103 | sends exactly the NICKNAME header |
| DraftProtocol.DraftSocket.ReadHeaderBytes | src/protocol.py:106-114 | takes the stream up to and including its first CR LF, or reports the end of the stream having consumed it all |
| DraftProtocol.DraftSocket.ReadRequest | src/protocol.py:105-120 | returns what `NextRequest` gives for the unread stream and leaves the rest unread |
| DraftProtocol.DraftSocket.WaitForRequest | src/protocol.py:122-128 | returns the first request of the awaited kind, discarding the ones before it |
| FixedWidth.Spaces | src/protocol/protocol.py:20-22 | `b" " * n` is n spaces, and empty when n is zero or negative |
| FixedWidth.HeaderPad | src/protocol/protocol.py:18-22 | `header_pad`: the contents, then spaces up to four bytes; `HeaderPadShort` and `HeaderPadLong` state the two cases |
| FixedWidth.HeaderPadShort | src/protocol/protocol.py:18-22 | contents shorter than four bytes are kept and right-padded with spaces to exactly four bytes |
| FixedWidth.HeaderPadLong | src/protocol/protocol.py:18-22 | contents of four bytes or more are returned unchanged |
| FixedWidth.RequestHeaderBytes | src/protocol/protocol.py:14-27 | DISCONNECT is sent as "0   " and MESSAGE as "1   " |
| FixedWidth.SendRequestHeader | src/protocol/protocol.py:24-27 | sends exactly the padded code of the request |
| FixedWidth.SendMessageHeader | src/protocol/protocol.py:29-32 | sends exactly the padded decimal length |
| FixedWidth.SendMessage | src/protocol/protocol.py:34-39 | sends the MESSAGE header, then the padded UTF-8 length, then the payload |
| FixedWidth.SendMessageChecked | src/protocol/protocol.py:34-39 | sends the message exactly when its UTF-8 form fits the four-byte length header, and otherwise sends nothing |
| FixedWidth.HandleIncomingMessage | src/protocol/protocol.py:41-53 | returns what `IncomingMessage` gives for the unread stream, and consumes the bytes it says |
| FixedWidth.HandleIncomingRequest | src/protocol/protocol.py:55-59 | consumes four bytes and returns them decoded |
| FixedWidth.IncomingMessage | src/protocol/protocol.py:41-53 | `handle_incoming_message` on the unread stream: no message at its end, an error for a header or payload that does not decode or a length that does not parse, else the length and the text; `NoMessageAtEnd` and `MessageRoundTrip` state its properties |
| FixedWidth.IncomingRequest | src/protocol/protocol.py:55-59 | `handle_incoming_request`: the first four bytes decoded, and the rest of the stream; `RequestHeaderRoundTrip` reads a sent header back |
| FixedWidth.NoMessageAtEnd | src/protocol/protocol.py:43-48 | the reader reports no message exactly when the stream is exhausted |
| FixedWidth.ShortHeader | src/protocol/protocol.py:29-32 | a length below 10000 is sent as exactly four bytes: its digits padded with spaces |
| FixedWidth.ShortHeaderValue | src/protocol/protocol.py:43-50 | the four bytes of such a header decode to text that `int()` parses to the length |
| FixedWidth.LengthHeaderRoundTrip | src/protocol/protocol.py:29-50 | for lengths below 10000, the reader takes exactly the four header bytes and parses them to the length sent |
| FixedWidth.RequestHeaderRoundTrip | src/protocol/protocol.py:24-27 | a request header read back parses to the request's code, and the stream after it is left |
| FixedWidth.LengthAndPayload | src/protocol/protocol.py:41-53 | a length header and its payload read back as that length and the message |
| FixedWidth.MessageRoundTrip | src/protocol/protocol.py:34-58 | a message whose payload is under 10000 bytes is read back as the MESSAGE code, then its length and its text, leaving the rest of the stream |
| FixedWidth.FourDigitsValue | src/protocol/protocol.py:50 | four digits parse to a value below 10000 |
| FixedWidth.LongHeader | src/protocol/protocol.py:29-32 | a length of 10000 or more is sent as more than four bytes, of which the reader takes only the first four digits |
| FixedWidth.LongLengthMisread | src/protocol/protocol.py:29-53 | a payload of 10000 bytes or more is never read back under its own length |
| Server.ClientInfo.constructor | src/server/tumult_server.py:16-23 | a client record with the given address, port and socket, and no nickname |
| Server.EntryRequest | src/server/tumult_server.py:118-128 | a history entry is replayed as a frame of its own kind and nickname, whose payload decodes to its contents for a MESSAGE |
| Server.ReplayFramesSnoc | src/server/tumult_server.py:121-128 | replaying one more entry writes its frames after those of the earlier entries |
| Server.ReplayFramesConcat | src/server/tumult_server.py:121-128 | replaying two parts of a history writes the first part's frames, then the second's |
| Server.ReplayFrames | src/server/tumult_server.py:118-128 | the frames `send_message_history` writes for a run of entries; `ReplayFramesEntries` says they are one per entry, in order |
| Server.ReplayBytesSnoc | src/server/tumult_server.py:121-128 | replaying one more entry sends its frame's bytes after the bytes of the earlier entries |
| Server.ReplayFramesEntries | src/server/tumult_server.py:118-128 | replay writes exactly one frame per entry, in history order, each the entry's own frame |
| Server.ReplayReadBack | src/server/tumult_server.py:118-128 | a client reading a replayed history reads the first entry's frame first, and the rest of the replay after it |
| Server.DefaultNicknames | src/server/tumult_server.py:154-160 | the first registered client's default is "User1", and clients at different positions get different defaults |
| Server.DefaultNickname | src/server/tumult_server.py:154-160 | `_generate_nickname`: "User" and the registry position plus one; `DefaultNicknames` says the defaults are distinct and start at "User1" |
| Server.ResolvedNickname | src/server/tumult_server.py:139-142 | a reply's nickname is adopted unless it is None, even if empty; None gets the default of the client's position |
| Server.Handle | src/server/tumult_server.py:176-213 | one pass of the loop: NICKNAME renames, MESSAGE broadcasts one chat entry under the current nickname, other kinds are ignored; a failed read or an undecodable payload stops it, and only a closed stream counts as a lost connection |
| Server.ServeSaysMessages | src/server/tumult_server.py:180-187 | the request loop only ever broadcasts MESSAGE entries |
| Server.ServeWritten | src/server/tumult_server.py:182-183 | a stream of NICKNAME requests only renames the client, to the last nickname sent, with nothing broadcast, until the connection is lost |
| Server.ServeMessages | src/server/tumult_server.py:185-187 | a stream of MESSAGE frames is broadcast as one chat entry per message, in order, under the client's nickname |
| Server.Serve | src/server/tumult_server.py:173-213 | the request loop on the unread stream: what it broadcasts, its final nickname, how it exits and what it leaves unread; `ServeSaysMessages`, `ServeWritten` and `ServeMessages` state its properties |
| Server.Handled | src/server/tumult_server.py:162-214 | the whole handler: the wait for a nickname outside the `try`, then the loop, then a LEAVE only after a lost connection; `HandledShape` and `WellBehavedClient` state its properties |
| Server.HandledShape | src/server/tumult_server.py:162-214 | a handler adds nothing when no nickname reply comes; otherwise one JOIN with a nickname that is not None, then only MESSAGE entries, then one LEAVE under the last nickname exactly when the client is disconnected |
| Server.WellBehavedClient | src/server/tumult_server.py:162-214 | a client that sends its nickname and some messages, then closes, is announced, has every message broadcast in order, and leaves under its nickname |
| Server.IndexOf | src/server/tumult_server.py:159 | `list.index` gives the first position holding the client |
| Server.WriteEntry | src/server/tumult_server.py:122-128 | writes exactly the frames of one history entry to one socket |
| Server.SendToAll | src/server/tumult_server.py:99-100 | every registered client is sent the entry's frame once, its connection sends exactly that frame's bytes and stays in step, and nothing is read |
| Server.WriteTo | src/server/tumult_server.py:99-100 | one pass of the fan-out: one client's connection sends the entry's frame bytes; every other client's socket is left as it was |
| Server.TumultServer.constructor | src/server/tumult_server.py:47-52 | a server with the given address, no clients and no history |
| Server.TumultServer.ClientSockets | src/server/tumult_server.py:73-76 | the clients' sockets, in registry order |
| Server.TumultServer.ClientNicknames | src/server/tumult_server.py:78-81 | the clients' nicknames, in registry order |
| Server.TumultServer.ClientIpv4Addresses | src/server/tumult_server.py:83-86 | the clients' addresses, in registry order |
| Server.TumultServer.Broadcast | src/server/tumult_server.py:94-116 | appends the entry to the end of the history and writes its frame to every registered client, whose connection sends exactly that frame's bytes |
| Server.TumultServer.BroadcastMessage | src/server/tumult_server.py:94-100 | appends one MESSAGE entry and sends one MESSAGE frame to every client, the sender included; the registry is unchanged |
| Server.TumultServer.BroadcastJoinMessage | src/server/tumult_server.py:102-108 | appends one "joined" JOIN entry and sends the JOIN frame to every client |
| Server.TumultServer.BroadcastLeaveMessage | src/server/tumult_server.py:110-116 | appends one "left" LEAVE entry and sends the LEAVE frame to every client |
| Server.TumultServer.SendMessageHistory | src/server/tumult_server.py:118-128 | writes the replay of the whole history to the one client, in history order, and its connection sends exactly those frames' bytes |
| Server.TumultServer.ReplayOne | src/server/tumult_server.py:121-128 | one pass of the replay loop: the entry's frame and bytes follow those of the entries before it |
| Server.TumultServer.RequestNickname | src/server/tumult_server.py:130-133 | writes one NICKNAME frame carrying the client's current nickname, and its connection sends exactly that frame's bytes |
| Server.TumultServer.GenerateNickname | src/server/tumult_server.py:154-160 | the nickname becomes "User" and the client's registry position plus one |
| Server.TumultServer.WaitForNickname | src/server/tumult_server.py:135-143 | waits for the first NICKNAME reply, resolves the nickname from it, and broadcasts exactly one JOIN; nothing changes when the stream ends first |
| Server.TumultServer.WaitFrom | src/server/tumult_server.py:137 | the wait on this client's socket alone; nothing is written or sent, and the other clients' streams are untouched |
| Server.TumultServer.AcceptNickname | src/server/tumult_server.py:139-143 | adopts the resolved nickname and broadcasts one JOIN under it |
| Server.TumultServer.DisconnectClient | src/server/tumult_server.py:145-152 | removes the client, keeping the others in order, closes its socket, then broadcasts LEAVE under its last nickname to the remaining clients only; nothing more is written or sent to the leaving client, whose bytes still match its frames |
| Server.TumultServer.HandleClientRequests | src/server/tumult_server.py:162-214 | the handler does what `Handled` says: registry, history, nickname, unread stream and closing, the welcome written to the client, and the same broadcasts to every earlier client; the invariant holds afterwards, and the handled client's bytes match its frames even when it has left the registry |
| Server.TumultServer.Welcome | src/server/tumult_server.py:164-171 | appends the client to the registry, writes the history then a NICKNAME request, and negotiates the nickname |
| Server.TumultServer.ServeUntilExit | src/server/tumult_server.py:173-214 | serves the client as `Serve` says, then disconnects it exactly when the connection was lost; the served client's bytes match its frames either way |
| Server.TumultServer.DisconnectLast | src/server/tumult_server.py:145-152 | disconnecting the most recently registered client drops the end of the registry and sends LEAVE to the rest; the leaving client is sent nothing and its bytes match its frames |
| Server.TumultServer.Admit | src/server/tumult_server.py:165-170 | the client is appended at the end of the registry, then sent the history and a NICKNAME request; every connection stays in step with its frames |
| Server.TumultServer.Greet | src/server/tumult_server.py:167-170 | the history replay and the NICKNAME request go to the new client alone; no other client's frames or bytes change |
| Server.TumultServer.ServeRequests | src/server/tumult_server.py:173-213 | the request loop does what `Serve` says of the unread stream: entries broadcast, final nickname, exit and the rest unread |
| Server.TumultServer.ServeStep | src/server/tumult_server.py:174-187 | one pass of the loop either stops where `Serve` stops, or consumes input and leaves the rest of `Serve` to the following passes |
| Server.TumultServer.ReadFrom | src/server/tumult_server.py:176 | one read from this client's socket, as `NextRequest` says; nothing is written or sent |
| Server.TumultServer.Dispatch | src/server/tumult_server.py:180-187 | acts on a read as `Handle` says: a rename, one broadcast, or nothing |
| DraftServer.DraftHandled | src/server/server.py:141-188 | the draft handler: the wait for a nickname, then the loop, then always the disconnect; `DraftHandledShape` and `DraftAgreesWithServer` state its properties |
| DraftServer.DraftHandledShape | src/server/server.py:141-188 | the draft handler adds nothing when no nickname reply comes; otherwise one JOIN with a nickname that is not None, only MESSAGE entries, and always one LEAVE under the last nickname |
| DraftServer.DraftAgreesWithServer | src/server/server.py:151-188 | the draft and the final handler agree on everything except when the final one's loop ends with an exception it does not catch; there only the draft disconnects |
| DraftServer.TumultServer.constructor | src/server/server.py:37-42 | a server with the given address, no clients and no history |
| DraftServer.TumultServer.ClientSockets | src/server/server.py:58-63 | the loop collects the clients' sockets, same length and order as the registry |
| DraftServer.TumultServer.ClientNicknames | src/server/server.py:65-70 | the loop collects the clients' nicknames, same length and order |
| DraftServer.TumultServer.ClientIpv4Addresses | src/server/server.py:72-77 | the loop collects the clients' addresses, same length and order |
| DraftServer.TumultServer.Broadcast | src/server/server.py:84-103 | appends the entry to the history and writes its frame to every client |
| DraftServer.TumultServer.BroadcastMessage | src/server/server.py:84-89 | appends one MESSAGE entry and sends it to every client in registry order |
| DraftServer.TumultServer.BroadcastJoinMessage | src/server/server.py:91-96 | appends one "joined" entry and sends the JOIN frame to every client |
| DraftServer.TumultServer.BroadcastLeaveMessage | src/server/server.py:98-103 | appends one "left" entry and sends the LEAVE frame to every client |
| DraftServer.TumultServer.SendMessageHistory | src/server/server.py:105-114 | replays every history entry, in order, to the one client, and its connection sends exactly those frames' bytes |
| DraftServer.TumultServer.ReplayOne | src/server/server.py:108-114 | one pass of the replay loop: the entry's frame and bytes follow those of the entries before it |
| DraftServer.TumultServer.RequestNickname | src/server/server.py:116-118 | writes one NICKNAME frame with the client's current nickname |
| DraftServer.TumultServer.GenerateNickname | src/server/server.py:137-139 | the nickname becomes "User" and the registry position plus one |
| DraftServer.TumultServer.WaitForNickname | src/server/server.py:120-127 | generates a default only for a None reply, otherwise adopts the reply, then broadcasts one JOIN |
| DraftServer.TumultServer.WaitFrom | src/server/server.py:121 | the wait on this client's socket alone; nothing is written or sent |
| DraftServer.TumultServer.AcceptNickname | src/server/server.py:123-127 | adopts the resolved nickname and broadcasts one JOIN under it |
| DraftServer.TumultServer.DisconnectClient | src/server/server.py:129-135 | removes the client, closes its socket, then broadcasts LEAVE to the remaining clients only; nothing more is written or sent to the leaving client, whose bytes still match its frames |
| DraftServer.TumultServer.HandleClientRequests | src/server/server.py:141-188 | the draft handler does what `DraftHandled` says; every loop exit is followed by the disconnect; the invariant holds afterwards, and the handled client's bytes match its frames |
| DraftServer.TumultServer.Welcome | src/server/server.py:142-149 | appends the client, writes the history then a NICKNAME request, and negotiates the nickname |
| DraftServer.TumultServer.ServeUntilExit | src/server/server.py:151-188 | serves the client as `Serve` says, then always disconnects it; the served client's bytes match its frames |
| DraftServer.TumultServer.DisconnectLast | src/server/server.py:129-135 | disconnecting the last registered client drops the end of the registry and sends LEAVE to the rest; the leaving client is sent nothing and its bytes match its frames |
| DraftServer.TumultServer.Admit | src/server/server.py:143-148 | the client is appended to the registry, then sent the history and a NICKNAME request; every connection stays in step with its frames |
| DraftServer.TumultServer.Greet | src/server/server.py:145-148 | the history replay and the NICKNAME request go to the new client alone; no other client's frames or bytes change |
| DraftServer.TumultServer.ServeRequests | src/server/server.py:151-166 | the request loop does what `Serve` says of the unread stream |
| DraftServer.TumultServer.ServeStep | src/server/server.py:153-165 | one pass of the loop either stops where `Serve` stops, or consumes input and leaves the rest to the following passes |
| DraftServer.TumultServer.ReadFrom | src/server/server.py:154 | one read from this client's socket; nothing is written or sent |
| DraftServer.TumultServer.Dispatch | src/server/server.py:155-165 | acts on a read as `Handle` says |
| Client.React | src/client/tumult_client.py:111-134 | one pass of the loop: NICKNAME is answered with one NICKNAME frame carrying the client's own nickname; MESSAGE, JOIN and LEAVE give exactly one matching event with the header's nickname; a failed read or an undecodable payload ends the loop |
| Client.Listen | src/client/tumult_client.py:106-149 | the client loop on the unread stream: its events, its replies, how it ended and what it left unread; `ListenReplies`, `ListenDisconnects` and `ListenToWelcome` state its properties |
| Client.ListenReplies | src/client/tumult_client.py:117-121 | every reply the loop writes is a NICKNAME frame with the client's own nickname |
| Client.ListenDisconnects | src/client/tumult_client.py:109-149 | `disconnected` is emitted exactly once, as the last event, when a connection error ended the loop, and never otherwise |
| Client.EntryReadBack | src/client/tumult_client.py:123-134 | a history entry replayed by the server gives the client exactly the matching event, and no reply |
| Client.HistoryEvents | src/client/tumult_client.py:123-134 | the events for a replayed history: one per entry, in order, each the entry's own event |
| Client.ListenToWelcome | src/client/tumult_client.py:109-149 | a client that reads the server's welcome and then the end of the stream emits one event per history entry in order, answers the nickname request once with its own nickname, then emits `disconnected` |
| Client.ServerInfo.constructor | src/client/tumult_client.py:14-20 | no address, no port, and the default socket |
| Client.ServerInfo.SocketAddress | src/client/tumult_client.py:26-29 | the `socket_address` getter: the address and the port, as a pair; `SetSocketAddress` reads it back |
| Client.ServerInfo.SetSocketAddress | src/client/tumult_client.py:26-34 | reading the socket address after setting it gives the pair that was set; the socket stays |
| Client.ServerInfo.AddressScope | src/client/tumult_client.py:36-50 | "unknown" exactly for a missing or unparsable address, else "loopback", then "private", then "public", then "reserved", each exactly when the earlier tests fail |
| Client.TumultClient.constructor | src/client/tumult_client.py:65-68 | no nickname, a fresh server record and no events |
| Client.TumultClient.SendNickname | src/client/tumult_client.py:70-72 | writes one NICKNAME frame with the client's nickname, None included, and the connection sends exactly that frame's bytes |
| Client.TumultClient.SendMessage | src/client/tumult_client.py:74-76 | writes one MESSAGE frame with the client's nickname and the text, and the connection sends exactly that frame's bytes |
| Client.TumultClient.Connect | src/client/tumult_client.py:78-104 | True exactly when the connection is made; False, after exactly one `disconnected` event, exactly on a caught connection error |
| Client.TumultClient.HandleServerRequests | src/client/tumult_client.py:106-149 | the events, the replies, the bytes sent for the replies and the unread stream are what `Listen` says of the unread stream |
| Client.TumultClient.RequestLoop | src/client/tumult_client.py:109-147 | the loop emits and sends what `Listen` says, except the final `disconnected`, and reports how it ended |
| Client.TumultClient.HandleRequest | src/client/tumult_client.py:110-134 | one pass of the loop either ends where `Listen` ends, or consumes input and leaves the rest of `Listen` to the following passes |
| Client.TumultClient.LeaveServer | src/client/tumult_client.py:151-156 | address and port become None, the old socket is closed, and a fresh socket is installed; calling it again gives the same address state |

## Left out

- Threads and concurrency: the accept loops (`_handle_client_connections` and `handle_client_connections`) and the client's background thread are not modelled. Handlers are modelled one at a time, so interleavings on the shared registry and history are not covered.
- Binding, listening, accepting and the OS's connect attempt are not modelled. The outcome of `socket.connect` is a parameter of `Client.TumultClient.Connect`.
- `ServerInfo.connect` is not modelled; it only forwards to the socket's connect.
- Timeouts and the individual OS error subclasses are one outcome: the end of the stream.
- Logging calls, and the `__str__` and `socket_address` helpers of `ClientInfo` and `TumultServer` in both servers, are left out; they only format text.
- Protocol.NextRequest: `recv(content_length)` is modelled as taking all the announced bytes that are available. A short read in the middle of a live stream is not modelled; the model shortens the payload only at the end of the stream.
- FixedWidth.HandleIncomingMessage and FixedWidth.HandleIncomingRequest: `recv(4)` and `recv(message_length)` (`src/protocol/protocol.py` lines 43 and 51, and line 57 for the request) are modelled as taking all the asked-for bytes that are available. A short read in the middle of a live stream is not modelled; fewer bytes come back only at the end of the stream.
- Protocol.FromBytes: only header text laid out as `json.dumps` writes it is accepted. Other JSON with the same fields (different spacing, key order, or escapes) that `json.loads` would take is refused as a malformed header. `ParseHeaderText` is the exact statement. Python's `from_bytes` checks only the request type, so it also accepts fields of other JSON types that the model refuses as a malformed header: a negative or float `content_length`; a timestamp written as an integer or in exponent form; and a version or nickname that is a number, a boolean or `null`. With a `content_length` of zero or below, `read_request` reads no payload (`src/shared/protocol.py` lines 175-179), and a positive float makes `recv` raise `TypeError`. For example, a MESSAGE header with `content_length` -1 makes `tumult_server.py` broadcast an empty message and keep serving the client. The model instead ends the handler with `BadHeader`, which leaves the client registered with no LEAVE broadcast.
- Timestamps are decimal text carried through the codec unchanged. Floating-point values and the repr algorithm are not modelled. The `time.time()` default read when the class is defined is an unknown constant.
- `ipaddress` tables: `is_loopback` is modelled as 127.0.0.0/8. `is_private` and `is_global` are parameters of `Client.ServerInfo.AddressScope`, since their tables depend on the Python version.
- The `ServerInfo.socket` default is one socket made when the class is defined. The model passes it to the constructor.
- PyQt signal argument conversion (a None nickname passed to a `str` signal) is not modelled; the event keeps the Option value.
- Transport.Connection.Send: a send never fails and never sends part of its data, and a send after `close` still succeeds. The source ignores the count `send` returns (`src/shared/protocol.py` lines 138, 145, 152 and 160; `src/protocol/protocol.py` lines 27, 32 and 39), so a partial send is not modelled. A send that raises is not modelled either: a broadcast that fails inside the request loop of `tumult_server.py` disconnects the sender rather than the client being written to (lines 187 and 207); a JOIN broadcast that fails in `_wait_for_nickname` raises outside the `try` (line 143); and in the client, an `OSError` that is not a `ConnectionError` ends the thread without `disconnected` (`tumult_client.py` lines 136-149). Sending on a closed socket raises `OSError` in Python.
- FixedWidth.HandleIncomingMessage: the length and request-type fields are read with digits `0` to `9` only. Python's `int()` also accepts `_` between digits ("1_00" is 100) and decimal digits of other scripts, such as Arabic-Indic digits; a header using those is refused as malformed here.
- The window, the entry points and `src/client/client.py` are not part of this model.

## Findings

| source | as written | input that shows it | evidently intended | confidence | as-written member | corrected member |
|---|---|---|---|---|---|---|
| src/protocol/protocol.py:29-53 | `send_message_header` pads the decimal length to four bytes, but a length of 10000 or more has five or more digits, which `header_pad` leaves unpadded; the reader takes only the first four bytes as the length | any message whose UTF-8 form is 10000 bytes long: the header "10000" is read as length 1000 | lengths that do not fit in four bytes are refused before anything is sent | not executed | FixedWidth.LongLengthMisread | FixedWidth.SendMessageChecked |
