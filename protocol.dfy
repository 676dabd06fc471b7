/**
 * The Tumult wire protocol. A frame is a header followed by a payload. The
 * header is the `json.dumps` text of five fields (version, timestamp,
 * request type, nickname, content length) followed by CR LF and encoded in
 * UTF-8; the payload is `content_length` bytes, the UTF-8 text of a chat
 * message for MESSAGE frames and empty otherwise.
 */
module Protocol {
  import opened Options
  import opened Utf8
  import opened PyText
  import Json
  import Ipv4
  import Transport

  const ProtocolVersion := "1.0"
  const DefaultIpv4Address := "127.0.0.1"
  const DefaultPort := 65535

  datatype RequestType = Message | JoinMessage | LeaveMessage | Nickname

  /** The integer value of each request type on the wire. */
  function Code(t: RequestType): (n: nat)
    ensures 1 <= n <= 4
  {
    match t
    case Message => 1
    case JoinMessage => 2
    case LeaveMessage => 3
    case Nickname => 4
  }

  /** `RequestType(n)`: None plays the part of the ValueError for an unknown code. */
  function FromCode(n: int): (r: Option<RequestType>)
    ensures r.Some? <==> 1 <= n <= 4
    ensures r.Some? ==> Code(r.value) == n
  {
    if n == 1 then Some(Message)
    else if n == 2 then Some(JoinMessage)
    else if n == 3 then Some(LeaveMessage)
    else if n == 4 then Some(Nickname)
    else None
  }

  lemma FromCodeCode(t: RequestType)
    ensures FromCode(Code(t)) == Some(t)
  {
  }

  /**
   * The value `time.time()` had when the protocol module was loaded: the
   * default timestamp of every header built by this module, fixed once.
   */
  const ImportTime: Json.Float

  datatype Header = Header(
    requestType: RequestType,
    version: string,
    timestamp: Option<Json.Float>,
    nickname: Option<string>,
    contentLength: nat)

  const VersionKey := "{\"version\": "
  const TimestampKey := ", \"timestamp\": "
  const RequestTypeKey := ", \"request_type\": "
  const NicknameKey := ", \"nickname\": "
  const ContentLengthKey := ", \"content_length\": "

  /**
   * `json.dumps` of the header dictionary, with any integer in the request
   * type field, so that text carrying an unknown code can be written down
   * too. The text is built from the back: each `...Tail` function is the
   * text from one key to the closing brace.
   */
  function HeaderText(version: string, timestamp: Option<Json.Float>, code: nat, nickname: Option<string>, contentLength: nat): string {
    VersionKey + (Json.Quote(version) + TimestampTail(timestamp, code, nickname, contentLength))
  }

  function TimestampTail(timestamp: Option<Json.Float>, code: nat, nickname: Option<string>, contentLength: nat): string {
    TimestampKey + (Json.NullableFloatText(timestamp) + RequestTypeTail(code, nickname, contentLength))
  }

  function RequestTypeTail(code: nat, nickname: Option<string>, contentLength: nat): string {
    RequestTypeKey + (NatToString(code) + NicknameTail(nickname, contentLength))
  }

  function NicknameTail(nickname: Option<string>, contentLength: nat): string {
    NicknameKey + (Json.NullableText(nickname) + ContentLengthTail(contentLength))
  }

  function ContentLengthTail(contentLength: nat): string {
    ContentLengthKey + (NatToString(contentLength) + "}")
  }

  lemma HeaderTextBraces(version: string, timestamp: Option<Json.Float>, code: nat, nickname: Option<string>, contentLength: nat)
    ensures var r := HeaderText(version, timestamp, code, nickname, contentLength);
      |r| >= 2 && r[0] == '{' && r[|r| - 1] == '}'
  {
    TimestampTailBrace(timestamp, code, nickname, contentLength);
    KeyedEndsWithBrace(VersionKey, Json.Quote(version), TimestampTail(timestamp, code, nickname, contentLength));
    var r := HeaderText(version, timestamp, code, nickname, contentLength);
    assert r[0] == VersionKey[0];
  }

  /** Non-empty and closed by a brace, as every tail of the header text is. */
  predicate EndsWithBrace(t: string) {
    t != [] && t[|t| - 1] == '}'
  }

  /** A key and a value in front of a text that ends with a closing brace still end with it. */
  lemma KeyedEndsWithBrace(key: string, value: string, tail: string)
    requires EndsWithBrace(tail)
    ensures EndsWithBrace(key + (value + tail))
  {
    var t := key + (value + tail);
    assert t[|t| - 1] == tail[|tail| - 1];
  }

  lemma TimestampTailBrace(timestamp: Option<Json.Float>, code: nat, nickname: Option<string>, contentLength: nat)
    ensures EndsWithBrace(TimestampTail(timestamp, code, nickname, contentLength))
  {
    RequestTypeTailBrace(code, nickname, contentLength);
    KeyedEndsWithBrace(TimestampKey, Json.NullableFloatText(timestamp), RequestTypeTail(code, nickname, contentLength));
  }

  lemma RequestTypeTailBrace(code: nat, nickname: Option<string>, contentLength: nat)
    ensures EndsWithBrace(RequestTypeTail(code, nickname, contentLength))
  {
    NicknameTailBrace(nickname, contentLength);
    KeyedEndsWithBrace(RequestTypeKey, NatToString(code), NicknameTail(nickname, contentLength));
  }

  lemma NicknameTailBrace(nickname: Option<string>, contentLength: nat)
    ensures EndsWithBrace(NicknameTail(nickname, contentLength))
  {
    KeyedEndsWithBrace(ContentLengthKey, NatToString(contentLength), "}");
    KeyedEndsWithBrace(NicknameKey, Json.NullableText(nickname), ContentLengthTail(contentLength));
  }

  /** The header text is printable ASCII, as `json.dumps` with `ensure_ascii` writes it. */
  lemma PrintableHeaderText(version: string, timestamp: Option<Json.Float>, code: nat, nickname: Option<string>, contentLength: nat)
    ensures Json.Printable(HeaderText(version, timestamp, code, nickname, contentLength))
  {
    PrintableTimestampTail(timestamp, code, nickname, contentLength);
    Json.PrintableQuote(version);
    PrintableKey(VersionKey);
    PrintableKeyed(VersionKey, Json.Quote(version), TimestampTail(timestamp, code, nickname, contentLength));
  }

  lemma PrintableTimestampTail(timestamp: Option<Json.Float>, code: nat, nickname: Option<string>, contentLength: nat)
    ensures Json.Printable(TimestampTail(timestamp, code, nickname, contentLength))
  {
    PrintableRequestTypeTail(code, nickname, contentLength);
    PrintableNullableFloat(timestamp);
    PrintableKey(TimestampKey);
    PrintableKeyed(TimestampKey, Json.NullableFloatText(timestamp), RequestTypeTail(code, nickname, contentLength));
  }

  lemma PrintableRequestTypeTail(code: nat, nickname: Option<string>, contentLength: nat)
    ensures Json.Printable(RequestTypeTail(code, nickname, contentLength))
  {
    PrintableNicknameTail(nickname, contentLength);
    NatToStringDigits(code);
    PrintableDigits(NatToString(code));
    PrintableKey(RequestTypeKey);
    PrintableKeyed(RequestTypeKey, NatToString(code), NicknameTail(nickname, contentLength));
  }

  lemma PrintableNicknameTail(nickname: Option<string>, contentLength: nat)
    ensures Json.Printable(NicknameTail(nickname, contentLength))
  {
    PrintableContentLengthTail(contentLength);
    Json.PrintableNullableText(nickname);
    PrintableKey(NicknameKey);
    PrintableKeyed(NicknameKey, Json.NullableText(nickname), ContentLengthTail(contentLength));
  }

  lemma PrintableContentLengthTail(contentLength: nat)
    ensures Json.Printable(ContentLengthTail(contentLength))
  {
    NatToStringDigits(contentLength);
    PrintableDigits(NatToString(contentLength));
    PrintableKey(ContentLengthKey);
    PrintableKey("}");
    PrintableKeyed(ContentLengthKey, NatToString(contentLength), "}");
  }

  /** The keys are printable: every character lies between space and tilde. */
  lemma PrintableKey(key: string)
    requires key in {VersionKey, TimestampKey, RequestTypeKey, NicknameKey, ContentLengthKey, "}"}
    ensures Json.Printable(key)
  {
  }

  /** A printable key, a printable value, and a printable tail make a printable text. */
  lemma PrintableKeyed(key: string, value: string, tail: string)
    requires Json.Printable(key) && Json.Printable(value) && Json.Printable(tail)
    ensures Json.Printable(key + (value + tail))
  {
    Json.PrintableConcat(value, tail);
    Json.PrintableConcat(key, value + tail);
  }

  lemma PrintableDigits(s: string)
    requires AllDigits(s)
    ensures Json.Printable(s)
  {
    forall i | 0 <= i < |s| ensures ' ' <= s[i] <= '~' {
      assert IsDigit(s[i]);
    }
  }

  lemma PrintableNullableFloat(t: Option<Json.Float>)
    ensures Json.Printable(Json.NullableFloatText(t))
  {
    if t.Some? {
      var f := t.value;
      NatToStringDigits(f.whole);
      PrintableDigits(NatToString(f.whole));
      PrintableDigits(f.fraction);
      Json.PrintableConcat(NatToString(f.whole), ".");
      Json.PrintableConcat(NatToString(f.whole) + ".", f.fraction);
    }
  }

  function HeaderJson(h: Header): string {
    HeaderText(h.version, h.timestamp, Code(h.requestType), h.nickname, h.contentLength)
  }

  /** `TumultHeader.to_bytes`: the JSON text and CR LF, in UTF-8. */
  function ToBytes(h: Header): seq<byte> {
    Encode(HeaderJson(h) + "\r\n")
  }

  /** An encoded header ends with CR LF and holds no other CR or LF byte. */
  lemma ToBytesDelimited(h: Header)
    ensures var r := ToBytes(h);
      |r| >= 2 && r[|r| - 2..] == [CR, LF] && CR !in r[..|r| - 2] && LF !in r[..|r| - 2]
  {
    var text := HeaderJson(h);
    PrintableHeaderText(h.version, h.timestamp, Code(h.requestType), h.nickname, h.contentLength);
    EncodeConcat(text, "\r\n");
    assert Encode("\r\n") == [CR, LF];
    NoRawLineBreak(text);
    NoLineBreakBytes(text);
    var r := ToBytes(h);
    assert r == Encode(text) + [CR, LF];
    assert r[..|r| - 2] == Encode(text);
  }

  lemma NoRawLineBreak(s: string)
    requires Json.Printable(s)
    ensures '\r' !in s && '\n' !in s
  {
    forall i | 0 <= i < |s| ensures s[i] != '\r' && s[i] != '\n' {
      assert ' ' <= s[i];
    }
  }

  /**
   * Reads the header dictionary back, accepting the layout `json.dumps`
   * writes. None stands for every error `TumultHeader.from_bytes` raises:
   * text that is not this layout, or an unknown request type code.
   */
  function ParseHeaderJson(s: string): Option<Header> {
    var s1 :- Json.Expect(VersionKey, s);
    var p1 :- Json.ScanQuoted(s1);
    var fields :- ParseTimestampTail(p1.1);
    var kind :- FromCode(fields.1);
    Some(Header(kind, p1.0, fields.0, fields.2, fields.3))
  }

  function ParseTimestampTail(s: string): Option<(Option<Json.Float>, nat, Option<string>, nat)> {
    var s1 :- Json.Expect(TimestampKey, s);
    var p1 :- Json.ScanNullableFloat(s1);
    var fields :- ParseRequestTypeTail(p1.1);
    Some((p1.0, fields.0, fields.1, fields.2))
  }

  function ParseRequestTypeTail(s: string): Option<(nat, Option<string>, nat)> {
    var s1 :- Json.Expect(RequestTypeKey, s);
    var p1 :- Json.ScanNat(s1);
    var fields :- ParseNicknameTail(p1.1);
    Some((p1.0, fields.0, fields.1))
  }

  function ParseNicknameTail(s: string): Option<(Option<string>, nat)> {
    var s1 :- Json.Expect(NicknameKey, s);
    var p1 :- Json.ScanNullable(s1);
    var contentLength :- ParseContentLengthTail(p1.1);
    Some((p1.0, contentLength))
  }

  function ParseContentLengthTail(s: string): Option<nat> {
    var s1 :- Json.Expect(ContentLengthKey, s);
    var p1 :- Json.ScanNat(s1);
    var s2 :- Json.Expect("}", p1.1);
    if s2 == [] then Some(p1.0) else None
  }

  /** `TumultHeader.from_bytes`: UTF-8 decoding, `strip`, then the JSON object. */
  function FromBytes(bs: seq<byte>): Option<Header> {
    var text :- Decode(bs);
    ParseHeaderJson(Strip(text))
  }

  lemma ParseContentLength(contentLength: nat)
    ensures ParseContentLengthTail(ContentLengthTail(contentLength)) == Some(contentLength)
  {
    var t := NatToString(contentLength) + "}";
    assert ContentLengthTail(contentLength) == ContentLengthKey + t;
    Json.ExpectLiteral(ContentLengthKey, t);
    Json.ScanNatToString(contentLength, "}");
    Json.ExpectLiteral("}", []);
    assert "}" + [] == "}";
  }

  lemma ParseNickname(nickname: Option<string>, contentLength: nat)
    ensures ParseNicknameTail(NicknameTail(nickname, contentLength)) == Some((nickname, contentLength))
  {
    var tail := ContentLengthTail(contentLength);
    var t := Json.NullableText(nickname) + tail;
    assert NicknameTail(nickname, contentLength) == NicknameKey + t;
    Json.ExpectLiteral(NicknameKey, t);
    Json.ScanNullableText(nickname, tail);
    ParseContentLength(contentLength);
  }

  lemma ParseRequestType(code: nat, nickname: Option<string>, contentLength: nat)
    ensures ParseRequestTypeTail(RequestTypeTail(code, nickname, contentLength)) == Some((code, nickname, contentLength))
  {
    var tail := NicknameTail(nickname, contentLength);
    var t := NatToString(code) + tail;
    assert RequestTypeTail(code, nickname, contentLength) == RequestTypeKey + t;
    assert tail[0] == NicknameKey[0];
    Json.ExpectLiteral(RequestTypeKey, t);
    Json.ScanNatToString(code, tail);
    ParseNickname(nickname, contentLength);
  }

  lemma ParseTimestamp(timestamp: Option<Json.Float>, code: nat, nickname: Option<string>, contentLength: nat)
    ensures ParseTimestampTail(TimestampTail(timestamp, code, nickname, contentLength))
      == Some((timestamp, code, nickname, contentLength))
  {
    var tail := RequestTypeTail(code, nickname, contentLength);
    var t := Json.NullableFloatText(timestamp) + tail;
    assert TimestampTail(timestamp, code, nickname, contentLength) == TimestampKey + t;
    assert tail[0] == RequestTypeKey[0];
    Json.ExpectLiteral(TimestampKey, t);
    Json.ScanNullableFloatText(timestamp, tail);
    ParseRequestType(code, nickname, contentLength);
  }

  lemma ParseHeaderText(version: string, timestamp: Option<Json.Float>, code: nat, nickname: Option<string>, contentLength: nat)
    ensures ParseHeaderJson(HeaderText(version, timestamp, code, nickname, contentLength))
      == if 1 <= code <= 4 then Some(Header(FromCode(code).value, version, timestamp, nickname, contentLength)) else None
  {
    var tail := TimestampTail(timestamp, code, nickname, contentLength);
    var t := Json.Quote(version) + tail;
    assert HeaderText(version, timestamp, code, nickname, contentLength) == VersionKey + t;
    Json.ExpectLiteral(VersionKey, t);
    Json.ScanQuotedText(version, tail);
    ParseTimestamp(timestamp, code, nickname, contentLength);
  }

  /** What a peer reads back from header text of this shape, whatever request type code it holds. */
  lemma HeaderTextBytes(version: string, timestamp: Option<Json.Float>, code: nat, nickname: Option<string>, contentLength: nat)
    ensures FromBytes(Encode(HeaderText(version, timestamp, code, nickname, contentLength) + "\r\n"))
      == if 1 <= code <= 4 then Some(Header(FromCode(code).value, version, timestamp, nickname, contentLength)) else None
  {
    HeaderTextBraces(version, timestamp, code, nickname, contentLength);
    ReadBackLine(HeaderText(version, timestamp, code, nickname, contentLength));
    ParseHeaderText(version, timestamp, code, nickname, contentLength);
  }

  /** A line of braced text read back through decoding and `strip` is the text itself. */
  lemma ReadBackLine(text: string)
    requires |text| >= 2 && text[0] == '{' && text[|text| - 1] == '}'
    ensures FromBytes(Encode(text + "\r\n")) == ParseHeaderJson(text)
  {
    DecodeEncode(text + "\r\n");
    StripTrailingSpaces(text, "\r\n");
    assert Decode(Encode(text + "\r\n")) == Some(text + "\r\n");
    assert Strip(text + "\r\n") == text;
  }

  /** Decoding an encoded header gives back every field. */
  lemma HeaderRoundTrip(h: Header)
    ensures FromBytes(ToBytes(h)) == Some(h)
  {
    HeaderTextBytes(h.version, h.timestamp, Code(h.requestType), h.nickname, h.contentLength);
    FromCodeCode(h.requestType);
  }

  /** A header carrying a request type code other than 1 to 4 is refused. */
  lemma UnknownRequestType(version: string, timestamp: Option<Json.Float>, code: nat, nickname: Option<string>, contentLength: nat)
    requires !(1 <= code <= 4)
    ensures FromBytes(Encode(HeaderText(version, timestamp, code, nickname, contentLength) + "\r\n")) == None
  {
    HeaderTextBytes(version, timestamp, code, nickname, contentLength);
  }

  /** `TumultSocket.Request`: a header and the payload read after it. */
  datatype Request = Request(header: Header, contents: seq<byte>)

  /** A frame whose payload is exactly as long as its header says. */
  predicate WellFormed(r: Request) {
    |r.contents| == r.header.contentLength
  }

  function RequestBytes(r: Request): seq<byte> {
    ToBytes(r.header) + r.contents
  }

  /** What `write_message` sends: a MESSAGE header sized to the UTF-8 payload, then the payload. */
  function MessageFrame(version: string, timestamp: Json.Float, kind: RequestType, nickname: Option<string>, message: string): (r: Request)
    ensures WellFormed(r) && r.header.requestType == kind && r.header.nickname == nickname
    ensures Decode(r.contents) == Some(message)
    ensures message == "" ==> r.header.contentLength == 0 && r.contents == []
  {
    DecodeEncode(message);
    var payload := Encode(message);
    Request(Header(kind, version, Some(timestamp), nickname, |payload|), payload)
  }

  /** What the header-only writers send: the header of the given kind and nickname, length 0. */
  function NoticeFrame(version: string, timestamp: Json.Float, kind: RequestType, nickname: Option<string>): (r: Request)
    ensures WellFormed(r) && r.header.requestType == kind && r.header.nickname == nickname
    ensures r.header.contentLength == 0 && r.contents == []
  {
    Request(Header(kind, version, Some(timestamp), nickname, 0), [])
  }

  function MessageRequest(nickname: Option<string>, message: string): Request {
    MessageFrame(ProtocolVersion, ImportTime, Message, nickname, message)
  }

  function JoinRequest(nickname: Option<string>): Request {
    NoticeFrame(ProtocolVersion, ImportTime, JoinMessage, nickname)
  }

  function LeaveRequest(nickname: Option<string>): Request {
    NoticeFrame(ProtocolVersion, ImportTime, LeaveMessage, nickname)
  }

  function NicknameRequest(nickname: Option<string>): Request {
    NoticeFrame(ProtocolVersion, ImportTime, Nickname, nickname)
  }

  /** `s[..k]` ends with CR LF. */
  predicate DelimiterAt(s: seq<byte>, k: int) {
    2 <= k <= |s| && s[k - 2] == CR && s[k - 1] == LF
  }

  /** The first delimiter ending at `k` or later. */
  function DelimiterFrom(s: seq<byte>, k: nat): (r: Option<nat>)
    requires 2 <= k
    ensures r.Some? ==> k <= r.value <= |s| && DelimiterAt(s, r.value)
    decreases |s| + 1 - k
  {
    if k > |s| then None
    else if DelimiterAt(s, k) then Some(k)
    else DelimiterFrom(s, k + 1)
  }

  /** No delimiter from `k` on comes before the one `DelimiterFrom` finds. */
  lemma {:induction false} DelimiterFromFirst(s: seq<byte>, k: nat, j: nat)
    requires 2 <= k <= j && DelimiterAt(s, j)
    ensures DelimiterFrom(s, k).Some? && DelimiterFrom(s, k).value <= j
    decreases |s| + 1 - k
  {
    if !DelimiterAt(s, k) {
      DelimiterFromFirst(s, k + 1, j);
    }
  }

  /** The length of the shortest prefix of `s` that ends with CR LF, if any. */
  function HeaderEnd(s: seq<byte>): (r: Option<nat>)
    ensures r.Some? ==> 2 <= r.value <= |s| && DelimiterAt(s, r.value)
  {
    DelimiterFrom(s, 2)
  }

  /** Every delimiter in the stream ends at or after the one `HeaderEnd` finds. */
  lemma HeaderEndFirst(s: seq<byte>, j: nat)
    requires DelimiterAt(s, j)
    ensures HeaderEnd(s).Some? && HeaderEnd(s).value <= j
  {
    DelimiterFromFirst(s, 2, j);
  }

  datatype ReadError = ConnectionClosed | MalformedHeader

  /** A request, or the exception `read_request` raises instead. */
  datatype ReadResult = Received(request: Request) | Failed(error: ReadError)

  /**
   * What `read_request` returns for the unread stream `s`, and the stream
   * it leaves: the header runs up to and including the first CR LF, then
   * `content_length` payload bytes follow (fewer if the stream ends first).
   * A stream that ends before CR LF is a ConnectionError; a header that
   * does not decode is a MalformedHeader.
   */
  function NextRequest(s: seq<byte>): (r: (ReadResult, seq<byte>))
    ensures |r.1| <= |s| && r.1 == s[|s| - |r.1|..]
    ensures r.0.Received? ==> |r.1| < |s|
  {
    match HeaderEnd(s)
    case None => (Failed(ConnectionClosed), [])
    case Some(k) =>
      var rest := s[k..];
      assert rest == s[|s| - |rest|..];
      match FromBytes(s[..k])
      case None => (Failed(MalformedHeader), rest)
      case Some(h) =>
        var n := if h.contentLength < |rest| then h.contentLength else |rest|;
        assert rest[n..] == s[|s| - |rest[n..]|..];
        (Received(Request(h, rest[..n])), rest[n..])
  }

  /** The delimiter that ends a written header is the first CR LF of the stream. */
  lemma HeaderEndOfFrame(h: Header, rest: seq<byte>)
    ensures HeaderEnd(ToBytes(h) + rest) == Some(|ToBytes(h)|)
  {
    var b := ToBytes(h);
    ToBytesDelimited(h);
    var s := b + rest;
    assert s[|b| - 2] == b[|b| - 2] && s[|b| - 1] == b[|b| - 1];
    assert DelimiterAt(s, |b|);
    HeaderEndFirst(s, |b|);
    forall j | 2 <= j < |b|
      ensures !DelimiterAt(s, j)
    {
      assert s[j - 2] == b[..|b| - 2][j - 2];
    }
  }

  /** After a written header, the reader takes the payload length the header announces. */
  lemma ReadAfterHeader(h: Header, tail: seq<byte>)
    ensures var n := if h.contentLength < |tail| then h.contentLength else |tail|;
      NextRequest(ToBytes(h) + tail) == (Received(Request(h, tail[..n])), tail[n..])
  {
    var b := ToBytes(h);
    var s := b + tail;
    HeaderEndOfFrame(h, tail);
    assert s[..|b|] == b && s[|b|..] == tail;
    HeaderRoundTrip(h);
  }

  /** Reading a stream that starts with a written frame gives that frame and leaves the rest. */
  lemma ReadWritten(r: Request, rest: seq<byte>)
    requires WellFormed(r)
    ensures NextRequest(RequestBytes(r) + rest) == (Received(r), rest)
  {
    var b, tail := ToBytes(r.header), r.contents + rest;
    SeqAssoc(b, r.contents, rest);
    ReadAfterHeader(r.header, tail);
    assert tail[..|r.contents|] == r.contents && tail[|r.contents|..] == rest;
  }

  /** A stream cut off inside a written header ends in a ConnectionError. */
  lemma TruncatedHeader(h: Header, k: nat)
    requires k < |ToBytes(h)|
    ensures NextRequest(ToBytes(h)[..k]) == (Failed(ConnectionClosed), [])
  {
    var b := ToBytes(h);
    ToBytesDelimited(h);
    var s := b[..k];
    assert HeaderEnd(s).None? by {
      forall j | 2 <= j <= |s|
        ensures !DelimiterAt(s, j)
      {
        assert s[j - 2] == b[..|b| - 2][j - 2];
      }
    }
  }

  /**
   * What `wait_for_request(kind)` returns: the first request of that kind,
   * after reading and dropping every other one, or the error that stopped it.
   */
  function WaitFor(s: seq<byte>, kind: RequestType): (r: (ReadResult, seq<byte>))
    ensures r.0.Received? ==> r.0.request.header.requestType == kind
    ensures |r.1| <= |s| && r.1 == s[|s| - |r.1|..]
    decreases |s|
  {
    match NextRequest(s)
    case (Failed(e), rest) => (Failed(e), rest)
    case (Received(req), rest) =>
      if req.header.requestType == kind then (Received(req), rest)
      else
        var w := WaitFor(rest, kind);
        assert rest[|rest| - |w.1|..] == s[|s| - |w.1|..];
        w
  }

  /** The bytes of a sequence of frames, one after another. */
  function FramesBytes(rs: seq<Request>): seq<byte>
    decreases rs, 1
  {
    if rs == [] then [] else FirstFrameBytes(rs)
  }

  /** The bytes of a non-empty run of frames: the first frame's bytes, then the rest. */
  function FirstFrameBytes(rs: seq<Request>): seq<byte>
    requires rs != []
    decreases rs, 0
  {
    RequestBytes(rs[0]) + FramesBytes(rs[1..])
  }

  lemma WaitForSkip(s: seq<byte>, kind: RequestType)
    requires NextRequest(s).0.Received? && NextRequest(s).0.request.header.requestType != kind
    ensures WaitFor(s, kind) == WaitFor(NextRequest(s).1, kind)
  {
  }

  lemma WaitForHit(s: seq<byte>, kind: RequestType)
    requires NextRequest(s).0.Received? && NextRequest(s).0.request.header.requestType == kind
    ensures WaitFor(s, kind) == NextRequest(s)
  {
  }

  /** A written frame of another kind is read and dropped by `wait_for_request`. */
  lemma WaitForSkipsFrame(q: Request, tail: seq<byte>, kind: RequestType)
    requires WellFormed(q) && q.header.requestType != kind
    ensures WaitFor(RequestBytes(q) + tail, kind) == WaitFor(tail, kind)
  {
    ReadWritten(q, tail);
    WaitForSkip(RequestBytes(q) + tail, kind);
  }

  /** A written frame of the awaited kind is what `wait_for_request` returns. */
  lemma WaitForTakesFrame(q: Request, tail: seq<byte>)
    requires WellFormed(q)
    ensures WaitFor(RequestBytes(q) + tail, q.header.requestType) == (Received(q), tail)
  {
    ReadWritten(q, tail);
    WaitForHit(RequestBytes(q) + tail, q.header.requestType);
  }

  /** A frame put in front of others is sent before them. */
  lemma FramesPrepend(r: Request, rs: seq<Request>)
    ensures FramesBytes([r] + rs) == RequestBytes(r) + FramesBytes(rs)
  {
    assert ([r] + rs)[1..] == rs;
  }

  /** One frame alone is sent as that frame's bytes. */
  lemma FramesOne(r: Request)
    ensures FramesBytes([r]) == RequestBytes(r) + []
  {
    assert [r][1..] == [];
    assert FramesBytes([r]) == RequestBytes(r) + FramesBytes([]);
  }

  lemma FramesCons(frames: seq<Request>, after: seq<byte>)
    requires frames != []
    ensures FramesBytes(frames) + after == RequestBytes(frames[0]) + (FramesBytes(frames[1..]) + after)
  {
    calc {
      FramesBytes(frames) + after;
      (RequestBytes(frames[0]) + FramesBytes(frames[1..])) + after;
      { SeqAssoc(RequestBytes(frames[0]), FramesBytes(frames[1..]), after); }
      RequestBytes(frames[0]) + (FramesBytes(frames[1..]) + after);
    }
  }

  /** The bytes of two runs of frames sent one after the other are the two runs' bytes, concatenated. */
  lemma {:induction false} FramesBytesConcat(a: seq<Request>, b: seq<Request>)
    ensures FramesBytes(a + b) == FramesBytes(a) + FramesBytes(b)
  {
    if a == [] {
      assert a + b == b;
    } else {
      assert (a + b)[1..] == a[1..] + b;
      FramesBytesConcat(a[1..], b);
      SeqAssoc(RequestBytes(a[0]), FramesBytes(a[1..]), FramesBytes(b));
    }
  }

  /**
   * A socket that is in step with its frames before and after more frames
   * are written has sent exactly those frames' bytes in between.
   */
  lemma SentFollowsWritten(before: seq<byte>, sent0: seq<byte>, written0: seq<Request>, sent1: seq<byte>, frames: seq<Request>)
    requires sent0 == before + FramesBytes(written0)
    requires sent1 == before + FramesBytes(written0 + frames)
    ensures sent1 == sent0 + FramesBytes(frames)
  {
    FramesBytesConcat(written0, frames);
    SeqAssoc(before, FramesBytes(written0), FramesBytes(frames));
  }

  lemma SeqAssoc(a: seq<byte>, b: seq<byte>, c: seq<byte>)
    ensures (a + b) + c == a + (b + c)
  {
  }

  /** `wait_for_request` skips frames of other kinds and returns the first one of its kind. */
  lemma {:induction false} WaitForFirstMatch(skipped: seq<Request>, r: Request, rest: seq<byte>)
    requires forall i :: 0 <= i < |skipped| ==> WellFormed(skipped[i]) && skipped[i].header.requestType != r.header.requestType
    requires WellFormed(r)
    ensures WaitFor(FramesBytes(skipped) + (RequestBytes(r) + rest), r.header.requestType) == (Received(r), rest)
  {
    if skipped == [] {
      assert FramesBytes(skipped) + (RequestBytes(r) + rest) == RequestBytes(r) + rest;
      WaitForTakesFrame(r, rest);
    } else {
      var after := RequestBytes(r) + rest;
      FramesCons(skipped, after);
      WaitForSkipsFrame(skipped[0], FramesBytes(skipped[1..]) + after, r.header.requestType);
      var later := skipped[1..];
      forall i | 0 <= i < |later|
        ensures WellFormed(later[i]) && later[i].header.requestType != r.header.requestType
      {
        assert later[i] == skipped[i + 1];
      }
      WaitForFirstMatch(later, r, rest);
    }
  }

  /** `str(port)` matches the port pattern: one alternative per digit count and leading digits. */
  predicate PortPattern(s: string) {
    (1 <= |s| <= 4 && '1' <= s[0] <= '9' && AllDigits(s[1..]))
    || (|s| == 5 && AllDigits(s) && (
      '1' <= s[0] <= '5'
      || (s[0] == '6' && s[1] <= '4')
      || (s[0] == '6' && s[1] == '5' && s[2] <= '4')
      || (s[0] == '6' && s[1] == '5' && s[2] == '5' && s[3] <= '2')
      || (s[0] == '6' && s[1] == '5' && s[2] == '5' && s[3] == '3' && s[4] <= '5')))
  }

  /** `TumultSocket.valid_socket_address`. */
  function ValidSocketAddress(ipv4Address: string, port: int): bool {
    Ipv4.Parse(ipv4Address).Some? && PortPattern(IntToString(port))
  }

  lemma FiveDigits(s: string)
    requires |s| == 5 && AllDigits(s)
    ensures DigitsValue(s) == DigitValue(s[0]) * 10000 + DigitValue(s[1]) * 1000
      + DigitValue(s[2]) * 100 + DigitValue(s[3]) * 10 + DigitValue(s[4])
  {
    assert s[..4][..3] == s[..3] && s[..3][..2] == s[..2] && s[..2][..1] == s[..1] && s[..1][..0] == [];
    assert DigitsValue(s[..1]) == DigitValue(s[0]);
    assert DigitsValue(s[..2]) == DigitsValue(s[..1]) * 10 + DigitValue(s[1]);
    assert DigitsValue(s[..3]) == DigitsValue(s[..2]) * 10 + DigitValue(s[2]);
    assert DigitsValue(s[..4]) == DigitsValue(s[..3]) * 10 + DigitValue(s[3]);
    assert DigitsValue(s) == DigitsValue(s[..4]) * 10 + DigitValue(s[4]);
  }

  /** Five-digit text matches the pattern exactly when its value is at most 65535. */
  lemma FiveDigitPort(s: string)
    requires |s| == 5 && AllDigits(s) && s[0] != '0'
    ensures PortPattern(s) <==> DigitsValue(s) <= 65535
  {
    FiveDigits(s);
    var d0, d1, d2, d3, d4 := DigitValue(s[0]), DigitValue(s[1]), DigitValue(s[2]), DigitValue(s[3]), DigitValue(s[4]);
    assert s[0] == DigitChar(d0) && s[1] == DigitChar(d1) && s[2] == DigitChar(d2);
    assert s[3] == DigitChar(d3) && s[4] == DigitChar(d4);
  }

  /** The port pattern admits exactly the decimal text of 1 to 65535. */
  lemma PortPatternRange(port: int)
    ensures PortPattern(IntToString(port)) <==> 1 <= port <= 65535
  {
    var s := IntToString(port);
    if port >= 1 {
      NatToStringDigits(port);
      assert IsDigit(s[0]) && s[0] != '0';
      if port < 10000 {
        NatToStringLength(port, 4);
        assert AllDigits(s[1..]) by {
          forall i | 0 <= i < |s[1..]| ensures IsDigit(s[1..][i]) { assert s[1..][i] == s[i + 1]; }
        }
      } else if port < 100000 {
        NatToStringLength(port, 5);
        FiveDigitPort(s);
      } else {
        NatToStringLength(port, 6);
      }
    }
  }

  /** A socket address is valid exactly when the address is dotted-quad IPv4 and the port is 1 to 65535. */
  lemma ValidSocketAddressExact(ipv4Address: string, port: int)
    ensures ValidSocketAddress(ipv4Address, port) <==> Ipv4.Parse(ipv4Address).Some? && 1 <= port <= 65535
  {
    PortPatternRange(port);
  }

  /** No delimiter ends within the first `k` bytes. */
  predicate Beyond(end: Option<nat>, k: nat) {
    end.None? || end.value > k
  }

  lemma HeaderEndStep(s: seq<byte>, k: nat)
    requires Beyond(HeaderEnd(s), k)
    ensures DelimiterAt(s, k + 1) ==> HeaderEnd(s) == Some(k + 1)
    ensures !DelimiterAt(s, k + 1) ==> Beyond(HeaderEnd(s), k + 1)
  {
    if DelimiterAt(s, k + 1) {
      HeaderEndFirst(s, k + 1);
    }
  }

  lemma NextRequestReceived(stream: seq<byte>, k: nat, h: Header)
    requires HeaderEnd(stream) == Some(k) && FromBytes(stream[..k]) == Some(h)
    ensures var rest := stream[k..];
      var n := if h.contentLength < |rest| then h.contentLength else |rest|;
      NextRequest(stream) == (Received(Request(h, rest[..n])), rest[n..])
  {
  }

  /**
   * One more header byte read, none of the earlier prefixes ending in CR LF:
   * the header ends here exactly when what has been read ends with CR LF.
   */
  lemma HeaderByteStep(stream: seq<byte>, end: Option<nat>, headerBytes: seq<byte>, b: seq<byte>, unread: seq<byte>)
    requires |b| == 1 && stream == headerBytes + (b + unread)
    requires end == HeaderEnd(stream) && Beyond(end, |headerBytes|)
    ensures stream == (headerBytes + b) + unread
    ensures var h := headerBytes + b;
      if |h| >= 2 && h[|h| - 2..] == [CR, LF] then end == Some(|h|) else Beyond(end, |h|)
  {
    var h := headerBytes + b;
    assert stream == h + unread;
    assert stream[..|h|] == h;
    assert DelimiterAt(stream, |h|) <==> |h| >= 2 && h[|h| - 2..] == [CR, LF];
    HeaderEndStep(stream, |headerBytes|);
  }

  /** A stream that ends before any CR LF has no header end. */
  lemma HeaderEndMissing(stream: seq<byte>, headerBytes: seq<byte>, end: Option<nat>)
    requires stream == headerBytes + []
    requires end == HeaderEnd(stream) && Beyond(end, |headerBytes|)
    ensures end.None?
  {
  }

  lemma SplitAt(stream: seq<byte>, front: seq<byte>, back: seq<byte>)
    requires stream == front + back
    ensures stream[..|front|] == front && stream[|front|..] == back
  {
  }

  /** `TumultSocket`: a connected stream socket that reads and writes Tumult frames. */
  class TumultSocket {
    const raw: Transport.Connection
    /** The frames written through this socket, in order; what its peer is sent, frame by frame. */
    ghost var written: seq<Request>
    /** What the connection had sent before this socket wrapped it. */
    ghost const sentBefore: seq<byte>

    /** The connection has sent, since it was wrapped, exactly the bytes of the frames written, in order. */
    ghost predicate Synced()
      reads this`written, raw`sent
    {
      raw.sent == sentBefore + FramesBytes(written)
    }

    constructor (raw: Transport.Connection)
      ensures this.raw == raw && written == [] && sentBefore == raw.sent
      ensures Synced()
    {
      this.raw := raw;
      written := [];
      sentBefore := raw.sent;
      new;
      assert raw.sent + [] == raw.sent;
    }

    /** `TumultSocket()` without an argument: a new socket, connected to nothing yet. */
    constructor Fresh()
      ensures fresh(raw) && raw.sent == [] && raw.unread == [] && !raw.closed && written == []
      ensures Synced()
    {
      raw := new Transport.Connection([]);
      written := [];
      sentBefore := [];
    }

    /** Frames written and sent together keep the bytes on the wire in step with `written`. */
    lemma StaysSynced(sent0: seq<byte>, written0: seq<Request>, frames: seq<Request>)
      requires sent0 == sentBefore + FramesBytes(written0)
      ensures sent0 + FramesBytes(frames) == sentBefore + FramesBytes(written0 + frames)
    {
      FramesBytesConcat(written0, frames);
      SeqAssoc(sentBefore, FramesBytes(written0), FramesBytes(frames));
    }

    lemma StaysSyncedOne(sent0: seq<byte>, written0: seq<Request>, r: Request)
      requires sent0 == sentBefore + FramesBytes(written0)
      ensures sent0 + RequestBytes(r) == sentBefore + FramesBytes(written0 + [r])
    {
      StaysSynced(sent0, written0, [r]);
      FramesOne(r);
      assert RequestBytes(r) + [] == RequestBytes(r);
    }

    method Close()
      modifies raw`closed
      ensures raw.closed && raw.sent == old(raw.sent) && raw.unread == old(raw.unread)
    {
      raw.Close();
    }

    method WriteMessage(nickname: Option<string>, message: string)
      modifies this`written, raw`sent
      ensures written == old(written) + [MessageRequest(nickname, message)]
      ensures raw.sent == old(raw.sent) + RequestBytes(MessageRequest(nickname, message))
      ensures raw.unread == old(raw.unread) && raw.closed == old(raw.closed)
    {
      var payload := Encode(message);
      var header := ToBytes(Header(Message, ProtocolVersion, Some(ImportTime), nickname, |payload|));
      written := written + [MessageRequest(nickname, message)];
      raw.Send(header + payload);
    }

    method WriteJoinMessage(nickname: Option<string>)
      modifies this`written, raw`sent
      ensures written == old(written) + [JoinRequest(nickname)]
      ensures raw.sent == old(raw.sent) + RequestBytes(JoinRequest(nickname))
      ensures raw.unread == old(raw.unread) && raw.closed == old(raw.closed)
    {
      var header := ToBytes(Header(JoinMessage, ProtocolVersion, Some(ImportTime), nickname, 0));
      written := written + [JoinRequest(nickname)];
      raw.Send(header);
    }

    method WriteLeaveMessage(nickname: Option<string>)
      modifies this`written, raw`sent
      ensures written == old(written) + [LeaveRequest(nickname)]
      ensures raw.sent == old(raw.sent) + RequestBytes(LeaveRequest(nickname))
      ensures raw.unread == old(raw.unread) && raw.closed == old(raw.closed)
    {
      var header := ToBytes(Header(LeaveMessage, ProtocolVersion, Some(ImportTime), nickname, 0));
      written := written + [LeaveRequest(nickname)];
      raw.Send(header);
    }

    method WriteNickname(nickname: Option<string>)
      modifies this`written, raw`sent
      ensures written == old(written) + [NicknameRequest(nickname)]
      ensures raw.sent == old(raw.sent) + RequestBytes(NicknameRequest(nickname))
      ensures raw.unread == old(raw.unread) && raw.closed == old(raw.closed)
    {
      var header := ToBytes(Header(Nickname, ProtocolVersion, Some(ImportTime), nickname, 0));
      written := written + [NicknameRequest(nickname)];
      raw.Send(header);
    }

    /**
     * The first half of `read_request`: the header, one byte at a time, up
     * to and including the first CR LF; None when the stream ends first.
     */
    method ReadHeaderBytes() returns (headerBytes: Option<seq<byte>>)
      modifies raw`unread
      ensures headerBytes.None? ==> HeaderEnd(old(raw.unread)).None? && raw.unread == []
      ensures headerBytes.Some? ==>
        HeaderEnd(old(raw.unread)) == Some(|headerBytes.value|) && old(raw.unread) == headerBytes.value + raw.unread
      ensures raw.sent == old(raw.sent) && raw.closed == old(raw.closed)
    {
      var stream := raw.unread;
      ghost var end := HeaderEnd(stream);
      var read: seq<byte> := [];
      var reading := true;
      while reading
        invariant stream == read + raw.unread
        invariant raw.sent == old(raw.sent) && raw.closed == old(raw.closed)
        invariant reading ==> Beyond(end, |read|)
        invariant !reading ==> end == Some(|read|)
        decreases |raw.unread|, reading
      {
        var b := raw.Recv(1);
        if b == [] {
          HeaderEndMissing(stream, read, end);
          return None;
        }
        HeaderByteStep(stream, end, read, b, raw.unread);
        read := read + b;
        if |read| >= 2 && read[|read| - 2..] == [CR, LF] {
          reading := false;
        }
      }
      headerBytes := Some(read);
    }

    /** `read_request`: the header up to CR LF, then the payload it announces. */
    method ReadRequest() returns (r: ReadResult)
      modifies raw`unread
      ensures (r, raw.unread) == NextRequest(old(raw.unread))
      ensures raw.sent == old(raw.sent) && raw.closed == old(raw.closed)
    {
      ghost var stream := raw.unread;
      var headerBytes := ReadHeaderBytes();
      if headerBytes.None? {
        return Failed(ConnectionClosed);
      }
      SplitAt(stream, headerBytes.value, raw.unread);
      var header := FromBytes(headerBytes.value);
      if header.None? {
        return Failed(MalformedHeader);
      }
      NextRequestReceived(stream, |headerBytes.value|, header.value);
      var contents: seq<byte> := [];
      if header.value.contentLength > 0 {
        contents := raw.Recv(header.value.contentLength);
      }
      r := Received(Request(header.value, contents));
    }

    /** `wait_for_request`: reads requests until one of the given kind arrives. */
    method WaitForRequest(kind: RequestType) returns (r: ReadResult)
      modifies raw`unread
      ensures (r, raw.unread) == WaitFor(old(raw.unread), kind)
      ensures raw.sent == old(raw.sent) && raw.closed == old(raw.closed)
    {
      var waiting := true;
      r := Failed(ConnectionClosed);
      while waiting
        invariant raw.sent == old(raw.sent) && raw.closed == old(raw.closed)
        invariant waiting ==> WaitFor(raw.unread, kind) == WaitFor(old(raw.unread), kind)
        invariant !waiting ==> (r, raw.unread) == WaitFor(old(raw.unread), kind)
        decreases |raw.unread|, waiting
      {
        ghost var before := raw.unread;
        r := ReadRequest();
        if r.Failed? {
          return;
        }
        if r.request.header.requestType == kind {
          waiting := false;
        }
      }
    }
  }
}
