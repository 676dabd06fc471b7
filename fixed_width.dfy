/**
 * The fixed-width first draft of the Tumult framing. Every header is the
 * decimal text of one integer, right-padded with spaces to four bytes: a
 * request header holding the request code, then, for a message, a length
 * header holding the UTF-8 length of the payload, then the payload.
 */
module FixedWidth {
  import opened Options
  import opened Utf8
  import opened PyText
  import Transport

  const DefaultPort := 65535
  const HeaderLengthBytes := 4
  const Space: byte := 0x20

  /** `TumultProtocol.Request`. */
  datatype Request = Disconnect | Message

  function RequestValue(r: Request): nat {
    match r
    case Disconnect => 0
    case Message => 1
  }

  /** `b" " * n`: n spaces, and none at all when n is zero or negative. */
  function Spaces(n: int): (r: seq<byte>)
    ensures |r| == if n > 0 then n else 0
    ensures forall i :: 0 <= i < |r| ==> r[i] == Space
    decreases if n > 0 then n else 0
  {
    if n <= 0 then [] else [Space] + Spaces(n - 1)
  }

  /** `header_pad`: the contents followed by spaces up to four bytes. */
  function HeaderPad(contents: seq<byte>): seq<byte> {
    contents + Spaces(HeaderLengthBytes - |contents|)
  }

  /** Contents shorter than four bytes are right-padded with spaces to exactly four. */
  lemma HeaderPadShort(contents: seq<byte>)
    requires |contents| < HeaderLengthBytes
    ensures var r := HeaderPad(contents);
      |r| == HeaderLengthBytes && r[..|contents|] == contents
      && forall i :: |contents| <= i < HeaderLengthBytes ==> r[i] == Space
  {
    var r := HeaderPad(contents);
    assert r[..|contents|] == contents;
    forall i | |contents| <= i < HeaderLengthBytes
      ensures r[i] == Space
    {
      assert r[i] == Spaces(HeaderLengthBytes - |contents|)[i - |contents|];
    }
  }

  /** Contents of four bytes or more come back unchanged: a negative repeat count gives no padding. */
  lemma HeaderPadLong(contents: seq<byte>)
    requires |contents| >= HeaderLengthBytes
    ensures HeaderPad(contents) == contents
  {
    assert Spaces(HeaderLengthBytes - |contents|) == [];
  }

  /** The padded UTF-8 text of `str(value)`: what both header senders write. */
  function DecimalHeader(value: int): seq<byte> {
    HeaderPad(Encode(IntToString(value)))
  }

  function RequestHeader(r: Request): seq<byte> {
    DecimalHeader(RequestValue(r))
  }

  /** What `send_message` writes: the MESSAGE request header, the length header, the payload. */
  function MessageBytes(message: string): seq<byte> {
    RequestHeader(Message) + DecimalHeader(|Encode(message)|) + Encode(message)
  }

  /** The two request headers are the code digit followed by three spaces. */
  lemma RequestHeaderBytes()
    ensures RequestHeader(Disconnect) == [0x30, Space, Space, Space]
    ensures RequestHeader(Message) == [0x31, Space, Space, Space]
  {
    assert NatToString(1) == "1";
    assert Encode("0") == [0x30] && Encode("1") == [0x31];
  }

  /** `connection.send(TumultProtocol.header_pad(...))` for a request code. */
  method SendRequestHeader(connection: Transport.Connection, request: Request)
    modifies connection
    ensures connection.sent == old(connection.sent) + RequestHeader(request)
    ensures connection.unread == old(connection.unread) && connection.closed == old(connection.closed)
  {
    var headerContents := Encode(IntToString(RequestValue(request)));
    connection.Send(HeaderPad(headerContents));
  }

  /** `send_message_header`: the padded decimal text of the length. */
  method SendMessageHeader(connection: Transport.Connection, messageLength: int)
    modifies connection
    ensures connection.sent == old(connection.sent) + DecimalHeader(messageLength)
    ensures connection.unread == old(connection.unread) && connection.closed == old(connection.closed)
  {
    var headerContents := Encode(IntToString(messageLength));
    connection.Send(HeaderPad(headerContents));
  }

  /** `send_message`: three sends, in order, whatever the length of the message. */
  method SendMessage(connection: Transport.Connection, message: string)
    modifies connection
    ensures connection.sent == old(connection.sent) + MessageBytes(message)
    ensures connection.unread == old(connection.unread) && connection.closed == old(connection.closed)
  {
    ghost var sent0 := connection.sent;
    SendRequestHeader(connection, Message);
    var messageBytes := Encode(message);
    SendMessageHeader(connection, |messageBytes|);
    connection.Send(messageBytes);
    ghost var a, b := RequestHeader(Message), DecimalHeader(|messageBytes|);
    assert connection.sent == sent0 + (a + b + messageBytes) by {
      assert ((sent0 + a) + b) + messageBytes == sent0 + ((a + b) + messageBytes);
    }
  }

  /** The longest payload whose length still fits the four-byte header. */
  const MaxPayloadLength := 9999

  /**
   * `send_message` with the four-byte limit enforced: a message whose UTF-8
   * form is longer than 9999 bytes is refused and nothing is sent.
   */
  method SendMessageChecked(connection: Transport.Connection, message: string) returns (sent: bool)
    modifies connection
    ensures sent <==> |Encode(message)| <= MaxPayloadLength
    ensures sent ==> connection.sent == old(connection.sent) + MessageBytes(message)
    ensures !sent ==> connection.sent == old(connection.sent)
    ensures connection.unread == old(connection.unread) && connection.closed == old(connection.closed)
  {
    var messageBytes := Encode(message);
    if |messageBytes| > MaxPayloadLength {
      return false;
    }
    SendMessage(connection, message);
    sent := true;
  }

  datatype IncomingError = UndecodableHeader | NotAnInteger | NegativeLength | UndecodablePayload

  /**
   * What `handle_incoming_message` returns: `(None, None)` for an empty
   * header read, `(length, message)` otherwise, or the exception it raises
   * instead (a header or payload that is not UTF-8, a header that `int`
   * refuses, a negative length that `recv` refuses).
   */
  datatype Incoming = NoMessage | Received(length: int, message: string) | Failed(error: IncomingError)

  /** The bytes `recv(n)` returns from the unread stream `s`. */
  function Take(s: seq<byte>, n: nat): seq<byte> {
    s[..if n < |s| then n else |s|]
  }

  function Drop(s: seq<byte>, n: nat): seq<byte> {
    s[if n < |s| then n else |s|..]
  }

  /** The result of `handle_incoming_message` on the unread stream `s`, and the stream it leaves. */
  function IncomingMessage(s: seq<byte>): (Incoming, seq<byte>) {
    var rest := Drop(s, HeaderLengthBytes);
    match Decode(Take(s, HeaderLengthBytes))
    case None => (Failed(UndecodableHeader), rest)
    case Some(headerContents) =>
      if headerContents == [] then (NoMessage, rest)
      else match ParseInt(headerContents)
        case None => (Failed(NotAnInteger), rest)
        case Some(messageLength) =>
          if messageLength < 0 then (Failed(NegativeLength), rest)
          else match Decode(Take(rest, messageLength))
            case None => (Failed(UndecodablePayload), Drop(rest, messageLength))
            case Some(message) => (Received(messageLength, message), Drop(rest, messageLength))
  }

  /** The result of `handle_incoming_request`: the decoded four-byte header, None if not UTF-8. */
  function IncomingRequest(s: seq<byte>): (Option<string>, seq<byte>) {
    (Decode(Take(s, HeaderLengthBytes)), Drop(s, HeaderLengthBytes))
  }

  method HandleIncomingMessage(connection: Transport.Connection) returns (r: Incoming)
    modifies connection
    ensures (r, connection.unread) == IncomingMessage(old(connection.unread))
    ensures connection.sent == old(connection.sent) && connection.closed == old(connection.closed)
  {
    var headerBytes := connection.Recv(HeaderLengthBytes);
    var headerContents := Decode(headerBytes);
    if headerContents.None? {
      return Failed(UndecodableHeader);
    }
    if headerContents.value == [] {
      return NoMessage;
    }
    var messageLength := ParseInt(headerContents.value);
    if messageLength.None? {
      return Failed(NotAnInteger);
    }
    if messageLength.value < 0 {
      return Failed(NegativeLength);
    }
    var messageBytes := connection.Recv(messageLength.value);
    var message := Decode(messageBytes);
    if message.None? {
      return Failed(UndecodablePayload);
    }
    r := Received(messageLength.value, message.value);
  }

  method HandleIncomingRequest(connection: Transport.Connection) returns (r: Option<string>)
    modifies connection
    ensures (r, connection.unread) == IncomingRequest(old(connection.unread))
    ensures connection.sent == old(connection.sent) && connection.closed == old(connection.closed)
  {
    var headerBytes := connection.Recv(HeaderLengthBytes);
    r := Decode(headerBytes);
  }

  /** A non-empty read that decodes gives non-empty text. */
  lemma DecodeNonEmpty(bs: seq<byte>)
    requires bs != [] && Decode(bs).Some?
    ensures Decode(bs).value != []
  {
  }

  /** `(None, None)` comes back exactly when the stream has ended. */
  lemma NoMessageAtEnd(s: seq<byte>)
    ensures IncomingMessage(s).0 == NoMessage <==> s == []
  {
    if s != [] {
      var h := Take(s, HeaderLengthBytes);
      if Decode(h).Some? {
        DecodeNonEmpty(h);
      }
    }
  }

  /** n spaces as text. */
  function SpaceText(n: nat): (t: string)
    ensures |t| == n && forall i :: 0 <= i < n ==> IsSpace(t[i])
  {
    if n == 0 then [] else [' '] + SpaceText(n - 1)
  }

  lemma {:induction false} EncodeSpaceText(n: nat)
    ensures Encode(SpaceText(n)) == Spaces(n)
  {
    if n > 0 {
      assert SpaceText(n)[1..] == SpaceText(n - 1);
      EncodeSpaceText(n - 1);
    }
  }

  /** Decimal digits encode one byte per digit. */
  lemma {:induction false} EncodeDigitsLength(s: string)
    requires AllDigits(s)
    ensures |Encode(s)| == |s|
  {
    if s != [] {
      assert AllDigits(s[1..]) by {
        forall i | 0 <= i < |s[1..]| ensures IsDigit(s[1..][i]) {
          assert s[1..][i] == s[i + 1];
        }
      }
      EncodeDigitsLength(s[1..]);
    }
  }

  lemma TakeDropPrefix(a: seq<byte>, rest: seq<byte>)
    ensures Take(a + rest, |a|) == a && Drop(a + rest, |a|) == rest
  {
    assert (a + rest)[..|a|] == a && (a + rest)[|a|..] == rest;
  }

  /** The text of a short header: the digits and the spaces up to four characters. */
  function PaddedText(digits: string): string {
    digits + SpaceText(if |digits| < HeaderLengthBytes then HeaderLengthBytes - |digits| else 0)
  }

  /** A value below 10000 has a four-byte header, the UTF-8 form of its padded digits. */
  lemma ShortHeader(n: nat)
    requires n <= MaxPayloadLength
    ensures DecimalHeader(n) == Encode(PaddedText(NatToString(n)))
    ensures |DecimalHeader(n)| == HeaderLengthBytes
  {
    var d := NatToString(n);
    var pad := HeaderLengthBytes - |d|;
    NatToStringLength(n, 4);
    NatToStringDigits(n);
    EncodeDigitsLength(d);
    EncodeConcat(d, SpaceText(pad));
    EncodeSpaceText(pad);
  }

  /** A short header decodes to its padded digits, which `int` reads as the value. */
  lemma ShortHeaderValue(n: nat)
    requires n <= MaxPayloadLength
    ensures Decode(DecimalHeader(n)) == Some(PaddedText(NatToString(n)))
    ensures PaddedText(NatToString(n)) != [] && ParseInt(PaddedText(NatToString(n))) == Some(n)
  {
    var d := NatToString(n);
    ShortHeader(n);
    DecodeEncode(PaddedText(d));
    ParseIntPadded(n, SpaceText(if |d| < HeaderLengthBytes then HeaderLengthBytes - |d| else 0));
  }

  /** A length header for a value below 10000 reads back as that value and nothing more. */
  lemma LengthHeaderRoundTrip(n: nat, rest: seq<byte>)
    requires n <= MaxPayloadLength
    ensures |DecimalHeader(n)| == HeaderLengthBytes
    ensures Take(DecimalHeader(n) + rest, HeaderLengthBytes) == DecimalHeader(n)
    ensures Drop(DecimalHeader(n) + rest, HeaderLengthBytes) == rest
    ensures Decode(DecimalHeader(n)).Some? && ParseInt(Decode(DecimalHeader(n)).value) == Some(n)
  {
    ShortHeader(n);
    ShortHeaderValue(n);
    TakeDropPrefix(DecimalHeader(n), rest);
  }

  /** A request header reads back as the request code. */
  lemma RequestHeaderRoundTrip(r: Request, rest: seq<byte>)
    ensures var (text, after) := IncomingRequest(RequestHeader(r) + rest);
      after == rest && text.Some? && ParseInt(text.value) == Some(RequestValue(r))
  {
    LengthHeaderRoundTrip(RequestValue(r), rest);
  }

  /**
   * Once the four header bytes decode to text that `int` reads as a
   * non-negative length, `handle_incoming_message` reads that many payload
   * bytes and returns them decoded under that length.
   */
  lemma IncomingWithLength(s: seq<byte>, headerContents: string, messageLength: nat)
    requires Decode(Take(s, HeaderLengthBytes)) == Some(headerContents)
    requires headerContents != [] && ParseInt(headerContents) == Some(messageLength)
    ensures var rest := Drop(s, HeaderLengthBytes);
      IncomingMessage(s) == match Decode(Take(rest, messageLength))
        case None => (Failed(UndecodablePayload), Drop(rest, messageLength))
        case Some(message) => (Received(messageLength, message), Drop(rest, messageLength))
  {
  }

  /**
   * A message whose UTF-8 form is at most 9999 bytes goes through: the
   * request header reads back as MESSAGE, then the length header and the
   * payload read back as the length and the message, and what follows is
   * left unread.
   */
  lemma MessageRoundTrip(message: string, rest: seq<byte>)
    requires |Encode(message)| <= MaxPayloadLength
    ensures var payload := Encode(message);
      var afterRequest := DecimalHeader(|payload|) + (payload + rest);
      var (text, after) := IncomingRequest(MessageBytes(message) + rest);
      after == afterRequest && text.Some? && ParseInt(text.value) == Some(RequestValue(Message))
      && IncomingMessage(afterRequest) == (Received(|payload|, message), rest)
  {
    var payload := Encode(message);
    var afterRequest := DecimalHeader(|payload|) + (payload + rest);
    FrameAssoc(RequestHeader(Message), DecimalHeader(|payload|), payload, rest);
    RequestHeaderRoundTrip(Message, afterRequest);
    LengthAndPayload(message, rest);
  }

  lemma FrameAssoc(a: seq<byte>, b: seq<byte>, c: seq<byte>, d: seq<byte>)
    ensures a + b + c + d == a + (b + (c + d))
  {
  }

  /** The length header and payload of a short message read back as its length and text. */
  lemma LengthAndPayload(message: string, rest: seq<byte>)
    requires |Encode(message)| <= MaxPayloadLength
    ensures var payload := Encode(message);
      IncomingMessage(DecimalHeader(|payload|) + (payload + rest)) == (Received(|payload|, message), rest)
  {
    var payload := Encode(message);
    var afterRequest := DecimalHeader(|payload|) + (payload + rest);
    LengthHeaderRoundTrip(|payload|, payload + rest);
    ShortHeaderValue(|payload|);
    TakeDropPrefix(payload, rest);
    DecodeEncode(message);
    IncomingWithLength(afterRequest, PaddedText(NatToString(|payload|)), |payload|);
  }

  lemma {:induction false} DigitsBound(s: string)
    requires AllDigits(s)
    ensures DigitsValue(s) < Pow10(|s|)
  {
    if s != [] {
      DigitsBound(s[..|s| - 1]);
    }
  }

  /** Four digits parse, through `int`, to a value below 10000. */
  lemma FourDigitsValue(first: string)
    requires |first| == 4 && AllDigits(first)
    ensures ParseInt(first).Some? && 0 <= ParseInt(first).value < 10000
  {
    assert IsDigit(first[0]) && IsDigit(first[3]);
    StripTrailingSpaces(first, []);
    assert first + [] == first;
    DigitsBound(first);
    assert Pow10(4) == 10000;
  }

  /** A length of 10000 or more is sent as five or more digit bytes, unpadded. */
  lemma LongHeader(n: nat, tail: seq<byte>)
    requires n > MaxPayloadLength
    ensures |NatToString(n)| > HeaderLengthBytes
    ensures AllDigits(NatToString(n)[..HeaderLengthBytes])
    ensures Take(DecimalHeader(n) + tail, HeaderLengthBytes) == Encode(NatToString(n)[..HeaderLengthBytes])
  {
    var d := NatToString(n);
    NatToStringLength(n, 5);
    NatToStringDigits(n);
    EncodeDigitsLength(d);
    HeaderPadLong(Encode(d));
    var first := d[..HeaderLengthBytes];
    LongHeaderPrefix(d, first, tail);
  }

  lemma LongHeaderPrefix(d: string, first: string, tail: seq<byte>)
    requires |d| > HeaderLengthBytes && AllDigits(d) && first == d[..HeaderLengthBytes]
    ensures AllDigits(first)
    ensures Take(Encode(d) + tail, HeaderLengthBytes) == Encode(first)
  {
    var last := d[HeaderLengthBytes..];
    assert d == first + last;
    assert AllDigits(first) by {
      forall i | 0 <= i < |first| ensures IsDigit(first[i]) {
        assert first[i] == d[i];
      }
    }
    EncodeConcat(first, last);
    EncodeDigitsLength(first);
    var e := Encode(first);
    assert Encode(d) + tail == e + (Encode(last) + tail);
    TakeDropPrefix(e, Encode(last) + tail);
  }

  /**
   * As written, `send_message` writes a length of 10000 or more as five or
   * more bytes, and the receiver reads only the first four as the length:
   * it never gets the length that was sent, and a payload that decodes at
   * all comes back under a length below 10000.
   */
  lemma LongLengthMisread(message: string, rest: seq<byte>)
    requires |Encode(message)| > MaxPayloadLength
    ensures var payload := Encode(message);
      var r := IncomingMessage(DecimalHeader(|payload|) + (payload + rest)).0;
      (r.Received? || r == Failed(UndecodablePayload))
      && (r.Received? ==> r.length < 10000 && r.length != |payload|)
  {
    var payload := Encode(message);
    var s := DecimalHeader(|payload|) + (payload + rest);
    LongHeader(|payload|, payload + rest);
    var first := NatToString(|payload|)[..HeaderLengthBytes];
    DecodeEncode(first);
    FourDigitsValue(first);
    IncomingWithLength(s, first, ParseInt(first).value);
  }
}
