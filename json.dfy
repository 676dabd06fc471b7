/**
 * The part of Python's `json` module the protocol header uses: `json.dumps`
 * of strings (with its default `ensure_ascii=True`), `None`, non-negative
 * integers and floats, and the matching scanners of `json.loads`.
 *
 * The encoder escapes every character outside printable ASCII, so encoded
 * text never holds a raw carriage return or line feed; section 7 of RFC 8259
 * requires that control characters inside strings be escaped.
 */
module Json {
  import opened Options
  import opened PyText

  /** Printable ASCII, space to tilde: what `ensure_ascii` output is made of. */
  predicate Printable(s: string) {
    forall i :: 0 <= i < |s| ==> ' ' <= s[i] <= '~'
  }

  lemma PrintableConcat(a: string, b: string)
    requires Printable(a) && Printable(b)
    ensures Printable(a + b)
  {
    forall i | 0 <= i < |a + b| ensures ' ' <= (a + b)[i] <= '~' {
      if i >= |a| { assert (a + b)[i] == b[i - |a|]; }
    }
  }

  function HexDigit(d: nat): (c: char)
    requires d < 16
    ensures ' ' <= c <= '~'
  {
    if d < 10 then DigitChar(d) else ('a' as int + d - 10) as char
  }

  /** A hexadecimal digit of either case, as `json.loads` accepts in `\uXXXX`. */
  function HexValue(c: char): (r: Option<nat>)
    ensures r.Some? ==> r.value < 16
  {
    if '0' <= c <= '9' then Some(c as int - '0' as int)
    else if 'a' <= c <= 'f' then Some(c as int - 'a' as int + 10)
    else if 'A' <= c <= 'F' then Some(c as int - 'A' as int + 10)
    else None
  }

  /** `'{0:04x}'.format(n)`: four lower-case hexadecimal digits. */
  function Hex4(n: nat): (s: string)
    requires n < 0x1_0000
    ensures |s| == 4 && Printable(s)
  {
    var q1 := n / 0x10;
    var q2 := q1 / 0x10;
    [HexDigit(q2 / 0x10), HexDigit(q2 % 0x10), HexDigit(q1 % 0x10), HexDigit(n % 0x10)]
  }

  function Hex4Value(s: string): (r: Option<nat>)
    requires |s| == 4
    ensures r.Some? ==> r.value < 0x1_0000
  {
    match (HexValue(s[0]), HexValue(s[1]), HexValue(s[2]), HexValue(s[3]))
    case (Some(a), Some(b), Some(c), Some(d)) => Some(((a * 0x10 + b) * 0x10 + c) * 0x10 + d)
    case _ => None
  }

  lemma HexDigitValue(d: nat)
    requires d < 16
    ensures HexValue(HexDigit(d)) == Some(d)
  {
    if d < 10 {
      assert HexDigit(d) == DigitChar(d);
    }
  }

  lemma Hex4RoundTrip(n: nat)
    requires n < 0x1_0000
    ensures Hex4Value(Hex4(n)) == Some(n)
  {
    var q1 := n / 0x10;
    var q2 := q1 / 0x10;
    HexDigitValue(q2 / 0x10);
    HexDigitValue(q2 % 0x10);
    HexDigitValue(q1 % 0x10);
    HexDigitValue(n % 0x10);
    assert n == q1 * 0x10 + n % 0x10;
    assert q1 == q2 * 0x10 + q1 % 0x10;
    assert q2 == q2 / 0x10 * 0x10 + q2 % 0x10;
  }

  /** The letter of the two-character escape `json.dumps` uses for `c`, if it has one. */
  function ShortEscape(c: char): Option<char> {
    if c == '"' then Some('"')
    else if c == '\\' then Some('\\')
    else if c == '\n' then Some('n')
    else if c == '\r' then Some('r')
    else if c == '\t' then Some('t')
    else if c == '\U{8}' then Some('b')
    else if c == '\U{C}' then Some('f')
    else None
  }

  /** The character a two-character escape letter stands for in `json.loads`. */
  function ShortUnescape(x: char): Option<char> {
    if x == '"' then Some('"')
    else if x == '\\' then Some('\\')
    else if x == '/' then Some('/')
    else if x == 'b' then Some('\U{8}')
    else if x == 'f' then Some('\U{C}')
    else if x == 'n' then Some('\n')
    else if x == 'r' then Some('\r')
    else if x == 't' then Some('\t')
    else None
  }

  /** Every short escape letter reads back as the character it was written for. */
  lemma ShortEscapeRoundTrip(c: char)
    requires ShortEscape(c).Some?
    ensures ' ' <= ShortEscape(c).value <= '~' && ShortEscape(c).value != 'u'
    ensures ShortUnescape(ShortEscape(c).value) == Some(c)
  {
  }

  /** `\uXXXX`, or a surrogate pair of them above U+FFFF. */
  function UnicodeEscape(c: char): (r: string)
    ensures |r| >= 6 && r[0] == '\\' && r[1] == 'u'
  {
    if (c as int) < 0x1_0000 then "\\u" + Hex4(c as int)
    else
      var n := c as int - 0x1_0000;
      "\\u" + Hex4(0xD800 + n / 0x400) + "\\u" + Hex4(0xDC00 + n % 0x400)
  }

  /**
   * How `json.dumps` writes one character of a string: the short escapes,
   * other printable ASCII as itself, and every other character as `\uXXXX`.
   */
  function EscapeChar(c: char): (r: string)
    ensures r != []
  {
    if ShortEscape(c).Some? then ['\\', ShortEscape(c).value]
    else if ' ' <= c <= '~' then [c]
    else UnicodeEscape(c)
  }

  function Escape(s: string): string {
    if s == [] then [] else EscapeChar(s[0]) + Escape(s[1..])
  }

  /** `json.dumps(s)` for a string: the escaped text between double quotes. */
  function Quote(s: string): string {
    "\"" + Escape(s) + "\""
  }

  lemma PrintableUnicodeEscape(c: char)
    ensures Printable(UnicodeEscape(c))
  {
    if (c as int) < 0x1_0000 {
      PrintableConcat("\\u", Hex4(c as int));
    } else {
      var n := c as int - 0x1_0000;
      PrintableConcat("\\u", Hex4(0xD800 + n / 0x400));
      PrintableConcat("\\u" + Hex4(0xD800 + n / 0x400), "\\u");
      PrintableConcat("\\u" + Hex4(0xD800 + n / 0x400) + "\\u", Hex4(0xDC00 + n % 0x400));
    }
  }

  lemma PrintableEscapeChar(c: char)
    ensures Printable(EscapeChar(c))
  {
    if ShortEscape(c).Some? {
      ShortEscapeRoundTrip(c);
    } else if !(' ' <= c <= '~') {
      PrintableUnicodeEscape(c);
    }
  }

  /** With `ensure_ascii`, the encoded text of any string is printable ASCII. */
  lemma {:induction false} PrintableEscape(s: string)
    ensures Printable(Escape(s))
  {
    if s != [] {
      PrintableEscapeChar(s[0]);
      PrintableEscape(s[1..]);
      PrintableConcat(EscapeChar(s[0]), Escape(s[1..]));
    }
  }

  lemma PrintableQuote(s: string)
    ensures Printable(Quote(s))
  {
    PrintableEscape(s);
    PrintableConcat("\"", Escape(s));
    PrintableConcat("\"" + Escape(s), "\"");
  }

  /**
   * What `json.loads` does after a backslash inside a string: the character
   * the escape stands for and the text after it. A `\u` escape that names a
   * lone surrogate has no `char` to stand for and is refused.
   */
  function ScanEscape(e: string): (r: Option<(char, string)>)
    ensures r.Some? ==> |r.value.1| < |e|
  {
    if e == [] then None
    else if ShortUnescape(e[0]).Some? then Some((ShortUnescape(e[0]).value, e[1..]))
    else if e[0] == 'u' && |e| >= 5 then ScanUnicode(e)
    else None
  }

  /** A `\u` escape: four hexadecimal digits, and a second escape after a high surrogate. */
  function ScanUnicode(e: string): (r: Option<(char, string)>)
    requires |e| >= 5
    ensures r.Some? ==> |r.value.1| < |e|
  {
    match Hex4Value(e[1..5])
    case None => None
    case Some(u) =>
      if 0xD800 <= u < 0xDC00 then
        if |e| >= 11 && e[5] == '\\' && e[6] == 'u' then
          match Hex4Value(e[7..11])
          case None => None
          case Some(u2) =>
            if 0xDC00 <= u2 < 0xE000 then
              Some(((0x1_0000 + (u - 0xD800) * 0x400 + (u2 - 0xDC00)) as char, e[11..]))
            else None
        else None
      else if 0xDC00 <= u < 0xE000 then None
      else Some((u as char, e[5..]))
  }

  /**
   * What `json.loads` does with the text after an opening double quote: the
   * decoded string and the text after the closing quote. Raw control
   * characters are refused, as the strict scanner refuses them.
   */
  function ScanString(t: string): (r: Option<(string, string)>)
    ensures r.Some? ==> |r.value.1| < |t|
    decreases |t|
  {
    if t == [] then None
    else if t[0] == '"' then Some(([], t[1..]))
    else if t[0] == '\\' then
      match ScanEscape(t[1..])
      case None => None
      case Some((c, rest)) => Prepend(c, ScanString(rest))
    else if t[0] < ' ' then None
    else Prepend(t[0], ScanString(t[1..]))
  }

  function Prepend(c: char, r: Option<(string, string)>): Option<(string, string)> {
    match r
    case None => None
    case Some((s, rest)) => Some(([c] + s, rest))
  }

  /** A `\uXXXX` escape of a character of the Basic Multilingual Plane scans back to it. */
  lemma ScanUnicodeEscape(c: char, t: string)
    requires (c as int) < 0x1_0000
    ensures ScanUnicode("u" + Hex4(c as int) + t) == Some((c, t))
  {
    var e := "u" + Hex4(c as int) + t;
    Hex4RoundTrip(c as int);
    assert e[1..5] == Hex4(c as int);
    assert e[5..] == t;
  }

  /** A surrogate pair `\uD8xx\uDCxx` scans back to the character above U+FFFF it stands for. */
  lemma ScanSurrogatePair(c: char, t: string)
    requires (c as int) >= 0x1_0000
    ensures var n := c as int - 0x1_0000;
      ScanUnicode("u" + Hex4(0xD800 + n / 0x400) + "\\u" + Hex4(0xDC00 + n % 0x400) + t) == Some((c, t))
  {
    var n := c as int - 0x1_0000;
    var hi, lo := 0xD800 + n / 0x400, 0xDC00 + n % 0x400;
    var e := "u" + Hex4(hi) + "\\u" + Hex4(lo) + t;
    Hex4RoundTrip(hi);
    Hex4RoundTrip(lo);
    assert e[1..5] == Hex4(hi);
    assert e[5] == '\\' && e[6] == 'u';
    assert e[7..11] == Hex4(lo);
    assert e[11..] == t;
    assert 0x1_0000 + (hi - 0xD800) * 0x400 + (lo - 0xDC00) == c as int;
  }

  /** The `\u` escapes `json.dumps` writes scan back to the character they stand for. */
  lemma ScanUnicodeEscapeOf(c: char, t: string)
    ensures ScanEscape(UnicodeEscape(c)[1..] + t) == Some((c, t))
  {
    var x := UnicodeEscape(c)[1..] + t;
    if (c as int) < 0x1_0000 {
      BmpEscapeText(c, t);
      ScanUnicodeEscape(c, t);
    } else {
      SurrogateEscapeText(c, t);
      ScanSurrogatePair(c, t);
    }
    ScanEscapeUnicode(x);
  }

  lemma BmpEscapeText(c: char, t: string)
    requires (c as int) < 0x1_0000
    ensures UnicodeEscape(c)[1..] + t == "u" + Hex4(c as int) + t
  {
  }

  lemma SurrogateEscapeText(c: char, t: string)
    requires (c as int) >= 0x1_0000
    ensures var n := c as int - 0x1_0000;
      UnicodeEscape(c)[1..] + t == "u" + Hex4(0xD800 + n / 0x400) + "\\u" + Hex4(0xDC00 + n % 0x400) + t
  {
  }

  lemma ScanEscapeUnicode(x: string)
    requires |x| >= 5 && x[0] == 'u'
    ensures ScanEscape(x) == ScanUnicode(x)
  {
  }

  /** A two-character escape scans back to the character it stands for. */
  lemma ScanShortEscape(c: char, t: string)
    requires ShortEscape(c).Some?
    ensures ScanEscape([ShortEscape(c).value] + t) == Some((c, t))
  {
    ShortEscapeRoundTrip(c);
    var x := [ShortEscape(c).value] + t;
    assert x[0] == ShortEscape(c).value && x[1..] == t;
  }

  /** Scanning an escaped character gives it back, then goes on with the text after it. */
  lemma ScanEscapedChar(c: char, t: string)
    ensures ScanString(EscapeChar(c) + t) == Prepend(c, ScanString(t))
  {
    var e := EscapeChar(c);
    if ShortEscape(c).Some? {
      ScanShortEscape(c, t);
      assert e[1..] == [ShortEscape(c).value];
      ScanBackslash(e, c, t);
    } else if ' ' <= c <= '~' {
      ScanPlain(c, t);
    } else {
      ScanUnicodeEscapeOf(c, t);
      ScanBackslash(e, c, t);
    }
  }

  lemma ScanBackslash(e: string, c: char, t: string)
    requires e != [] && e[0] == '\\' && ScanEscape(e[1..] + t) == Some((c, t))
    ensures ScanString(e + t) == Prepend(c, ScanString(t))
  {
    var x := e + t;
    assert x[1..] == e[1..] + t;
    ScanStringEscape(x, c, t);
  }

  lemma ScanStringEscape(x: string, c: char, t: string)
    requires x != [] && x[0] == '\\' && ScanEscape(x[1..]) == Some((c, t))
    ensures ScanString(x) == Prepend(c, ScanString(t))
  {
  }

  lemma ScanPlain(c: char, t: string)
    requires ' ' <= c && c != '"' && c != '\\'
    ensures ScanString([c] + t) == Prepend(c, ScanString(t))
  {
    assert ([c] + t)[0] == c && ([c] + t)[1..] == t;
  }

  /** `json.loads(json.dumps(s))` gives back `s`, and scanning stops right after the closing quote. */
  lemma {:induction false} ScanEscaped(s: string, rest: string)
    ensures ScanString(Escape(s) + "\"" + rest) == Some((s, rest))
  {
    if s == [] {
      assert Escape(s) + "\"" + rest == "\"" + rest;
    } else {
      var e := EscapeChar(s[0]);
      assert Escape(s) + "\"" + rest == e + (Escape(s[1..]) + "\"" + rest);
      ScanEscapedChar(s[0], Escape(s[1..]) + "\"" + rest);
      ScanEscaped(s[1..], rest);
      assert [s[0]] + s[1..] == s;
    }
  }

  /** Length of the longest prefix of decimal digits. */
  function DigitRun(s: string): (n: nat)
    ensures n <= |s| && AllDigits(s[..n]) && (n < |s| ==> !IsDigit(s[n]))
  {
    if s == [] || !IsDigit(s[0]) then 0
    else
      var n := 1 + DigitRun(s[1..]);
      assert s[..n] == [s[0]] + s[1..][..n - 1];
      n
  }

  /** A JSON integer token without sign: `0`, or digits not starting with `0`. */
  function ScanNat(s: string): (r: Option<(nat, string)>)
    ensures r.Some? ==> |r.value.1| < |s|
  {
    var n := DigitRun(s);
    if n == 0 || (s[0] == '0' && n > 1) then None
    else Some((DigitsValue(s[..n]), s[n..]))
  }

  lemma {:induction false} DigitRunOf(digits: string, rest: string)
    requires AllDigits(digits)
    requires rest == [] || !IsDigit(rest[0])
    ensures DigitRun(digits + rest) == |digits|
  {
    if digits == [] {
      assert digits + rest == rest;
    } else {
      assert (digits + rest)[0] == digits[0];
      assert (digits + rest)[1..] == digits[1..] + rest;
      DigitRunOf(digits[1..], rest);
    }
  }

  /** `json.loads` reads back the token `json.dumps` writes for a non-negative int. */
  lemma ScanNatToString(n: nat, rest: string)
    requires rest == [] || !IsDigit(rest[0])
    ensures ScanNat(NatToString(n) + rest) == Some((n, rest))
  {
    NatToStringDigits(n);
    var s := NatToString(n) + rest;
    DigitRunOf(NatToString(n), rest);
    assert s[..|NatToString(n)|] == NatToString(n);
    assert s[0] == NatToString(n)[0];
  }

  /**
   * The `repr` of a non-negative float in positional notation, such as
   * `1718000000.123456`: a whole part and a non-empty run of fraction digits.
   * The model carries this text; it does no floating-point arithmetic.
   */
  datatype FloatLiteral = FloatLiteral(whole: nat, fraction: string)

  type Float = f: FloatLiteral | f.fraction != [] && AllDigits(f.fraction)
    witness FloatLiteral(0, "0")

  function FloatText(f: Float): (r: string)
    ensures r != [] && IsDigit(r[0]) && IsDigit(r[|r| - 1])
  {
    NatToStringDigits(f.whole);
    NatToString(f.whole) + "." + f.fraction
  }

  /** A JSON number with a fraction part and no sign or exponent. */
  function ScanFloat(s: string): (r: Option<(Float, string)>)
    ensures r.Some? ==> |r.value.1| < |s|
  {
    match ScanNat(s)
    case None => None
    case Some((whole, t)) =>
      if t == [] || t[0] != '.' then None
      else
        var k := DigitRun(t[1..]);
        if k == 0 then None
        else Some((FloatLiteral(whole, t[1..][..k]), t[1..][k..]))
  }

  lemma ScanFloatText(f: Float, rest: string)
    requires rest == [] || !IsDigit(rest[0])
    ensures ScanFloat(FloatText(f) + rest) == Some((f, rest))
  {
    var t := "." + f.fraction + rest;
    assert FloatText(f) + rest == NatToString(f.whole) + t;
    ScanNatToString(f.whole, t);
    FractionRun(f.fraction, rest);
  }

  lemma FractionRun(fraction: string, rest: string)
    requires AllDigits(fraction)
    requires rest == [] || !IsDigit(rest[0])
    ensures var t := "." + fraction + rest;
      t[1..] == fraction + rest && DigitRun(t[1..]) == |fraction|
      && t[1..][..|fraction|] == fraction && t[1..][|fraction|..] == rest
  {
    var t := "." + fraction + rest;
    assert t[1..] == fraction + rest;
    DigitRunOf(fraction, rest);
  }

  /** A JSON string at the front of `s`: its value and the text after the closing quote. */
  function ScanQuoted(s: string): (r: Option<(string, string)>)
    ensures r.Some? ==> |r.value.1| < |s|
  {
    if s != [] && s[0] == '"' then ScanString(s[1..]) else None
  }

  lemma ScanQuotedText(v: string, rest: string)
    ensures ScanQuoted(Quote(v) + rest) == Some((v, rest))
  {
    var s := Quote(v) + rest;
    assert s[1..] == Escape(v) + "\"" + rest;
    ScanEscaped(v, rest);
  }

  /** `json.dumps` of an optional string: `null` for None. */
  function NullableText(s: Option<string>): string {
    match s
    case None => "null"
    case Some(v) => Quote(v)
  }

  lemma PrintableNullableText(s: Option<string>)
    ensures Printable(NullableText(s))
  {
    if s.Some? {
      PrintableQuote(s.value);
    }
  }

  function ScanNullable(s: string): (r: Option<(Option<string>, string)>)
    ensures r.Some? ==> |r.value.1| < |s|
  {
    if |s| >= 4 && s[..4] == "null" then Some((None, s[4..]))
    else match ScanQuoted(s)
      case None => None
      case Some((v, rest)) => Some((Some(v), rest))
  }

  lemma ScanNullableText(v: Option<string>, rest: string)
    ensures ScanNullable(NullableText(v) + rest) == Some((v, rest))
  {
    match v
    case None =>
      assert (NullableText(v) + rest)[..4] == "null";
    case Some(x) =>
      ScanQuotedText(x, rest);
  }

  /** `json.dumps` of an optional float: `null` for None. */
  function NullableFloatText(f: Option<Float>): (r: string)
    ensures r != [] && IsDigit(r[|r| - 1]) != (f == None)
  {
    match f
    case None => "null"
    case Some(v) => FloatText(v)
  }

  function ScanNullableFloat(s: string): (r: Option<(Option<Float>, string)>)
    ensures r.Some? ==> |r.value.1| < |s|
  {
    if |s| >= 4 && s[..4] == "null" then Some((None, s[4..]))
    else match ScanFloat(s)
      case None => None
      case Some((v, rest)) => Some((Some(v), rest))
  }

  lemma ScanNullableFloatText(f: Option<Float>, rest: string)
    requires rest == [] || !IsDigit(rest[0])
    ensures ScanNullableFloat(NullableFloatText(f) + rest) == Some((f, rest))
  {
    match f
    case None =>
      assert (NullableFloatText(f) + rest)[..4] == "null";
    case Some(x) =>
      var s := FloatText(x) + rest;
      assert IsDigit(s[0]);
      assert !(|s| >= 4 && s[..4] == "null") by {
        if |s| >= 4 { assert s[..4][0] == s[0]; }
      }
      ScanFloatText(x, rest);
  }

  /** The text after a literal prefix, or None when the text does not start with it. */
  function Expect(literal: string, s: string): (r: Option<string>)
    ensures r.Some? ==> |r.value| == |s| - |literal|
  {
    if |literal| <= |s| && s[..|literal|] == literal then Some(s[|literal|..]) else None
  }

  lemma ExpectLiteral(literal: string, rest: string)
    ensures Expect(literal, literal + rest) == Some(rest)
  {
    assert (literal + rest)[..|literal|] == literal;
  }
}
