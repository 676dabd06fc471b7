/**
 * The few Python text built-ins the protocol relies on: `str(n)` for an
 * integer, `int(s)` for a decimal string, and `str.strip()`.
 */
module PyText {
  import opened Options

  predicate IsDigit(c: char) {
    '0' <= c <= '9'
  }

  predicate AllDigits(s: string) {
    forall i :: 0 <= i < |s| ==> IsDigit(s[i])
  }

  function DigitChar(d: nat): (c: char)
    requires d < 10
    ensures IsDigit(c)
  {
    ('0' as int + d) as char
  }

  function DigitValue(c: char): (d: nat)
    requires IsDigit(c)
    ensures d < 10 && DigitChar(d) == c
  {
    c as int - '0' as int
  }

  /** The value of a non-empty or empty run of decimal digits, most significant first. */
  function DigitsValue(s: string): nat
    requires AllDigits(s)
  {
    if s == [] then 0 else DigitsValue(s[..|s| - 1]) * 10 + DigitValue(s[|s| - 1])
  }

  /**
   * `str(n)` for a non-negative int: decimal digits without sign or leading
   * zero, whose value is `n`.
   */
  function NatToString(n: nat): (s: string)
    ensures |s| >= 1
  {
    if n < 10 then
      [DigitChar(n)]
    else
      NatToString(n / 10) + [DigitChar(n % 10)]
  }

  /** `str` of a natural number is a run of decimal digits, without a leading zero, whose value is the number. */
  lemma {:induction false} NatToStringDigits(n: nat)
    ensures AllDigits(NatToString(n))
    ensures (NatToString(n)[0] == '0') == (n == 0)
    ensures n == 0 ==> NatToString(n) == "0"
    ensures DigitsValue(NatToString(n)) == n
  {
    if n >= 10 {
      NatToStringDigits(n / 10);
      var s := NatToString(n);
      assert s[..|s| - 1] == NatToString(n / 10);
    }
  }

  /** `str(i)` for any int: a minus sign in front of a negative value. */
  function IntToString(i: int): (s: string)
    ensures |s| >= 1 && (s[0] == '-') == (i < 0)
    ensures i >= 0 ==> s == NatToString(i)
  {
    if i < 0 then "-" + NatToString(-i) else NatToStringDigits(i); NatToString(i)
  }

  /** A value below 10^k has at most k digits, and one of at least 10^(k-1) at least k. */
  lemma {:induction false} NatToStringLength(n: nat, k: nat)
    ensures n < Pow10(k) ==> |NatToString(n)| <= k || (n == 0 && k == 0)
    ensures k >= 1 && n >= Pow10(k - 1) ==> |NatToString(n)| >= k
  {
    if n >= 10 && k >= 1 {
      NatToStringLength(n / 10, k - 1);
    }
    if k >= 2 && n >= Pow10(k - 1) {
      assert n >= 10;
    }
  }

  /** The value of a digit string is at least the value of its leading digit. */
  lemma {:induction false} LeadingDigit(s: string)
    requires s != [] && AllDigits(s)
    ensures DigitsValue(s) >= DigitValue(s[0])
    decreases |s|
  {
    if |s| > 1 {
      var init := s[..|s| - 1];
      assert init[0] == s[0];
      LeadingDigit(init);
    } else {
      assert s[..|s| - 1] == [] && DigitsValue([]) == 0;
    }
  }

  /** A digit string without a superfluous leading zero is the `str` of its own value. */
  lemma {:induction false} CanonicalDigits(s: string)
    requires s != [] && AllDigits(s) && (s[0] != '0' || |s| == 1)
    ensures NatToString(DigitsValue(s)) == s
    decreases |s|
  {
    var v := DigitsValue(s);
    if |s| == 1 {
      assert s[..|s| - 1] == [] && DigitsValue([]) == 0;
      assert v == DigitValue(s[0]);
      assert [DigitChar(v)] == s;
    } else {
      var init := s[..|s| - 1];
      assert init[0] == s[0];
      LeadingDigit(init);
      CanonicalDigits(init);
      assert v / 10 == DigitsValue(init) && v % 10 == DigitValue(s[|s| - 1]);
      assert s == init + [s[|s| - 1]];
    }
  }

  function Pow10(k: nat): (p: nat)
    ensures p >= 1
  {
    if k == 0 then 1 else 10 * Pow10(k - 1)
  }

  /** Python's `str.isspace()` characters, which `str.strip()` removes from both ends. */
  predicate IsSpace(c: char) {
    c == ' ' || ('\t' <= c <= '\r') || ('\U{1C}' <= c <= '\U{1F}')
    || c == '\U{85}' || c == '\U{A0}' || c == '\U{1680}' || ('\U{2000}' <= c <= '\U{200A}')
    || c == '\U{2028}' || c == '\U{2029}' || c == '\U{202F}' || c == '\U{205F}' || c == '\U{3000}'
  }

  function StripStart(s: string): (r: string)
    ensures |r| <= |s| && r == s[|s| - |r|..]
    ensures r == [] || !IsSpace(r[0])
  {
    if s != [] && IsSpace(s[0]) then StripStart(s[1..]) else s
  }

  function StripEnd(s: string): (r: string)
    ensures |r| <= |s| && r == s[..|r|]
    ensures r == [] || !IsSpace(r[|r| - 1])
  {
    if s != [] && IsSpace(s[|s| - 1]) then StripEnd(s[..|s| - 1]) else s
  }

  /** `s.strip()`: whitespace removed from both ends. */
  function Strip(s: string): string {
    StripEnd(StripStart(s))
  }

  /** Stripping text that starts and ends with non-space characters removes exactly the trailing spaces. */
  lemma {:induction false} StripTrailingSpaces(s: string, spaces: string)
    requires s != [] && !IsSpace(s[0]) && !IsSpace(s[|s| - 1])
    requires forall i :: 0 <= i < |spaces| ==> IsSpace(spaces[i])
    ensures Strip(s + spaces) == s
  {
    assert (s + spaces)[0] == s[0];
    assert StripStart(s + spaces) == s + spaces;
    StripEndSpaces(s, spaces);
  }

  lemma {:induction false} StripEndSpaces(s: string, spaces: string)
    requires s != [] && !IsSpace(s[|s| - 1])
    requires forall i :: 0 <= i < |spaces| ==> IsSpace(spaces[i])
    ensures StripEnd(s + spaces) == s
    decreases |spaces|
  {
    if spaces == [] {
      assert s + spaces == s;
    } else {
      var t := s + spaces;
      assert t[|t| - 1] == spaces[|spaces| - 1];
      assert t[..|t| - 1] == s + spaces[..|spaces| - 1];
      StripEndSpaces(s, spaces[..|spaces| - 1]);
    }
  }

  /**
   * `int(s)` for a decimal string: surrounding whitespace is ignored, an
   * optional sign, then one or more ASCII digits. None plays the part of
   * Python's ValueError.
   */
  function ParseInt(s: string): (r: Option<int>)
  {
    var t := Strip(s);
    if t == [] then None
    else if t[0] == '-' || t[0] == '+' then
      var digits := t[1..];
      if digits != [] && AllDigits(digits) then
        Some(if t[0] == '-' then -(DigitsValue(digits) as int) else DigitsValue(digits))
      else None
    else if AllDigits(t) then Some(DigitsValue(t))
    else None
  }

  /** `int(str(n) + padding)` gives back `n` when the padding is whitespace. */
  lemma ParseIntPadded(n: nat, padding: string)
    requires forall i :: 0 <= i < |padding| ==> IsSpace(padding[i])
    ensures ParseInt(NatToString(n) + padding) == Some(n)
  {
    NatToStringDigits(n);
    var s := NatToString(n);
    assert IsDigit(s[0]) && IsDigit(s[|s| - 1]);
    StripTrailingSpaces(s, padding);
    var t := Strip(s + padding);
    assert t == s && t != [] && t[0] != '-' && t[0] != '+';
  }
}
