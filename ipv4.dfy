/**
 * The dotted-quad text form of an IPv4 address as Python's
 * `ipaddress.IPv4Address` reads it: exactly four dot-separated decimal
 * octets, each of one to three ASCII digits, no leading zero, at most 255.
 */
module Ipv4 {
  import opened Options
  import opened PyText

  /** The four octets of an address, most significant first. */
  type Octets = o: seq<nat> | |o| == 4 && forall i :: 0 <= i < |o| ==> o[i] <= 255
    witness [0, 0, 0, 0]

  /** `s.split(sep)`: the pieces between separators, empty pieces included. */
  function Split(s: string, sep: char): (parts: seq<string>)
    ensures |parts| >= 1
    ensures forall i :: 0 <= i < |parts| ==> sep !in parts[i]
  {
    if s == [] then [[]]
    else
      var tail := Split(s[1..], sep);
      if s[0] == sep then [[]] + tail else [[s[0]] + tail[0]] + tail[1..]
  }

  /** `sep.join(parts)`. */
  function Join(parts: seq<string>, sep: char): string
    requires |parts| >= 1
  {
    if |parts| == 1 then parts[0] else parts[0] + [sep] + Join(parts[1..], sep)
  }

  lemma {:induction false} SplitPrefix(p: string, t: string, sep: char)
    requires sep !in p
    ensures Split(p + t, sep) == [p + Split(t, sep)[0]] + Split(t, sep)[1..]
  {
    if p != [] {
      assert (p + t)[1..] == p[1..] + t;
      assert p[0] != sep;
      SplitPrefix(p[1..], t, sep);
      assert [p[0]] + (p[1..] + Split(t, sep)[0]) == p + Split(t, sep)[0];
    } else {
      var st := Split(t, sep);
      assert p + t == t && p + st[0] == st[0];
      assert st == [st[0]] + st[1..];
    }
  }

  /** Splitting a join gives back the pieces when none holds the separator. */
  lemma {:induction false} SplitJoin(parts: seq<string>, sep: char)
    requires |parts| >= 1
    requires forall i :: 0 <= i < |parts| ==> sep !in parts[i]
    ensures Split(Join(parts, sep), sep) == parts
  {
    if |parts| == 1 {
      SplitPrefix(parts[0], [], sep);
      assert parts[0] + [] == parts[0];
    } else {
      var rest := Join(parts[1..], sep);
      SplitJoin(parts[1..], sep);
      assert parts[0] + [sep] + rest == parts[0] + ([sep] + rest);
      assert ([sep] + rest)[1..] == rest;
      SplitPrefix(parts[0], [sep] + rest, sep);
      assert parts[0] + [] == parts[0];
      assert [parts[0]] + parts[1..] == parts;
    }
  }

  /** Joining the pieces of a split gives back the text. */
  lemma {:induction false} JoinSplit(s: string, sep: char)
    ensures Join(Split(s, sep), sep) == s
  {
    if s != [] {
      var tail := Split(s[1..], sep);
      JoinSplit(s[1..], sep);
      if s[0] == sep {
        assert Split(s, sep)[1..] == tail;
        assert s == [sep] + s[1..];
      } else {
        var parts := Split(s, sep);
        if |tail| == 1 {
          assert parts == [[s[0]] + tail[0]];
        } else {
          assert parts[1..] == tail[1..];
          assert Join(tail, sep) == tail[0] + [sep] + Join(tail[1..], sep);
        }
      }
    }
  }

  /** One octet: one to three ASCII digits, no leading zero, at most 255. */
  function ParseOctet(s: string): (r: Option<nat>)
    ensures r.Some? ==> r.value <= 255
  {
    if s == [] || |s| > 3 || !AllDigits(s) || (s[0] == '0' && s != "0") then None
    else if DigitsValue(s) > 255 then None
    else Some(DigitsValue(s))
  }

  /** `ipaddress.IPv4Address(s)`: None plays the part of AddressValueError. */
  function Parse(s: string): Option<Octets> {
    var parts := Split(s, '.');
    if s == [] || |parts| != 4 then None
    else
      match (ParseOctet(parts[0]), ParseOctet(parts[1]), ParseOctet(parts[2]), ParseOctet(parts[3]))
      case (Some(a), Some(b), Some(c), Some(d)) => Some([a, b, c, d])
      case _ => None
  }

  /** `str(IPv4Address)`: the octets in decimal, joined by dots. */
  function Format(o: Octets): (s: string)
  {
    Join([NatToString(o[0]), NatToString(o[1]), NatToString(o[2]), NatToString(o[3])], '.')
  }

  lemma ParseOctetText(n: nat)
    requires n <= 255
    ensures ParseOctet(NatToString(n)) == Some(n)
    ensures '.' !in NatToString(n)
  {
    NatToStringLength(n, 3);
    NatToStringDigits(n);
    var s := NatToString(n);
    assert s[0] != '0' || s == "0";
    forall i | 0 <= i < |s|
      ensures s[i] != '.'
    {
      assert IsDigit(s[i]);
    }
  }

  /** Every address reads back from its own dotted-quad text. */
  lemma ParseFormat(o: Octets)
    ensures Parse(Format(o)) == Some(o)
  {
    var parts := [NatToString(o[0]), NatToString(o[1]), NatToString(o[2]), NatToString(o[3])];
    ParseOctetText(o[0]);
    ParseOctetText(o[1]);
    ParseOctetText(o[2]);
    ParseOctetText(o[3]);
    SplitJoin(parts, '.');
    var s := Format(o);
    assert Split(s, '.') == parts;
    assert s != [] by {
      assert Join(parts, '.') == parts[0] + ['.'] + Join(parts[1..], '.');
    }
    assert [o[0], o[1], o[2], o[3]] == o;
  }

  lemma ParsedOctetText(s: string)
    requires ParseOctet(s).Some?
    ensures NatToString(ParseOctet(s).value) == s
  {
    CanonicalDigits(s);
  }

  /**
   * The parser accepts only canonical text: whatever it accepts is exactly
   * the formatted form of the address it reads.
   */
  lemma FormatParse(s: string)
    requires Parse(s).Some?
    ensures Format(Parse(s).value) == s
  {
    var parts := Split(s, '.');
    ParsedOctetText(parts[0]);
    ParsedOctetText(parts[1]);
    ParsedOctetText(parts[2]);
    ParsedOctetText(parts[3]);
    JoinSplit(s, '.');
    assert parts == [parts[0], parts[1], parts[2], parts[3]];
  }

  /** `is_loopback`: the network 127.0.0.0/8. */
  predicate IsLoopback(o: Octets) {
    o[0] == 127
  }

  /** The shared address space 100.64.0.0/10 that `is_global` excludes besides private addresses. */
  predicate InSharedAddressSpace(o: Octets) {
    o[0] == 100 && 64 <= o[1] < 128
  }
}
