/**
 Percent-encoding of a path segment (section 2.1 of RFC 3986) as `url.PathEscape` does it, and
 the decoding of a request path.
 */
module Percent {
  import opened Text

  /** The bytes `url.PathEscape` leaves as they are. */
  predicate Plain(c: char) {
    || '0' <= c <= '9' || 'A' <= c <= 'Z' || 'a' <= c <= 'z'
    || c in "-_.~$&+:=@"
  }

  predicate IsByte(c: char) {
    c < 256 as char
  }

  predicate Bytes(s: string) {
    forall i :: 0 <= i < |s| ==> IsByte(s[i])
  }

  function HexDigit(d: nat): (c: char)
    requires d < 16
  {
    if d < 10 then (48 + d) as char else (55 + d) as char
  }

  function HexValue(c: char): Option<nat> {
    if '0' <= c <= '9' then Some(c as int - 48)
    else if 'A' <= c <= 'F' then Some(c as int - 55)
    else if 'a' <= c <= 'f' then Some(c as int - 87)
    else None
  }

  function EscapeByte(c: char): string
    requires IsByte(c)
  {
    if Plain(c) then [c] else ['%', HexDigit(c as int / 16), HexDigit(c as int % 16)]
  }

  /** `url.PathEscape`. */
  function PathEscape(s: string): string
    requires Bytes(s)
  {
    if s == "" then "" else EscapeByte(s[0]) + PathEscape(s[1..])
  }

  /** A byte an escaped segment can hold. */
  predicate Escaped(c: char) {
    Plain(c) || c == '%'
  }

  lemma EscapedByteAlphabet(c: char)
    requires IsByte(c)
    ensures forall i :: 0 <= i < |EscapeByte(c)| ==> Escaped(EscapeByte(c)[i])
  {
    HexIsPlain(c as int / 16);
    HexIsPlain(c as int % 16);
  }

  lemma {:induction false} EscapeAlphabet(s: string)
    requires Bytes(s)
    ensures forall i :: 0 <= i < |PathEscape(s)| ==> Escaped(PathEscape(s)[i])
  {
    if s != "" {
      EscapeAlphabet(s[1..]);
      EscapedByteAlphabet(s[0]);
    }
  }

  /** An escaped segment holds no slash, question mark or number sign, so it stays one segment of the path. */
  lemma EscapeKeepsSegment(s: string)
    requires Bytes(s)
    ensures '/' !in PathEscape(s) && '?' !in PathEscape(s) && '#' !in PathEscape(s)
  {
    EscapeAlphabet(s);
    assert !Escaped('/') && !Escaped('?') && !Escaped('#');
  }

  lemma HexIsPlain(d: nat)
    requires d < 16
    ensures '0' <= HexDigit(d) <= '9' || 'A' <= HexDigit(d) <= 'F'
  {
  }

  /** Escaping changes a text just when some byte of it needs it. */
  lemma {:induction false} EscapeUnchanged(s: string)
    requires Bytes(s)
    ensures |PathEscape(s)| >= |s|
    ensures PathEscape(s) == s <==> forall i :: 0 <= i < |s| ==> Plain(s[i])
  {
    if s != "" {
      EscapeUnchanged(s[1..]);
      assert s == [s[0]] + s[1..];
    }
  }

  /** Decoding; a percent sign without two hexadecimal digits is an error. */
  function Unescape(s: string): Option<string> {
    if s == "" then Some("")
    else if s[0] != '%' then Prepend(s[0], Unescape(s[1..]))
    else if |s| < 3 || HexValue(s[1]).None? || HexValue(s[2]).None? then None
    else Prepend((16 * HexValue(s[1]).value + HexValue(s[2]).value) as char, Unescape(s[3..]))
  }

  function Prepend(c: char, s: Option<string>): Option<string> {
    if s.Some? then Some([c] + s.value) else None
  }

  function PrependAll(a: string, s: Option<string>): Option<string> {
    if s.Some? then Some(a + s.value) else None
  }

  lemma PrependNone(s: Option<string>)
    ensures PrependAll("", s) == s
  {
    if s.Some? {
      assert "" + s.value == s.value;
    }
  }

  lemma PrependOne(a: string, s: Option<string>)
    requires a != ""
    ensures Prepend(a[0], PrependAll(a[1..], s)) == PrependAll(a, s)
  {
    if s.Some? {
      assert [a[0]] + (a[1..] + s.value) == a + s.value;
    }
  }

  /** Text without a percent sign decodes to itself, whatever follows it. */
  lemma {:induction false} UnescapeText(a: string, rest: string)
    requires '%' !in a
    ensures Unescape(a + rest) == PrependAll(a, Unescape(rest))
  {
    if a == "" {
      assert a + rest == rest;
      PrependNone(Unescape(rest));
    } else {
      assert (a + rest)[1..] == a[1..] + rest;
      UnescapeText(a[1..], rest);
      PrependOne(a, Unescape(rest));
    }
  }

  lemma EscapedByteDecodes(c: char, rest: string)
    requires IsByte(c)
    ensures Unescape(EscapeByte(c) + rest) == Prepend(c, Unescape(rest))
  {
    var s := EscapeByte(c) + rest;
    if Plain(c) {
      assert s[1..] == rest;
    } else {
      assert s[3..] == rest;
      var v := c as int;
      assert 16 * (v / 16) + v % 16 == v;
    }
  }

  /** An escaped segment decodes to the segment, whatever follows it. */
  lemma {:induction false} UnescapeEscaped(a: string, rest: string)
    requires Bytes(a)
    ensures Unescape(PathEscape(a) + rest) == PrependAll(a, Unescape(rest))
  {
    if a == "" {
      assert PathEscape(a) + rest == rest;
      PrependNone(Unescape(rest));
    } else {
      EscapeFirst(a, rest);
      EscapedByteDecodes(a[0], PathEscape(a[1..]) + rest);
      UnescapeEscaped(a[1..], rest);
      PrependOne(a, Unescape(rest));
    }
  }

  lemma EscapeFirst(a: string, rest: string)
    requires Bytes(a) && a != ""
    ensures PathEscape(a) + rest == EscapeByte(a[0]) + (PathEscape(a[1..]) + rest)
  {
  }

  /** How many percent signs a text has. */
  function Percents(s: string): nat {
    if s == "" then 0 else (if s[0] == '%' then 1 else 0) + Percents(s[1..])
  }

  lemma {:induction false} PercentsConcat(a: string, b: string)
    ensures Percents(a + b) == Percents(a) + Percents(b)
  {
    if a == "" {
      assert a + b == b;
    } else {
      assert (a + b)[1..] == a[1..] + b;
      PercentsConcat(a[1..], b);
    }
  }

  lemma {:induction false} PercentsNone(s: string)
    ensures Percents(s) == 0 <==> '%' !in s
  {
    if s != "" {
      PercentsNone(s[1..]);
      assert s == [s[0]] + s[1..];
    }
  }

  /** Decoding turns three bytes into one at every percent sign. */
  lemma {:induction false} UnescapeLength(s: string)
    ensures Unescape(s).Some? ==> |Unescape(s).value| == |s| - 2 * Percents(s)
  {
    if s != "" {
      if s[0] != '%' {
        UnescapeLength(s[1..]);
      } else if |s| >= 3 && HexValue(s[1]).Some? && HexValue(s[2]).Some? {
        UnescapeLength(s[3..]);
        assert s[1..][1..] == s[2..] && s[2..][1..] == s[3..];
        assert Percents(s[1..]) == Percents(s[2..]) == Percents(s[3..]);
      }
    }
  }
}
