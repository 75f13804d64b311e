/** Percent-decoding (section 2.1 of RFC 3986) as `urllib.parse.unquote`
    applies it, restricted to escapes of ASCII characters, and the
    `+`-as-space rule of application/x-www-form-urlencoded values. */
module Percent {
  import opened Strings
  import opened Numbers

  predicate IsHexDigit(c: char)
  {
    IsDigit(c) || 'a' <= c <= 'f' || 'A' <= c <= 'F'
  }

  function HexValue(c: char): (v: nat)
    requires IsHexDigit(c)
    ensures v < 16
  {
    if IsDigit(c) then c as int - '0' as int
    else if 'a' <= c <= 'f' then c as int - 'a' as int + 10
    else c as int - 'A' as int + 10
  }

  /** The upper-case hexadecimal digit of `d`. */
  function HexDigit(d: nat): (c: char)
    requires d < 16
    ensures IsHexDigit(c) && HexValue(c) == d
    ensures IsUnreserved(c)
  {
    if d < 10 then ('0' as int + d) as char else ('A' as int + d - 10) as char
  }

  /** `%XX` at the start of `s` with two hex digits naming an ASCII character. */
  predicate StartsWithAsciiEscape(s: string)
  {
    && |s| >= 3 && s[0] == '%' && IsHexDigit(s[1]) && IsHexDigit(s[2])
    && HexValue(s[1]) * 16 + HexValue(s[2]) < 128
  }

  /** `urllib.parse.unquote(s)` for ASCII escapes: every `%XX` naming an ASCII
      character is replaced by that character; any other `%` is kept. */
  function Unquote(s: string): (r: string)
    ensures |r| <= |s|
    ensures r == [] <==> s == []
    ensures '%' !in s ==> r == s
  {
    if s == [] then []
    else if StartsWithAsciiEscape(s) then
      [(HexValue(s[1]) * 16 + HexValue(s[2])) as char] + Unquote(s[3..])
    else
      assert s == [s[0]] + s[1..];
      [s[0]] + Unquote(s[1..])
  }

  /** The unreserved characters of section 2.3 of RFC 3986. */
  predicate IsUnreserved(c: char)
  {
    || 'A' <= c <= 'Z' || 'a' <= c <= 'z' || '0' <= c <= '9'
    || c == '-' || c == '.' || c == '_' || c == '~'
  }

  /** Percent-encodes every ASCII character that is not unreserved; other
      characters are kept as they are. The inverse of `Unquote`, used to
      state what decoding recovers. */
  function Quote(s: string): (r: string)
    ensures forall k :: 0 <= k < |r| && r[k] as int < 128 ==> IsUnreserved(r[k]) || r[k] == '%'
    ensures r == [] <==> s == []
  {
    if s == [] then []
    else QuoteChar(s[0]) + Quote(s[1..])
  }

  /** An ASCII character that is reserved and not `%` never survives
      encoding. */
  lemma QuoteExcludes(s: string, c: char)
    requires c as int < 128 && !IsUnreserved(c) && c != '%'
    ensures c !in Quote(s)
  {
  }

  /** The encoding of one character by `Quote`. */
  function QuoteChar(c: char): (r: string)
    ensures forall k :: 0 <= k < |r| && r[k] as int < 128 ==> IsUnreserved(r[k]) || r[k] == '%'
    ensures r != []
  {
    if c as int < 128 && !IsUnreserved(c) then ['%', HexDigit(c as int / 16), HexDigit(c as int % 16)]
    else [c]
  }

  /** Decoding the encoding of `c` ahead of `rest` yields `c` ahead of the
      decoding of `rest`. */
  lemma UnquoteQuoteChar(c: char, rest: string)
    ensures Unquote(QuoteChar(c) + rest) == [c] + Unquote(rest)
  {
    var e := QuoteChar(c) + rest;
    if c as int < 128 && !IsUnreserved(c) {
      var hi, lo := c as int / 16, c as int % 16;
      assert e[0] == '%' && e[1] == HexDigit(hi) && e[2] == HexDigit(lo);
      assert hi * 16 + lo == c as int;
      assert StartsWithAsciiEscape(e);
      assert e[3..] == rest;
    } else {
      assert e[1..] == rest;
    }
  }

  /** Text without `%` passes through decoding unchanged, whatever follows. */
  lemma {:induction false} UnquotePlainPrefix(a: string, rest: string)
    requires '%' !in a
    ensures Unquote(a + rest) == a + Unquote(rest)
  {
    if a != [] {
      var c, tail := a[0], a[1..];
      assert a == [c] + tail;
      AppendAssoc([c], tail, rest);
      UnquotePlain(c, tail + rest);
      UnquotePlainPrefix(tail, rest);
      AppendAssoc([c], tail, Unquote(rest));
    } else {
      assert a + rest == rest;
    }
  }

  /** The first `%` followed by two hex digits of either case naming an
      ASCII character is replaced by that character, and decoding goes on
      after the escape. */
  lemma UnquoteEscapeAt(a: string, h: char, l: char, b: string)
    requires '%' !in a && IsHexDigit(h) && IsHexDigit(l) && HexValue(h) * 16 + HexValue(l) < 128
    ensures Unquote(a + ['%', h, l] + b) == a + [(HexValue(h) * 16 + HexValue(l)) as char] + Unquote(b)
  {
    var e := ['%', h, l] + b;
    assert StartsWithAsciiEscape(e);
    assert e[3..] == b;
    assert a + ['%', h, l] + b == a + e;
    UnquotePlainPrefix(a, e);
    AppendAssoc(a, [(HexValue(h) * 16 + HexValue(l)) as char], Unquote(b));
  }

  /** A first `%` that does not start such an escape is kept, and decoding
      goes on right after it. */
  lemma UnquoteStrayAt(a: string, b: string)
    requires '%' !in a && !StartsWithAsciiEscape(['%'] + b)
    ensures Unquote(a + ['%'] + b) == a + ['%'] + Unquote(b)
  {
    var e := ['%'] + b;
    UnquoteStrayHead(b);
    assert a + ['%'] + b == a + e;
    UnquotePlainPrefix(a, e);
    AppendAssoc(a, ['%'], Unquote(b));
  }

  /** A leading `%` that does not start an ASCII escape is kept. */
  lemma UnquoteStrayHead(b: string)
    requires !StartsWithAsciiEscape(['%'] + b)
    ensures Unquote(['%'] + b) == ['%'] + Unquote(b)
  {
    assert (['%'] + b)[1..] == b;
  }

  /** A lower-case escape is decoded: `a%2fb` becomes `a/b`. */
  lemma UnquoteLowerCaseExample()
    ensures Unquote("a%2fb") == "a/b"
  {
    assert HexValue('2') * 16 + HexValue('f') == '/' as int;
    UnquoteEscapeAt("a", '2', 'f', "b");
    assert "a" + ['%', '2', 'f'] + "b" == "a%2fb";
    assert Unquote("b") == "b";
  }

  /** A `%` not followed by two hex digits is kept: `50%` stays `50%`. */
  lemma UnquoteStrayExample()
    ensures Unquote("50%") == "50%"
  {
    UnquoteStrayAt("50", "");
    assert "50" + ['%'] + "" == "50%";
  }

  /** Decoding undoes encoding, for every string. */
  lemma {:induction false} UnquoteQuote(s: string)
    ensures Unquote(Quote(s)) == s
  {
    if s != [] {
      UnquoteQuote(s[1..]);
      UnquoteQuoteChar(s[0], Quote(s[1..]));
      assert [s[0]] + s[1..] == s;
    }
  }

  /** `s.replace('+', ' ')`: every `+` becomes a space, every other
      character is kept. */
  function PlusToSpace(s: string): (r: string)
    ensures |r| == |s| && '+' !in r
    ensures forall k :: 0 <= k < |s| && s[k] == '+' ==> r[k] == ' '
    ensures forall k :: 0 <= k < |s| && s[k] != '+' ==> r[k] == s[k]
  {
    seq(|s|, k requires 0 <= k < |s| => if s[k] == '+' then ' ' else s[k])
  }

  /** The decoding `urllib.parse.parse_qs` gives a name or a value:
      `+` becomes a space, then percent-decoding. */
  function FormDecode(s: string): (r: string)
    ensures r == [] <==> s == []
  {
    Unquote(PlusToSpace(s))
  }

  /** Form-decoding also undoes `Quote`, which never emits `+`. */
  lemma FormDecodeQuote(s: string)
    ensures FormDecode(Quote(s)) == s
  {
    var q := Quote(s);
    assert PlusToSpace(q) == q by {
      forall k | 0 <= k < |q| ensures q[k] != '+' {
      }
    }
    UnquoteQuote(s);
  }

  /** Without escapes, form-decoding turns every `+` into a space and keeps
      every other character. */
  lemma FormDecodeUnescaped(s: string)
    requires '%' !in s
    ensures |FormDecode(s)| == |s|
    ensures forall k :: 0 <= k < |s| ==> FormDecode(s)[k] == if s[k] == '+' then ' ' else s[k]
  {
    var t := PlusToSpace(s);
    assert '%' !in t by {
      forall k | 0 <= k < |t| ensures t[k] != '%' {
        assert s[k] != '%';
      }
    }
  }

  /** Text with neither `%` nor `+` form-decodes to itself. */
  lemma FormDecodePlain(s: string)
    requires '%' !in s && '+' !in s
    ensures FormDecode(s) == s
  {
    FormDecodeUnescaped(s);
  }

  /** The application/x-www-form-urlencoded encoding of one character: a
      space is written `+`, anything else as `Quote` writes it. */
  function FormQuoteChar(c: char): (r: string)
    ensures r != []
    ensures '+' in r <==> c == ' '
  {
    if c == ' ' then "+" else QuoteChar(c)
  }

  /** Form-encodes a whole string, the inverse `FormDecode` answers to. */
  function FormQuote(s: string): (r: string)
    ensures r == [] <==> s == []
    ensures '+' in r <==> ' ' in s
  {
    if s == [] then [] else FormQuoteChar(s[0]) + FormQuote(s[1..])
  }

  /** Replacing `+` distributes over concatenation. */
  lemma PlusToSpaceAppend(a: string, b: string)
    ensures PlusToSpace(a + b) == PlusToSpace(a) + PlusToSpace(b)
  {
    assert forall k :: 0 <= k < |a| ==> (a + b)[k] == a[k];
    assert forall k :: |a| <= k < |a| + |b| ==> (a + b)[k] == b[k - |a|];
  }

  /** A character other than `%` is its own decoding. */
  lemma UnquotePlain(c: char, rest: string)
    requires c != '%'
    ensures Unquote([c] + rest) == [c] + Unquote(rest)
  {
    assert ([c] + rest)[1..] == rest;
  }

  /** Form-decoding undoes form-encoding, for every string: a `+` written
      for a space is read back as that space. */
  lemma {:induction false} FormDecodeFormQuote(s: string)
    ensures FormDecode(FormQuote(s)) == s
  {
    if s != [] {
      var e, t := FormQuoteChar(s[0]), FormQuote(s[1..]);
      FormDecodeFormQuote(s[1..]);
      PlusToSpaceAppend(e, t);
      if s[0] == ' ' {
        assert PlusToSpace(e) == [' '];
        UnquotePlain(' ', PlusToSpace(t));
      } else {
        assert PlusToSpace(e) == e;
        UnquoteQuoteChar(s[0], PlusToSpace(t));
      }
      assert [s[0]] + s[1..] == s;
    }
  }
}
