/** Decimal integers: the subset of Python's `int(str)` the converter relies on,
    and the decimal rendering used for positional names. */
module Numbers {
  import opened Wrappers

  predicate IsDigit(c: char)
  {
    '0' <= c <= '9'
  }

  /** A non-empty run of ASCII decimal digits. */
  predicate IsDigits(s: string)
  {
    |s| > 0 && forall k :: 0 <= k < |s| ==> IsDigit(s[k])
  }

  /** The value of a run of decimal digits, most significant first. */
  function DigitsValue(s: string): nat
    requires forall k :: 0 <= k < |s| ==> IsDigit(s[k])
  {
    if s == [] then 0
    else
      assert IsDigit(s[|s| - 1]);
      DigitsValue(s[..|s| - 1]) * 10 + (s[|s| - 1] as int - '0' as int)
  }

  /** Python's `int(s)` restricted to an optional `+` or `-` followed by ASCII
      decimal digits (leading zeros allowed); `None` where `int` raises. */
  function ParseInt(s: string): (r: Option<int>)
    ensures r.Some? <==> IsDigits(s) || (|s| > 0 && (s[0] == '+' || s[0] == '-') && IsDigits(s[1..]))
    ensures IsDigits(s) ==> r == Some(DigitsValue(s))
    ensures |s| > 0 && s[0] == '+' && IsDigits(s[1..]) ==> r == Some(DigitsValue(s[1..]))
    ensures |s| > 0 && s[0] == '-' && IsDigits(s[1..]) ==> r == Some(-(DigitsValue(s[1..]) as int))
  {
    if |s| > 0 && (s[0] == '+' || s[0] == '-') then
      var digits := s[1..];
      if IsDigits(digits) then
        var magnitude: int := DigitsValue(digits);
        Some(if s[0] == '-' then -magnitude else magnitude)
      else None
    else if IsDigits(s) then Some(DigitsValue(s))
    else None
  }

  /** The decimal digit of `d`. */
  function Digit(d: nat): (c: char)
    requires d < 10
    ensures IsDigit(c) && c as int - '0' as int == d
  {
    ('0' as int + d) as char
  }

  /** A digit run without a leading zero, the form `str` writes: `"0"`, or
      digits starting with `1`..`9`. */
  predicate IsCanonicalDigits(s: string)
  {
    IsDigits(s) && (s[0] == '0' ==> s == "0")
  }

  /** `str(n)` for a natural number: its shortest decimal digits. */
  function NatToString(n: nat): (s: string)
    ensures IsCanonicalDigits(s) && DigitsValue(s) == n
  {
    if n < 10 then [Digit(n)]
    else
      var prefix := NatToString(n / 10);
      assert (prefix + [Digit(n % 10)])[..|prefix|] == prefix;
      prefix + [Digit(n % 10)]
  }

  /** Splitting off the last decimal digit. */
  lemma LastDigit(q: nat, d: nat)
    requires d < 10
    ensures (q * 10 + d) / 10 == q && (q * 10 + d) % 10 == d
  {
  }

  /** A canonical digit run is the rendering of its own value, so the
      rendering is the only canonical digit run with that value. */
  lemma {:induction false} CanonicalDigitsRendering(s: string)
    requires IsCanonicalDigits(s)
    ensures s == NatToString(DigitsValue(s))
  {
    if |s| > 1 {
      var p := s[..|s| - 1];
      var c := s[|s| - 1];
      assert IsDigit(c);
      var d: nat := c as int - '0' as int;
      assert p[0] == s[0] != '0';
      assert IsCanonicalDigits(p);
      CanonicalDigitsRendering(p);
      var q := DigitsValue(p);
      assert NatToString(0) == "0";
      assert q != 0;
      var v := DigitsValue(s);
      assert v == q * 10 + d;
      LastDigit(q, d);
      assert NatToString(v) == NatToString(q) + [Digit(d)];
      assert Digit(d) == c;
      assert s == p + [c];
    }
  }

  /** `str(n)` for any integer. */
  function IntToString(n: int): string
  {
    if n < 0 then "-" + NatToString(-n) else NatToString(n)
  }

  /** Parsing the rendering of an integer gives the integer back. */
  lemma ParseIntToString(n: int)
    ensures ParseInt(IntToString(n)) == Some(n)
  {
    if n < 0 {
      assert IntToString(n)[1..] == NatToString(-n);
    } else {
      assert IntToString(n) == NatToString(n);
    }
  }
}
