/** String splitting, joining and whitespace stripping, as the converter uses
    them (Python's `str.split`, `str.strip`). */
module Strings {
  import opened Wrappers

  /** Concatenation is associative. */
  lemma AppendAssoc<T>(x: seq<T>, y: seq<T>, z: seq<T>)
    ensures x + (y + z) == (x + y) + z
  {
  }

  /** Three singletons in a row are the three-element sequence. */
  lemma Triple<T>(x: T, y: T, z: T)
    ensures [x] + [y] + [z] == [x, y, z]
  {
  }

  /** `s.split(c, 1)`: the text before the first `c` and the text after it,
      or `None` when `c` does not occur in `s`. */
  function SplitFirst(s: string, c: char): (r: Option<(string, string)>)
    ensures r.None? <==> c !in s
    ensures r.Some? ==> c !in r.value.0 && s == r.value.0 + [c] + r.value.1
  {
    if s == [] then None
    else if s[0] == c then Some(([], s[1..]))
    else match SplitFirst(s[1..], c)
      case None => None
      case Some((a, b)) => Some(([s[0]] + a, b))
  }

  /** The split at the first `c` is the only one whose left part is free of `c`. */
  lemma {:induction false} SplitFirstAt(a: string, c: char, b: string)
    requires c !in a
    ensures SplitFirst(a + [c] + b, c) == Some((a, b))
  {
    if a == [] {
      assert a + [c] + b == [c] + b;
    } else {
      var s := a + [c] + b;
      SplitFirstAt(a[1..], c, b);
      assert s[0] == a[0] && s[1..] == a[1..] + [c] + b;
      assert SplitFirst(s, c) == Some(([a[0]] + a[1..], b));
      assert [a[0]] + a[1..] == a;
    }
  }

  /** `s.split(c)`: the pieces of `s` between the occurrences of `c`. */
  function SplitAll(s: string, c: char): (parts: seq<string>)
    ensures |parts| >= 1
    ensures forall k :: 0 <= k < |parts| ==> c !in parts[k]
    ensures parts[0] <= s
  {
    if s == [] then [[]]
    else
      assert s == [s[0]] + s[1..];
      var tail := SplitAll(s[1..], c);
      if s[0] == c then [[]] + tail
      else [[s[0]] + tail[0]] + tail[1..]
  }

  /** There is one more piece than there are separators. */
  lemma {:induction false} SplitAllCount(s: string, c: char)
    ensures |SplitAll(s, c)| == multiset(s)[c] + 1
  {
    if s != [] {
      SplitAllCount(s[1..], c);
      assert s == [s[0]] + s[1..];
    }
  }

  /** `c.join(parts)`. */
  function Join(parts: seq<string>, c: char): string
  {
    if parts == [] then []
    else if |parts| == 1 then parts[0]
    else parts[0] + [c] + Join(parts[1..], c)
  }

  /** Prefixing the first piece prefixes the join. */
  lemma JoinPrefixHead(h: string, parts: seq<string>, c: char)
    requires parts != []
    ensures Join([h + parts[0]] + parts[1..], c) == h + Join(parts, c)
  {
    var q := [h + parts[0]] + parts[1..];
    assert q[0] == h + parts[0] && q[1..] == parts[1..];
    if |parts| > 1 {
      assert (h + parts[0]) + [c] + Join(parts[1..], c) == h + (parts[0] + [c] + Join(parts[1..], c));
    }
  }

  /** Joining the pieces of a split gives back the string. */
  lemma {:induction false} JoinSplitAll(s: string, c: char)
    ensures Join(SplitAll(s, c), c) == s
  {
    if s != [] {
      var tail := SplitAll(s[1..], c);
      JoinSplitAll(s[1..], c);
      assert s == [s[0]] + s[1..];
      if s[0] == c {
        var q := [[]] + tail;
        assert SplitAll(s, c) == q && |q| > 1 && q[1..] == tail;
        assert Join(q, c) == [] + [c] + Join(tail, c);
      } else {
        assert SplitAll(s, c) == [[s[0]] + tail[0]] + tail[1..];
        JoinPrefixHead([s[0]], tail, c);
      }
    }
  }

  /** A string free of `c` does not split. */
  lemma {:induction false} SplitAllFree(a: string, c: char)
    requires c !in a
    ensures SplitAll(a, c) == [a]
  {
    if a != [] {
      SplitAllFree(a[1..], c);
      assert [a[0]] + a[1..] == a;
    }
  }

  /** Splitting `a + [c] + b` with `c` not in `a` yields `a` followed by the
      pieces of `b`. */
  lemma {:induction false} SplitAllCons(a: string, c: char, b: string)
    requires c !in a
    ensures SplitAll(a + [c] + b, c) == [a] + SplitAll(b, c)
  {
    if a == [] {
      assert a + [c] + b == [c] + b;
      assert ([c] + b)[1..] == b;
    } else {
      var s := a + [c] + b;
      assert s[0] == a[0] && s[1..] == a[1..] + [c] + b;
      SplitAllCons(a[1..], c, b);
      assert [a[0]] + a[1..] == a;
    }
  }

  /** Splitting a join of `c`-free pieces gives back the pieces. */
  lemma {:induction false} SplitAllJoin(parts: seq<string>, c: char)
    requires parts != []
    requires forall k :: 0 <= k < |parts| ==> c !in parts[k]
    ensures SplitAll(Join(parts, c), c) == parts
  {
    if |parts| == 1 {
      SplitAllFree(parts[0], c);
    } else {
      SplitAllJoin(parts[1..], c);
      SplitAllCons(parts[0], c, Join(parts[1..], c));
      assert parts == [parts[0]] + parts[1..];
    }
  }

  /** A join introduces no character other than the separator. */
  lemma {:induction false} JoinFree(parts: seq<string>, c: char, d: char)
    requires c != d
    requires forall k :: 0 <= k < |parts| ==> d !in parts[k]
    ensures d !in Join(parts, c)
  {
    if |parts| > 1 {
      JoinFree(parts[1..], c, d);
    }
  }

  /** The characters `str.isspace` accepts: ASCII `\t` to `\r`, the
      separators `\x1c` to `\x1f`, the space, and the Unicode white space
      characters of Python 3. */
  predicate IsSpace(c: char)
  {
    || c == ' '
    || ('\t' <= c <= '\r')
    || ('\U{1C}' <= c <= '\U{1F}')
    || c == '\U{85}' || c == '\U{A0}' || c == '\U{1680}'
    || ('\U{2000}' <= c <= '\U{200A}')
    || c == '\U{2028}' || c == '\U{2029}' || c == '\U{202F}'
    || c == '\U{205F}' || c == '\U{3000}'
  }

  predicate AllSpace(s: string)
  {
    forall k :: 0 <= k < |s| ==> IsSpace(s[k])
  }

  /** `s.lstrip()`: the longest suffix of `s` that does not start with white space. */
  function TrimStart(s: string): (r: string)
    ensures |r| <= |s| && r == s[|s| - |r|..]
    ensures forall k :: 0 <= k < |s| - |r| ==> IsSpace(s[k])
    ensures r != [] ==> !IsSpace(r[0])
  {
    if s != [] && IsSpace(s[0]) then TrimStart(s[1..]) else s
  }

  /** `s.rstrip()`: the longest prefix of `s` that does not end with white space. */
  function TrimEnd(s: string): (r: string)
    ensures |r| <= |s| && r == s[..|r|]
    ensures forall k :: |r| <= k < |s| ==> IsSpace(s[k])
    ensures r != [] ==> !IsSpace(r[|r| - 1])
  {
    if s != [] && IsSpace(s[|s| - 1]) then TrimEnd(s[..|s| - 1]) else s
  }

  /** `r` is `s` with the white space `s[..i]` and `s[i + |r|..]` removed. */
  predicate PaddedBy(s: string, r: string, i: nat)
  {
    && i + |r| <= |s|
    && r == s[i..i + |r|]
    && (forall k :: 0 <= k < i ==> IsSpace(s[k]))
    && (forall k :: i + |r| <= k < |s| ==> IsSpace(s[k]))
  }

  /** `s.strip()`: `s` without its leading and trailing white space. */
  function Strip(s: string): (r: string)
    ensures PaddedBy(s, r, |s| - |TrimStart(s)|)
    ensures r != [] ==> !IsSpace(r[0]) && !IsSpace(r[|r| - 1])
    ensures r == [] <==> AllSpace(s)
  {
    var t := TrimStart(s);
    var r := TrimEnd(t);
    StripFacts(s, t, r);
    r
  }

  /** The facts `Strip` promises, for `t := TrimStart(s)` and `r := TrimEnd(t)`. */
  lemma StripFacts(s: string, t: string, r: string)
    requires t == TrimStart(s) && r == TrimEnd(t)
    ensures PaddedBy(s, r, |s| - |t|)
    ensures r != [] ==> !IsSpace(r[0]) && !IsSpace(r[|r| - 1])
    ensures r == [] <==> AllSpace(s)
  {
    StripPadding(s, t, r);
    StripEnds(s, t, r);
    StripEmpty(s, t, r);
  }

  /** `Strip` removes white space only: `t` is `s` less leading white space,
      `r` is `t` less trailing white space. */
  lemma StripPadding(s: string, t: string, r: string)
    requires |t| <= |s| && t == s[|s| - |t|..] && forall k :: 0 <= k < |s| - |t| ==> IsSpace(s[k])
    requires |r| <= |t| && r == t[..|r|] && forall k :: |r| <= k < |t| ==> IsSpace(t[k])
    ensures PaddedBy(s, r, |s| - |t|)
  {
    var i := |s| - |t|;
    MiddleSlice(s, t, r, i);
    forall k | i + |r| <= k < |s|
      ensures IsSpace(s[k])
    {
      assert s[k] == t[k - i];
    }
  }

  /** A prefix of a suffix is a slice. */
  lemma MiddleSlice(s: string, t: string, r: string, i: nat)
    requires i <= |s| && t == s[i..] && |r| <= |t| && r == t[..|r|]
    ensures r == s[i..i + |r|]
  {
  }

  /** What `Strip` keeps neither starts nor ends with white space. */
  lemma StripEnds(s: string, t: string, r: string)
    requires t == TrimStart(s) && r == TrimEnd(t)
    ensures r != [] ==> !IsSpace(r[0]) && !IsSpace(r[|r| - 1])
  {
    if r != [] {
      assert r[0] == t[0];
    }
  }

  /** `Strip` leaves nothing exactly when `s` is all white space. */
  lemma StripEmpty(s: string, t: string, r: string)
    requires t == TrimStart(s) && r == TrimEnd(t)
    ensures r == [] <==> AllSpace(s)
  {
    var i := |s| - |t|;
    assert t == s[i..];
    if r != [] {
      assert r[0] == t[0] == s[i];
    } else {
      forall k | 0 <= k < |s| ensures IsSpace(s[k]) {
        if k >= i { assert s[k] == t[k - i]; }
      }
    }
  }

  /** Stripping is determined by its padding: any way of writing `s` as white
      space around a string whose ends are not white space is the strip. */
  lemma StripUnique(s: string, r: string, i: nat)
    requires PaddedBy(s, r, i)
    requires r != [] ==> !IsSpace(r[0]) && !IsSpace(r[|r| - 1])
    ensures r == Strip(s)
  {
    var t := Strip(s);
    var j := |s| - |TrimStart(s)|;
    if r != [] {
      assert s[i] == r[0];
      assert s[i + |r| - 1] == r[|r| - 1];
      assert !AllSpace(s);
      assert s[j] == t[0];
      assert s[j + |t| - 1] == t[|t| - 1];
      assert i == j;
      assert |r| == |t|;
    } else {
      assert AllSpace(s);
    }
  }

  /** Stripping twice is stripping once. */
  lemma StripIdempotent(s: string)
    ensures Strip(Strip(s)) == Strip(s)
  {
    var r := Strip(s);
    assert r[0..|r|] == r;
    assert PaddedBy(r, r, 0);
    StripUnique(r, r, 0);
  }
}
