/** Query-string decoding as `urllib.parse.parse_qs` does it with its default
    `keep_blank_values=False` (application/x-www-form-urlencoded parsing,
    section 5.1 of the WHATWG URL Standard), and the first-value lookup
    `query.get(key, [default])[0]`. */
module Query {
  import opened Wrappers
  import opened Strings
  import opened Percent

  /** One `name=value` field, split at its first `=`; a field with no `=` or
      with an empty value is dropped, as `keep_blank_values=False` does. */
  function DecodeField(field: string): (r: Option<(string, string)>)
    ensures r.Some? ==> r.value.1 != []
    ensures '=' !in field ==> r.None?
  {
    match SplitFirst(field, '=')
    case None => None
    case Some((name, value)) =>
      if value == [] then None else Some((FormDecode(name), FormDecode(value)))
  }

  /** A field is split at its first `=`: the part before it is the name,
      the rest the value, and the field is dropped exactly when that value
      is empty; otherwise both parts are decoded. */
  lemma DecodeFieldAt(name: string, value: string)
    requires '=' !in name
    ensures DecodeField(name + "=" + value)
         == if value == [] then None else Some((FormDecode(name), FormDecode(value)))
  {
    SplitFirstAt(name, '=', value);
  }

  /** What one field contributes: its decoded pair, or nothing. */
  function FieldPairs(field: string): (pairs: seq<(string, string)>)
    ensures |pairs| <= 1
    ensures forall k :: 0 <= k < |pairs| ==> pairs[k].1 != []
  {
    match DecodeField(field)
    case None => []
    case Some(p) => [p]
  }

  /** The decoded fields, in their order in the query string. */
  function DecodeFields(fields: seq<string>): (pairs: seq<(string, string)>)
    ensures |pairs| <= |fields|
    ensures forall k :: 0 <= k < |pairs| ==> pairs[k].1 != []
  {
    if fields == [] then []
    else FieldPairs(fields[0]) + DecodeFields(fields[1..])
  }

  /** Decoding fields distributes over concatenation: fields are decoded
      one by one, in order. */
  lemma {:induction false} DecodeFieldsAppend(a: seq<string>, b: seq<string>)
    ensures DecodeFields(a + b) == DecodeFields(a) + DecodeFields(b)
  {
    if a == [] {
      assert a + b == b;
    } else {
      var f, tail := a[0], a[1..];
      assert a == [f] + tail;
      assert a + b == [f] + (tail + b);
      DecodeFieldsCons(f, tail + b);
      DecodeFieldsCons(f, tail);
      DecodeFieldsAppend(tail, b);
      AppendAssoc(FieldPairs(f), DecodeFields(tail), DecodeFields(b));
    }
  }

  /** The first field is decoded ahead of the rest. */
  lemma DecodeFieldsCons(f: string, rest: seq<string>)
    ensures DecodeFields([f] + rest) == FieldPairs(f) + DecodeFields(rest)
  {
    assert ([f] + rest)[0] == f && ([f] + rest)[1..] == rest;
  }

  /** One field contributes its decoded pair, or nothing when it is dropped. */
  lemma DecodeFieldsOne(f: string)
    ensures DecodeFields([f]) == match DecodeField(f) case None => [] case Some(p) => [p]
  {
    assert [f][1..] == [];
    assert DecodeFields([f]) == FieldPairs(f) + [];
  }

  /** The name/value pairs of a query string, split on `&`, in order: what
      `parse_qs` collects into its lists, before grouping by name. */
  function ParseQs(query: string): (pairs: seq<(string, string)>)
    ensures forall k :: 0 <= k < |pairs| ==> pairs[k].1 != []
    ensures |pairs| <= multiset(query)['&'] + 1
  {
    SplitAllCount(query, '&');
    DecodeFields(SplitAll(query, '&'))
  }

  /** The first value given for `key`: `parse_qs(q)[key][0]`. */
  function Lookup(pairs: seq<(string, string)>, key: string): (r: Option<string>)
    ensures r.None? <==> forall k :: 0 <= k < |pairs| ==> pairs[k].0 != key
    ensures r.Some? ==> (key, r.value) in pairs
  {
    if pairs == [] then None
    else if pairs[0].0 == key then Some(pairs[0].1)
    else Lookup(pairs[1..], key)
  }

  /** A query string made of `&`-free fields parses to those fields decoded,
      in order: whatever text the fields hold, raw `/`, `+` and escapes
      of either case included. */
  lemma ParseQsJoin(fields: seq<string>)
    requires fields != []
    requires forall k :: 0 <= k < |fields| ==> '&' !in fields[k]
    ensures ParseQs(Join(fields, '&')) == DecodeFields(fields)
  {
    SplitAllJoin(fields, '&');
  }

  /** A query string of three `&`-free fields gives what each field
      contributes, in order. */
  lemma ParseQsThree(f0: string, f1: string, f2: string)
    requires '&' !in f0 && '&' !in f1 && '&' !in f2
    ensures ParseQs(f0 + "&" + f1 + "&" + f2) == FieldPairs(f0) + FieldPairs(f1) + FieldPairs(f2)
  {
    var h0, h1 := f0 + "&", f1 + "&";
    AppendAssoc(h0, f1, "&");
    AppendAssoc(h0, h1, f2);
    SplitAllCons(f0, '&', h1 + f2);
    SplitAllCons(f1, '&', f2);
    SplitAllFree(f2, '&');
    DecodeFieldsCons(f0, [f1] + [f2]);
    DecodeFieldsCons(f1, [f2]);
    DecodeFieldsOne(f2);
    AppendAssoc(FieldPairs(f0), FieldPairs(f1), FieldPairs(f2));
  }

  /** A plain `name=value` field decodes to its own name and value. */
  lemma PlainField(name: string, value: string)
    requires '=' !in name && '%' !in name && '+' !in name && '&' !in name
    requires value != [] && '%' !in value && '+' !in value && '&' !in value
    ensures FieldPairs(name + "=" + value) == [(name, value)]
    ensures '&' !in name + "=" + value
  {
    DecodeFieldAt(name, value);
    FormDecodePlain(name);
    FormDecodePlain(value);
  }

  /** Three `&`-free fields, each decoding to one pair, give those pairs
      in order. */
  lemma ThreeFields(f0: string, f1: string, f2: string,
                    p0: (string, string), p1: (string, string), p2: (string, string))
    requires '&' !in f0 && '&' !in f1 && '&' !in f2
    requires FieldPairs(f0) == [p0] && FieldPairs(f1) == [p1] && FieldPairs(f2) == [p2]
    ensures ParseQs(f0 + "&" + f1 + "&" + f2) == [p0, p1, p2]
  {
    ParseQsThree(f0, f1, f2);
    Triple(p0, p1, p2);
  }

  /** A query string of three plain `name=value` fields decodes to its
      three pairs, in order. */
  lemma PlainQuery(k0: string, v0: string, k1: string, v1: string, k2: string, v2: string)
    requires '=' !in k0 && '%' !in k0 && '+' !in k0 && '&' !in k0
    requires '=' !in k1 && '%' !in k1 && '+' !in k1 && '&' !in k1
    requires '=' !in k2 && '%' !in k2 && '+' !in k2 && '&' !in k2
    requires v0 != [] && '%' !in v0 && '+' !in v0 && '&' !in v0
    requires v1 != [] && '%' !in v1 && '+' !in v1 && '&' !in v1
    requires v2 != [] && '%' !in v2 && '+' !in v2 && '&' !in v2
    ensures ParseQs((k0 + "=" + v0) + "&" + (k1 + "=" + v1) + "&" + (k2 + "=" + v2)) == [(k0, v0), (k1, v1), (k2, v2)]
  {
    PlainField(k0, v0);
    PlainField(k1, v1);
    PlainField(k2, v2);
    ThreeFields(k0 + "=" + v0, k1 + "=" + v1, k2 + "=" + v2, (k0, v0), (k1, v1), (k2, v2));
  }

  /** `Lookup` finds the earliest pair with the key. */
  lemma {:induction false} LookupFirst(before: seq<(string, string)>, key: string, value: string, after: seq<(string, string)>)
    requires forall k :: 0 <= k < |before| ==> before[k].0 != key
    ensures Lookup(before + [(key, value)] + after, key) == Some(value)
  {
    if before != [] {
      LookupFirst(before[1..], key, value, after);
      assert (before + [(key, value)] + after)[1..] == before[1..] + [(key, value)] + after;
    }
  }

  /** `Lookup` checks the first pair, then the rest. */
  lemma LookupCons(p: (string, string), rest: seq<(string, string)>, key: string)
    ensures Lookup([p] + rest, key) == if p.0 == key then Some(p.1) else Lookup(rest, key)
  {
    assert ([p] + rest)[1..] == rest;
  }

  /** `query.get(key, [default])[0]`: the default when no pair has the key,
      otherwise a value given for the key. */
  function Get(pairs: seq<(string, string)>, key: string, default: string): (r: string)
    ensures (forall k :: 0 <= k < |pairs| ==> pairs[k].0 != key) ==> r == default
    ensures (exists k :: 0 <= k < |pairs| && pairs[k].0 == key) ==> (key, r) in pairs
  {
    Lookup(pairs, key).GetOr(default)
  }

  /** A pair written as `name=value`, both percent-encoded. */
  function EncodeField(p: (string, string)): string
  {
    Quote(p.0) + "=" + Quote(p.1)
  }

  function EncodeFields(pairs: seq<(string, string)>): (fields: seq<string>)
    ensures |fields| == |pairs|
    ensures forall k :: 0 <= k < |fields| ==> fields[k] == EncodeField(pairs[k])
  {
    if pairs == [] then [] else [EncodeField(pairs[0])] + EncodeFields(pairs[1..])
  }

  /** A query string carrying `pairs`, `&`-separated. */
  function EncodeQuery(pairs: seq<(string, string)>): string
  {
    Join(EncodeFields(pairs), '&')
  }

  /** An encoded field holds no `&`. */
  lemma EncodeFieldFree(p: (string, string))
    ensures '&' !in EncodeField(p)
  {
    QuoteExcludes(p.0, '&');
    QuoteExcludes(p.1, '&');
    assert EncodeField(p) == Quote(p.0) + ['='] + Quote(p.1);
  }

  /** An encoded field decodes to its pair when the value is not empty. */
  lemma DecodeEncodeField(p: (string, string))
    requires p.1 != []
    ensures DecodeField(EncodeField(p)) == Some(p)
  {
    QuoteExcludes(p.0, '=');
    DecodeFieldAt(Quote(p.0), Quote(p.1));
    FormDecodeQuote(p.0);
    FormDecodeQuote(p.1);
  }

  lemma {:induction false} DecodeEncodeFields(pairs: seq<(string, string)>)
    requires forall k :: 0 <= k < |pairs| ==> pairs[k].1 != []
    ensures DecodeFields(EncodeFields(pairs)) == pairs
  {
    if pairs != [] {
      var fields := EncodeFields(pairs);
      DecodeEncodeField(pairs[0]);
      DecodeEncodeFields(pairs[1..]);
      assert fields[0] == EncodeField(pairs[0]);
      assert fields[1..] == EncodeFields(pairs[1..]);
      assert FieldPairs(fields[0]) == [pairs[0]];
      assert DecodeFields(fields) == [pairs[0]] + DecodeFields(fields[1..]);
      assert [pairs[0]] + pairs[1..] == pairs;
    }
  }

  /** Parsing an encoded query recovers its pairs, in order and with repeated
      names kept, provided no value is empty (those `parse_qs` drops). */
  lemma ParseQsEncodeQuery(pairs: seq<(string, string)>)
    requires forall k :: 0 <= k < |pairs| ==> pairs[k].1 != []
    ensures ParseQs(EncodeQuery(pairs)) == pairs
  {
    var fields := EncodeFields(pairs);
    if pairs == [] {
      assert SplitAll([], '&') == [[]];
      assert DecodeField([]) == None;
    } else {
      forall k | 0 <= k < |fields| ensures '&' !in fields[k] {
        EncodeFieldFree(pairs[k]);
      }
      SplitAllJoin(fields, '&');
      DecodeEncodeFields(pairs);
    }
  }
}
