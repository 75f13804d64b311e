/** The batch converter: a list of lines becomes one Clash.Meta document with
    every node that parses, a single `select` group over their names and two
    fixed rules; lines that fail are reported and skipped. */
module Clash {
  import opened Wrappers
  import opened Strings
  import opened Numbers
  import opened Vless

  const GroupName := "Proxy"
  const GroupType := "select"
  const Rules := ["GEOIP,CN,DIRECT", "MATCH,Proxy"]
  /** The positional name of a node without one is this prefix followed by
      the line's 1-based position among the non-blank lines. */
  const FallbackPrefix := "节点_"

  /** One entry of `proxy-groups`. */
  datatype ProxyGroup = ProxyGroup(name: string, kind: string, proxies: seq<string>)

  /** The document: `proxies`, `proxy-groups` and `rules`. */
  datatype Config = Config(proxies: seq<Node>, groups: seq<ProxyGroup>, rules: seq<string>)

  /** A skipped line and why it was skipped. */
  datatype Diagnostic = Diagnostic(line: string, reason: ParseError)

  /** The only way the whole batch fails: no line gave a node. */
  datatype BatchError = NoValidNodes

  /** What parsing one line gives. */
  type Outcome = Result<Node, ParseError>

  // ---------------------------------------------------------------------
  // Reading the lines
  // ---------------------------------------------------------------------

  /** `f` applied to every element. */
  function Map<A, B>(f: A -> B, xs: seq<A>): (ys: seq<B>)
    ensures |ys| == |xs|
    ensures forall k :: 0 <= k < |xs| ==> ys[k] == f(xs[k])
  {
    seq(|xs|, k requires 0 <= k < |xs| => f(xs[k]))
  }

  lemma MapAppend<A, B>(f: A -> B, a: seq<A>, b: seq<A>)
    ensures Map(f, a + b) == Map(f, a) + Map(f, b)
  {
    assert forall k :: 0 <= k < |a| ==> (a + b)[k] == a[k];
    assert forall k :: |a| <= k < |a| + |b| ==> (a + b)[k] == b[k - |a|];
  }

  /** Every line stripped. */
  function StripAll(raw: seq<string>): (stripped: seq<string>)
    ensures |stripped| == |raw|
    ensures forall k :: 0 <= k < |raw| ==> stripped[k] == Strip(raw[k])
  {
    Map(Strip, raw)
  }

  /** The non-empty lines, in order. */
  function DropBlank(lines: seq<string>): (kept: seq<string>)
    ensures |kept| <= |lines|
    ensures forall x :: x in kept <==> x in lines && x != []
  {
    if lines == [] then []
    else if lines[0] == [] then DropBlank(lines[1..])
    else [lines[0]] + DropBlank(lines[1..])
  }

  lemma {:induction false} DropBlankAppend(a: seq<string>, b: seq<string>)
    ensures DropBlank(a + b) == DropBlank(a) + DropBlank(b)
  {
    if a != [] {
      DropBlankAppend(a[1..], b);
      assert (a + b)[1..] == a[1..] + b;
    } else {
      assert a + b == b;
    }
  }

  /** The lines of the input file, each stripped, the blank ones dropped:
      every prepared line is the non-empty strip of some input line, and
      every input line that is not all white space survives stripped. */
  function PrepareLines(raw: seq<string>): (lines: seq<string>)
    ensures |lines| <= |raw|
    ensures forall x :: x in lines ==> x != [] && exists k :: 0 <= k < |raw| && Strip(raw[k]) == x
    ensures forall k :: 0 <= k < |raw| && Strip(raw[k]) != [] ==> Strip(raw[k]) in lines
  {
    DropBlank(StripAll(raw))
  }

  /** Preparing keeps the order of the lines: it distributes over
      concatenation. */
  lemma PrepareLinesAppend(a: seq<string>, b: seq<string>)
    ensures PrepareLines(a + b) == PrepareLines(a) + PrepareLines(b)
  {
    MapAppend(Strip, a, b);
    DropBlankAppend(StripAll(a), StripAll(b));
  }

  // ---------------------------------------------------------------------
  // The specification of the batch
  // ---------------------------------------------------------------------

  /** The name given to a node without one on the `idx`-th non-blank line
      (1-based; blank lines are not counted). */
  function FallbackName(idx: nat): (name: string)
    ensures FallbackPrefix <= name
    ensures IsCanonicalDigits(name[|FallbackPrefix|..]) && DigitsValue(name[|FallbackPrefix|..]) == idx
  {
    FallbackPrefix + NatToString(idx)
  }

  /** The prefix followed by the decimal text of `idx` without a leading zero
      is the positional name, and no other text is. */
  lemma FallbackNameCanonical(digits: string, idx: nat)
    requires IsCanonicalDigits(digits) && DigitsValue(digits) == idx
    ensures FallbackName(idx) == FallbackPrefix + digits
  {
    CanonicalDigitsRendering(digits);
  }

  /** Different lines get different positional names. */
  lemma FallbackNameInjective(i: nat, j: nat)
    requires FallbackName(i) == FallbackName(j)
    ensures i == j
  {
    var p := |FallbackPrefix|;
    assert NatToString(i) == FallbackName(i)[p..];
    assert NatToString(j) == FallbackName(j)[p..];
  }

  /** The node as it enters the document from line `idx`: its own name when
      it has one, otherwise the positional name. */
  function Named(n: Node, idx: nat): (r: Node)
    ensures r.name != []
    ensures n.name != [] ==> r == n
    ensures n.name == [] ==> r == n.(name := FallbackName(idx))
  {
    if n.name == [] then n.(name := FallbackName(idx)) else n
  }

  /** Every line parsed. */
  function Outcomes(lines: seq<string>): (rs: seq<Outcome>)
    ensures |rs| == |lines|
    ensures forall k :: 0 <= k < |lines| ==> rs[k] == ParseVless(lines[k])
  {
    seq(|lines|, k requires 0 <= k < |lines| => ParseVless(lines[k]))
  }

  /** The nodes of the successful outcomes, in order, each named by its
      1-based position among all outcomes. */
  function Kept(rs: seq<Outcome>): (nodes: seq<Node>)
    ensures |nodes| <= |rs|
    ensures forall k :: 0 <= k < |nodes| ==> nodes[k].name != []
  {
    if rs == [] then []
    else
      var n := |rs| - 1;
      match rs[n]
      case Success(node) => Kept(rs[..n]) + [Named(node, n + 1)]
      case Failure(_) => Kept(rs[..n])
  }

  /** One diagnostic per failed outcome, in order, with its line. */
  function Rejected(lines: seq<string>, rs: seq<Outcome>): (diagnostics: seq<Diagnostic>)
    requires |lines| == |rs|
    ensures |diagnostics| <= |rs|
  {
    if rs == [] then []
    else
      var n := |rs| - 1;
      match rs[n]
      case Success(_) => Rejected(lines[..n], rs[..n])
      case Failure(reason) => Rejected(lines[..n], rs[..n]) + [Diagnostic(lines[n], reason)]
  }

  /** The nodes the document holds. */
  function Survivors(lines: seq<string>): (nodes: seq<Node>)
    ensures |nodes| <= |lines|
    ensures forall k :: 0 <= k < |nodes| ==> nodes[k].name != []
  {
    Kept(Outcomes(lines))
  }

  /** The diagnostics the batch reports. */
  function Failures(lines: seq<string>): (diagnostics: seq<Diagnostic>)
    ensures |diagnostics| <= |lines|
  {
    Rejected(lines, Outcomes(lines))
  }

  /** The 0-based positions of the successful outcomes, in order. */
  function KeptIndices(rs: seq<Outcome>): seq<nat>
  {
    if rs == [] then []
    else if rs[|rs| - 1].Success? then KeptIndices(rs[..|rs| - 1]) + [|rs| - 1]
    else KeptIndices(rs[..|rs| - 1])
  }

  /** The 0-based positions of the failed outcomes, in order. */
  function RejectedIndices(rs: seq<Outcome>): seq<nat>
  {
    if rs == [] then []
    else if rs[|rs| - 1].Failure? then RejectedIndices(rs[..|rs| - 1]) + [|rs| - 1]
    else RejectedIndices(rs[..|rs| - 1])
  }

  ghost predicate Increasing(ix: seq<nat>)
  {
    forall k, k' :: 0 <= k < k' < |ix| ==> ix[k] < ix[k']
  }

  lemma {:induction false} KeptIndicesBounded(rs: seq<Outcome>)
    ensures forall k :: 0 <= k < |KeptIndices(rs)| ==> KeptIndices(rs)[k] < |rs|
  {
    if rs != [] {
      KeptIndicesBounded(rs[..|rs| - 1]);
    }
  }

  /** The kept positions are increasing and include every success. */
  lemma {:induction false} KeptIndicesExact(rs: seq<Outcome>)
    ensures Increasing(KeptIndices(rs))
    ensures forall j :: 0 <= j < |rs| && rs[j].Success? ==> j in KeptIndices(rs)
  {
    if rs != [] {
      var init := rs[..|rs| - 1];
      KeptIndicesExact(init);
      KeptIndicesBounded(init);
      assert forall j :: 0 <= j < |init| ==> init[j] == rs[j];
    }
  }

  /** The `k`-th kept node is the node of the `k`-th kept position. */
  lemma {:induction false} KeptAtIndices(rs: seq<Outcome>)
    ensures var ix := KeptIndices(rs);
      && |ix| == |Kept(rs)|
      && forall k :: 0 <= k < |ix| ==>
           ix[k] < |rs| && rs[ix[k]].Success? && Kept(rs)[k] == Named(rs[ix[k]].value, ix[k] + 1)
  {
    if rs != [] {
      var init := rs[..|rs| - 1];
      KeptAtIndices(init);
      assert forall j :: 0 <= j < |init| ==> init[j] == rs[j];
    }
  }

  lemma {:induction false} RejectedIndicesBounded(rs: seq<Outcome>)
    ensures forall k :: 0 <= k < |RejectedIndices(rs)| ==> RejectedIndices(rs)[k] < |rs|
  {
    if rs != [] {
      RejectedIndicesBounded(rs[..|rs| - 1]);
    }
  }

  /** The rejected positions are increasing and include every failure. */
  lemma {:induction false} RejectedIndicesExact(rs: seq<Outcome>)
    ensures Increasing(RejectedIndices(rs))
    ensures forall j :: 0 <= j < |rs| && rs[j].Failure? ==> j in RejectedIndices(rs)
  {
    if rs != [] {
      var init := rs[..|rs| - 1];
      RejectedIndicesExact(init);
      RejectedIndicesBounded(init);
      assert forall j :: 0 <= j < |init| ==> init[j] == rs[j];
    }
  }

  /** The `k`-th diagnostic names the line and the error of the `k`-th
      rejected position. */
  lemma {:induction false} RejectedAtIndices(lines: seq<string>, rs: seq<Outcome>)
    requires |lines| == |rs|
    ensures var ix := RejectedIndices(rs);
      && |ix| == |Rejected(lines, rs)|
      && forall k :: 0 <= k < |ix| ==>
           ix[k] < |rs| && rs[ix[k]].Failure? && Rejected(lines, rs)[k] == Diagnostic(lines[ix[k]], rs[ix[k]].error)
  {
    if rs != [] {
      var n := |rs| - 1;
      RejectedAtIndices(lines[..n], rs[..n]);
      assert forall j :: 0 <= j < n ==> rs[..n][j] == rs[j] && lines[..n][j] == lines[j];
    }
  }

  /** Every outcome is either kept or rejected. */
  lemma {:induction false} KeptRejectedPartition(lines: seq<string>, rs: seq<Outcome>)
    requires |lines| == |rs|
    ensures |Kept(rs)| + |Rejected(lines, rs)| == |rs|
  {
    if rs != [] {
      var n := |rs| - 1;
      KeptRejectedPartition(lines[..n], rs[..n]);
    }
  }

  lemma KeptSkipsMiddle(lines: seq<string>, x: Outcome, y: Outcome, z: Outcome)
    requires |lines| == 3 && x.Success? && y.Failure? && z.Success?
    ensures Kept([x, y, z]) == [Named(x.value, 1), Named(z.value, 3)]
    ensures Rejected(lines, [x, y, z]) == [Diagnostic(lines[1], y.error)]
  {
    assert [x, y, z][..2] == [x, y];
    assert [x, y][..1] == [x];
    assert [x][..0] == [];
    assert Kept([x]) == [Named(x.value, 1)];
    assert Kept([x, y]) == Kept([x]);
    assert Rejected(lines[..1], [x]) == [];
    assert lines[..2][..1] == lines[..1];
    assert Rejected(lines[..2], [x, y]) == [Diagnostic(lines[1], y.error)];
  }

  /** One more line extends the nodes and the diagnostics by what that line
      gives. */
  lemma {:induction false} StepLine(lines: seq<string>, rs: seq<Outcome>, i: nat)
    requires |lines| == |rs| && i < |rs|
    ensures Kept(rs[..i + 1]) ==
      (match rs[i]
       case Success(n) => Kept(rs[..i]) + [Named(n, i + 1)]
       case Failure(_) => Kept(rs[..i]))
    ensures Rejected(lines[..i + 1], rs[..i + 1]) ==
      (match rs[i]
       case Success(_) => Rejected(lines[..i], rs[..i])
       case Failure(reason) => Rejected(lines[..i], rs[..i]) + [Diagnostic(lines[i], reason)])
  {
    assert rs[..i + 1][..i] == rs[..i];
    assert lines[..i + 1][..i] == lines[..i];
  }

  /** The names of the proxies, in their order. */
  function ProxyNames(proxies: seq<Node>): (names: seq<string>)
    ensures |names| == |proxies|
    ensures forall k :: 0 <= k < |proxies| ==> names[k] == proxies[k].name
  {
    seq(|proxies|, k requires 0 <= k < |proxies| => proxies[k].name)
  }

  // ---------------------------------------------------------------------
  // The converter
  // ---------------------------------------------------------------------

  /** `vless_txt_to_clash` once the file has been read: the stripped,
      non-blank lines are parsed one by one; a node without a name is named
      after its position among those lines; a line that fails is recorded and skipped. With no
      node there is no document; otherwise the document holds the nodes, one
      `select` group named "Proxy" listing their names in order, and the two
      fixed rules. */
  method VlessTxtToClash(rawLines: seq<string>) returns (result: Result<Config, BatchError>, diagnostics: seq<Diagnostic>)
    ensures diagnostics == Failures(PrepareLines(rawLines))
    ensures result.Failure? <==> Survivors(PrepareLines(rawLines)) == []
    ensures result.Success? ==>
      && result.value.proxies == Survivors(PrepareLines(rawLines))
      && result.value.groups == [ProxyGroup(GroupName, GroupType, ProxyNames(result.value.proxies))]
      && result.value.rules == Rules
  {
    var lines := PrepareLines(rawLines);
    ghost var rs := Outcomes(lines);
    var proxies: seq<Node> := [];
    diagnostics := [];
    for i := 0 to |lines|
      invariant proxies == Kept(rs[..i])
      invariant diagnostics == Rejected(lines[..i], rs[..i])
    {
      StepLine(lines, rs, i);
      var line := lines[i];
      match ParseVless(line)
      case Success(parsed) =>
        var proxy := parsed;
        if proxy.name == [] {
          proxy := proxy.(name := FallbackName(i + 1));
        }
        proxies := proxies + [proxy];
      case Failure(reason) =>
        diagnostics := diagnostics + [Diagnostic(line, reason)];
    }
    assert rs[..|lines|] == rs && lines[..|lines|] == lines;
    if proxies == [] {
      result := Failure(NoValidNodes);
      return;
    }
    var names := ProxyNames(proxies);
    result := Success(Config(proxies, [ProxyGroup(GroupName, GroupType, names)], Rules));
  }
}
