/** The node parser: one `vless://` link becomes one Clash.Meta proxy entry,
    or fails with the reason `parse_vless` would raise. */
module Vless {
  import opened Wrappers
  import opened Strings
  import opened Numbers
  import opened Percent
  import opened Query

  const VlessPrefix := "vless://"
  const NodeTypeVless := "vless"
  const NetworkWs := "ws"
  const NetworkGrpc := "grpc"
  const SecurityTls := "tls"

  /** The transport options a node carries: `ws-opts` (a path and the `Host`
      header), `grpc-opts` (the service name), or neither. */
  datatype Opts = WsOpts(path: string, host: string) | GrpcOpts(serviceName: string) | NoOpts

  /** One proxy entry: `name`, `type` (here `kind`), `server`, `port`, `uuid`,
      `network`, `tls`, `udp`, `sni` and the transport options. */
  datatype Node = Node(
    name: string, kind: string, server: string, port: int, uuid: string,
    network: string, tls: bool, udp: bool, sni: string, opts: Opts)

  /** Why a line is not a node: no `vless://` prefix, no `@` before the
      fragment, an address that is not exactly `server:port`, or a port
      that is not an integer. */
  datatype ParseError = NotVless | MissingAt | BadAddress | BadPort

  /** `parse_vless`: the prefix is checked first; the text after the first
      `#`, percent-decoded, is the name candidate; the rest is parsed by
      `ParseBody`. */
  function ParseVless(url: string): (r: Result<Node, ParseError>)
    ensures r == Failure(NotVless) <==> !(VlessPrefix <= url)
    ensures r.Success? ==> Encodable(r.value)
  {
    if !(VlessPrefix <= url) then Failure(NotVless)
    else match SplitFirst(url, '#')
      case None => ParseBody(url[|VlessPrefix|..], None)
      case Some((link, fragment)) =>
        PrefixBeforeFragment(url, link, fragment);
        ParseBody(link[|VlessPrefix|..], Some(Unquote(fragment)))
  }

  /** The prefix holds no `#`, so cutting the fragment off keeps it. */
  lemma PrefixBeforeFragment(url: string, link: string, fragment: string)
    requires VlessPrefix <= url && url == link + ['#'] + fragment && '#' !in link
    ensures VlessPrefix <= link
  {
    assert url[|link|] == '#';
    assert forall k :: 0 <= k < |VlessPrefix| ==> url[k] != '#';
    assert url[..|VlessPrefix|] == link[..|VlessPrefix|];
  }

  /** The part between the prefix and the fragment: the uuid before the first
      `@`, then the address and the query string, split at the first `?`. */
  function ParseBody(raw: string, fragmentName: Option<string>): (r: Result<Node, ParseError>)
    ensures r == Failure(MissingAt) <==> '@' !in raw
    ensures r.Failure? ==> r.error != NotVless
    ensures r.Success? ==> WellShaped(r.value) && '@' !in r.value.uuid
    ensures r.Success? ==> ':' !in r.value.server && '?' !in r.value.server
    ensures r.Success? && '#' !in raw ==> '#' !in r.value.uuid && '#' !in r.value.server
  {
    match SplitFirst(raw, '@')
    case None => Failure(MissingAt)
    case Some((uuid, rest)) =>
      match SplitFirst(rest, '?')
      case None => ParseAddress(rest, "", uuid, fragmentName)
      case Some((serverPort, params)) => ParseAddress(serverPort, params, uuid, fragmentName)
  }

  /** The address must split at `:` into exactly a server and a port text,
      and the port text must be an integer; then the node is built from the
      query string. */
  function ParseAddress(serverPort: string, params: string, uuid: string, fragmentName: Option<string>)
    : (r: Result<Node, ParseError>)
    ensures r == Failure(BadAddress) <==> multiset(serverPort)[':'] != 1
    ensures r.Failure? ==> r.error == BadAddress || r.error == BadPort
    ensures r.Success? ==> WellShaped(r.value)
    ensures r.Success? ==> r.value.uuid == uuid && ':' !in r.value.server && r.value.server <= serverPort
  {
    var parts := SplitAll(serverPort, ':');
    SplitAllCount(serverPort, ':');
    if |parts| != 2 then Failure(BadAddress)
    else match ParseInt(parts[1])
      case None => Failure(BadPort)
      case Some(port) =>
        MakeNodeIsWellShaped(fragmentName, parts[0], port, uuid, ParseQs(params));
        Success(MakeNode(fragmentName, parts[0], port, uuid, ParseQs(params)))
  }

  /** The node dictionary: query defaults, the name fallback, the derived
      flags and the transport options. The type is always "vless", UDP is
      always on, and the server, port and uuid are the ones parsed. */
  function MakeNode(fragmentName: Option<string>, server: string, port: int, uuid: string,
                    query: seq<(string, string)>): (n: Node)
    ensures n.kind == NodeTypeVless && n.udp
    ensures n.server == server && n.port == port && n.uuid == uuid
  {
    var security := Get(query, "security", "none");
    var network := Get(query, "type", NetworkWs);
    var host := Get(query, "host", server);
    var path := Get(query, "path", "/");
    var name :=
      if fragmentName.Some? && fragmentName.value != [] then fragmentName.value
      else if host != [] then host
      else server;
    var opts :=
      if network == NetworkWs then WsOpts(path, host)
      else if network == NetworkGrpc then GrpcOpts(Get(query, "serviceName", ""))
      else NoOpts;
    Node(name, NodeTypeVless, server, port, uuid, network, security == SecurityTls, true, host, opts)
  }

  // ---------------------------------------------------------------------
  // How a link decomposes

  /** With the first `#` after `link`, the fragment is the name candidate
      and the text between the prefix and the `#` is the body. */
  lemma ParseVlessWithFragment(link: string, fragment: string)
    requires VlessPrefix <= link && '#' !in link
    ensures ParseVless(link + "#" + fragment) == ParseBody(link[|VlessPrefix|..], Some(Unquote(fragment)))
  {
    SplitFirstAt(link, '#', fragment);
  }

  /** Without a `#`, there is no name candidate and the body is all the text
      after the prefix. */
  lemma ParseVlessWithoutFragment(url: string)
    requires VlessPrefix <= url && '#' !in url
    ensures ParseVless(url) == ParseBody(url[|VlessPrefix|..], None)
  {
  }

  /** Whatever follows the text before the first `#`: the body is that text
      without the prefix, and a link fails for want of an `@` exactly when
      the body holds none. */
  lemma ParseVlessAtFragment(head: string, tail: string)
    requires VlessPrefix <= head && '#' !in head
    requires tail == [] || tail[0] == '#'
    ensures ParseVless(head + tail)
         == ParseBody(head[|VlessPrefix|..], if tail == [] then None else Some(Unquote(tail[1..])))
    ensures ParseVless(head + tail) == Failure(MissingAt) <==> '@' !in head[|VlessPrefix|..]
  {
    if tail == [] {
      assert head + tail == head;
      ParseVlessWithoutFragment(head);
    } else {
      assert head + tail == head + "#" + tail[1..];
      ParseVlessWithFragment(head, tail[1..]);
    }
  }

  /** The uuid is the text before the first `@`, the address the text up to
      the first `?` after it, and the query string what follows that `?`. */
  lemma ParseBodyWithQuery(uuid: string, serverPort: string, query: string, fragmentName: Option<string>)
    requires '@' !in uuid && '?' !in serverPort
    ensures ParseBody(uuid + "@" + serverPort + "?" + query, fragmentName)
         == ParseAddress(serverPort, query, uuid, fragmentName)
  {
    var rest := serverPort + "?" + query;
    assert uuid + "@" + serverPort + "?" + query == uuid + ['@'] + rest;
    SplitFirstAt(uuid, '@', rest);
    SplitFirstAt(serverPort, '?', query);
  }

  /** Without a `?` the whole text after the first `@` is the address and the
      query string is empty. */
  lemma ParseBodyWithoutQuery(uuid: string, serverPort: string, fragmentName: Option<string>)
    requires '@' !in uuid && '?' !in serverPort
    ensures ParseBody(uuid + "@" + serverPort, fragmentName) == ParseAddress(serverPort, "", uuid, fragmentName)
  {
    SplitFirstAt(uuid, '@', serverPort);
  }

  /** An address with exactly one `:` is `server:port`; there is no range
      check: any integer the port text spells is the port. */
  lemma ParseAddressParts(server: string, portText: string, params: string, uuid: string, fragmentName: Option<string>)
    requires ':' !in server && ':' !in portText
    ensures ParseAddress(server + ":" + portText, params, uuid, fragmentName)
         == match ParseInt(portText)
            case None => Failure(BadPort)
            case Some(port) => Success(MakeNode(fragmentName, server, port, uuid, ParseQs(params)))
  {
    assert server + ":" + portText == server + [':'] + portText;
    SplitAllCons(server, ':', portText);
    SplitAllFree(portText, ':');
  }

  // ---------------------------------------------------------------------
  // What a parsed node is

  /** No value `parse_qs` keeps is empty. */
  predicate NonBlankValues(query: seq<(string, string)>)
  {
    forall k :: 0 <= k < |query| ==> query[k].1 != []
  }

  /** The name is the decoded fragment when that is not empty, otherwise the
      `host` parameter, otherwise the server; it is empty only when all three
      are. */
  lemma NamePrecedence(fragmentName: Option<string>, server: string, port: int, uuid: string,
                       query: seq<(string, string)>)
    requires NonBlankValues(query)
    ensures var n := MakeNode(fragmentName, server, port, uuid, query);
      && (fragmentName.GetOr("") != [] ==> n.name == fragmentName.value)
      && (fragmentName.GetOr("") == [] && Lookup(query, "host").Some? ==> n.name == Lookup(query, "host").value)
      && (fragmentName.GetOr("") == [] && Lookup(query, "host").None? ==> n.name == server)
      && (n.name == [] <==> fragmentName.GetOr("") == [] && Lookup(query, "host").None? && server == [])
  {
    var h := Lookup(query, "host");
    if h.Some? {
      var k :| 0 <= k < |query| && query[k] == ("host", h.value);
    }
  }

  /** Query defaults and the derived fields: `security` is "none" and `type`
      "ws" when absent, `host` defaults to the server and is the SNI, and
      `tls` holds exactly for security "tls". */
  lemma QueryDefaults(fragmentName: Option<string>, server: string, port: int, uuid: string,
                      query: seq<(string, string)>)
    ensures var n := MakeNode(fragmentName, server, port, uuid, query);
      && (n.tls <==> Lookup(query, "security") == Some(SecurityTls))
      && (Lookup(query, "type").None? ==> n.network == NetworkWs)
      && (Lookup(query, "type").Some? ==> n.network == Lookup(query, "type").value)
      && (Lookup(query, "host").None? ==> n.sni == server)
      && (Lookup(query, "host").Some? ==> n.sni == Lookup(query, "host").value)
  {
  }

  /** Transport shaping: "ws" gives `ws-opts` with the path (default "/") and
      the `Host` header equal to the SNI host, "grpc" gives `grpc-opts` with
      the service name (default ""), any other network is kept as it is and
      carries no options. */
  lemma TransportShaping(fragmentName: Option<string>, server: string, port: int, uuid: string,
                         query: seq<(string, string)>)
    ensures var n := MakeNode(fragmentName, server, port, uuid, query);
      && (n.network == NetworkWs <==> n.opts == WsOpts(Get(query, "path", "/"), n.sni))
      && (n.network == NetworkGrpc <==> n.opts == GrpcOpts(Get(query, "serviceName", "")))
      && (n.network != NetworkWs && n.network != NetworkGrpc <==> n.opts == NoOpts)
  {
  }

  /** What every node the parser produces satisfies. */
  predicate WellShaped(n: Node)
  {
    && n.kind == NodeTypeVless && n.udp
    && n.network != []
    && (n.network == NetworkWs <==> n.opts.WsOpts?)
    && (n.network == NetworkGrpc <==> n.opts.GrpcOpts?)
    && (n.opts.WsOpts? ==> n.opts.host == n.sni && n.opts.path != [])
    && (n.sni == [] ==> n.server == [])
    && (n.name == [] ==> n.sni == [] && n.server == [])
  }

  /** Every node `MakeNode` builds from decoded query pairs is well-shaped:
      in particular its name is empty only when its server is empty and no
      `host` parameter was given. */
  lemma MakeNodeIsWellShaped(fragmentName: Option<string>, server: string, port: int, uuid: string,
                             query: seq<(string, string)>)
    requires NonBlankValues(query)
    ensures WellShaped(MakeNode(fragmentName, server, port, uuid, query))
  {
    var h := Lookup(query, "host");
    if h.Some? {
      var k :| 0 <= k < |query| && query[k] == ("host", h.value);
    }
    var t := Lookup(query, "type");
    if t.Some? {
      var k :| 0 <= k < |query| && query[k] == ("type", t.value);
    }
    var p := Lookup(query, "path");
    if p.Some? {
      var k :| 0 <= k < |query| && query[k] == ("path", p.value);
    }
  }

  // ---------------------------------------------------------------------
  // Links written from nodes

  /** The query parameters that describe `n`; an empty SNI host, which only
      a node with an empty server has, is left to the default. */
  function NodeParams(n: Node): seq<(string, string)>
  {
    [("security", if n.tls then SecurityTls else "none")] + ([("type", n.network)] + (HostParams(n.sni) + OptsParams(n.opts)))
  }

  /** The `host` parameter, when there is one. */
  function HostParams(sni: string): seq<(string, string)>
  {
    if sni == [] then [] else [("host", sni)]
  }

  /** The query parameters that describe transport options. */
  function OptsParams(opts: Opts): seq<(string, string)>
  {
    match opts
    case WsOpts(path, _) => [("path", path)]
    case GrpcOpts(serviceName) => if serviceName == [] then [] else [("serviceName", serviceName)]
    case NoOpts => []
  }

  /** A link for `n`: `vless://uuid@server:port?query#name`. */
  function NodeUri(n: Node): string
  {
    VlessPrefix + n.uuid + "@" + NodeAddress(n) + "?" + EncodeQuery(NodeParams(n)) + "#" + Quote(n.name)
  }

  /** `server:port` for `n`. */
  function NodeAddress(n: Node): string
  {
    n.server + ":" + IntToString(n.port)
  }

  /** The nodes a link can describe: a well-shaped node whose uuid holds no
      `@` or `#` and whose server holds no `:`, `?` or `#`. */
  predicate Encodable(n: Node)
  {
    && WellShaped(n)
    && '@' !in n.uuid && '#' !in n.uuid
    && ':' !in n.server && '?' !in n.server && '#' !in n.server
  }

  /** An encoded query holds no reserved ASCII character other than `&`,
      `=` and `%`. */
  lemma EncodeQueryFree(pairs: seq<(string, string)>, d: char)
    requires d != '&' && d != '=' && d != '%' && d as int < 128 && !IsUnreserved(d)
    ensures d !in EncodeQuery(pairs)
  {
    var fields := EncodeFields(pairs);
    forall k | 0 <= k < |fields| ensures d !in fields[k] {
      QuoteExcludes(pairs[k].0, d);
      QuoteExcludes(pairs[k].1, d);
      assert fields[k] == Quote(pairs[k].0) + ['='] + Quote(pairs[k].1);
    }
    JoinFree(fields, '&', d);
  }

  /** What the lookups of `MakeNode` find among the parameters of `n`. */
  lemma NodeParamsLookups(n: Node)
    ensures Get(NodeParams(n), "security", "none") == (if n.tls then SecurityTls else "none")
    ensures Get(NodeParams(n), "type", NetworkWs) == n.network
    ensures Get(NodeParams(n), "host", n.server) == (if n.sni == [] then n.server else n.sni)
    ensures Lookup(NodeParams(n), "path") == Lookup(OptsParams(n.opts), "path")
    ensures Lookup(NodeParams(n), "serviceName") == Lookup(OptsParams(n.opts), "serviceName")
  {
    var rest := HostParams(n.sni) + OptsParams(n.opts);
    LookupParamsKeys(("security", if n.tls then SecurityTls else "none"), ("type", n.network), rest);
    HostParamsLookups(n.sni, n.opts);
  }

  /** The keys the lookups of `MakeNode` use, looked up behind two leading
      pairs named `security` and `type`. */
  lemma LookupParamsKeys(p0: (string, string), p1: (string, string), rest: seq<(string, string)>)
    requires p0.0 == "security" && p1.0 == "type"
    ensures Lookup([p0] + ([p1] + rest), "security") == Some(p0.1)
    ensures Lookup([p0] + ([p1] + rest), "type") == Some(p1.1)
    ensures Lookup([p0] + ([p1] + rest), "host") == Lookup(rest, "host")
    ensures Lookup([p0] + ([p1] + rest), "path") == Lookup(rest, "path")
    ensures Lookup([p0] + ([p1] + rest), "serviceName") == Lookup(rest, "serviceName")
  {
    var q1 := [p1] + rest;
    LookupKeysDistinct();
    LookupCons(p0, q1, "security");
    LookupCons(p0, q1, "type");
    LookupCons(p1, rest, "type");
    LookupCons(p0, q1, "host");
    LookupCons(p1, rest, "host");
    LookupCons(p0, q1, "path");
    LookupCons(p1, rest, "path");
    LookupCons(p0, q1, "serviceName");
    LookupCons(p1, rest, "serviceName");
  }

  /** The `host` lookup finds the SNI host when it was written, and the
      transport lookups see through the `host` pair. */
  lemma HostParamsLookups(sni: string, opts: Opts)
    ensures Lookup(HostParams(sni) + OptsParams(opts), "host") == (if sni == [] then None else Some(sni))
    ensures Lookup(HostParams(sni) + OptsParams(opts), "path") == Lookup(OptsParams(opts), "path")
    ensures Lookup(HostParams(sni) + OptsParams(opts), "serviceName") == Lookup(OptsParams(opts), "serviceName")
  {
    var o := OptsParams(opts);
    LookupKeysDistinct();
    if sni == [] {
      assert HostParams(sni) + o == o;
      assert forall k :: 0 <= k < |o| ==> o[k].0 == "path" || o[k].0 == "serviceName";
    } else {
      LookupCons(("host", sni), o, "host");
      LookupCons(("host", sni), o, "path");
      LookupCons(("host", sni), o, "serviceName");
    }
  }

  /** The five query keys are different names. */
  lemma LookupKeysDistinct()
    ensures "security" != "type" && "security" != "host" && "security" != "path" && "security" != "serviceName"
    ensures "type" != "host" && "type" != "path" && "type" != "serviceName"
    ensures "host" != "path" && "host" != "serviceName"
    ensures "path" != "serviceName"
  {
    assert "type"[0] != "host"[0] && "type"[0] != "path"[0] && "host"[0] != "path"[0];
  }

  /** The parameters of an encodable node rebuild it. */
  lemma MakeNodeFromParams(n: Node)
    requires Encodable(n)
    ensures MakeNode(Some(n.name), n.server, n.port, n.uuid, NodeParams(n)) == n
  {
    var q := NodeParams(n);
    NodeParamsLookups(n);
    OptsParamsLookups(n.opts);
    assert Get(q, "path", "/") == Get(OptsParams(n.opts), "path", "/");
    assert Get(q, "serviceName", "") == Get(OptsParams(n.opts), "serviceName", "");
    MakeNodeFromLookups(n, q);
  }

  /** A well-shaped node is rebuilt from any pairs whose lookups give its
      security, network, SNI and transport options. */
  lemma MakeNodeFromLookups(n: Node, q: seq<(string, string)>)
    requires WellShaped(n)
    requires Get(q, "security", "none") == (if n.tls then SecurityTls else "none")
    requires Get(q, "type", NetworkWs) == n.network
    requires Get(q, "host", n.server) == (if n.sni == [] then n.server else n.sni)
    requires n.opts.WsOpts? ==> Get(q, "path", "/") == n.opts.path
    requires n.opts.GrpcOpts? ==> Get(q, "serviceName", "") == n.opts.serviceName
    ensures MakeNode(Some(n.name), n.server, n.port, n.uuid, q) == n
  {
    var host := Get(q, "host", n.server);
    assert host == n.sni;
    assert (if n.name != [] then n.name else if host != [] then host else n.server) == n.name;
    var m := MakeNode(Some(n.name), n.server, n.port, n.uuid, q);
    assert m.name == n.name && m.network == n.network && m.tls == n.tls && m.sni == n.sni;
    assert m.opts == n.opts;
  }


  /** The transport lookups of `MakeNode` find the options they were
      written from. */
  lemma OptsParamsLookups(opts: Opts)
    ensures opts.WsOpts? ==> Get(OptsParams(opts), "path", "/") == opts.path
    ensures opts.GrpcOpts? ==> Get(OptsParams(opts), "serviceName", "") == opts.serviceName
  {
    match opts
    case WsOpts(path, _) =>
      LookupCons(("path", path), [], "path");
    case GrpcOpts(serviceName) =>
      if serviceName != [] {
        LookupCons(("serviceName", serviceName), [], "serviceName");
      }
    case NoOpts =>
  }

  /** The rendering of a port holds no delimiter of a link and parses back. */
  lemma PortTextRoundTrip(port: int)
    ensures ParseInt(IntToString(port)) == Some(port)
    ensures ':' !in IntToString(port) && '?' !in IntToString(port) && '#' !in IntToString(port)
  {
    ParseIntToString(port);
    var s := IntToString(port);
    if port < 0 {
      forall k | 0 <= k < |s| ensures s[k] == '-' || IsDigit(s[k]) {
        if k > 0 { assert s[k] == NatToString(-port)[k - 1]; }
      }
    }
  }

  /** An address with exactly one `:` and an integer port yields the node. */
  lemma ParseAddressOk(server: string, portText: string, port: int, params: string, uuid: string,
                       fragmentName: Option<string>)
    requires ':' !in server && ':' !in portText && ParseInt(portText) == Some(port)
    ensures ParseAddress(server + ":" + portText, params, uuid, fragmentName)
         == Success(MakeNode(fragmentName, server, port, uuid, ParseQs(params)))
  {
    ParseAddressParts(server, portText, params, uuid, fragmentName);
  }

  /** The query string of an encodable node decodes to its parameters. */
  lemma NodeParamsRoundTrip(n: Node)
    requires Encodable(n)
    ensures ParseQs(EncodeQuery(NodeParams(n))) == NodeParams(n)
  {
    ParseQsEncodeQuery(NodeParams(n));
  }

  /** A link assembled from a uuid, an address, a query string and a
      fragment splits back into them, provided the uuid holds no `@` and none
      of the first three holds the delimiter that ends it. */
  lemma ParseComposed(uuid: string, serverPort: string, query: string, fragment: string)
    requires '@' !in uuid && '#' !in uuid
    requires '?' !in serverPort && '#' !in serverPort
    requires '#' !in query
    ensures ParseVless(VlessPrefix + uuid + "@" + serverPort + "?" + query + "#" + fragment)
         == ParseAddress(serverPort, query, uuid, Some(Unquote(fragment)))
  {
    var body := uuid + "@" + serverPort + "?" + query;
    var link := VlessPrefix + body;
    assert '#' !in link;
    assert VlessPrefix + uuid + "@" + serverPort + "?" + query + "#" + fragment == link + "#" + fragment;
    ParseVlessWithFragment(link, fragment);
    assert link[|VlessPrefix|..] == body;
    ParseBodyWithQuery(uuid, serverPort, query, Some(Unquote(fragment)));
  }

  /** The link of `n` splits into its uuid, its address and its query string. */
  lemma NodeUriSplits(n: Node)
    requires Encodable(n)
    ensures ParseVless(NodeUri(n)) == ParseAddress(NodeAddress(n), EncodeQuery(NodeParams(n)), n.uuid, Some(n.name))
  {
    var address, query, fragment := NodeAddress(n), EncodeQuery(NodeParams(n)), Quote(n.name);
    NodeAddressFree(n);
    EncodeQueryFree(NodeParams(n), '#');
    assert NodeUri(n) == VlessPrefix + n.uuid + "@" + address + "?" + query + "#" + fragment;
    ParseComposed(n.uuid, address, query, fragment);
    UnquoteQuote(n.name);
  }

  /** The address of a node whose server holds no `?` or `#` holds neither. */
  lemma NodeAddressFree(n: Node)
    requires '?' !in n.server && '#' !in n.server
    ensures '#' !in NodeAddress(n) && '?' !in NodeAddress(n)
  {
    PortTextRoundTrip(n.port);
  }

  /** Parsing the link written for an encodable node gives the node back. */
  lemma ParseNodeUri(n: Node)
    requires Encodable(n)
    ensures ParseVless(NodeUri(n)) == Success(n)
  {
    NodeUriSplits(n);
    PortTextRoundTrip(n.port);
    ParseAddressOk(n.server, IntToString(n.port), n.port, EncodeQuery(NodeParams(n)), n.uuid, Some(n.name));
    NodeParamsRoundTrip(n);
    MakeNodeFromParams(n);
  }

  // ---------------------------------------------------------------------
  // A worked example: a grpc link with a security setting and a fragment name

  /** The query string of a grpc link: `security`, `type=grpc` and
      `serviceName`, in that order. */
  function GrpcQuery(security: string, serviceName: string): string
  {
    "security=" + security + "&type=grpc&serviceName=" + serviceName
  }

  /** The query splits into its three `name=value` fields. */
  lemma GrpcQueryFields(security: string, serviceName: string)
    ensures GrpcQuery(security, serviceName)
         == ("security" + "=" + security) + "&" + ("type" + "=" + "grpc") + "&" + ("serviceName" + "=" + serviceName)
  {
    assert "security=" == "security" + "=";
    assert "&type=grpc&serviceName=" == "&" + ("type" + "=" + "grpc") + "&" + ("serviceName" + "=");
  }

  /** Plain values make the grpc query decode to its three pairs, in order. */
  lemma GrpcQueryPairs(security: string, serviceName: string)
    requires security != [] && '%' !in security && '+' !in security && '&' !in security
    requires serviceName != [] && '%' !in serviceName && '+' !in serviceName && '&' !in serviceName
    ensures ParseQs(GrpcQuery(security, serviceName))
         == [("security", security), ("type", NetworkGrpc), ("serviceName", serviceName)]
  {
    GrpcQueryFields(security, serviceName);
    PlainQuery("security", security, "type", "grpc", "serviceName", serviceName);
  }

  /** The node built from those three pairs: the fragment names it, the
      server stands in for the absent `host`, and the transport is grpc with
      the given service name. */
  lemma GrpcNode(fragment: string, server: string, port: int, uuid: string, security: string, serviceName: string)
    requires fragment != []
    ensures MakeNode(Some(fragment), server, port, uuid,
                     [("security", security), ("type", NetworkGrpc), ("serviceName", serviceName)])
         == Node(fragment, NodeTypeVless, server, port, uuid, NetworkGrpc, security == SecurityTls, true, server, GrpcOpts(serviceName))
  {
    var q := [("security", security), ("type", NetworkGrpc), ("serviceName", serviceName)];
    assert q == [q[0]] + ([q[1]] + ([q[2]] + []));
    LookupCons(q[0], [q[1]] + ([q[2]] + []), "security");
    LookupCons(q[0], [q[1]] + ([q[2]] + []), "type");
    LookupCons(q[1], [q[2]] + [], "type");
    LookupCons(q[0], [q[1]] + ([q[2]] + []), "serviceName");
    LookupCons(q[1], [q[2]] + [], "serviceName");
    LookupCons(q[2], [], "serviceName");
    LookupCons(q[0], [q[1]] + ([q[2]] + []), "host");
    LookupCons(q[1], [q[2]] + [], "host");
    LookupCons(q[2], [], "host");
  }

  /** A grpc link with plain parts parses to the node it describes:
      `vless://uuid@server:port?security=…&type=grpc&serviceName=…#name`. */
  lemma ParseGrpcLink(uuid: string, server: string, portText: string, port: int,
                      security: string, serviceName: string, fragment: string)
    requires '@' !in uuid && '#' !in uuid
    requires ':' !in server && '?' !in server && '#' !in server
    requires ':' !in portText && '?' !in portText && '#' !in portText && ParseInt(portText) == Some(port)
    requires security != [] && '%' !in security && '+' !in security && '&' !in security && '#' !in security
    requires serviceName != [] && '%' !in serviceName && '+' !in serviceName && '&' !in serviceName && '#' !in serviceName
    requires fragment != [] && '%' !in fragment
    ensures ParseVless(VlessPrefix + uuid + "@" + (server + ":" + portText) + "?" + GrpcQuery(security, serviceName) + "#" + fragment)
         == Success(Node(fragment, NodeTypeVless, server, port, uuid, NetworkGrpc, security == SecurityTls, true, server, GrpcOpts(serviceName)))
  {
    var query := GrpcQuery(security, serviceName);
    assert '#' !in query;
    ParseComposed(uuid, server + ":" + portText, query, fragment);
    ParseAddressOk(server, portText, port, query, uuid, Some(fragment));
    GrpcQueryPairs(security, serviceName);
    GrpcNode(fragment, server, port, uuid, security, serviceName);
  }

  /** The example port text is the integer 443. */
  lemma ExamplePort()
    ensures ParseInt("443") == Some(443)
  {
    assert "443"[..2] == "44" && "44"[..1] == "4" && "4"[..0] == [];
    assert DigitsValue("4") == 4;
    assert DigitsValue("44") == 44;
    assert DigitsValue("443") == 443;
  }

  /** The text of the example link up to its query string. */
  lemma ExampleHeadText()
    ensures VlessPrefix + "uuid-1" + "@" + ("host1.example" + ":" + "443") + "?" == "vless://uuid-1@host1.example:443?"
  {
    var address := "host1.example" + ":" + "443";
    assert address == "host1.example:443";
    var head := VlessPrefix + "uuid-1" + "@";
    assert head == "vless://uuid-1@";
  }

  /** The text of the example link up to its fragment, one query field at
      a time. */
  lemma ExampleQueryText(x: string)
    requires x == "vless://uuid-1@host1.example:443?"
    ensures x + GrpcQuery("tls", "svc") == "vless://uuid-1@host1.example:443?security=tls&type=grpc&serviceName=svc"
  {
    var a, b, c, d := "security=", "tls", "&type=grpc&serviceName=", "svc";
    assert GrpcQuery("tls", "svc") == a + b + c + d;
    AppendAssoc(x, a + b + c, d);
    AppendAssoc(x, a + b, c);
    AppendAssoc(x, a, b);
    ExampleSecurityText(x);
    ExampleTransportText(x + a + b);
  }

  /** The `security` field of the example link. */
  lemma ExampleSecurityText(x: string)
    requires x == "vless://uuid-1@host1.example:443?"
    ensures x + "security=" + "tls" == "vless://uuid-1@host1.example:443?security=tls"
  {
    assert x + "security=" == "vless://uuid-1@host1.example:443?security=";
  }

  /** The `type` and `serviceName` fields of the example link. */
  lemma ExampleTransportText(x: string)
    requires x == "vless://uuid-1@host1.example:443?security=tls"
    ensures x + "&type=grpc&serviceName=" + "svc" == "vless://uuid-1@host1.example:443?security=tls&type=grpc&serviceName=svc"
  {
    assert x + "&type=grpc" == "vless://uuid-1@host1.example:443?security=tls&type=grpc";
    assert "&type=grpc&serviceName=" == "&type=grpc" + "&serviceName=";
    AppendAssoc(x, "&type=grpc", "&serviceName=");
    assert x + "&type=grpc" + "&serviceName=" == "vless://uuid-1@host1.example:443?security=tls&type=grpc&serviceName=";
  }

  /** The example link, written out, is the grpc link of its parts. */
  lemma ExampleLinkText()
    ensures "vless://uuid-1@host1.example:443?security=tls&type=grpc&serviceName=svc#Node1"
         == VlessPrefix + "uuid-1" + "@" + ("host1.example" + ":" + "443") + "?" + GrpcQuery("tls", "svc") + "#" + "Node1"
  {
    var x := VlessPrefix + "uuid-1" + "@" + ("host1.example" + ":" + "443") + "?";
    ExampleHeadText();
    ExampleQueryText(x);
    var y := x + GrpcQuery("tls", "svc");
    assert y + "#" + "Node1" == "vless://uuid-1@host1.example:443?security=tls&type=grpc&serviceName=svc#Node1";
  }

  /** `vless://uuid-1@host1.example:443?security=tls&type=grpc&serviceName=svc#Node1`
      parses to the node named `Node1` on `host1.example:443`, with TLS, the
      grpc transport, service name `svc` and the server as SNI. */
  lemma ParseExampleLink()
    ensures ParseVless("vless://uuid-1@host1.example:443?security=tls&type=grpc&serviceName=svc#Node1")
         == Success(Node("Node1", "vless", "host1.example", 443, "uuid-1", "grpc", true, true, "host1.example", GrpcOpts("svc")))
  {
    ExampleLinkText();
    ParseExampleParts(VlessPrefix + "uuid-1" + "@" + ("host1.example" + ":" + "443") + "?" + GrpcQuery("tls", "svc") + "#" + "Node1");
  }

  /** The example link, assembled from its parts, parses to its node. */
  lemma ParseExampleParts(url: string)
    requires url == VlessPrefix + "uuid-1" + "@" + ("host1.example" + ":" + "443") + "?" + GrpcQuery("tls", "svc") + "#" + "Node1"
    ensures ParseVless(url)
         == Success(Node("Node1", "vless", "host1.example", 443, "uuid-1", "grpc", true, true, "host1.example", GrpcOpts("svc")))
  {
    ExamplePort();
    ParseGrpcLink("uuid-1", "host1.example", "443", 443, "tls", "svc", "Node1");
  }
}
