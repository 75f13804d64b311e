# vless-converter, modelled in Dafny

vless-converter turns a text file of `vless://` share links, one per line,
into a Clash.Meta configuration. Each link becomes a proxy entry. One `select`
group named `Proxy` lists every proxy, and two fixed rules follow.

This project models the converter's two parts:

- **The parser** (`parse_vless`). A link is a prefix, a uuid, an `@`, a
  `server:port` address, an optional query string after `?` and an optional
  percent-encoded name after `#`. It becomes a node record or an error.
- **The batch loop** (`vless_txt_to_clash`). Each stripped, non-blank line
  is parsed. A node with no name is named `节点_<n>`, where `n` is its
  1-based position among the non-blank lines; blank lines are not counted,
  failed lines are. A line that fails is reported and skipped, and the loop goes on.
  With no node at all, no document is produced.

Modules, in dependency order:

- `Wrappers`: `Option` and `Result`.
- `Strings`: `str.split` and `str.strip`, plus `Join`, the inverse of
  splitting, which is not in the source. Stripping uses the character set
  Python 3's `str.isspace` accepts.
- `Numbers`: the part of `int(str)` the parser relies on, and decimal
  rendering.
- `Percent`: `urllib.parse.unquote` for ASCII escapes, plus `Quote`, its
  inverse, which is not in the source.
- `Query`: `urllib.parse.parse_qs` with its defaults, the first-value
  lookup, and `EncodeQuery`, the inverse encoder.
- `Vless`: the parser in stages: `ParseVless`, then `ParseBody`, then
  `ParseAddress`, then `MakeNode`. It also proves the facts each node
  satisfies, and that `ParseVless(NodeUri(n)) == Success(n)` for every
  `Encodable` node: a well-shaped node whose uuid holds no `@` or `#` and whose
  server holds no `:`, `?` or `#`. `ParseVless` promises that every node it
  produces is `Encodable`, so the round trip covers all of them.
- `Clash`: line preparation, the specification of the batch
  (`Kept`/`Rejected` over the per-line outcomes), and the imperative loop
  `VlessTxtToClash`, which is proved against that specification.

Exceptions become `ParseError` values:

| error | cause |
|---|---|
| `NotVless` | the `ValueError` for a missing prefix |
| `MissingAt` | unpacking `split("@", 1)` when there is no `@` |
| `BadAddress` | unpacking `split(":")` into anything but two parts |
| `BadPort` | `int()` refusing the port text |

The batch's `except Exception` becomes a `Diagnostic` holding the line and
its reason.

## Model

| member | source | states |
|---|---|---|
| Vless.ParseVless | vless_txt_to_yaml.py:15-27 | The prefix test comes first: the result is `NotVless` exactly when the link does not start with `vless://`. Every node produced is well-shaped, its uuid holds no `@` or `#`, and its server no `:`, `?` or `#`. |
| Vless.ParseVlessAtFragment | vless_txt_to_yaml.py:22-30 | The text after the first `#` is percent-decoded and becomes the name candidate. The body is the text between prefix and `#`. The link fails with `MissingAt` exactly when that body has no `@`. |
| Vless.ParseVlessWithFragment | vless_txt_to_yaml.py:23-27 | With a `#`, the body is what lies between prefix and `#`, and the decoded fragment is the name candidate. |
| Vless.ParseVlessWithoutFragment | vless_txt_to_yaml.py:23-27 | Without a `#`, the body is all text after the prefix and there is no name candidate. |
| Vless.ParseBody | vless_txt_to_yaml.py:29-37 | `MissingAt` exactly when the body has no `@`. A body never yields `NotVless`. Successes are well-shaped. The uuid holds no `@`, the server no `:` or `?`, and neither holds a `#` the body lacks. |
| Vless.ParseBodyWithQuery | vless_txt_to_yaml.py:30-34 | The uuid is the text before the first `@`. The address runs to the first `?` after it, and the query string is the rest. |
| Vless.ParseBodyWithoutQuery | vless_txt_to_yaml.py:30-37 | Without a `?`, everything after the `@` is the address and the query string is empty. |
| Vless.ParseAddress | vless_txt_to_yaml.py:39-40 | `BadAddress` exactly when the address does not have exactly one `:`. Every other failure is `BadPort`. Successes are well-shaped, keep the uuid, and take as server a `:`-free prefix of the address. |
| Vless.MakeNode | vless_txt_to_yaml.py:43-76 | The node dictionary. Its type is always "vless" and udp always on, and server, port and uuid are the parsed ones. Its other fields are stated by `NamePrecedence`, `QueryDefaults`, `TransportShaping` and `MakeNodeIsWellShaped`. |
| Vless.ParseAddressParts | vless_txt_to_yaml.py:39-40 | For `server:portText`, the port is whatever `int()` gives for the text, with no range check. Text that is not an integer gives `BadPort`. |
| Vless.ParseAddressOk | vless_txt_to_yaml.py:39-46 | An address with one `:` and an integer port yields the node built from the query. |
| Vless.NamePrecedence | vless_txt_to_yaml.py:49-51 | The name is the decoded fragment if non-empty, else the `host` parameter, else the server. It is empty exactly when the fragment is empty, no `host` is given and the server is empty. |
| Vless.QueryDefaults | vless_txt_to_yaml.py:43-64 | Defaults: security "none", type "ws", host = server. Also: `tls` exactly when security is "tls", and `sni` is the host. |
| Vless.TransportShaping | vless_txt_to_yaml.py:66-76 | Network "ws" (exactly) gives ws-opts with the path (default "/") and the host as `Host` header. "grpc" (exactly) gives grpc-opts with the service name (default ""). Any other network has no options. |
| Vless.MakeNodeIsWellShaped | vless_txt_to_yaml.py:43-76 | Every built node is well-shaped. It is a vless node with udp set and a non-empty network. Its options match its network, and the ws `Host` header equals the SNI. Its name is empty only if both SNI and server are empty. |
| Vless.NodeParamsLookups | vless_txt_to_yaml.py:44-47 | The lookups `MakeNode` makes among a node's own parameters find the node's security and network. The host is the SNI, or the server when the SNI is empty. Transport lookups see the options' parameters. |
| Vless.HostParamsLookups | vless_txt_to_yaml.py:46 | The `host` lookup finds the SNI when it was written and nothing otherwise; the transport keys are not shadowed. |
| Vless.OptsParamsLookups | vless_txt_to_yaml.py:66-76 | The `path` and `serviceName` lookups find the options they were written from, the empty service name through its default. |
| Vless.MakeNodeFromParams | vless_txt_to_yaml.py:43-76 | An `Encodable` node is rebuilt exactly from its own parameters and name, empty names and empty SNI hosts included. |
| Vless.MakeNodeFromLookups | vless_txt_to_yaml.py:43-76 | A well-shaped node is rebuilt by `MakeNode` from any pairs whose lookups give its security, network, SNI and transport options. |
| Vless.PortTextRoundTrip | vless_txt_to_yaml.py:40 | A port's decimal text parses back to the port and contains no link delimiter. |
| Vless.NodeParamsRoundTrip | vless_txt_to_yaml.py:43 | A node's encoded query string decodes to its parameters. |
| Vless.ParseComposed | vless_txt_to_yaml.py:19-37 | A link assembled from uuid, address, query and fragment splits back into those parts. |
| Vless.NodeUriSplits | vless_txt_to_yaml.py:19-37 | The link written for a node splits into its uuid, its address and its query string. |
| Vless.NodeAddressFree | vless_txt_to_yaml.py:33-39 | The `server:port` text of a node whose server has no `?` or `#` has neither. |
| Vless.ParseNodeUri | vless_txt_to_yaml.py:15-78 | Round trip: parsing the link written for any `Encodable` node gives that node back. |
| Vless.ParseExampleLink | vless_txt_to_yaml.py:15-78 | `vless://uuid-1@host1.example:443?security=tls&type=grpc&serviceName=svc#Node1` parses to the node `Node1` of type "vless" on `host1.example`, port 443, uuid `uuid-1`, network "grpc", TLS and udp on, SNI `host1.example` and grpc service name `svc`. |
| Vless.ParseGrpcLink | vless_txt_to_yaml.py:15-78 | A link `vless://uuid@server:port?security=…&type=grpc&serviceName=…#name` with plain parts parses to the grpc node it describes: the fragment is its name, `tls` exactly when security is "tls", and the server stands in for the absent `host` as SNI. |
| Vless.GrpcQueryPairs | vless_txt_to_yaml.py:43 | The query `security=…&type=grpc&serviceName=…` with plain values decodes to those three pairs, in order. |
| Vless.GrpcNode | vless_txt_to_yaml.py:43-76 | From the pairs `security`, `type=grpc` and `serviceName`, the node takes the fragment as name, the server as SNI and the service name as grpc option. |
| Query.PlainQuery | vless_txt_to_yaml.py:43 | Three `name=value` fields with no `=`, `%`, `+` or `&` in them, and non-empty values, decode to their three pairs, in order. |
| Query.PlainField | vless_txt_to_yaml.py:43 | A `name=value` field with no `%` or `+` decodes to its own name and value. |
| Query.ThreeFields | vless_txt_to_yaml.py:43 | Three `&`-free fields, each giving one pair, give those pairs in order. |
| Vless.EncodeQueryFree | vless_txt_to_yaml.py:33-34 | An encoded query holds no `#`, `?` or other reserved ASCII character except `&`, `=` and `%`. |
| Query.ParseQs | vless_txt_to_yaml.py:43 | `parse_qs`: no value kept is empty, and there are no more pairs than `&`-separated fields. `ParseQsJoin` states which pairs. |
| Query.DecodeFieldsAppend | vless_txt_to_yaml.py:43 | Fields are decoded one by one, in order: decoding distributes over concatenation. |
| Query.DecodeFieldsOne | vless_txt_to_yaml.py:43 | A single field contributes its decoded pair, or nothing when it is dropped. |
| Query.ParseQsThree | vless_txt_to_yaml.py:43 | A query string of three `&`-free fields gives what each field contributes, in order. |
| Query.ParseQsJoin | vless_txt_to_yaml.py:43 | Any query string made of `&`-free fields parses to those fields decoded in order, whatever they hold (raw `/`, `+`, escapes of either case). |
| Query.DecodeField | vless_txt_to_yaml.py:43 | A field with no `=` is dropped, and no kept value is empty. |
| Query.DecodeFieldAt | vless_txt_to_yaml.py:43 | A field `name=value` with `=`-free name is dropped exactly when the value is empty, and is otherwise the pair of both parts decoded. With `DecodeField`, this fixes the result for every field. |
| Query.Lookup | vless_txt_to_yaml.py:44-47 | The lookup fails exactly when no pair has the key. A value found is one the key was given. |
| Query.LookupFirst | vless_txt_to_yaml.py:44-47 | `[0]` of the value list: the first pair with the key wins. |
| Query.Get | vless_txt_to_yaml.py:44-47 | `query.get(key, [default])[0]`: the default when no pair has the key, otherwise a value given for the key (by `LookupFirst`, the first). |
| Query.ParseQsEncodeQuery | vless_txt_to_yaml.py:43 | Parsing an encoded query recovers its pairs in order, repeated names included, when no value is empty. |
| Query.DecodeEncodeField | vless_txt_to_yaml.py:43 | An encoded `name=value` field decodes back to its pair. |
| Percent.Unquote | vless_txt_to_yaml.py:25 | Decoding never lengthens the text, keeps it empty exactly when it was empty, and leaves text without `%` unchanged. `UnquoteEscapeAt` and `UnquoteStrayAt` state what happens at each `%`. |
| Percent.UnquotePlainPrefix | vless_txt_to_yaml.py:25 | Text without `%` passes through decoding unchanged. |
| Percent.UnquoteEscapeAt | vless_txt_to_yaml.py:25 | The first `%` followed by two hex digits of either case that name an ASCII character is replaced by that character, and decoding goes on after the escape. |
| Percent.UnquoteStrayAt | vless_txt_to_yaml.py:25 | A first `%` that does not start such an escape is kept, and decoding goes on right after it. |
| Percent.UnquoteLowerCaseExample | vless_txt_to_yaml.py:25 | `a%2fb` decodes to `a/b`. |
| Percent.UnquoteStrayExample | vless_txt_to_yaml.py:25 | `50%` decodes to `50%`. |
| Percent.UnquoteQuote | vless_txt_to_yaml.py:25 | Decoding undoes `Quote` on every string. |
| Percent.PlusToSpace | vless_txt_to_yaml.py:43 | Every `+` becomes a space and every other character is kept; the length is unchanged. |
| Percent.FormDecode | vless_txt_to_yaml.py:43 | `+` becomes a space, then percent-decoding. The result is empty exactly when the input is. |
| Percent.FormDecodeUnescaped | vless_txt_to_yaml.py:43 | Without `%`, form decoding turns each `+` into a space and keeps every other character. |
| Percent.FormDecodePlain | vless_txt_to_yaml.py:43 | Text with neither `%` nor `+` form-decodes to itself. |
| Percent.FormDecodeFormQuote | vless_txt_to_yaml.py:43 | Form decoding undoes `FormQuote`, which writes a space as `+`, on every string. |
| Percent.FormDecodeQuote | vless_txt_to_yaml.py:43 | Form decoding undoes `Quote` on every string. |
| Numbers.ParseInt | vless_txt_to_yaml.py:40 | `int(port_str)` succeeds exactly on an optional sign followed by digits, leading zeros allowed. Its value is the digits' value, negated after `-`. |
| Numbers.ParseIntToString | vless_txt_to_yaml.py:40 | Every integer's decimal text parses back to it. |
| Numbers.NatToString | vless_txt_to_yaml.py:96 | The decimal text of `idx` is a run of digits with that value and no leading zero: it starts with `0` only when it is `"0"`. |
| Numbers.CanonicalDigitsRendering | vless_txt_to_yaml.py:96 | A digit run without a leading zero is the decimal text of its own value, so that text is the only such run with that value. |
| Strings.SplitFirst | vless_txt_to_yaml.py:24 | `split(c, 1)` fails exactly when `c` is absent. Otherwise the left part has no `c`, and left + `c` + right is the input. |
| Strings.SplitFirstAt | vless_txt_to_yaml.py:30-34 | The split at the first `c` is the unique split whose left part is free of `c`. |
| Strings.SplitAll | vless_txt_to_yaml.py:39 | `split(c)` gives at least one piece, and no piece contains `c`. |
| Strings.SplitAllCount | vless_txt_to_yaml.py:39 | There is one more piece than there are occurrences of `c`. |
| Strings.JoinSplitAll | vless_txt_to_yaml.py:39 | Joining the pieces of a split gives back the string. |
| Strings.SplitAllJoin | vless_txt_to_yaml.py:43 | Splitting a join of `c`-free pieces gives back the pieces. |
| Strings.Strip | vless_txt_to_yaml.py:86 | `strip()` removes white space from both ends only. Neither end of the result is white space, and the result is empty exactly when the line is all white space. |
| Strings.StripUnique | vless_txt_to_yaml.py:86 | Any way of writing a line as white space around text with non-space ends is its strip. |
| Strings.StripIdempotent | vless_txt_to_yaml.py:86 | Stripping twice is stripping once. |
| Clash.StripAll | vless_txt_to_yaml.py:86 | Every line stripped, one result per line, in order. |
| Clash.PrepareLines | vless_txt_to_yaml.py:86 | Every prepared line is the non-empty strip of some input line. Every input line that is not all white space appears, stripped. |
| Clash.DropBlank | vless_txt_to_yaml.py:86 | Keeps exactly the non-empty lines. |
| Clash.PrepareLinesAppend | vless_txt_to_yaml.py:86 | Preparation keeps line order: it distributes over concatenation. |
| Clash.FallbackName | vless_txt_to_yaml.py:94-96 | The positional name is `节点_` followed by a run of decimal digits without a leading zero whose value is the position. |
| Clash.FallbackNameCanonical | vless_txt_to_yaml.py:94-96 | `节点_` followed by the position's digits without a leading zero is the positional name, so `节点_1` for position 1 and never `节点_01`. |
| Clash.FallbackNameInjective | vless_txt_to_yaml.py:94-96 | Different positions give different positional names. |
| Clash.Named | vless_txt_to_yaml.py:94-96 | A node keeps a non-empty name. Only an empty name is replaced by the positional one. The result always has a name. |
| Clash.Kept | vless_txt_to_yaml.py:91-98 | Survivors never outnumber the lines, and every survivor's name is non-empty. |
| Clash.Rejected | vless_txt_to_yaml.py:99-100 | The diagnostics never outnumber the lines; their content is fixed by `RejectedAtIndices`. |
| Clash.Survivors | vless_txt_to_yaml.py:91-98 | The nodes of a batch of lines never outnumber the lines and all have names. |
| Clash.Failures | vless_txt_to_yaml.py:99-100 | The diagnostics of a batch of lines never outnumber the lines. |
| Clash.KeptAtIndices | vless_txt_to_yaml.py:91-98 | The k-th survivor is the node of the k-th successful line, named by that line's 1-based position among the non-blank lines (blank lines are not counted, failed ones are). |
| Clash.KeptIndicesExact | vless_txt_to_yaml.py:91-99 | Survivor positions are strictly increasing and include every line that parses: order is kept, duplicates are kept, and nothing that parses is lost. |
| Clash.RejectedAtIndices | vless_txt_to_yaml.py:99-100 | The k-th diagnostic names the k-th failed line and its reason. |
| Clash.RejectedIndicesExact | vless_txt_to_yaml.py:99-100 | Failure positions are strictly increasing and include every line that fails. |
| Clash.KeptRejectedPartition | vless_txt_to_yaml.py:91-100 | Every line is either a survivor or a diagnostic. |
| Clash.KeptSkipsMiddle | vless_txt_to_yaml.py:91-100 | For good, bad, good lines, the document holds the first and third nodes, named by positions 1 and 3, and one diagnostic for line 2. |
| Clash.StepLine | vless_txt_to_yaml.py:91-100 | One more line extends the survivors or the diagnostics by exactly what that line gives. |
| Clash.Outcomes | vless_txt_to_yaml.py:93 | The k-th outcome is the parse of the k-th line. |
| Clash.ProxyNames | vless_txt_to_yaml.py:106 | The group's member list holds, in order, the names of the proxies. |
| Clash.VlessTxtToClash | vless_txt_to_yaml.py:91-121 | Diagnostics are the failures of the prepared lines. No document exactly when there is no survivor. Otherwise: proxies are the survivors; there is one group `Proxy` of type `select` listing their names in order; rules are `GEOIP,CN,DIRECT` and `MATCH,Proxy`. |

## Left out

- The file reading (lines 84-85), the missing-file branch (87-89) and the YAML output (123-124) are I/O. The model starts from the file's lines and ends with the `Config` value.
- Status messages are left out: lines 88, 100, 103 and 126-127. The skip message is kept as a `Diagnostic` (line and reason) rather than as printed text.
- The command-line entry point (129-150) and the default file names `DEFAULT_INPUT_FILE` and `DEFAULT_OUTPUT_FILE` (8-9) are left out. They only choose paths.
- The wording of exception messages is left out. Only which of the four failures occurred is kept.
- Python dictionaries become records. A node is the `Node` datatype, and its `ws-opts`/`grpc-opts` entries are the `Opts` datatype rather than nested maps. Key order in the output is not modelled.
- Numbers.ParseInt: models `int()` only for an optional sign followed by ASCII digits. It does not accept the surrounding white space, `_` separators or non-ASCII digits that Python's `int()` also accepts. It also has no digit limit: from Python 3.11, `int()` raises `ValueError` on text of more than 4300 digits, where the model still returns a port.
- Percent.Unquote: decodes only `%XX` escapes naming ASCII characters. Escapes of bytes 0x80 and above (UTF-8 sequences, and the replacement character for invalid ones) are left undecoded.
- Query.ParseQs: models the defaults only: `&` separator, `keep_blank_values=False`, no `strict_parsing`, and no `max_num_fields` limit. Grouping the values into a dictionary of lists is modelled by first-value lookup (`Query.Lookup`), the only way the source reads them.
- These members are not in the source: `Join`, `IntToString`, `Quote`, `FormQuote`, `EncodeField`, `EncodeFields`, `EncodeQuery`, `NodeParams`, `HostParams`, `OptsParams`, `NodeAddress`, `NodeUri`, the `Encodable` predicate, and `GrpcQuery`, the query of the worked grpc example. They exist as inverses and writers, so the parser's round trips and the example can be stated.
- Clash: the batch facts (`KeptAtIndices`, `RejectedAtIndices` and the rest) are stated for any sequence of per-line outcomes. `Clash.Survivors` and `Clash.Failures` apply them to `Clash.Outcomes`, which parses each line with `Vless.ParseVless`.
