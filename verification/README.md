# tokio-consul, modelled in Dafny

A model of the deterministic core of a small asynchronous Consul HTTP
client. The client registers a service with the local Consul agent
(`PUT /v1/agent/service/register`, JSON body) and writes raw bytes into the
key-value store (`PUT /v1/kv/<path>`, octet-stream body). The model covers
four things:

- how each request is built: its target URI, media type, `Content-Length` and body;
- which members the JSON encoding of `RegisterService` and `Check` emits ("skip if none" fields);
- how a completed response (status code plus fully buffered body) becomes a result;
- how transport failures stay apart from errors the agent reports.

Modules, one per file:

- `Results` (`results.dfy`): `Option` and `Result`.
- `Utf8` (`utf8.dfy`): bytes, UTF-8 encoding (`String::as_bytes`) and the lossy decoding `String::from_utf8_lossy` uses. One U+FFFD stands for each maximal ill-formed subpart, with byte ranges as in RFC 3629 section 4.
- `Hyper` (`hyper.dfy`): what the client uses of the HTTP library. This covers status codes with the classes of section 6 of RFC 7231, methods, media types, the `Request` record, `hyper::Error`, and the `Exchange`. An `Exchange` is either a transport failure or a completed `(status, body)`.
- `Json` (`json.dfy`): JSON values down to object members, as in section 4 of RFC 8259.
- `Payload` (`payload.dfy`): `RegisterService` and `Check`, and the members they encode to. A reading of those members serves as the round-trip partner.
- `ConsulError` (`consul_error.dfy`): `Error::Http` / `Error::Consul` and the `From<hyper::Error>` conversion.
- `ConsulClient` (`client.dfy`): `Client::new`, `Client::request`, `Client::request_json`.
- `Agent` (`agent.dfy`), `KV` (`kv.dfy`): `register` and `put`, with their response readings.
- `ErrorKinds` (`error_kinds.dfy`): how the two error kinds separate across both operations.

The request builders are methods that assemble a `Request` value step by
step, as the source does with `Request::new`, `headers_mut().set` and
`set_body`. The network is a parameter `exchange: Request -> Exchange`. The
JSON serializer's text output is a parameter `render: Json -> string`. The
URI parser is a parameter `parses: string -> bool`.

## Model

| member | source | states |
|---|---|---|
| Hyper.IsSuccess | src/lib.rs:160 | `is_success` holds exactly for statuses 200..299 (the Successful class) |
| Utf8.Encode | src/lib.rs:142 | the UTF-8 form of a JSON text has at least one and at most four bytes per character |
| Utf8.EncodeAscii | src/lib.rs:142 | for ASCII text the byte count (the Content-Length) equals the character count, byte for character |
| Utf8.DecodeLossy | src/lib.rs:163 | the lossy decoding of a body never has more characters than the body has bytes |
| Utf8.DecodeEncode | src/lib.rs:163 | the lossy decoding of well-formed UTF-8 is exact: the UTF-8 form of any text decodes back to that text |
| Utf8.DecodeAscii | src/lib.rs:189 | an ASCII body decodes to the same number of characters, each equal to its byte |
| Payload.CheckNamesInOrder | src/lib.rs:68-78 | the encoded Check has its members in declaration order, optional ones only when present |
| Payload.CheckNames | src/lib.rs:70-77 | the encoded Check has `ttl`, `http`, `script` exactly when those fields are present, always has `interval` and `DeregisterCriticalServiceAfter`, and no name twice |
| Payload.ServiceNames | src/lib.rs:58-65 | the encoded RegisterService has `Check` exactly when the check is present, always has `ID`, `Name`, `Tags`, `Port`, `Address`, and no name twice |
| Payload.NoNullMembers | src/lib.rs:64-76 | no member of either encoding is `null`: absent fields are left out, not written as null |
| Payload.CheckLookups | src/lib.rs:69-77 | each Check field is found under its own name with its own value, and an absent optional field is not found |
| Payload.DecodeEncodeCheck | src/lib.rs:68-78 | the encoded Check reads back as the same Check (omission loses nothing) |
| Payload.DecodeEncodeService | src/lib.rs:57-66 | the encoded RegisterService reads back as the same RegisterService, check included |
| ConsulClient.New | src/lib.rs:106-109 | construction succeeds exactly when the URI parser accepts the text, and the client keeps that text as its base |
| ConsulClient.Request | src/lib.rs:119-128 | the request goes to base URI followed by the path, with the given method and media type, the given body, and a Content-Length equal to its byte count |
| ConsulClient.RequestJson | src/lib.rs:134-144 | the body is the UTF-8 bytes of the rendered JSON text, typed as JSON, and the Content-Length is their byte count |
| Agent.RegisterResponse | src/lib.rs:159-164 | success exactly for a 2xx status, whatever the body; otherwise a `Consul` error carrying the lossily decoded body |
| Agent.RegisterOutcome | src/lib.rs:153-164 | success exactly for a completed 2xx exchange; a transport failure gives `Http` with the same cause; a completed non-2xx gives `Consul` with the body text |
| Agent.Register | src/lib.rs:152-165 | sends a framed PUT to base URI + `/v1/agent/service/register` with the JSON bytes of the service, and returns the reading of the exchange |
| Agent.RegisterReportsBodyText | src/lib.rs:163 | a non-2xx response whose body is the UTF-8 form of a message yields `Consul` with exactly that message |
| KV.KeyPath | src/lib.rs:171-172 | the key path is `/v1/kv/` followed by the caller's path unchanged: it starts with the prefix, ends with the path, and is 7 characters longer |
| KV.PutResponse | src/lib.rs:179-190 | `Ok(true)` exactly for 2xx with body `true\n`, `Ok(false)` exactly for 2xx with body `false\n`; every error is `Consul` with the lossily decoded body |
| KV.PutOutcome | src/lib.rs:173-190 | a value exactly for a completed 2xx exchange with one of the two bodies; a transport failure gives `Http` with the same cause; any other completed exchange gives `Consul` with the body text |
| KV.Put | src/lib.rs:169-191 | sends a framed octet-stream PUT of the data to base URI + `/v1/kv/` + path, and returns the reading of the exchange |
| KV.ExpectedBodies | src/lib.rs:182-185 | the two compared byte strings are the UTF-8 forms of "true\n" and "false\n", and they differ |
| KV.PutOfText | src/lib.rs:180-189 | with a 2xx status, a text body reads as `true` exactly for "true\n", `false` exactly for "false\n", and otherwise as `Consul` carrying the text itself |
| KV.PutRejectsNonSuccess | src/lib.rs:179-189 | with a non-2xx status even the bodies `true\n` and `false\n` are `Consul` errors carrying that text |
| ErrorKinds.KindsFollowTheExchange | src/lib.rs:27-31 | for both operations the error is `Http` exactly when the exchange failed in transport, and `Consul` only comes from a completed response |

## Left out

- `Node`, `Service`, `HealthService` and `TtlHealthCheck` (src/lib.rs:33-54, 80-87): no operation sends or receives them.
- `Client::agent` and `Client::kv` only borrow the client. The model passes the `Client` value to `Agent.Register` and `KV.Put` directly.
- Asynchrony is not modelled. This covers hyper's connection pool, `Arc`, the tokio `Handle`, the futures combinators, and the two waits (for the headers, then for the whole body). The model takes an exchange whose body is already fully buffered.
- URI parsing belongs to the HTTP library. `ConsulClient.New` takes the parser's verdict as a parameter and reports a bare `InvalidUri`, without hyper's error details.
- The `.unwrap()` of the parsed request URI (src/lib.rs:123, 139) is not modelled. The source panics when base URI plus path does not parse; which texts parse is up to hyper's URI parser. The model always builds the request.
- The display of hyper's `Uri` is taken to reproduce the base URL text given to `Client::new`.
- The exact JSON text of `serde_json::to_string` (escaping, whitespace) is not modelled. It is the `render` parameter.
- Payload.DecodeService: this is a reading of the members the encoding is meant for. It is not serde's derived deserializer: unknown members are ignored, and for a repeated name the first one is taken.
- `Content-Length` is a `nat`. The source casts `usize` to `u64`, which cannot truncate on the platforms Rust supports.
- `hyper::Method` has an `Extension` case for custom methods. It is left out because the client only sends `PUT`.
- `hyper::Error` is kept as a description. Its kinds do not affect the client's decisions.
- The tests (src/lib.rs:194-226) need a live agent and assert only that the calls succeed.
- `serde_json::to_string`'s result is unwrapped (src/lib.rs:137). The model follows the code, and that failure cannot occur for these records.
