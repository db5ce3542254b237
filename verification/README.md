# FTL request admission and error taxonomy, in Dafny

This project models the request-handling core of FTL, a small Rust HTTP framework,
and proves properties of the model. It covers three parts:

- **Method classifier.** This is the closed `SupportedMethod` set. It has upper-case
  names, a fixed iteration order and the `ALLOW_HEADER` constant. It also has the two
  body predicates.
- **Error taxonomy.** `BaseError` maps each variant to its status code (section 15 of
  RFC 9110). `DynError` is the type-erased envelope: a status and an optional cause. It
  has a hand-written wire form `{status: u16, error: Option<String>}` with a lossy round
  trip, a `Display` format, and the `ErrorSchema` records for `String` and `DynError`.
- **Request service.** `parse_request` is an ordered chain of short-circuits:
  1. the method gate;
  2. the body exemption;
  3. `Content-Length` presence, visible ASCII and `usize` parse (section 8.6 of RFC 9110);
  4. the optional maximum length;
  5. the optionally timed read;
  6. a read failure mapped to 500;
  7. UTF-8 validation (section 4 of RFC 3629).

  The service part also covers `Service::call`, which threads the outcome into the
  handler, the `Config`/`Builder` pair, and the single-shot `OutBuffer` body.

The asynchronous body read and its timeout race are replaced by one input,
`ReadOutcome`. It is `TimedOut`, `IoError(cause)` or `Bytes(bytes)`: what reading the
body to its end would give. With that input, `parse_request` is a pure function, and
the backpressure guarantee becomes a lemma: when a gate before the read decides the
request, the result does not depend on `ReadOutcome`.

Modules, one file each:

- `Wrappers` (`wrappers.dfy`) holds `Option` and `Result`.
- `Utf8` (`utf8.dfy`) is the RFC 3629 encoder and the validating decoder behind
  `std::str::from_utf8`. It proves both round trips.
- `Decimal` (`decimal.dfy`) is Rust's `usize` parser and decimal rendering.
- `Method` (`method.dfy`) models `ftl/src/method.rs`.
- `Error` (`error.dfy`) models `ftl/src/error.rs`.
- `Service` (`service.dfy`) and `Output` (`output.dfy`) model `ftl/src/service.rs`.

Two collaborators are pinned down here because the contracts depend on them:

- **`HeaderValue::to_str`** accepts bytes 32..126 and horizontal tab.
- **`<usize as FromStr>::from_str`** accepts an optional single `+`, then one or more
  ASCII digits, with a value at most `usize::MAX`. `usize` is taken as 64 bits.

  This means a `Content-Length` of `+5` or `007` is admitted, though section 8.6 of
  RFC 9110 allows digits only.

Where the intended behaviour and the code differ, the model follows the code:

- `request_has_body` is inverted (see Findings). `Service.Call` uses the predicate as
  written.
- The read length is never compared with the declared `Content-Length`.
- A 405 response gets no `Allow` header from this service.
- A HEAD response keeps its body. `ALLOW_HEADER` and `response_has_body` are defined
  but unused by `ftl/src/service.rs`.

## Model

| member | source | states |
|---|---|---|
| Method.New | ftl/src/method.rs:59-70 | succeeds exactly on the seven upper-case names, returning the variant whose name is the token; any other token fails with `UnsupportedMethod` carrying that same token |
| Method.NameRoundTrip | ftl/src/method.rs:32-50 | every variant's name maps back to that variant (`new(name(m)) == Ok(m)`), so names are distinct |
| Method.Name | ftl/src/method.rs:17-21 | a variant's name (`AsRef`/`Display` with `serialize_all = "UPPERCASE"`) is three to seven upper-case letters; `NameRoundTrip` shows `new` maps it back |
| Method.LowerCaseRejected | ftl/src/method.rs:59-70 | tokens are case-sensitive: the lower-case spelling of every supported name is rejected and carried back |
| Method.IterationOrder | ftl/src/method.rs:19-30 | iteration yields all seven variants, each once, in declaration (`Ord`) order |
| Method.AllowHeaderIsJoinedNames | ftl/src/method.rs:57 | `ALLOW_HEADER` is the variant names in iteration order joined by ", " |
| Method.BodyPredicates | ftl/src/method.rs:72-78 | `request_has_body` selects GET, DELETE, HEAD, OPTIONS and rejects POST, PUT, PATCH; `response_has_body` selects HEAD only |
| Method.UnsupportedMessage | ftl/src/method.rs:52-54 | the rejection message starts "HTTP method " followed by the rejected token |
| Utf8.DecodeEncode | ftl/src/service.rs:232 | decoding the UTF-8 encoding of any string gives that string back |
| Utf8.EncodeDecode | ftl/src/service.rs:232 | any byte sequence the decoder accepts is exactly the encoding of the string it returns |
| Utf8.DecodeIff | ftl/src/service.rs:232 | the decoder returns `s` for `bs` if and only if `s` encodes to `bs`; it fails exactly when no string does |
| Decimal.ParseUsize | ftl/src/service.rs:204-205 | a parse succeeds exactly when the text after an optional `+` is non-empty, all digits, and denotes at most `usize::MAX` |
| Decimal.ParseUsizeAccepts | ftl/src/service.rs:204-205 | an optional `+`, any number of leading zeros, then the decimal spelling of any `v <= usize::MAX` parses to `v` |
| Decimal.ParseUsizeCanonical | ftl/src/service.rs:204-205 | every accepted text is an optional `+`, leading zeros and the decimal spelling of the parsed value, so the two lemmas characterise the parser |
| Error.StatusFromU16 | ftl/src/error.rs:122 | a wire status is accepted exactly when it lies in 100..999, and is kept unchanged |
| Error.StatusText | ftl/src/error.rs:130 | the status text starts with three characters that parse back to the code, followed by a space |
| Error.DynDisplay | ftl/src/error.rs:128-138 | the display is the status text, extended by " - " and the cause exactly when a cause is present |
| Error.Status | ftl/src/error.rs:78-91 | `Other(d)` reports `d`'s own status; every other variant reports a 4xx client-error code |
| Error.StatusTable | ftl/src/error.rs:79-89 | the fixed codes: 404, 405, 408, 411, 413, 415, 400 for `BodyNotUtf8` and for `InvalidParameter` |
| Error.DynStatus | ftl/src/error.rs:200-203 | `DynError::status` is the stored status, the same status as `Other(d)` |
| Error.StringStatus | ftl/src/error.rs:140-143 | a `String` error always has status 500 |
| Error.Serialize | ftl/src/error.rs:98-110 | the wire record keeps the status; the message is present exactly when a cause is present, and is the cause's display string |
| Error.Deserialize | ftl/src/error.rs:112-126 | decoding succeeds exactly for statuses in 100..999, keeps the status, and turns a message into a plain-message cause; otherwise it fails with `InvalidStatusCode`, which carries no payload |
| Error.SerializeRoundTrip | ftl/src/error.rs:98-126 | decoding an encoded error always succeeds, with the same status and a cause with the same display string; re-encoding gives the identical wire record |
| Error.DeserializeRoundTrip | ftl/src/error.rs:112-126 | a wire record that decodes re-encodes to itself |
| Error.NestedCauseFlattens | ftl/src/error.rs:128-138 | a nested `DynError` cause survives the round trip only as its display text, which begins with the inner status text |
| Error.DynErrorSchema | ftl/src/error.rs:160-198 | the schema is an object that requires `status` and has the properties `status` and `error`, with `error` a nullable string |
| Error.SchemaBoundsMatchDeserialize | ftl/src/error.rs:181-182 | the schema's published bounds on `status` are exactly the statuses the decoder accepts |
| Error.SchemaExampleParses | ftl/src/error.rs:155-164 | the schema's example `{"status": 418, "error": "Honestly, it's a teapot"}` decodes, with status 418 |
| Error.StringErrorSchema | ftl/src/error.rs:140-153 | `String` has no default schema and exactly one entry, keyed 500, so one form drives documentation |
| Error.DynErrorErrorSchema | ftl/src/error.rs:205-210 | `DynError` has its schema as the default and an empty map, so one form drives documentation |
| Output.From | ftl/src/service.rs:263-267 | a buffer made from `s` is not at its end and holds `s` |
| Output.Empty | ftl/src/service.rs:257-261 | an empty buffer is not yet at its end: it still holds one empty payload |
| Output.PollData | ftl/src/service.rs:273-278 | a poll yields a chunk exactly when the buffer was not at its end; afterwards it is at its end; the chunk decodes back to the payload |
| Output.PollTrailers | ftl/src/service.rs:280-285 | trailers are always absent |
| Output.IsEndStream | ftl/src/service.rs:287-289 | a buffer is at its end exactly when its payload has been taken, leaving the single emptied buffer |
| Output.DrainEnded | ftl/src/service.rs:273-289 | once at its end, a buffer yields nothing on every further poll |
| Output.DrainFrom | ftl/src/service.rs:263-278 | a buffer made from `s` yields the bytes of `s` on the first poll and nothing on every later poll |
| Output.DrainEmpty | ftl/src/service.rs:257-261 | `empty()` yields one empty chunk and then ends |
| Service.NewBuilder | ftl/src/service.rs:81-84 | the default configuration has neither a length bound nor a timeout |
| Service.WithMaxRequestLength | ftl/src/service.rs:86-89 | sets the length bound and leaves the timeout unchanged |
| Service.WithRequestReadTimeout | ftl/src/service.rs:91-95 | sets the timeout and leaves the length bound unchanged |
| Service.Build | ftl/src/service.rs:97-113 | the service keeps the router and the builder's configuration |
| Service.NewService | ftl/src/service.rs:68-70 | `Service::new` keeps the router and imposes no bounds |
| Service.HeaderGet | ftl/src/service.rs:198-200 | the lookup is absent exactly when no entry has the name; otherwise it is the value of the first entry with that name |
| Service.HeaderToStr | ftl/src/service.rs:202-203 | a value converts exactly when every byte is visible ASCII or tab; the text has the same characters and encodes back to the value |
| Service.DeclaredLength | ftl/src/service.rs:196-205 | the declared length is the parsed header when present, visible ASCII and a valid `usize`; every other case is `LengthRequired` |
| Service.ReadFailure | ftl/src/service.rs:225-230 | a failed read becomes `Other` with status 500 and the transport failure as its cause |
| Service.ReadBody | ftl/src/service.rs:196-234 | a length error comes first, then an over-limit length; a success is text whose encoding is exactly the bytes read |
| Service.ParseRequest | ftl/src/service.rs:177-235 | an unsupported method gives `MethodNotAllowed` listing all seven methods; an exempt method gives `Ok("")`; any other success encodes to the bytes read |
| Service.EarlyGatesIgnoreRead | ftl/src/service.rs:183-211 | when the method, exemption, length or maximum gate decides the request, the result is the same for every read outcome: the body is never read |
| Service.UnsupportedMethodRefused | ftl/src/service.rs:183-190 | an unsupported token gives 405 whatever the headers, configuration or read, and the allowed list joins to `ALLOW_HEADER` |
| Service.LengthBound | ftl/src/service.rs:207-211 | past the length check, the result is `PayloadTooLarge` exactly when a maximum is set and the declared length exceeds it (equal passes; no maximum, no bound) |
| Service.ReadOutcomes | ftl/src/service.rs:213-234 | past the gates, a timeout gives `RequestTimeout`, a read failure the 500 `Other` error, and bytes give `BodyNotUtf8` exactly when they are not well-formed UTF-8 |
| Service.ParseRequestOkIff | ftl/src/service.rs:177-235 | `Ok(s)` exactly when the method is exempt and `s` is empty, or every gate passes and `s` encodes to the bytes read, whatever length was declared |
| Service.ParseErrorStatuses | ftl/src/service.rs:177-235 | every pipeline failure has status 400, 405, 408, 411, 413 or 500, and 500 arises exactly from a read failure after the gates |
| Service.HandlerRequest | ftl/src/service.rs:167-170 | the handler sees the original request head with the pipeline outcome in the body slot |
| Service.WrapBody | ftl/src/service.rs:171 | the transport response keeps status and headers and carries the body in an `OutBuffer` |
| Service.Dispatch | ftl/src/service.rs:170-171 | a handler error propagates unchanged; a handler response is passed on with its body wrapped |
| Service.Call | ftl/src/service.rs:162-173 | the handler runs on the original head with the `parse_request` outcome as body; its error propagates, its response is wrapped |
| Service.EchoReturnsBodyBytes | ftl/src/service.rs:162-173 | end to end, an echoing handler streams back exactly the bytes read, once, for a request that passes every gate with well-formed text |
| Service.EchoRefusesUnsupported | ftl/src/service.rs:183-190 | end to end, an unsupported method reaches the handler as an error, which an echoing handler answers with 405 |
| Service.ExemptionInverted | ftl/src/method.rs:72-74 | the predicate as written is the exact negation of "the method carries a request body" |
| Service.ParseRequestIntended | ftl/src/service.rs:192-194 | with the exemption corrected, a method without a body gives `Ok("")` and an unsupported one still gives 405 |
| Service.CallIntended | ftl/src/service.rs:162-173 | `Service::call` threading the corrected pipeline into the handler |
| Service.IntendedSwapsExemption | ftl/src/service.rs:192-194 | for every supported method, the written and the corrected pipelines differ exactly in which methods read the body |
| Service.AsWrittenMisroutesBodies | ftl/src/service.rs:192-205 | as written, a GET without `Content-Length` gets 411, and a POST declaring and sending `hello` reaches the handler as `Ok("")` |
| Service.IntendedRoutesBodies | ftl/src/service.rs:192-194 | corrected, that GET gets `Ok("")` under any configuration, and that POST reaches the handler as `Ok("hello")` |
| Service.IntendedOkIff | ftl/src/service.rs:192-234 | corrected, bodiless methods always give `Ok("")`, and POST/PUT/PATCH give `Ok(s)` exactly when the length gates pass and `s` encodes to the bytes read |

## Left out

- `ftl/src/router.rs` (`with`, `call`, `run`) is not part of this model. A router
  here is just its application value and handler. Middleware is plain function
  application, and `run` is socket binding and serving.
- `ftl/src/schema.rs` is not part of this model. It holds the openapi schema tables
  for primitive and collection types. `String::schema()` appears only as the opaque
  `StringSchema`.
- `BaseError::schema` and `BaseError::error_schema` are `todo!()` in the source.
- The `thiserror` display messages of `BaseError` are not modelled. Neither is the
  derived serde encoding of `BaseError` and `InvalidParameter`.
- The text of the deserializer's custom error (`D::Error::custom`, which displays
  "invalid status code") is not modelled. `Deserialize` fails with the bare
  `InvalidStatusCode`.
- The wire form is the `DynErrorSerde` record, not JSON text. JSON syntax and
  serde's handling of missing fields are not modelled.
- Reason phrases are left out. `Error.CanonicalReason` is an uninterpreted constant
  that stands for the HTTP library's reason-phrase table.
- Error.StatusText: states only that the text starts with the three digits of the
  code and a space, because the reason phrase after them is uninterpreted.
- A type-erased cause is reduced to its display string. The display text of a
  transport failure is taken as given.
- These parts of `ftl/src/service.rs` are left out:
  - asynchrony, `Pin`/`Context` polling, `Arc`, and `Send`/`Sync`;
  - the hyper make-service impl (lines 116-139);
  - `Clone` (lines 237-255);
  - `Service::app` (lines 76-78).
- The read timeout's duration and the race against it are replaced by `ReadOutcome`.
  `TimedOut` is only possible when a timeout is configured (`Service.ReadPossible`).
  The `tokio-runtime` feature is taken as enabled. Without it the timeout is always
  absent.
- Header names are taken as already normalised to lower case by the HTTP parser.
  The lookup compares them exactly.
- The `Allow` header on 405 responses and HEAD body suppression are not modelled,
  because the service does neither.

## Findings

| source | as written | input that shows it | evidently intended | confidence | as-written member | corrected member |
|---|---|---|---|---|---|---|
| ftl/src/method.rs:72-74 | `request_has_body` is true for GET, DELETE, HEAD and OPTIONS. `parse_request` skips the body when it is false (ftl/src/service.rs:192-194). So only those four methods need `Content-Length` and have their bodies read. POST, PUT and PATCH always get an empty body. | A GET with no `Content-Length` is refused with 411. A POST with `Content-Length: 5` and body `hello` reaches the handler as `Ok("")`. | Only POST, PUT and PATCH are length-checked and read. Every other supported method gets `Ok("")` with no header needed. | high; not executed | Service.AsWrittenMisroutesBodies | Service.IntendedRoutesBodies |
