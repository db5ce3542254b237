/**
 * The request service: the ordered admission pipeline `parse_request` runs before the
 * handler sees a request, the service configuration and its builder, and `call`, which
 * threads the pipeline's outcome into the handler and wraps the response body.
 *
 * The asynchronous body read and its optional timeout are represented by a
 * `ReadOutcome` argument: what reading the body to the end would produce.
 */
module Service {
  import opened Wrappers
  import opened Utf8
  import opened Decimal
  import opened Method
  import opened Error
  import opened Output

  /** `Config`: optional bounds; an absent bound means that dimension is unbounded. */
  datatype Config = Config(maxRequestLength: Option<usize>, requestReadTimeout: Option<nat>)

  /** `Builder`: assembles a `Config`, one bound at a time. */
  datatype Builder = Builder(config: Config)

  /** `Builder::new()`: the default configuration, with no bounds. */
  function NewBuilder(): (b: Builder)
    ensures b.config.maxRequestLength.None? && b.config.requestReadTimeout.None?
  {
    Builder(Config(None, None))
  }

  /** `Builder::max_reqeust_length`: sets the length bound and nothing else. */
  function WithMaxRequestLength(b: Builder, length: usize): (r: Builder)
    ensures r.config.maxRequestLength == Some(length)
    ensures r.config.requestReadTimeout == b.config.requestReadTimeout
  {
    Builder(b.config.(maxRequestLength := Some(length)))
  }

  /** `Builder::request_read_timeout`: sets the read timeout and nothing else. */
  function WithRequestReadTimeout(b: Builder, timeout: nat): (r: Builder)
    ensures r.config.requestReadTimeout == Some(timeout)
    ensures r.config.maxRequestLength == b.config.maxRequestLength
  {
    Builder(b.config.(requestReadTimeout := Some(timeout)))
  }

  /** The request head the pipeline reads: the method token and the header map. */
  datatype Parts = Parts(token: string, uri: string, headers: HeaderMap)

  datatype Request<B> = Request(parts: Parts, body: B)

  datatype Response<B> = Response(status: StatusCode, headers: HeaderMap, body: B)

  /** A handler: the shared application value and a request whose body is the pipeline's outcome. */
  type Handler<!A> = (A, Request<Result<string, BaseError>>) -> Result<Response<string>, BoxError>

  datatype Router<!A> = Router(app: A, handler: Handler<A>)

  datatype Service<!A> = Service(router: Router<A>, config: Config)

  /** `Builder::build`. */
  function Build<A>(b: Builder, router: Router<A>): (s: Service<A>)
    ensures s.router == router && s.config == b.config
  {
    Service(router, b.config)
  }

  /** `Service::new`: a service with no bounds at all. */
  function NewService<A>(router: Router<A>): (s: Service<A>)
    ensures s.router == router
    ensures s.config.maxRequestLength.None? && s.config.requestReadTimeout.None?
  {
    Build(NewBuilder(), router)
  }

  const CONTENT_LENGTH: string := "content-length"

  /** `HeaderMap::get`: the value of the first entry with this name. */
  function HeaderGet(h: HeaderMap, name: string): (r: Option<seq<byte>>)
    ensures r.None? <==> forall i :: 0 <= i < |h| ==> h[i].0 != name
    ensures r.Some? ==> exists i :: 0 <= i < |h| && h[i] == (name, r.value)
                                 && forall j :: 0 <= j < i ==> h[j].0 != name
  {
    if |h| == 0 then None
    else if h[0].0 == name then Some(h[0].1)
    else
      var r := HeaderGet(h[1..], name);
      assert forall i :: 1 <= i < |h| ==> h[i] == h[1..][i - 1];
      r
  }

  /** The bytes `HeaderValue::to_str` accepts: visible ASCII and horizontal tab. */
  predicate IsVisibleAscii(b: byte)
  {
    (32 <= b < 127) || b == 9
  }

  /**
   * `HeaderValue::to_str`: the value as text when every byte is visible ASCII; the
   * text's UTF-8 encoding is then the value itself.
   */
  function HeaderToStr(v: seq<byte>): (r: Option<string>)
    ensures r.Some? <==> forall i :: 0 <= i < |v| ==> IsVisibleAscii(v[i])
    ensures r.Some? ==> |r.value| == |v| && forall i :: 0 <= i < |v| ==> r.value[i] as int == v[i]
    ensures r.Some? ==> Encode(r.value) == v
  {
    if forall i :: 0 <= i < |v| ==> IsVisibleAscii(v[i]) then
      var s := seq(|v|, i requires 0 <= i < |v| => v[i] as char);
      AsciiEncode(s, v);
      Some(s)
    else
      None
  }

  lemma {:induction false} AsciiEncode(s: string, v: seq<byte>)
    requires |s| == |v| && forall i :: 0 <= i < |v| ==> v[i] < 0x80 && s[i] as int == v[i]
    ensures Encode(s) == v
  {
    if |s| > 0 {
      AsciiEncode(s[1..], v[1..]);
      assert v == [v[0]] + v[1..];
    }
  }

  /**
   * Step 3: the declared body length. An absent `Content-Length`, one that is not
   * visible ASCII and one that does not parse as a `usize` are all `LengthRequired`.
   */
  function DeclaredLength(header: Option<seq<byte>>): (r: Result<usize, BaseError>)
    ensures r.Err? ==> r.error == LengthRequired
    ensures r.Ok? <==> header.Some? && HeaderToStr(header.value).Some?
                       && ParseUsize(HeaderToStr(header.value).value).Some?
    ensures r.Ok? ==> Some(r.value as nat) == ParseUsize(HeaderToStr(header.value).value)
  {
    match header
    case None => Err(LengthRequired)
    case Some(v) =>
      match HeaderToStr(v)
      case None => Err(LengthRequired)
      case Some(text) =>
        match ParseUsize(text)
        case None => Err(LengthRequired)
        case Some(n) => Ok(n)
  }

  /** What reading the body to its end produces. */
  datatype ReadOutcome =
    | TimedOut              // the configured read timeout elapsed first
    | IoError(cause: string)  // the transport failed; the cause's display string
    | Bytes(bytes: seq<byte>) // the complete body

  /** The timer can only win the race when a timeout is configured. */
  predicate ReadPossible(cfg: Config, read: ReadOutcome)
  {
    read.TimedOut? ==> cfg.requestReadTimeout.Some?
  }

  /** Step 4: a declared length above a configured maximum is refused. */
  predicate TooLarge(cfg: Config, declared: usize)
  {
    cfg.maxRequestLength.Some? && declared > cfg.maxRequestLength.value
  }

  /** The error a failed body read becomes: a type-erased 500 carrying the transport failure. */
  function ReadFailure(cause: string): (e: BaseError)
    ensures Status(e) == INTERNAL_SERVER_ERROR
    ensures e.Other? && e.dyn.error == Some(Io(cause))
  {
    Other(DynError(INTERNAL_SERVER_ERROR, Some(Io(cause))))
  }

  /** Steps 3 to 7 of `parse_request`, for a method whose body is read. */
  function ReadBody(header: Option<seq<byte>>, cfg: Config, read: ReadOutcome): (r: Result<string, BaseError>)
    requires ReadPossible(cfg, read)
    ensures DeclaredLength(header).Err? ==> r == Err(LengthRequired)
    ensures DeclaredLength(header).Ok? && TooLarge(cfg, DeclaredLength(header).value) ==> r == Err(PayloadTooLarge)
    ensures r.Ok? ==> read.Bytes? && Encode(r.value) == read.bytes
  {
    match DeclaredLength(header)
    case Err(e) => Err(e)
    case Ok(declared) =>
      if TooLarge(cfg, declared) then Err(PayloadTooLarge)
      else
        match read
        case TimedOut => Err(RequestTimeout)
        case IoError(cause) => Err(ReadFailure(cause))
        case Bytes(bs) =>
          match Decode(bs)
          case None => Err(BodyNotUtf8)
          case Some(s) => EncodeDecode(bs); Ok(s)
  }

  /**
   * `parse_request`: the method gate, then the body exemption (taken when
   * `RequestHasBody` is false, so for POST, PUT and PATCH), then the body read.
   */
  function ParseRequest(token: string, header: Option<seq<byte>>, cfg: Config, read: ReadOutcome): (r: Result<string, BaseError>)
    requires ReadPossible(cfg, read)
    ensures New(token).Err? ==> r == Err(MethodNotAllowed(AllMethods))
    ensures New(token).Ok? && !RequestHasBody(New(token).value) ==> r == Ok("")
    ensures r.Ok? ==> r.value == "" || (read.Bytes? && Encode(r.value) == read.bytes)
  {
    match New(token)
    case Err(_) => Err(MethodNotAllowed(AllMethods))
    case Ok(m) =>
      if !RequestHasBody(m) then Ok("")
      else ReadBody(header, cfg, read)
  }

  /** A request passes the gates before the read: a supported method, a body to read, a declared length within bounds. */
  predicate ReachesRead(token: string, header: Option<seq<byte>>, cfg: Config)
  {
    && New(token).Ok?
    && RequestHasBody(New(token).value)
    && DeclaredLength(header).Ok?
    && !TooLarge(cfg, DeclaredLength(header).value)
  }

  /**
   * Backpressure: whenever a gate before the read decides the request, the outcome
   * does not depend on the body at all — the body is never read.
   */
  lemma EarlyGatesIgnoreRead(token: string, header: Option<seq<byte>>, cfg: Config, r1: ReadOutcome, r2: ReadOutcome)
    requires ReadPossible(cfg, r1) && ReadPossible(cfg, r2)
    requires !ReachesRead(token, header, cfg)
    ensures ParseRequest(token, header, cfg, r1) == ParseRequest(token, header, cfg, r2)
  {
  }

  /** An unsupported method is refused with every supported method listed, whatever else the request holds. */
  lemma UnsupportedMethodRefused(token: string, header: Option<seq<byte>>, cfg: Config, read: ReadOutcome)
    requires ReadPossible(cfg, read)
    requires forall m :: Name(m) != token
    ensures ParseRequest(token, header, cfg, read) == Err(MethodNotAllowed(AllMethods))
    ensures Status(ParseRequest(token, header, cfg, read).error) == 405
    ensures Join(Names(ParseRequest(token, header, cfg, read).error.allowed), ", ") == ALLOW_HEADER
  {
    AllowHeaderIsJoinedNames();
  }

  /** A length above the configured maximum is refused; a length equal to it is admitted. */
  lemma LengthBound(token: string, header: Option<seq<byte>>, cfg: Config, read: ReadOutcome)
    requires ReadPossible(cfg, read)
    requires New(token).Ok? && RequestHasBody(New(token).value)
    requires DeclaredLength(header).Ok?
    ensures var declared := DeclaredLength(header).value;
            ParseRequest(token, header, cfg, read) == Err(PayloadTooLarge)
            <==> cfg.maxRequestLength.Some? && declared > cfg.maxRequestLength.value
  {
  }

  /** Past the gates, the read decides: timeout, transport failure, malformed or well-formed text. */
  lemma ReadOutcomes(token: string, header: Option<seq<byte>>, cfg: Config, read: ReadOutcome)
    requires ReadPossible(cfg, read)
    requires ReachesRead(token, header, cfg)
    ensures read.TimedOut? ==> ParseRequest(token, header, cfg, read) == Err(RequestTimeout)
    ensures read.IoError? ==> ParseRequest(token, header, cfg, read)
                              == Err(Other(DynError(500, Some(Io(read.cause)))))
    ensures read.Bytes? ==> (ParseRequest(token, header, cfg, read) == Err(BodyNotUtf8)
                             <==> Decode(read.bytes).None?)
  {
  }

  /**
   * The successful outcomes, stated through the encoder instead of the decoder:
   * `parse_request` yields `Ok(s)` exactly when the method is exempt and `s` is empty,
   * or the request passes every gate and `s` is the text whose UTF-8 encoding is the
   * body that was read — whatever length was declared.
   */
  lemma ParseRequestOkIff(token: string, header: Option<seq<byte>>, cfg: Config, read: ReadOutcome, s: string)
    requires ReadPossible(cfg, read)
    ensures ParseRequest(token, header, cfg, read) == Ok(s)
            <==> || (New(token).Ok? && !RequestHasBody(New(token).value) && s == "")
                 || (ReachesRead(token, header, cfg) && read.Bytes? && Encode(s) == read.bytes)
  {
    if read.Bytes? {
      DecodeIff(read.bytes, s);
    }
  }

  /** Every failure the pipeline produces carries one of six statuses. */
  lemma ParseErrorStatuses(token: string, header: Option<seq<byte>>, cfg: Config, read: ReadOutcome)
    requires ReadPossible(cfg, read)
    requires ParseRequest(token, header, cfg, read).Err?
    ensures Status(ParseRequest(token, header, cfg, read).error) in {400, 405, 408, 411, 413, 500}
    ensures Status(ParseRequest(token, header, cfg, read).error) == 500 <==> read.IoError? && ReachesRead(token, header, cfg)
  {
  }

  /** The handler's view of a request: the original head, and the pipeline's outcome in the body slot. */
  function HandlerRequest(req: Request<ReadOutcome>, body: Result<string, BaseError>): (seen: Request<Result<string, BaseError>>)
    ensures seen.parts == req.parts && seen.body == body
  {
    Request(req.parts, body)
  }

  /** The response the service hands to the transport: same status and headers, body in an `OutBuffer`. */
  function WrapBody(resp: Response<string>): (out: Response<OutBuffer>)
    ensures out.status == resp.status && out.headers == resp.headers
    ensures out.body == From(resp.body)
  {
    Response(resp.status, resp.headers, From(resp.body))
  }

  /**
   * The part of `Service::call` after the pipeline: the handler runs on the request
   * with `body` in its body slot; its error propagates, its response body is wrapped.
   */
  function Dispatch<A>(svc: Service<A>, req: Request<ReadOutcome>, body: Result<string, BaseError>): (r: Result<Response<OutBuffer>, BoxError>)
    ensures var out := svc.router.handler(svc.router.app, Request(req.parts, body));
            && (r.Err? <==> out.Err?)
            && (r.Err? ==> r.error == out.error)
            && (r.Ok? ==> r.value == WrapBody(out.value))
  {
    match svc.router.handler(svc.router.app, HandlerRequest(req, body))
    case Err(e) => Err(e)
    case Ok(resp) => Ok(WrapBody(resp))
  }

  /** `Service::call`: runs `parse_request` on the request, then dispatches to the handler. */
  function Call<A>(svc: Service<A>, req: Request<ReadOutcome>): (r: Result<Response<OutBuffer>, BoxError>)
    requires ReadPossible(svc.config, req.body)
    ensures var seen := Request(req.parts, ParseRequest(req.parts.token, HeaderGet(req.parts.headers, CONTENT_LENGTH), svc.config, req.body));
            var out := svc.router.handler(svc.router.app, seen);
            && (r.Err? <==> out.Err?)
            && (r.Err? ==> r.error == out.error)
            && (r.Ok? ==> r.value == WrapBody(out.value))
  {
    Dispatch(svc, req, ParseRequest(req.parts.token, HeaderGet(req.parts.headers, CONTENT_LENGTH), svc.config, req.body))
  }

  /** A handler that answers with the body text, or with an error's status and no text. */
  function Echo<A>(app: A, req: Request<Result<string, BaseError>>): Result<Response<string>, BoxError>
  {
    match req.body
    case Ok(text) => Ok(Response(200, [], text))
    case Err(e) => Ok(Response(Status(e), [], ""))
  }

  /**
   * End to end: for a request that passes every gate with a well-formed body, the
   * echoing service streams back exactly the bytes it read, once.
   */
  lemma EchoReturnsBodyBytes<A>(app: A, cfg: Config, parts: Parts, bs: seq<byte>)
    requires ReachesRead(parts.token, HeaderGet(parts.headers, CONTENT_LENGTH), cfg)
    requires Decode(bs).Some?
    ensures var r := Call(Service(Router(app, Echo), cfg), Request(parts, Bytes(bs)));
            r.Ok? && r.value.status == 200 && Drain(r.value.body, 2) == [Some(bs), None]
  {
    var r := Call(Service(Router(app, Echo), cfg), Request(parts, Bytes(bs)));
    var s := Decode(bs).value;
    EncodeDecode(bs);
    assert r.value.body == From(s);
    DrainFrom(s, 1);
  }

  /** End to end: the echoing service answers an unsupported method with 405 and an empty body. */
  lemma EchoRefusesUnsupported<A>(app: A, cfg: Config, parts: Parts, read: ReadOutcome)
    requires ReadPossible(cfg, read)
    requires New(parts.token).Err?
    ensures var r := Call(Service(Router(app, Echo), cfg), Request(parts, read));
            r.Ok? && r.value.status == 405 && r.value.body == From("")
  {
  }

  /*
   * The body exemption as evidently intended. `request_has_body` is true for GET,
   * DELETE, HEAD and OPTIONS and `parse_request` skips the body when it is false, so
   * as written a GET without `Content-Length` is refused with 411 and a POST body is
   * never read. The members below model the pipeline with the exemption the right way
   * round; `Call` above keeps the behaviour as written.
   */

  /** The methods whose requests carry a body to read: POST, PUT and PATCH. */
  predicate RequestExpectsBody(m: SupportedMethod)
  {
    m == Post || m == Put || m == Patch
  }

  /** The predicate as written is exactly the negation of the intended one. */
  lemma ExemptionInverted(m: SupportedMethod)
    ensures RequestHasBody(m) <==> !RequestExpectsBody(m)
  {
  }

  /** `parse_request` with the intended exemption. */
  function ParseRequestIntended(token: string, header: Option<seq<byte>>, cfg: Config, read: ReadOutcome): (r: Result<string, BaseError>)
    requires ReadPossible(cfg, read)
    ensures New(token).Err? ==> r == Err(MethodNotAllowed(AllMethods))
    ensures New(token).Ok? && !RequestExpectsBody(New(token).value) ==> r == Ok("")
    ensures r.Ok? ==> r.value == "" || (read.Bytes? && Encode(r.value) == read.bytes)
  {
    match New(token)
    case Err(_) => Err(MethodNotAllowed(AllMethods))
    case Ok(m) =>
      if !RequestExpectsBody(m) then Ok("")
      else ReadBody(header, cfg, read)
  }

  /** `Service::call` with the intended exemption. */
  function CallIntended<A>(svc: Service<A>, req: Request<ReadOutcome>): (r: Result<Response<OutBuffer>, BoxError>)
    requires ReadPossible(svc.config, req.body)
    ensures var seen := Request(req.parts, ParseRequestIntended(req.parts.token, HeaderGet(req.parts.headers, CONTENT_LENGTH), svc.config, req.body));
            var out := svc.router.handler(svc.router.app, seen);
            && (r.Err? <==> out.Err?)
            && (r.Err? ==> r.error == out.error)
            && (r.Ok? ==> r.value == WrapBody(out.value))
  {
    Dispatch(svc, req, ParseRequestIntended(req.parts.token, HeaderGet(req.parts.headers, CONTENT_LENGTH), svc.config, req.body))
  }

  /** The two pipelines differ exactly by swapping which supported methods are read. */
  lemma IntendedSwapsExemption(m: SupportedMethod, header: Option<seq<byte>>, cfg: Config, read: ReadOutcome)
    requires ReadPossible(cfg, read)
    ensures ParseRequest(Name(m), header, cfg, read)
            == (if RequestHasBody(m) then ReadBody(header, cfg, read) else Ok(""))
    ensures ParseRequestIntended(Name(m), header, cfg, read)
            == (if RequestHasBody(m) then Ok("") else ReadBody(header, cfg, read))
  {
    NameRoundTrip(m);
  }

  /** The bytes of the header value `5`. */
  const FIVE: seq<byte> := [53]

  /** The bytes of the text `hello`. */
  const HELLO: seq<byte> := [104, 101, 108, 108, 111]

  lemma FiveAndHello()
    ensures DeclaredLength(Some(FIVE)) == Ok(5)
    ensures Decode(HELLO) == Some("hello")
  {
    var t := HeaderToStr(FIVE).value;
    assert t[0] == '5';
    assert t == "5";
    assert "5"[..0] == "";
    assert DigitsValue("5") == 5;
    AsciiEncode("hello", HELLO);
    DecodeEncode("hello");
  }

  /**
   * As written: a GET without `Content-Length` is refused with 411, and a POST
   * declaring and sending `hello` reaches the handler with an empty body.
   */
  lemma AsWrittenMisroutesBodies(cfg: Config, read: ReadOutcome)
    requires ReadPossible(cfg, read)
    ensures ParseRequest("GET", None, cfg, read) == Err(LengthRequired)
    ensures ParseRequest("POST", Some(FIVE), Config(None, None), Bytes(HELLO)) == Ok("")
    ensures Decode(HELLO) == Some("hello")
  {
    FiveAndHello();
  }

  /**
   * As intended: a GET needs no `Content-Length` and gets an empty body whatever the
   * configuration, and a POST declaring and sending `hello` reaches the handler as
   * `Ok("hello")`.
   */
  lemma IntendedRoutesBodies(cfg: Config, read: ReadOutcome)
    requires ReadPossible(cfg, read)
    ensures ParseRequestIntended("GET", None, cfg, read) == Ok("")
    ensures ParseRequestIntended("POST", Some(FIVE), Config(None, None), Bytes(HELLO)) == Ok("hello")
  {
    FiveAndHello();
  }

  /**
   * As intended, for every method that carries a body: the request yields `Ok(s)`
   * exactly when it passes the length gates and `s` is the text whose encoding is the
   * body read; a method without a body always yields `Ok("")`.
   */
  lemma IntendedOkIff(m: SupportedMethod, header: Option<seq<byte>>, cfg: Config, read: ReadOutcome, s: string)
    requires ReadPossible(cfg, read)
    ensures !RequestExpectsBody(m) ==> ParseRequestIntended(Name(m), header, cfg, read) == Ok("")
    ensures RequestExpectsBody(m) ==>
      (ParseRequestIntended(Name(m), header, cfg, read) == Ok(s)
       <==> && DeclaredLength(header).Ok?
            && !TooLarge(cfg, DeclaredLength(header).value)
            && read.Bytes? && Encode(s) == read.bytes)
  {
    NameRoundTrip(m);
    if read.Bytes? {
      DecodeIff(read.bytes, s);
    }
  }
}
