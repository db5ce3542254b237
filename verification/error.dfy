/**
 * The error taxonomy: the fixed-status `BaseError` variants, the type-erased
 * `DynError` envelope with its hand-written wire form, and the schema records the
 * error types contribute. Status codes follow section 15 of RFC 9110.
 */
module Error {
  import opened Wrappers
  import opened Method
  import Decimal

  type u16 = n: int | 0 <= n < 0x1_0000

  /** `http::StatusCode`: any three-digit code. */
  type StatusCode = c: int | 100 <= c <= 999 witness 100

  const BAD_REQUEST: StatusCode := 400
  const NOT_FOUND: StatusCode := 404
  const METHOD_NOT_ALLOWED: StatusCode := 405
  const REQUEST_TIMEOUT: StatusCode := 408
  const LENGTH_REQUIRED: StatusCode := 411
  const PAYLOAD_TOO_LARGE: StatusCode := 413
  const UNSUPPORTED_MEDIA_TYPE: StatusCode := 415
  const INTERNAL_SERVER_ERROR: StatusCode := 500

  /**
   * The HTTP library's reason phrase for a code (`StatusCode::canonical_reason`,
   * with its "<unknown status code>" fallback). The table itself is not part of this
   * model: it is left uninterpreted, and nothing below depends on its contents.
   */
  const CanonicalReason: StatusCode -> string

  /**
   * The error `StatusCode::from_u16` reports for a number outside 100..999. Like the
   * library's, it carries no payload: the rejected number is not reported.
   */
  datatype InvalidStatusCode = InvalidStatusCode

  /** `StatusCode::from_u16`: accepts exactly the three-digit numbers. */
  function StatusFromU16(n: u16): (r: Result<StatusCode, InvalidStatusCode>)
    ensures r.Ok? <==> 100 <= n <= 999
    ensures r.Ok? ==> r.value == n
  {
    if 100 <= n <= 999 then Ok(n) else Err(InvalidStatusCode)
  }

  /** `Display` for `StatusCode`: the three digits, a space, the reason phrase. */
  function StatusText(c: StatusCode): (t: string)
    ensures |t| >= 4 && t[3] == ' '
    ensures Decimal.ParseUsize(t[..3]) == Some(c)
  {
    var digits := Decimal.DecimalString(c);
    assert |digits| == 3 && Decimal.ParseUsize(digits) == Some(c) by { ThreeDigits(c); }
    assert (digits + " " + CanonicalReason(c))[..3] == digits;
    digits + " " + CanonicalReason(c)
  }

  lemma ThreeDigits(c: StatusCode)
    ensures |Decimal.DecimalString(c)| == 3
    ensures Decimal.ParseUsize(Decimal.DecimalString(c)) == Some(c)
  {
    var q := c / 10;
    assert 10 <= q && q / 10 < 10;
    assert Decimal.DecimalString(c) == Decimal.DecimalString(q) + [Decimal.DigitChar(c % 10)];
    assert Decimal.DecimalString(q) == Decimal.DecimalString(q / 10) + [Decimal.DigitChar(q % 10)];
    Decimal.ParseUsizeAccepts(false, 0, c);
    assert Decimal.Sign(false) + Decimal.Zeros(0) + Decimal.DecimalString(c) == Decimal.DecimalString(c);
  }

  /** One rejected request parameter: its name and, when present, its raw value. */
  datatype InvalidParam = InvalidParam(name: string, value: Option<string>)

  /** `BaseError`: the standard failures, and `Other` for a type-erased error. */
  datatype BaseError =
    | NotFound
    | MethodNotAllowed(allowed: seq<SupportedMethod>)
    | RequestTimeout
    | LengthRequired
    | PayloadTooLarge
    | UnsupportedMediaType
    | BodyNotUtf8
    | InvalidParameter(query: seq<InvalidParam>, header: seq<InvalidParam>)
    | Other(dyn: DynError)

  /** `DynError`: an explicit status and an optional type-erased cause. */
  datatype DynError = DynError(status: StatusCode, error: Option<BoxError>)

  /**
   * A type-erased cause (`Box<dyn Error>`). Only its display string is observable;
   * the variants record where a cause came from.
   */
  datatype BoxError =
    | Message(text: string)   // `From<String>`: a plain message
    | Io(text: string)        // a transport failure while reading a body
    | Dyn(inner: DynError)    // a nested `DynError`

  /** `Display` for a cause. */
  function CauseDisplay(e: BoxError): string
    decreases e
  {
    match e
    case Message(t) => t
    case Io(t) => t
    case Dyn(d) => DynDisplay(d)
  }

  /**
   * `Display` for `DynError`: the status text, then " - " and the cause only when a
   * cause is present.
   */
  function DynDisplay(d: DynError): (t: string)
    decreases d
    ensures StatusText(d.status) <= t
    ensures d.error.None? <==> t == StatusText(d.status)
    ensures d.error.Some? ==> var n := |StatusText(d.status)|; |t| >= n + 3 && t[n..n + 3] == " - "
    ensures d.error.Some? ==> t[|StatusText(d.status)| + 3..] == CauseDisplay(d.error.value)
  {
    match d.error
    case None => StatusText(d.status)
    case Some(e) =>
      var t := StatusText(d.status) + " - " + CauseDisplay(e);
      assert t[|StatusText(d.status)|..] == " - " + CauseDisplay(e);
      t
  }

  /** `Error::status` for `BaseError`. */
  function Status(e: BaseError): (s: StatusCode)
    ensures e.Other? ==> s == e.dyn.status
    ensures !e.Other? ==> 400 <= s < 500
  {
    match e
    case NotFound => NOT_FOUND
    case MethodNotAllowed(_) => METHOD_NOT_ALLOWED
    case RequestTimeout => REQUEST_TIMEOUT
    case LengthRequired => LENGTH_REQUIRED
    case PayloadTooLarge => PAYLOAD_TOO_LARGE
    case UnsupportedMediaType => UNSUPPORTED_MEDIA_TYPE
    case BodyNotUtf8 => BAD_REQUEST
    case InvalidParameter(_, _) => BAD_REQUEST
    case Other(d) => d.status
  }

  /** The fixed part of `Status`, variant by variant. */
  lemma StatusTable(ms: seq<SupportedMethod>, q: seq<InvalidParam>, h: seq<InvalidParam>, d: DynError)
    ensures Status(NotFound) == 404
    ensures Status(MethodNotAllowed(ms)) == 405
    ensures Status(RequestTimeout) == 408
    ensures Status(LengthRequired) == 411
    ensures Status(PayloadTooLarge) == 413
    ensures Status(UnsupportedMediaType) == 415
    ensures Status(BodyNotUtf8) == 400
    ensures Status(InvalidParameter(q, h)) == 400
    ensures Status(Other(d)) == d.status
  {
  }

  /** `Error::status` for `DynError` and for `String`. */
  function DynStatus(d: DynError): (s: StatusCode)
    ensures Status(Other(d)) == s
  {
    d.status
  }

  function StringStatus(s: string): (c: StatusCode)
    ensures c == INTERNAL_SERVER_ERROR
  {
    INTERNAL_SERVER_ERROR
  }

  /** `DynErrorSerde`, the wire record: a `u16` status and an optional message. */
  datatype DynErrorSerde = DynErrorSerde(status: u16, error: Option<string>)

  /** `Serialize` for `DynError`: the cause travels as its display string. */
  function Serialize(d: DynError): (w: DynErrorSerde)
    ensures w.status == d.status
    ensures w.error.Some? <==> d.error.Some?
    ensures w.error.Some? ==> w.error.value == CauseDisplay(d.error.value)
  {
    DynErrorSerde(d.status, d.error.Map(CauseDisplay))
  }

  /**
   * `Deserialize` for `DynError`: the status must be a valid `StatusCode`; a message
   * comes back as a plain `Message` cause.
   */
  function Deserialize(w: DynErrorSerde): (r: Result<DynError, InvalidStatusCode>)
    ensures r.Ok? <==> 100 <= w.status <= 999
    ensures r.Ok? ==> r.value.status == w.status
    ensures r.Ok? ==> (r.value.error.Some? <==> w.error.Some?)
    ensures r.Ok? && w.error.Some? ==> r.value.error.value == Message(w.error.value)
  {
    match StatusFromU16(w.status)
    case Err(e) => Err(e)
    case Ok(status) => Ok(DynError(status, w.error.Map(t => Message(t))))
  }

  /** What survives the round trip: the status, and the cause flattened to its text. */
  function Flatten(d: DynError): DynError
  {
    DynError(d.status, d.error.Map(e => Message(CauseDisplay(e))))
  }

  /**
   * Round trip through the wire form: decoding an encoded error always succeeds,
   * keeps the status and keeps the cause's display string, though not its type.
   */
  lemma SerializeRoundTrip(d: DynError)
    ensures Deserialize(Serialize(d)) == Ok(Flatten(d))
    ensures Deserialize(Serialize(d)).value.status == d.status
    ensures d.error.Some? ==>
      CauseDisplay(Deserialize(Serialize(d)).value.error.value) == CauseDisplay(d.error.value)
    ensures Serialize(Deserialize(Serialize(d)).value) == Serialize(d)
  {
  }

  /** Round trip from the wire side: an accepted record re-encodes to itself. */
  lemma DeserializeRoundTrip(w: DynErrorSerde)
    requires Deserialize(w).Ok?
    ensures Serialize(Deserialize(w).value) == w
  {
  }

  /** The nested cause of a `DynError` is flattened by the round trip, so its status text shows in the message. */
  lemma NestedCauseFlattens(outer: StatusCode, inner: DynError)
    ensures var d := DynError(outer, Some(Dyn(inner)));
            Deserialize(Serialize(d)) == Ok(DynError(outer, Some(Message(DynDisplay(inner)))))
    ensures StatusText(inner.status) <= DynDisplay(inner)
  {
  }

  /** The subset of an OpenAPI schema that the error types build. */
  datatype Schema =
    | StringSchema                                   // `String::schema()`
    | Nullable(inner: Schema)                        // `Option<T>::schema()`: `T`'s schema, nullable
    | Integer(title: string, minimum: int, maximum: int)
    | Object(title: string, description: string, example: DynErrorSerde,
             properties: seq<(string, Schema)>, required: seq<string>)

  /** `ErrorSchema`: either a default schema or schemas keyed by status code. */
  datatype ErrorSchema = ErrorSchema(defaultSchema: Option<Schema>, schemas: map<StatusCode, Schema>)

  /** Exactly one of the two forms drives the documentation. */
  predicate OneSource(es: ErrorSchema)
  {
    es.defaultSchema.Some? <==> |es.schemas| == 0
  }

  /** `DynError::schema()`: an object with a required status in 100..999 and an optional message. */
  function DynErrorSchema(): (s: Schema)
    ensures s.Object? && s.required == ["status"]
    ensures |s.properties| == 2 && s.properties[0].0 == "status" && s.properties[1].0 == "error"
    ensures s.properties[1].1 == Nullable(StringSchema)
  {
    Object("DynError", "Type erased error",
           DynErrorSerde(418, Some("Honestly, it's a teapot")),
           [("status", Integer("HTTP status code", 100, 999)),
            ("error", Nullable(StringSchema))],
           ["status"])
  }

  /** The bounds the schema publishes for `status` are exactly the ones `Deserialize` enforces. */
  lemma SchemaBoundsMatchDeserialize(w: DynErrorSerde)
    ensures var bound := DynErrorSchema().properties[0].1;
            bound.Integer? &&
            (Deserialize(w).Ok? <==> bound.minimum <= w.status <= bound.maximum)
  {
  }

  /** The schema's example (`{"status": 418, "error": "Honestly, it's a teapot"}`) parses. */
  lemma SchemaExampleParses()
    ensures Deserialize(DynErrorSchema().example).Ok?
    ensures Deserialize(DynErrorSchema().example).value.status == 418
  {
  }

  /** `Error::error_schema` for `String`: no default, one entry keyed 500. */
  function StringErrorSchema(): (es: ErrorSchema)
    ensures OneSource(es)
    ensures es.defaultSchema.None? && es.schemas.Keys == {INTERNAL_SERVER_ERROR}
    ensures es.schemas[INTERNAL_SERVER_ERROR] == StringSchema
  {
    ErrorSchema(None, map[INTERNAL_SERVER_ERROR := StringSchema])
  }

  /** `Error::error_schema` for `DynError`: the default schema and an empty map. */
  function DynErrorErrorSchema(): (es: ErrorSchema)
    ensures OneSource(es)
    ensures es.defaultSchema == Some(DynErrorSchema()) && es.schemas == map[]
  {
    ErrorSchema(Some(DynErrorSchema()), map[])
  }
}
