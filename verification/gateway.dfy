/**
 * The seam between the gateway and the backend: how a request object the
 * controller builds becomes the backend's request message, and how a status
 * the servicer sets comes back to the gateway as an error object and then
 * as an HTTP reply.
 */
module Gateway {
  import opened Wrappers
  import opened GrpcStatus
  import opened JsValues
  import opened ErrorHandler
  import opened LibraryController
  import opened LibraryProto
  import opened Service
  import opened LibraryServer

  // ------------------------------------------------------ request encoding

  /**
   * A string field of a request message set from a JavaScript value: unset
   * (undefined or null) leaves the proto3 default "", anything else is
   * converted with `String(v)`.
   */
  function ProtoString(v: JsValue): (s: string)
    ensures v.Undefined? || v.Null? ==> s == ""
    ensures v.Str? ==> s == v.s
  {
    if v.Undefined? || v.Null? then "" else JsString(v)
  }

  /** A request field by name: a key the controller did not set reads as undefined. */
  function Field(request: map<string, JsValue>, key: string): JsValue
  {
    if key in request then request[key] else Undefined
  }

  /** The CreateBook message a controller request object encodes to. */
  function ToCreateBookRequest(request: map<string, JsValue>): (m: CreateBookRequest)
    ensures m.title == ProtoString(Field(request, "title")) && m.author == ProtoString(Field(request, "author"))
    ensures m.publishedDate == ProtoString(Field(request, "published_date"))
    ensures m.isbn == ProtoString(Field(request, "isbn"))
  {
    CreateBookRequest(ProtoString(Field(request, "title")), ProtoString(Field(request, "author")),
                      ProtoString(Field(request, "published_date")), ProtoString(Field(request, "isbn")))
  }

  /**
   * For every value but an array, the gateway's truthiness guard passes
   * only values that reach the backend as non-empty text.
   */
  lemma {:induction false} TruthyEncodesNonEmpty(v: JsValue)
    requires !v.Arr?
    ensures Truthy(v) ==> ProtoString(v) != ""
  {
    if v.Num? && v.n > 0 {
      assert DigitsValue(Decimal(v.n)) != DigitsValue("");
    }
  }

  /**
   * The guard and the backend's emptiness check agree on text, but not on
   * everything: 0 and false are stopped at the gateway though they would
   * arrive as "0" and "false", and an empty array passes the guard yet
   * arrives as "".
   */
  lemma GuardAndEncodingDiffer(s: string)
    ensures Truthy(Str(s)) <==> ProtoString(Str(s)) != ""
    ensures !Truthy(Num(0)) && ProtoString(Num(0)) == "0"
    ensures !Truthy(Bool(false)) && ProtoString(Bool(false)) == "false"
    ensures Truthy(Arr([])) && ProtoString(Arr([])) == ""
  {
    assert Decimal(0) == [Dates.DigitChar(0)];
  }

  /**
   * A createBook request the controller forwards carries a non-empty
   * publication date to the backend whenever the body's date is text or any
   * other non-array value.
   */
  lemma CreateBookDateArrives(req: Request)
    requires Prepare(createBook, req).Call?
    requires !Get(req.body, "published_date").Arr?
    ensures ToCreateBookRequest(Prepare(createBook, req).request).publishedDate != ""
    ensures ToCreateBookRequest(Prepare(createBook, req).request).publishedDate ==
            ProtoString(Get(req.body, "published_date"))
  {
    TruthyEncodesNonEmpty(Get(req.body, "published_date"));
  }

  // ---------------------------------------------------- status to HTTP reply

  /**
   * The error object the gRPC client passes to the callback for a non-OK
   * status: the numeric code, the details, and a message
   * "<number> <NAME>: <details>".
   */
  function ClientError(s: RpcStatus): (e: GatewayError)
    requires s.code != OK
    ensures Truthy(e.code) && e.details == Str(s.details) && !Truthy(e.isJoi)
  {
    GatewayError(Num(s.code.Value()), Str(s.details), Undefined,
                 Str(Decimal(s.code.Value()) + " " + s.code.Name() + ": " + s.details))
  }

  /** The HTTP reply a non-OK status ends as. */
  function HttpReply(s: RpcStatus): (r: ErrorReply)
    requires s.code != OK
    ensures r.status == HttpStatusFor(s.code)
    ensures r.message == Str(if s.details != "" then s.details else DefaultText(s.code))
  {
    GrpcStatusMapped(s.code, Str(s.details), Undefined, ClientError(s).message);
    HandleError(ClientError(s)).value
  }

  /** The service raises no RpcError whose code is OK. */
  predicate Raisable(e: ServiceError)
  {
    e.RpcError? ==> e.code != OK
  }

  /**
   * Every error the service raises reaches the browser with the status its
   * kind stands for: a validation error is 400 with its text, an RpcError
   * keeps the HTTP counterpart of its code and its details, and an
   * integrity violation is a generic 500.
   */
  lemma {:induction false} ServiceErrorReply(e: ServiceError)
    requires Raisable(e)
    ensures HandleError(ClientError(StatusFor(e))) == Some(HttpReply(StatusFor(e)))
    ensures e.ValueError? && e.message != "" ==> HttpReply(StatusFor(e)) == ErrorReply(400, Str(e.message))
    ensures e.RpcError? && e.code == NOT_FOUND && e.details != "" ==>
      HttpReply(StatusFor(e)) == ErrorReply(404, Str(e.details))
    ensures e.RpcError? && e.code == ALREADY_EXISTS && e.details != "" ==>
      HttpReply(StatusFor(e)) == ErrorReply(409, Str(e.details))
    ensures e.RpcError? && e.code == FAILED_PRECONDITION && e.details != "" ==>
      HttpReply(StatusFor(e)) == ErrorReply(412, Str(e.details))
    ensures e.IntegrityFailure? ==> HttpReply(StatusFor(e)) == ErrorReply(500, Str(Unexpected))
  {
    var s := StatusFor(e);
    GrpcStatusMapped(s.code, Str(s.details), Undefined, ClientError(s).message);
  }

  /**
   * As the servicer is written, a not-found, duplicate or unavailable
   * condition raised as an RpcError reaches the browser as a 500 carrying
   * the AttributeError text, where the intended policy gives 404, 409 or 412.
   */
  lemma {:induction false} RpcErrorBecomes500AsWritten(code: StatusCode, details: string)
    requires code in {NOT_FOUND, ALREADY_EXISTS, FAILED_PRECONDITION} && details != ""
    ensures HttpReply(StatusForAsWritten(RpcError(code, details))) ==
            ErrorReply(500, Str(StatusForAsWritten(RpcError(code, details)).details))
    ensures HttpReply(StatusFor(RpcError(code, details))).status in {404, 409, 412}
  {
    ServiceErrorReply(RpcError(code, details));
  }
}
