/**
 * The gateway's error middleware: every error a handler forwards becomes an
 * HTTP status and a JSON body `{error: message}`.
 *
 * A truthy `code` is looked up as a gRPC status number; otherwise a truthy
 * `isJoi` means a validation error whose item messages are joined; otherwise
 * a truthy `message` is reported as is; otherwise a generic text. Only the
 * first branch looks at the code, so code 0 (OK), being falsy, falls through.
 */
module ErrorHandler {
  import opened Wrappers
  import opened JsValues
  import opened GrpcStatus

  /** The properties of the forwarded error that the middleware reads. */
  datatype GatewayError = GatewayError(code: JsValue, details: JsValue, isJoi: JsValue, message: JsValue)

  /** `res.status(status).json({error: message})`. */
  datatype ErrorReply = ErrorReply(status: int, message: JsValue)

  /** The JSON body of a reply. */
  function ReplyBody(r: ErrorReply): JsValue
  {
    Obj(map["error" := r.message])
  }

  const InternalServerError := "Internal Server Error"

  /** The text of the switch's default case. */
  const UnknownGrpcError := "An unknown gRPC error occurred"

  /** The `switch (err.code)`: a status and a default text per gRPC number. */
  function CodeCase(code: JsValue): (int, string)
  {
    if code == Num(INVALID_ARGUMENT.Value()) then (400, "Invalid argument")
    else if code == Num(NOT_FOUND.Value()) then (404, "Resource not found")
    else if code == Num(ALREADY_EXISTS.Value()) then (409, "Resource already exists")
    else if code == Num(FAILED_PRECONDITION.Value()) then (412, "Failed precondition")
    else if code == Num(UNAUTHENTICATED.Value()) then (401, "Unauthenticated")
    else if code == Num(PERMISSION_DENIED.Value()) then (403, "Permission denied")
    else (500, UnknownGrpcError)
  }

  /**
   * `details.map(d => d.message)`, as the texts `join` uses; None where the
   * expression throws (details not an array, or an item null or undefined).
   */
  function JoiTexts(items: seq<JsValue>): (r: Option<seq<string>>)
    ensures r.Some? <==> forall i :: 0 <= i < |items| ==> !items[i].Undefined? && !items[i].Null?
    ensures r.Some? ==> |r.value| == |items| &&
                        forall i :: 0 <= i < |items| ==> r.value[i] == JoinText(Get(items[i], "message"))
  {
    if items == [] then Some([])
    else if items[0].Undefined? || items[0].Null? then None
    else
      match JoiTexts(items[1..])
      case None => None
      case Some(rest) => Some([JoinText(Get(items[0], "message"))] + rest)
  }

  /** `details.map(d => d.message).join(', ')`, or None where that throws. */
  function JoiMessage(details: JsValue): Option<string>
  {
    if !details.Arr? then None
    else
      match JoiTexts(details.items)
      case None => None
      case Some(texts) => Some(Join(texts, ", "))
  }

  /**
   * The middleware. None: the Joi branch itself throws, and the request is
   * left to the framework's own final handler.
   */
  function HandleError(err: GatewayError): (r: Option<ErrorReply>)
    ensures r.None? <==> !Truthy(err.code) && Truthy(err.isJoi) && JoiMessage(err.details).None?
    ensures r.Some? ==> r.value.status in {400, 401, 403, 404, 409, 412, 500}
    ensures Truthy(err.code) ==> r.Some? && (Truthy(err.details) ==> r.value.message == err.details)
    ensures Truthy(err.code) && (forall c: StatusCode :: err.code != Num(c.Value())) ==>
      r.value.status == 500 && (!Truthy(err.details) ==> r.value.message == Str(UnknownGrpcError))
    ensures !Truthy(err.code) && Truthy(err.isJoi) && r.Some? ==>
      r.value == ErrorReply(400, Str(JoiMessage(err.details).value))
    ensures !Truthy(err.code) && !Truthy(err.isJoi) ==>
      r == Some(ErrorReply(500, if Truthy(err.message) then err.message else Str(InternalServerError)))
  {
    if Truthy(err.code) then
      var (status, text) := CodeCase(err.code);
      Some(ErrorReply(status, if Truthy(err.details) then err.details else Str(text)))
    else if Truthy(err.isJoi) then
      match JoiMessage(err.details)
      case None => None
      case Some(m) => Some(ErrorReply(400, Str(m)))
    else if Truthy(err.message) then
      Some(ErrorReply(500, err.message))
    else
      Some(ErrorReply(500, Str(InternalServerError)))
  }

  // ------------------------------------------------------ reference mapping

  /**
   * The HTTP status each gRPC status stands for (RFC 9110 section 15):
   * 400 Bad Request, 404 Not Found, 409 Conflict, 412 Precondition Failed,
   * 401 Unauthorized, 403 Forbidden, and 500 Internal Server Error for the rest.
   */
  function HttpStatusFor(c: StatusCode): int
  {
    match c
    case INVALID_ARGUMENT => 400
    case NOT_FOUND => 404
    case ALREADY_EXISTS => 409
    case FAILED_PRECONDITION => 412
    case UNAUTHENTICATED => 401
    case PERMISSION_DENIED => 403
    case _ => 500
  }

  /** The text used when the error carries no details. */
  function DefaultText(c: StatusCode): string
  {
    match c
    case INVALID_ARGUMENT => "Invalid argument"
    case NOT_FOUND => "Resource not found"
    case ALREADY_EXISTS => "Resource already exists"
    case FAILED_PRECONDITION => "Failed precondition"
    case UNAUTHENTICATED => "Unauthenticated"
    case PERMISSION_DENIED => "Permission denied"
    case _ => UnknownGrpcError
  }

  /**
   * Any error carrying a non-OK gRPC status number is answered with that
   * status's HTTP counterpart, with the details when there are any and the
   * status's default text otherwise, whatever the other properties hold.
   */
  lemma {:induction false} GrpcStatusMapped(c: StatusCode, details: JsValue, isJoi: JsValue, message: JsValue)
    requires c != OK
    ensures HandleError(GatewayError(Num(c.Value()), details, isJoi, message)) ==
            Some(ErrorReply(HttpStatusFor(c), if Truthy(details) then details else Str(DefaultText(c))))
  {
    var code := Num(c.Value());
    assert Truthy(code);
    ValueInjective(c, INVALID_ARGUMENT);
    ValueInjective(c, NOT_FOUND);
    ValueInjective(c, ALREADY_EXISTS);
    ValueInjective(c, FAILED_PRECONDITION);
    ValueInjective(c, UNAUTHENTICATED);
    ValueInjective(c, PERMISSION_DENIED);
  }

  /**
   * Truthy codes that are no gRPC status number, such as a number above 16,
   * a system error name or `true`, take the switch's default case: 500.
   */
  lemma UnknownCodesAre500(n: int, name: string, details: JsValue, isJoi: JsValue, message: JsValue)
    requires n > 16 && name != ""
    ensures HandleError(GatewayError(Num(n), details, isJoi, message)).value.status == 500
    ensures HandleError(GatewayError(Str(name), details, isJoi, message)).value.status == 500
    ensures HandleError(GatewayError(Bool(true), details, isJoi, message)).value.status == 500
  {
  }

  /** A truthy code decides alone: `isJoi` and `message` are then ignored. */
  lemma CodeHasPriority(err: GatewayError, isJoi: JsValue, message: JsValue)
    requires Truthy(err.code)
    ensures HandleError(err) == HandleError(err.(isJoi := isJoi, message := message))
  {
  }

  /** Code 0 (gRPC OK) is falsy: the error is handled as if it had no code. */
  lemma CodeZeroFallsThrough(err: GatewayError)
    requires err.code == Num(0)
    ensures HandleError(err) == HandleError(err.(code := Undefined))
  {
  }

  /** The Joi item of one message text. */
  function JoiItem(m: string): JsValue
  {
    Obj(map["message" := Str(m)])
  }

  /** Joi items are reported as their messages joined by ", ", in order. */
  lemma {:induction false} JoiMessagesJoined(msgs: seq<string>)
    ensures JoiMessage(Arr(seq(|msgs|, i requires 0 <= i < |msgs| => JoiItem(msgs[i])))) == Some(Join(msgs, ", "))
  {
    var items := seq(|msgs|, i requires 0 <= i < |msgs| => JoiItem(msgs[i]));
    var texts := JoiTexts(items);
    assert texts.Some?;
    forall i | 0 <= i < |msgs| ensures texts.value[i] == msgs[i] {
      assert Get(items[i], "message") == Str(msgs[i]);
      assert JoinText(Str(msgs[i])) == msgs[i];
    }
    assert texts.value == msgs;
  }
}
