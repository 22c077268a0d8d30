/**
 * The gateway's route handlers. Each handler reads its request, either
 * answers at once (the `published_date` guard) or calls one RPC with a
 * request object built from fixed fields, and then either forwards the RPC's
 * error to the error middleware or answers with a success status and a
 * projection of the RPC's response.
 */
module LibraryController {
  import opened Wrappers
  import opened JsValues
  import opened ErrorHandler

  datatype Handler =
    | createBook | updateBook | deleteBook | getBook | listBooks
    | createMember | updateMember | deleteMember | getMember | listMembers
    | borrowBook | listBorrowings | returnBorrowing

  /** The RPCs of the `library` service. */
  datatype Rpc =
    | CreateBook | UpdateBook | DeleteBook | GetBook | ListBooks
    | CreateMember | UpdateMember | DeleteMember | GetMember | ListMembers
    | BorrowBook | ListBorrowings | ReturnBook

  /** The route parameters and the parsed JSON body. */
  datatype Request = Request(params: map<string, string>, body: JsValue)

  datatype Body = NoBody | Json(value: JsValue)

  datatype Response = Response(status: int, body: Body)

  /** What a handler does before the RPC answers. */
  datatype Step =
    | Reply(response: Response)
    | Call(rpc: Rpc, request: map<string, JsValue>)

  /** What the RPC hands to the handler's callback. */
  datatype RpcResult = Ok(response: JsValue) | Err(error: GatewayError)

  /** What the callback does: answer, or `next(error)`. */
  datatype Completion = Send(response: Response) | Forward(error: GatewayError)

  const MissingDateMessage := "published_date is a required field."

  /** `req.params[name]`. */
  function Param(req: Request, name: string): JsValue
  {
    if name in req.params then Str(req.params[name]) else Undefined
  }

  // ------------------------------------------------------- reference tables

  /** The RPC each handler calls. */
  function RpcOf(h: Handler): Rpc
  {
    match h
    case createBook => CreateBook
    case updateBook => UpdateBook
    case deleteBook => DeleteBook
    case getBook => GetBook
    case listBooks => ListBooks
    case createMember => CreateMember
    case updateMember => UpdateMember
    case deleteMember => DeleteMember
    case getMember => GetMember
    case listMembers => ListMembers
    case borrowBook => BorrowBook
    case listBorrowings => ListBorrowings
    case returnBorrowing => ReturnBook
  }

  /** Creations answer 201, deletions 204, everything else 200. */
  function SuccessStatus(h: Handler): int
  {
    if h == createBook || h == createMember then 201
    else if h == deleteBook || h == deleteMember then 204
    else 200
  }

  /** The response field sent back; None: the whole response. Deletions send no body. */
  function ResponseField(h: Handler): Option<string>
  {
    if h in {createBook, updateBook} then Some("book")
    else if h == listBooks then Some("books")
    else if h in {createMember, updateMember} then Some("member")
    else if h == listMembers then Some("members")
    else if h in {borrowBook, returnBorrowing} then Some("borrow_record")
    else if h == listBorrowings then Some("borrowings")
    else None
  }

  // --------------------------------------------------------------- handlers

  /** From the request to a direct reply or an RPC call. */
  function Prepare(h: Handler, req: Request): (s: Step)
    ensures h in {createBook, updateBook} ==>
      (s.Reply? <==> !Truthy(Get(req.body, "published_date")))
    ensures s.Reply? ==>
      h in {createBook, updateBook} &&
      s.response == Response(400, Json(ReplyBody(ErrorReply(400, Str(MissingDateMessage)))))
    ensures s.Call? ==> s.rpc == RpcOf(h)
    ensures s.Call? && h == createBook ==>
      s.request.Keys == {"title", "author", "isbn", "published_date"} &&
      forall k :: k in s.request ==> s.request[k] == Get(req.body, k)
    ensures s.Call? && h == updateBook ==>
      s.request.Keys == {"id", "title", "author", "isbn", "published_date"} &&
      forall k :: k in s.request ==> s.request[k] == Get(req.body, k)
    ensures h in {deleteBook, getBook, deleteMember, getMember} ==>
      s == Call(RpcOf(h), map["id" := Param(req, "id")])
    ensures h == createMember ==>
      s == Call(CreateMember, map["name" := Get(req.body, "name"), "email" := Get(req.body, "email")])
    ensures h == borrowBook ==>
      s == Call(BorrowBook, map["book_id" := Get(req.body, "book_id"), "member_id" := Get(req.body, "member_id")])
    ensures h in {listBooks, listMembers, listBorrowings} ==> s == Call(RpcOf(h), map[])
    ensures h == updateMember ==>
      s == Call(UpdateMember, map["id" := Param(req, "id"),
                                  "name" := Get(req.body, "name"), "email" := Get(req.body, "email")])
    ensures h == returnBorrowing ==> s == Call(ReturnBook, map["borrow_record_id" := Param(req, "id")])
  {
    var body := req.body;
    match h
    case createBook =>
      var date := Get(body, "published_date");
      if !Truthy(date) then Reply(Response(400, Json(Obj(map["error" := Str(MissingDateMessage)]))))
      else Call(CreateBook, map["title" := Get(body, "title"), "author" := Get(body, "author"),
                                "isbn" := Get(body, "isbn"), "published_date" := date])
    case updateBook =>
      var date := Get(body, "published_date");
      if !Truthy(date) then Reply(Response(400, Json(Obj(map["error" := Str(MissingDateMessage)]))))
      else Call(UpdateBook, map["id" := Get(body, "id"), "title" := Get(body, "title"),
                                "author" := Get(body, "author"), "isbn" := Get(body, "isbn"),
                                "published_date" := date])
    case deleteBook => Call(DeleteBook, map["id" := Param(req, "id")])
    case getBook => Call(GetBook, map["id" := Param(req, "id")])
    case listBooks => Call(ListBooks, map[])
    case createMember => Call(CreateMember, map["name" := Get(body, "name"), "email" := Get(body, "email")])
    case updateMember =>
      Call(UpdateMember, map["id" := Param(req, "id"), "name" := Get(body, "name"), "email" := Get(body, "email")])
    case deleteMember => Call(DeleteMember, map["id" := Param(req, "id")])
    case getMember => Call(GetMember, map["id" := Param(req, "id")])
    case listMembers => Call(ListMembers, map[])
    case borrowBook =>
      Call(BorrowBook, map["book_id" := Get(body, "book_id"), "member_id" := Get(body, "member_id")])
    case listBorrowings => Call(ListBorrowings, map[])
    case returnBorrowing => Call(ReturnBook, map["borrow_record_id" := Param(req, "id")])
  }

  /** The RPC callback: forward an error unchanged, or answer with the projected response. */
  function Complete(h: Handler, result: RpcResult): (c: Completion)
    ensures result.Err? ==> c == Forward(result.error)
    ensures result.Ok? ==> c.Send? && c.response.status == SuccessStatus(h)
    ensures result.Ok? && h in {deleteBook, deleteMember} ==> c.response.body == NoBody
    ensures result.Ok? && ResponseField(h).Some? ==>
      c.response.body == Json(Get(result.response, ResponseField(h).value))
    ensures result.Ok? && h in {getBook, getMember} ==> c.response.body == Json(result.response)
  {
    match result
    case Err(e) => Forward(e)
    case Ok(resp) =>
      match h
      case createBook => Send(Response(201, Json(Get(resp, "book"))))
      case updateBook => Send(Response(200, Json(Get(resp, "book"))))
      case deleteBook => Send(Response(204, NoBody))
      case getBook => Send(Response(200, Json(resp)))
      case listBooks => Send(Response(200, Json(Get(resp, "books"))))
      case createMember => Send(Response(201, Json(Get(resp, "member"))))
      case updateMember => Send(Response(200, Json(Get(resp, "member"))))
      case deleteMember => Send(Response(204, NoBody))
      case getMember => Send(Response(200, Json(resp)))
      case listMembers => Send(Response(200, Json(Get(resp, "members"))))
      case borrowBook => Send(Response(200, Json(Get(resp, "borrow_record"))))
      case listBorrowings => Send(Response(200, Json(Get(resp, "borrowings"))))
      case returnBorrowing => Send(Response(200, Json(Get(resp, "borrow_record"))))
  }

  /**
   * The whole exchange for a handler: its own reply, or the RPC's outcome
   * through the callback and, for an error, the error middleware. None: the
   * middleware itself throws.
   */
  function Handle(h: Handler, req: Request, result: RpcResult): (r: Option<Response>)
    ensures Prepare(h, req).Reply? ==> r == Some(Prepare(h, req).response)
    ensures Prepare(h, req).Call? && result.Ok? ==> r.Some? && r.value.status == SuccessStatus(h)
    ensures Prepare(h, req).Call? && result.Err? ==>
      r == (match HandleError(result.error)
            case None => None
            case Some(e) => Some(Response(e.status, Json(ReplyBody(e)))))
  {
    match Prepare(h, req)
    case Reply(response) => Some(response)
    case Call(_, _) =>
      match Complete(h, result)
      case Send(response) => Some(response)
      case Forward(e) =>
        match HandleError(e)
        case None => None
        case Some(reply) => Some(Response(reply.status, Json(ReplyBody(reply))))
  }
}
