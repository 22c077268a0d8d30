# Library management: a verified model

The system is a small library manager in two tiers:

- **The API gateway** is an Express application. It mounts a route table under `/api`. Its controller turns each HTTP request into one gRPC call. An error middleware turns every failure into an HTTP status and a JSON body `{error: message}`.
- **The backend** is a Python gRPC servicer over a service layer and a SQLAlchemy repository. There are three tables: books, members and borrow records. The service validates its input, raises `ValueError` or `grpc.RpcError` on the first check that fails, and only then calls the repository. The servicer turns a raised error into a status on the call's context. It also converts stored rows into protobuf messages.

The model follows that structure, one Dafny module per source file:

| module | file | models |
|---|---|---|
| `Models` | `models.dfy` | rows, column defaults, and the schema's constraints: unique isbn, unique email, both foreign keys |
| `Repository` | `library_repository.dfy` | the repository as a class whose methods change three tables in place; a commit that breaks a constraint is rolled back |
| `Service` | `library_service.dfy` | the service as a class over the repository; each method states its error cases in the source's order, and the new state |
| `Dates`, `EmailFormat` | `dates.dfy`, `email_format.dfy` | `strptime`/`strftime` with `"%Y-%m-%d"`, and the `re.match` email check |
| `LibraryProto`, `LibraryServer` | `library_proto.dfy`, `library_server.dfy` | the messages; the error-to-status policy; the row-to-message conversions; the servicer class with a context object whose status the RPCs set |
| `JsValues`, `ErrorHandler` | `js_values.dfy`, `error_handler.dfy` | JavaScript values, truthiness, `String(v)` and `join`; the error middleware |
| `LibraryController`, `LibraryRoutes` | `library_controller.dfy`, `library_routes.dfy` | the 13 handlers; the route table with Express's matching |
| `Gateway` | `gateway.dfy` | the seam: a controller request object as a backend request message, and a backend status as the gateway's error object and HTTP reply |
| `GrpcStatus`, `Wrappers` | `grpc_status.dfy`, `wrappers.dfy` | gRPC status codes; `Option` and `Result` |

Inputs from the environment become parameters:

- the fresh UUID of a new row (`newId`, required not to be in use);
- today's date for join, borrow and return dates (`today`).

The central invariant is `Models.AvailabilityAgrees`:

- a book's `is_available` flag is false exactly when the book has a borrow record in state BORROWED;
- no book ever has two such records.

Every service method that changes state keeps this invariant, together with the schema (`Service.LibraryService.Valid`).

Where the code and its documentation disagree, the model follows the code:

- **Foreign keys.** `create_borrow_record` looks its book up "if it exists", but the database enforces the foreign keys. A record whose book or member is missing therefore fails the commit. So does deleting a book or member that a record still mentions. The servicer reports both as INTERNAL "An unexpected error occurred".
- **Update of an unknown book.** `update_book` answers None for an unknown id before it parses the date. The servicer then sets NOT_FOUND with a text that has no final period ("Book with id X not found"). The service's own texts end with one.

## Model

| member | source | states |
|---|---|---|
| Models.NewBook | PythonProject/app/db/models.py:13-21 | a new book starts out available (the `is_available` default) |
| Models.NewBorrowRecord | PythonProject/app/db/models.py:35-43 | a new record is BORROWED and has no return date |
| Models.SchemaKeptByFlag | PythonProject/app/db/models.py:13-21 | changing only a book's availability flag keeps every schema constraint |
| Models.SchemaKeptByRecord | PythonProject/app/db/models.py:35-43 | a record whose book and member exist can be stored without breaking the schema |
| Repository.Rows | PythonProject/app/repositories/library_repository.py:59-63 | a table query yields every row exactly once (length equals the table's size; membership both ways) |
| Repository.LibraryRepository.constructor | PythonProject/app/repositories/library_repository.py:12-13 | an empty database satisfies the schema |
| Repository.LibraryRepository.CreateBook | PythonProject/app/repositories/library_repository.py:15-22 | a duplicate isbn fails the commit and changes nothing; otherwise exactly the new available book is added |
| Repository.LibraryRepository.UpdateBook | PythonProject/app/repositories/library_repository.py:33-46 | unknown id gives None; a duplicate isbn fails with nothing changed; otherwise only title, author, date and isbn of that book change |
| Repository.LibraryRepository.DeleteBook | PythonProject/app/repositories/library_repository.py:48-57 | false for an unknown id; a referenced book fails on the foreign key; otherwise exactly that book is removed |
| Repository.LibraryRepository.ListBooks | PythonProject/app/repositories/library_repository.py:59-63 | every stored book, each once |
| Repository.LibraryRepository.ListAvailableBooks | PythonProject/app/repositories/library_repository.py:65-79 | exactly the stored books with no BORROWED record, judged from the records, each listed once (as many entries as such book ids) |
| Repository.LibraryRepository.ListAllMembers | PythonProject/app/repositories/library_repository.py:81-85 | every stored member, each once |
| Repository.LibraryRepository.CreateMember | PythonProject/app/repositories/library_repository.py:87-94 | a used email fails the commit and changes nothing; otherwise exactly the new member, joined today, is added |
| Repository.LibraryRepository.UpdateMember | PythonProject/app/repositories/library_repository.py:105-116 | unknown id gives None; an email another member holds fails; otherwise only name and email change, keeping the join date |
| Repository.LibraryRepository.DeleteMember | PythonProject/app/repositories/library_repository.py:118-127 | false for an unknown id; a referenced member fails on the foreign key; otherwise exactly that member is removed |
| Repository.LibraryRepository.GetMemberByEmail | PythonProject/app/repositories/library_repository.py:129-136 | None exactly when no member has the email; otherwise the stored member with it |
| Repository.LibraryRepository.CreateBorrowRecord | PythonProject/app/repositories/library_repository.py:138-150 | a missing book or member fails on the foreign key with nothing changed; otherwise a BORROWED record is added and only that book turns unavailable |
| Repository.LibraryRepository.UpdateBorrowRecordStatusToReturned | PythonProject/app/repositories/library_repository.py:161-181 | None for an unknown id; an already returned record comes back unchanged (idempotent); otherwise it becomes RETURNED as of today and its book available |
| Repository.LibraryRepository.ListAllBorrowings | PythonProject/app/repositories/library_repository.py:183-190 | every stored record, each once |
| Service.AvailabilityKeptByNewBook | PythonProject/app/services/library_service.py:12-22 | adding an available book no record mentions keeps flags and open borrows in agreement |
| Service.AvailabilityKeptByEdit | PythonProject/app/services/library_service.py:24-40 | editing a book without touching its flag keeps the agreement |
| Service.AvailabilityKeptByBorrow | PythonProject/app/services/library_service.py:133-151 | borrowing an available book gives it its only BORROWED record and clears its flag, keeping the agreement |
| Service.AvailabilityKeptByReturn | PythonProject/app/services/library_service.py:153-167 | returning a BORROWED record leaves its book with no open borrow and sets its flag, keeping the agreement |
| Service.AvailabilityKeptByDelete | PythonProject/app/services/library_service.py:42-53 | removing a book keeps the agreement for the others |
| Service.LibraryService.constructor | PythonProject/app/services/library_service.py:9-10 | the service is built over a repository whose state is valid |
| Service.LibraryService.CreateBook | PythonProject/app/services/library_service.py:12-22 | any empty field, then an unparsable date, then a duplicate isbn fail in that order with nothing changed; otherwise exactly the parsed book is added, available |
| Service.LibraryService.UpdateBook | PythonProject/app/services/library_service.py:24-40 | any empty field fails; an unknown id gives None before the date is checked; then a bad date, then a duplicate isbn; otherwise only that book's four fields change |
| Service.LibraryService.DeleteBook | PythonProject/app/services/library_service.py:42-53 | empty id, then unknown book (NOT_FOUND), then a referencing record fail; otherwise exactly that book is removed |
| Service.LibraryService.GetBook | PythonProject/app/services/library_service.py:55-63 | empty id fails, an unknown id is NOT_FOUND, otherwise the stored book |
| Service.LibraryService.ListBooks | PythonProject/app/services/library_service.py:65-69 | every stored book, each once |
| Service.LibraryService.ListMembers | PythonProject/app/services/library_service.py:71-75 | every stored member, each once |
| Service.LibraryService.CreateMember | PythonProject/app/services/library_service.py:77-91 | empty name or email, then a malformed email, then a used email (ALREADY_EXISTS) fail in that order; otherwise exactly the new member is added |
| Service.LibraryService.UpdateMember | PythonProject/app/services/library_service.py:93-110 | empty field, unknown member (NOT_FOUND), malformed email, email held by another member (ALREADY_EXISTS), in that order; keeping one's own email is allowed |
| Service.LibraryService.DeleteMember | PythonProject/app/services/library_service.py:112-121 | empty id, then unknown member (NOT_FOUND), then a referencing record fail; otherwise exactly that member is removed |
| Service.LibraryService.GetMember | PythonProject/app/services/library_service.py:123-131 | empty id fails, an unknown id is NOT_FOUND, otherwise the stored member |
| Service.LibraryService.BorrowBook | PythonProject/app/services/library_service.py:133-151 | empty id, unknown book, unavailable book (FAILED_PRECONDITION), unknown member, in that order; otherwise a BORROWED record is added and the book becomes unavailable, keeping the availability invariant |
| Service.LibraryService.ReturnBook | PythonProject/app/services/library_service.py:153-167 | empty id, unknown record, already returned record (FAILED_PRECONDITION); otherwise the record is RETURNED today and its book available, keeping the invariant |
| Service.LibraryService.ListBorrowings | PythonProject/app/services/library_service.py:169-173 | every stored record, each once |
| Dates.DaysInMonth | PythonProject/app/services/library_service.py:17 | every month length lies between 28 and 31, and it is 29 exactly for February of a leap year |
| Dates.FormatDate | PythonProject/app/grpc/server.py:189 | `strftime("%Y-%m-%d")` gives the zero-padded ten-character shape |
| Dates.ParseDate | PythonProject/app/services/library_service.py:17 | `strptime(s, "%Y-%m-%d")` accepts only real calendar dates in years 1-9999 |
| Dates.ParseFormat | PythonProject/app/grpc/server.py:189 | parsing a formatted stored date gives the date back |
| Dates.FormatParse | PythonProject/app/services/library_service.py:34 | a zero-padded date text that parses is reproduced exactly by formatting |
| Dates.FullDateAccepted | PythonProject/app/services/library_service.py:17 | a text of the full shape parses exactly when its fields name a real date |
| Dates.ShortFieldsAccepted | PythonProject/app/services/library_service.py:17 | one-digit month and day fields are accepted and come back padded |
| Dates.ImpossibleDaysRejected | PythonProject/app/services/library_service.py:17-19 | 29 February of a common year, 31 April and year 0 are rejected |
| Dates.TrailingTextRejected | PythonProject/app/services/library_service.py:17-19 | leftover text, day 35 and month 13 are rejected |
| EmailFormat.IndexOf | PythonProject/app/services/library_service.py:83 | the first position of a character from a start index, or the end |
| EmailFormat.CheckIsRegexMatch | PythonProject/app/services/library_service.py:83 | the scanning check accepts exactly the texts `[^@]+@[^@]+\.[^@]+` matches at their start |
| EmailFormat.PrefixIsEnough | PythonProject/app/services/library_service.py:102 | only a prefix must match: trailing text passes, a missing local part, domain or suffix fails |
| LibraryServer.StatusFor | PythonProject/app/grpc/server.py:12-31 | ValueError is INVALID_ARGUMENT with its text, RpcError keeps its code and details, an integrity failure is INTERNAL with a fixed text |
| LibraryServer.StatusForAsWritten | PythonProject/app/grpc/server.py:24-26 | as written, every RpcError ends as UNKNOWN; other errors as intended |
| LibraryServer.RpcErrorCodeLostAsWritten | PythonProject/app/grpc/server.py:24-26 | as written, no RpcError code other than UNKNOWN survives |
| LibraryServer.StatusName | PythonProject/app/grpc/server.py:206 | the enum name of a stored status maps back to that status |
| LibraryServer.ToBookMsg | PythonProject/app/grpc/server.py:188-189 | the message's date text parses back to the stored date; id, title, author, isbn and availability are copied |
| LibraryServer.ToMemberMsg | PythonProject/app/grpc/server.py:191-192 | the join date text parses back to the stored date; id, name and email are copied |
| LibraryServer.ToBorrowRecordMsg | PythonProject/app/grpc/server.py:194-207 | a return date is set exactly when the record has one; status names the stored status; the borrow date round-trips |
| LibraryServer.ToBookMsgInjective | PythonProject/app/grpc/server.py:188-189 | distinct stored books never give the same message |
| LibraryServer.ToBookMsgs | PythonProject/app/grpc/server.py:88 | one message per book, position by position |
| LibraryServer.ToMemberMsgs | PythonProject/app/grpc/server.py:98 | one message per member, position by position |
| LibraryServer.StoredRecordJoinable | PythonProject/app/grpc/server.py:176-181 | every stored record's book and member exist, so the joined load never misses |
| LibraryServer.StoredRowsDated | PythonProject/app/grpc/server.py:88 | every stored book and member has a real date to render |
| LibraryServer.DetailsOf | PythonProject/app/grpc/server.py:177-181 | a details entry pairs a record with its own book and its own member |
| LibraryServer.JoinAll | PythonProject/app/grpc/server.py:175-181 | the loop yields exactly one entry per record, the i-th being the entry built from the i-th record, for any entry conversion |
| LibraryServer.ServicerContext.constructor | PythonProject/app/grpc/server.py:12-19 | a call starts with status OK |
| LibraryServer.ServicerContext.Report | PythonProject/app/grpc/server.py:21-31 | the context's status becomes the policy's status for the error |
| LibraryServer.LibraryServicer.constructor | PythonProject/app/grpc/server.py:11 | the servicer sits over a valid service |
| LibraryServer.LibraryServicer.CreateBook | PythonProject/app/grpc/server.py:33-42 | each service error gives its status and an empty response; on OK the response is the stored book's message |
| LibraryServer.LibraryServicer.UpdateBook | PythonProject/app/grpc/server.py:44-57 | an unknown book gives NOT_FOUND "Book with id X not found"; other failures their status; OK carries the updated book |
| LibraryServer.LibraryServicer.DeleteBook | PythonProject/app/grpc/server.py:59-71 | statuses for empty id, unknown book, referenced book; on OK the book is gone |
| LibraryServer.LibraryServicer.GetBook | PythonProject/app/grpc/server.py:73-81 | statuses for empty and unknown ids with an all-default Book; otherwise the stored book's message |
| LibraryServer.LibraryServicer.ListBooks | PythonProject/app/grpc/server.py:83-91 | one message per stored book, each book listed once |
| LibraryServer.LibraryServicer.ListMembers | PythonProject/app/grpc/server.py:93-101 | one message per stored member, each member listed once |
| LibraryServer.LibraryServicer.CreateMember | PythonProject/app/grpc/server.py:103-111 | statuses for missing fields, bad email, used email; on OK the new member's message |
| LibraryServer.LibraryServicer.UpdateMember | PythonProject/app/grpc/server.py:113-125 | statuses for each failing check; on OK the updated member's message |
| LibraryServer.LibraryServicer.DeleteMember | PythonProject/app/grpc/server.py:127-139 | statuses for empty id, unknown member, referenced member; on OK the member is gone |
| LibraryServer.LibraryServicer.GetMember | PythonProject/app/grpc/server.py:141-149 | statuses for empty and unknown ids with an all-default Member; otherwise the stored member's message |
| LibraryServer.LibraryServicer.BorrowBook | PythonProject/app/grpc/server.py:151-159 | statuses in the service's order; on OK the new record's message, status BORROWED |
| LibraryServer.LibraryServicer.ReturnBook | PythonProject/app/grpc/server.py:161-169 | statuses for empty, unknown and already returned records; on OK the record's message, RETURNED with today's date |
| LibraryServer.LibraryServicer.ListBorrowings | PythonProject/app/grpc/server.py:171-186 | one details entry per stored record, in the listed order, each joined with its own book and member |
| GrpcStatus.StatusCode.Value | api-gateway/src/middleware/errorHandler.js:11-39 | the status numbers lie in 0..16 and only OK is 0 (falsy) |
| GrpcStatus.ValueInjective | api-gateway/src/middleware/errorHandler.js:11-39 | distinct statuses have distinct numbers, so the numeric switch sees exactly the status sent |
| JsValues.Get | api-gateway/src/controllers/libraryController.js:5 | a destructured property is the field's value, or undefined when missing |
| ErrorHandler.JoiTexts | api-gateway/src/middleware/errorHandler.js:43 | the mapped texts exist exactly when no item is null or undefined, one text per item |
| ErrorHandler.HandleError | api-gateway/src/middleware/errorHandler.js:3-49 | a truthy code decides the status, and one that is no gRPC status number gives 500 with the details or the default-case text; else Joi gives 400 with joined texts; else 500 with the message or the generic text; the only failure is the Joi branch throwing |
| ErrorHandler.GrpcStatusMapped | api-gateway/src/middleware/errorHandler.js:10-40 | any non-OK status maps to its HTTP counterpart (400, 404, 409, 412, 401, 403, else 500), with the details or the default text |
| ErrorHandler.UnknownCodesAre500 | api-gateway/src/middleware/errorHandler.js:36-39 | a number above 16, a non-empty string or `true` as the code falls to the default case: 500 |
| ErrorHandler.CodeHasPriority | api-gateway/src/middleware/errorHandler.js:10 | with a truthy code, `isJoi` and `message` are never looked at |
| ErrorHandler.CodeZeroFallsThrough | api-gateway/src/middleware/errorHandler.js:10 | code 0 is falsy and handled as if there were no code |
| ErrorHandler.JoiMessagesJoined | api-gateway/src/middleware/errorHandler.js:41-43 | Joi item messages come out joined by ", " in order |
| LibraryController.Prepare | api-gateway/src/controllers/libraryController.js:3-199 | the date guard answers 400 exactly when `published_date` is falsy; every one of the 13 handlers calls its own RPC with exactly the fields it reads from body or route: `id` from the route for get/delete, the body's fields for creations, updates and borrowing, nothing for the listings |
| LibraryController.Complete | api-gateway/src/controllers/libraryController.js:3-199 | an RPC error is forwarded unchanged; success answers 201, 204 or 200 with the handler's response field, no body for deletions |
| LibraryController.Handle | api-gateway/src/controllers/libraryController.js:3-199 | the handler's whole exchange: its own reply, or the RPC's result through the callback and the error middleware |
| LibraryRoutes.Bind | api-gateway/src/routes/libraryRoutes.js:12 | every parameter of a pattern is bound |
| LibraryRoutes.FirstMatch | api-gateway/src/routes/libraryRoutes.js:6-40 | the search returns a registration that takes the request |
| LibraryRoutes.FirstMatchNone | api-gateway/src/routes/libraryRoutes.js:6-40 | the search finds nothing exactly when no registration takes the request |
| LibraryRoutes.ResolveIffMatch | api-gateway/src/routes/libraryRoutes.js:6-40 | a request resolves exactly when some registration takes it |
| LibraryRoutes.Dispatch | api-gateway/src/app.js:13 | only paths under `/api` reach the table |
| LibraryRoutes.RoutesDisjoint | api-gateway/src/routes/libraryRoutes.js:6-40 | no two registrations for one verb take the same path, so order does not matter |
| LibraryRoutes.MatchingRouteResolves | api-gateway/src/routes/libraryRoutes.js:6-40 | a request a registration takes reaches that registration's handler with its parameters |
| LibraryRoutes.BindLiteralParam | api-gateway/src/routes/libraryRoutes.js:12 | `/books/:id` binds `id` to the second segment |
| LibraryRoutes.BindReturnPattern | api-gateway/src/routes/libraryRoutes.js:40 | `/borrowings/:id/return` binds `id` to the middle segment |
| LibraryRoutes.BookRoutesResolve | api-gateway/src/routes/libraryRoutes.js:6-18 | each book route reaches its handler with `id` bound |
| LibraryRoutes.MemberRoutesResolve | api-gateway/src/routes/libraryRoutes.js:21-30 | each member route reaches its handler with `id` bound |
| LibraryRoutes.BorrowingRoutesResolve | api-gateway/src/routes/libraryRoutes.js:33-37 | POST /borrow and GET /borrowings reach their handlers |
| LibraryRoutes.ReturnRouteResolves | api-gateway/src/routes/libraryRoutes.js:40 | POST /borrowings/:id/return reaches returnBorrowing with the record id |
| LibraryRoutes.DeleteMemberUnreachable | api-gateway/src/controllers/libraryController.js:111-122 | deleteMember is never registered: DELETE /members/:id has no handler, and no request reaches it |
| Gateway.ProtoString | api-gateway/src/grpc/grpcClient.js:8-14 | an unset field encodes as "", text as itself |
| Gateway.ToCreateBookRequest | api-gateway/src/controllers/libraryController.js:13-21 | each message field is the encoding of the request object's field |
| Gateway.TruthyEncodesNonEmpty | api-gateway/src/controllers/libraryController.js:7 | for non-array values, whatever passes the date guard reaches the backend as non-empty text |
| Gateway.GuardAndEncodingDiffer | api-gateway/src/controllers/libraryController.js:7 | the guard agrees with the backend on text, but 0 and false are stopped and an empty array passes as "" |
| Gateway.CreateBookDateArrives | api-gateway/src/controllers/libraryController.js:7-21 | a forwarded createBook carries the body's non-empty date to the service |
| Gateway.ClientError | api-gateway/src/controllers/libraryController.js:22-25 | the error object of a non-OK status has a truthy code and the details, and is not a Joi error |
| Gateway.HttpReply | api-gateway/src/middleware/errorHandler.js:10-40 | a non-OK status ends as its HTTP counterpart with the details or the default text |
| Gateway.ServiceErrorReply | PythonProject/app/grpc/server.py:21-30 | validation errors reach the browser as 400, NOT_FOUND as 404, ALREADY_EXISTS as 409, FAILED_PRECONDITION as 412, integrity failures as a generic 500 |
| Gateway.RpcErrorBecomes500AsWritten | PythonProject/app/grpc/server.py:24-26 | as written, not-found, duplicate and unavailable conditions reach the browser as 500, where the intended policy gives 404, 409 or 412 |

## Left out

- Logging (`logger`, `console.log`) has no effect on results and is not modelled.
- Threading and concurrent requests are not modelled. Each RPC runs alone on one committed state.
- The database session's lifecycle (`get_db_session`, `refresh`) and SQLAlchemy's identity map are not modelled. A commit either applies whole or is rolled back.
- `create_server`, the gRPC transport and the HTTP server are I/O. They are not modelled.
- The generated protobuf code, `database.py`, `config.py` and the React frontend are not part of this model.
- Fresh UUIDs and the clock (`uuid.uuid4`, `datetime.utcnow`) are parameters of the operations that need them.
- Repository.Rows: the order of rows is not stated, because the queries have no ORDER BY. Every row appears exactly once.
- LibraryServer.ToBorrowRecordMsg: the return date is a `google.protobuf.Timestamp` for midnight UTC. The model carries the day it stands for.
- Dates.FormatDate: `%Y` is always padded to four digits. Platforms whose `strftime` does not pad years below 1000 are not modelled.
- Dates.ParseDate: only ASCII digits are accepted, though Python's `\d` also matches other Unicode digits.
- JsValues.Decimal: numbers are integers. Fractional and non-finite JavaScript numbers are not modelled.
- ErrorHandler.HandleError: when the Joi branch throws, it answers None. Express's own final handler, which then answers, is not modelled.
- LibraryRoutes.Resolve: no bound on path length; URL decoding of parameters, Express's optional trailing slash and HEAD/OPTIONS handling are not modelled. Literal segments match case-insensitively in ASCII only.
- Four servicer branches cannot be reached: `if not success` after `delete_book` or `delete_member`, `if not member` after `update_member`, and a None from `return_book`. The service raises before any of them. The servicer model marks these branches unreachable and proves it.
- The servicer methods use the intended status policy `StatusFor`. The as-written behaviour is kept separately (see Findings).
- The gateway's gRPC call itself is a parameter of `LibraryController.Handle`: the RPC's outcome is given, and connectivity errors are modelled only as generic error objects.

## Findings

| source | as written | input that shows it | evidently intended | confidence | as-written member | corrected member |
|---|---|---|---|---|---|---|
| PythonProject/app/grpc/server.py:24-26 | `grpc.RpcError(code, details)` is raised with positional arguments, and the handler calls `e.code()` and `e.details()`, which that class does not define; the handler raises AttributeError, and the client sees UNKNOWN, which the gateway answers with 500 | GET /api/books/x for a book id that does not exist (the service raises NOT_FOUND) | the raised code and details reach the client, so the gateway answers 404 with "Book with id x not found." (409 and 412 likewise) | not executed | LibraryServer.StatusForAsWritten, Gateway.RpcErrorBecomes500AsWritten | LibraryServer.StatusFor, Gateway.ServiceErrorReply |
