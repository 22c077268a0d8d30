/**
 * The gRPC servicer: it runs one service call per RPC, turns a raised error
 * into a status on the call's context, and converts stored rows into
 * messages. Each RPC answers the default (empty) message of its type
 * whenever the status it sets is not OK.
 */
module LibraryServer {
  import opened Wrappers
  import opened Dates
  import opened GrpcStatus
  import opened Models
  import opened LibraryProto
  import opened Service
  import Repository

  /** What a call reports besides its message: a code and a detail text. */
  datatype RpcStatus = RpcStatus(code: StatusCode, details: string)

  const Unexpected := "An unexpected error occurred"

  /**
   * The status `_execute_with_service` sets for an error raised by the
   * action: a ValueError is INVALID_ARGUMENT with its text, an RpcError keeps
   * its own code and details, anything else is INTERNAL with a fixed text.
   */
  function StatusFor(e: ServiceError): (s: RpcStatus)
    ensures e.ValueError? ==> s == RpcStatus(INVALID_ARGUMENT, e.message)
    ensures e.RpcError? ==> s == RpcStatus(e.code, e.details)
    ensures e.IntegrityFailure? ==> s == RpcStatus(INTERNAL, Unexpected)
  {
    match e
    case ValueError(m) => RpcStatus(INVALID_ARGUMENT, m)
    case RpcError(c, d) => RpcStatus(c, d)
    case IntegrityFailure(_) => RpcStatus(INTERNAL, Unexpected)
  }

  /**
   * The same policy as the code stands: `grpc.RpcError(code, details)` is a
   * plain exception without `code()` or `details()`, so the `except
   * grpc.RpcError` branch itself raises AttributeError before it sets
   * anything, and the gRPC runtime answers UNKNOWN with the exception text.
   */
  function StatusForAsWritten(e: ServiceError): (s: RpcStatus)
    ensures !e.RpcError? ==> s == StatusFor(e)
    ensures e.RpcError? ==> s.code == UNKNOWN
  {
    match e
    case RpcError(_, _) =>
      RpcStatus(UNKNOWN, "Exception calling application: 'RpcError' object has no attribute 'code'")
    case _ => StatusFor(e)
  }

  /** As written, no RpcError the service raises keeps its code or its details. */
  lemma RpcErrorCodeLostAsWritten(code: StatusCode, details: string)
    requires code != UNKNOWN
    ensures StatusForAsWritten(RpcError(code, details)).code != StatusFor(RpcError(code, details)).code
  {
  }

  // ------------------------------------------------------------ conversions

  /** The name the message enum shares with the stored status. */
  function StatusName(s: BorrowingStatus): (n: string)
    ensures StatusOfName(n) == Some(s)
  {
    match s
    case BORROWED => "BORROWED"
    case RETURNED => "RETURNED"
  }

  /** The message enum value of a name, if it has one. */
  function StatusOfName(n: string): (s: Option<BorrowingStatus>)
  {
    if n == "BORROWED" then Some(BORROWED)
    else if n == "RETURNED" then Some(RETURNED)
    else None
  }

  /** `_to_book_proto`: the date goes out as text the service's parser reads back. */
  function ToBookMsg(b: Book): (m: BookMsg)
    requires IsValidDate(b.publishedDate)
    ensures IsFullDateShape(m.publishedDate) && ParseDate(m.publishedDate) == Some(b.publishedDate)
    ensures m.id == b.id && m.title == b.title && m.author == b.author
    ensures m.isbn == b.isbn && m.isAvailable == b.isAvailable
  {
    ParseFormat(b.publishedDate);
    BookMsg(b.id, b.title, b.author, FormatDate(b.publishedDate), b.isbn, b.isAvailable)
  }

  /** `_to_member_proto`: the join date goes out as zero-padded text. */
  function ToMemberMsg(m: Member): (msg: MemberMsg)
    requires IsValidDate(m.joinDate)
    ensures IsFullDateShape(msg.joinDate) && ParseDate(msg.joinDate) == Some(m.joinDate)
    ensures msg.id == m.id && msg.name == m.name && msg.email == m.email
  {
    ParseFormat(m.joinDate);
    MemberMsg(m.id, m.name, m.email, FormatDate(m.joinDate))
  }

  /** `_to_borrow_record_proto`: the return date is set only when there is one. */
  function ToBorrowRecordMsg(r: BorrowRecord): (m: BorrowRecordMsg)
    requires IsValidDate(r.borrowDate)
    ensures ParseDate(m.borrowDate) == Some(r.borrowDate)
    ensures m.returnDate.Some? <==> r.returnDate.Some?
    ensures m.returnDate == r.returnDate
    ensures StatusOfName(m.status) == Some(r.status)
    ensures m.id == r.id && m.bookId == r.bookId && m.memberId == r.memberId
  {
    ParseFormat(r.borrowDate);
    BorrowRecordMsg(r.id, r.bookId, r.memberId, FormatDate(r.borrowDate), r.returnDate, StatusName(r.status))
  }

  /** Distinct stored books never give the same message. */
  lemma {:induction false} ToBookMsgInjective(a: Book, b: Book)
    requires IsValidDate(a.publishedDate) && IsValidDate(b.publishedDate)
    ensures ToBookMsg(a) == ToBookMsg(b) ==> a == b
  {
    if ToBookMsg(a) == ToBookMsg(b) {
      assert Some(a.publishedDate) == ParseDate(ToBookMsg(a).publishedDate) == Some(b.publishedDate);
    }
  }

  /** The list comprehension of ListBooks. */
  function ToBookMsgs(bs: seq<Book>): (ms: seq<BookMsg>)
    requires forall b :: b in bs ==> IsValidDate(b.publishedDate)
    ensures |ms| == |bs|
    ensures forall i :: 0 <= i < |bs| ==> ms[i] == ToBookMsg(bs[i])
  {
    if bs == [] then [] else [ToBookMsg(bs[0])] + ToBookMsgs(bs[1..])
  }

  /** The list comprehension of ListMembers. */
  function ToMemberMsgs(ms: seq<Member>): (out: seq<MemberMsg>)
    requires forall m :: m in ms ==> IsValidDate(m.joinDate)
    ensures |out| == |ms|
    ensures forall i :: 0 <= i < |ms| ==> out[i] == ToMemberMsg(ms[i])
  {
    if ms == [] then [] else [ToMemberMsg(ms[0])] + ToMemberMsgs(ms[1..])
  }

  /** The record's book and member exist and every date involved is real. */
  predicate Joinable(r: BorrowRecord, books: map<Id, Book>, members: map<Id, Member>)
  {
    && r.bookId in books && r.memberId in members
    && IsValidDate(r.borrowDate)
    && IsValidDate(books[r.bookId].publishedDate) && IsValidDate(members[r.memberId].joinDate)
  }

  /** A stored record can always be joined with its book and member. */
  lemma StoredRecordJoinable(books: map<Id, Book>, members: map<Id, Member>, records: map<Id, BorrowRecord>,
                             r: BorrowRecord)
    requires SchemaHolds(books, members, records) && r in records.Values
    ensures Joinable(r, books, members)
  {
    var k :| k in records && records[k] == r;
  }

  /** Every stored book and member has a real date to render. */
  lemma StoredRowsDated(books: map<Id, Book>, members: map<Id, Member>, records: map<Id, BorrowRecord>)
    requires SchemaHolds(books, members, records)
    ensures forall b :: b in books.Values ==> IsValidDate(b.publishedDate)
    ensures forall m :: m in members.Values ==> IsValidDate(m.joinDate)
  {
    forall b | b in books.Values ensures IsValidDate(b.publishedDate) {
      var k :| k in books && books[k] == b;
    }
    forall m | m in members.Values ensures IsValidDate(m.joinDate) {
      var k :| k in members && members[k] == m;
    }
  }

  /** One entry of ListBorrowings: the record with its own book and member. */
  function DetailsOf(r: BorrowRecord, books: map<Id, Book>, members: map<Id, Member>): (d: BorrowingDetailsMsg)
    requires Joinable(r, books, members)
    ensures d.borrowRecord.id == r.id
    ensures d.book.id == books[r.bookId].id && d.member.id == members[r.memberId].id
  {
    BorrowingDetailsMsg(ToBorrowRecordMsg(r), ToBookMsg(books[r.bookId]), ToMemberMsg(members[r.memberId]))
  }

  /**
   * The loop of ListBorrowings: one entry per record, appended in order.
   * It is stated for any entry function, so the proof never looks inside
   * the messages.
   */
  method JoinAll<R, D>(records: seq<R>, entry: R --> D) returns (details: seq<D>)
    requires forall i :: 0 <= i < |records| ==> entry.requires(records[i])
    ensures |details| == |records|
    ensures forall i :: 0 <= i < |records| ==> details[i] == entry(records[i])
  {
    details := [];
    for i := 0 to |records|
      invariant |details| == i
      invariant forall j :: 0 <= j < i ==> details[j] == entry(records[j])
    {
      details := details + [entry(records[i])];
    }
  }

  // ------------------------------------------------------------- the servicer

  /** The call context: the status a handler sets with `set_code`/`set_details`. */
  class ServicerContext {
    var code: StatusCode
    var details: string

    function Status(): RpcStatus
      reads this
    {
      RpcStatus(code, details)
    }

    /** A fresh call has status OK until a handler sets one. */
    constructor ()
      ensures Status() == RpcStatus(OK, "")
    {
      code := OK;
      details := "";
    }

    /** The `except` chain of `_execute_with_service`. */
    method Report(e: ServiceError)
      modifies this
      ensures Status() == StatusFor(e)
    {
      match e {
        case ValueError(m) =>
          code := INVALID_ARGUMENT;
          details := m;
        case RpcError(c, d) =>
          code := c;
          details := d;
        case IntegrityFailure(_) =>
          code := INTERNAL;
          details := Unexpected;
      }
    }
  }

  class LibraryServicer {
    const service: LibraryService

    ghost predicate Valid()
      reads this, service, service.repository
    {
      service.Valid()
    }

    constructor (service: LibraryService)
      requires service.Valid()
      ensures this.service == service && Valid()
    {
      this.service := service;
    }

    method CreateBook(request: CreateBookRequest, newId: Id, context: ServicerContext) returns (response: BookResponse)
      requires Valid() && newId !in service.repository.books && context.Status() == RpcStatus(OK, "")
      modifies service.repository, context
      ensures Valid()
      ensures context.code == OK <==> response.book.Some?
      ensures context.code != OK ==> response == BookResponse(None) && unchanged(service.repository)
      ensures context.code == OK ==>
        newId in service.repository.books && response.book == Some(ToBookMsg(service.repository.books[newId]))
      ensures request.title == "" || request.author == "" || request.publishedDate == "" || request.isbn == "" ==>
        context.Status() == RpcStatus(INVALID_ARGUMENT, "All fields are required for creating a book.")
      ensures request.title != "" && request.author != "" && request.publishedDate != "" && request.isbn != "" ==>
        && (ParseDate(request.publishedDate).None? ==> context.Status() == RpcStatus(INVALID_ARGUMENT, InvalidDateMessage))
        && (ParseDate(request.publishedDate).Some? && IsbnTaken(old(service.repository.books), request.isbn, newId) ==>
              context.Status() == RpcStatus(INTERNAL, Unexpected))
        && (ParseDate(request.publishedDate).Some? && !IsbnTaken(old(service.repository.books), request.isbn, newId) ==>
              context.code == OK)
    {
      var r := service.CreateBook(newId, request.title, request.author, request.publishedDate, request.isbn);
      match r {
        case Success(book) =>
          response := BookResponse(Some(ToBookMsg(book)));
        case Failure(e) =>
          context.Report(e);
          response := BookResponse(None);
      }
    }

    /** A None from the service becomes NOT_FOUND (this text has no final period). */
    method UpdateBook(request: UpdateBookRequest, context: ServicerContext) returns (response: BookResponse)
      requires Valid() && context.Status() == RpcStatus(OK, "")
      modifies service.repository, context
      ensures Valid()
      ensures context.code == OK <==> response.book.Some?
      ensures context.code != OK ==> response == BookResponse(None) && unchanged(service.repository)
      ensures context.code == OK ==>
        request.id in service.repository.books &&
        response.book == Some(ToBookMsg(service.repository.books[request.id]))
      ensures request.id == "" || request.title == "" || request.author == "" ||
              request.publishedDate == "" || request.isbn == "" ==>
        context.Status() == RpcStatus(INVALID_ARGUMENT, "All fields are required for updating a book.")
      ensures request.id != "" && request.title != "" && request.author != "" &&
              request.publishedDate != "" && request.isbn != "" ==>
        && (request.id !in old(service.repository.books) ==>
              context.Status() == RpcStatus(NOT_FOUND, "Book with id " + request.id + " not found"))
        && (request.id in old(service.repository.books) && ParseDate(request.publishedDate).None? ==>
              context.Status() == RpcStatus(INVALID_ARGUMENT, InvalidDateMessage))
        && (request.id in old(service.repository.books) && ParseDate(request.publishedDate).Some? &&
            IsbnTaken(old(service.repository.books), request.isbn, request.id) ==>
              context.Status() == RpcStatus(INTERNAL, Unexpected))
        && (request.id in old(service.repository.books) && ParseDate(request.publishedDate).Some? &&
            !IsbnTaken(old(service.repository.books), request.isbn, request.id) ==>
              context.code == OK)
    {
      var r := service.UpdateBook(request.id, request.title, request.author, request.publishedDate, request.isbn);
      match r {
        case Success(Some(book)) =>
          response := BookResponse(Some(ToBookMsg(book)));
        case Success(None) =>
          context.code := NOT_FOUND;
          context.details := "Book with id " + request.id + " not found";
          response := BookResponse(None);
        case Failure(e) =>
          context.Report(e);
          response := BookResponse(None);
      }
    }

    method DeleteBook(request: IdRequest, context: ServicerContext) returns (response: EmptyMsg)
      requires Valid() && context.Status() == RpcStatus(OK, "")
      modifies service.repository, context
      ensures Valid()
      ensures context.code != OK ==> unchanged(service.repository)
      ensures context.code == OK ==> request.id !in service.repository.books
      ensures request.id == "" ==>
        context.Status() == RpcStatus(INVALID_ARGUMENT, "Book ID is required for deleting a book.")
      ensures request.id != "" && request.id !in old(service.repository.books) ==>
        context.Status() == RpcStatus(NOT_FOUND, BookNotFound(request.id))
      ensures request.id != "" && request.id in old(service.repository.books) ==>
        (BookReferenced(old(service.repository.records), request.id) <==> context.Status() == RpcStatus(INTERNAL, Unexpected)) &&
        (!BookReferenced(old(service.repository.records), request.id) <==> context.code == OK)
    {
      var r := service.DeleteBook(request.id);
      if r.Failure? {
        context.Report(r.error);
      } else {
        // the `if not success` (NOT_FOUND) branch: the service answers True or raises
        assert r.value;
      }
      response := EmptyMsg;
    }

    method GetBook(request: IdRequest, context: ServicerContext) returns (response: BookMsg)
      requires Valid() && context.Status() == RpcStatus(OK, "")
      modifies context
      ensures context.code != OK ==> response == DefaultBook
      ensures request.id == "" ==>
        context.Status() == RpcStatus(INVALID_ARGUMENT, "Book ID is required for getting a book.")
      ensures request.id != "" && request.id !in service.repository.books ==>
        context.Status() == RpcStatus(NOT_FOUND, BookNotFound(request.id))
      ensures request.id != "" && request.id in service.repository.books ==>
        context.code == OK && response == ToBookMsg(service.repository.books[request.id])
    {
      var r := service.GetBook(request.id);
      match r {
        case Success(book) =>
          response := ToBookMsg(book);
        case Failure(e) =>
          context.Report(e);
          response := DefaultBook;
      }
    }

    /** One message per stored book, in the order the repository lists them. */
    method ListBooks(context: ServicerContext) returns (response: ListBooksResponse, ghost listed: seq<Book>)
      requires Valid() && context.Status() == RpcStatus(OK, "")
      ensures |listed| == |service.repository.books| == |response.books|
      ensures forall b :: b in listed <==> b in service.repository.books.Values
      ensures forall i :: 0 <= i < |listed| ==>
        IsValidDate(listed[i].publishedDate) && response.books[i] == ToBookMsg(listed[i])
    {
      var books := service.ListBooks();
      listed := books;
      StoredRowsDated(service.repository.books, service.repository.members, service.repository.records);
      response := ListBooksResponse(ToBookMsgs(books));
    }

    /** One message per stored member, in the order the repository lists them. */
    method ListMembers(context: ServicerContext) returns (response: ListMembersResponse, ghost listed: seq<Member>)
      requires Valid() && context.Status() == RpcStatus(OK, "")
      ensures |listed| == |service.repository.members| == |response.members|
      ensures forall m :: m in listed <==> m in service.repository.members.Values
      ensures forall i :: 0 <= i < |listed| ==>
        IsValidDate(listed[i].joinDate) && response.members[i] == ToMemberMsg(listed[i])
    {
      var members := service.ListMembers();
      listed := members;
      StoredRowsDated(service.repository.books, service.repository.members, service.repository.records);
      response := ListMembersResponse(ToMemberMsgs(members));
    }

    method CreateMember(request: CreateMemberRequest, newId: Id, today: Date, context: ServicerContext)
      returns (response: MemberResponse)
      requires Valid() && newId !in service.repository.members && IsValidDate(today)
      requires context.Status() == RpcStatus(OK, "")
      modifies service.repository, context
      ensures Valid()
      ensures context.code == OK <==> response.member.Some?
      ensures context.code != OK ==> response == MemberResponse(None) && unchanged(service.repository)
      ensures context.code == OK ==>
        newId in service.repository.members &&
        response.member == Some(ToMemberMsg(service.repository.members[newId]))
      ensures request.name == "" || request.email == "" ==>
        context.Status() == RpcStatus(INVALID_ARGUMENT, "Name and email are required for creating a member.")
      ensures request.name != "" && request.email != "" ==>
        && (!EmailFormat.IsValidEmailFormat(request.email) ==>
              context.Status() == RpcStatus(INVALID_ARGUMENT, InvalidEmailMessage))
        && (EmailFormat.IsValidEmailFormat(request.email) && EmailInUse(old(service.repository.members), request.email) ==>
              context.Status() == RpcStatus(ALREADY_EXISTS, "Member with email " + request.email + " already exists."))
        && (EmailFormat.IsValidEmailFormat(request.email) && !EmailInUse(old(service.repository.members), request.email) ==>
              context.code == OK)
    {
      var r := service.CreateMember(newId, today, request.name, request.email);
      match r {
        case Success(member) =>
          response := MemberResponse(Some(ToMemberMsg(member)));
        case Failure(e) =>
          context.Report(e);
          response := MemberResponse(None);
      }
    }

    method UpdateMember(request: UpdateMemberRequest, context: ServicerContext) returns (response: MemberResponse)
      requires Valid() && context.Status() == RpcStatus(OK, "")
      modifies service.repository, context
      ensures Valid()
      ensures context.code == OK <==> response.member.Some?
      ensures context.code != OK ==> response == MemberResponse(None) && unchanged(service.repository)
      ensures context.code == OK ==>
        request.id in service.repository.members &&
        response.member == Some(ToMemberMsg(service.repository.members[request.id]))
      ensures request.id == "" || request.name == "" || request.email == "" ==>
        context.Status() == RpcStatus(INVALID_ARGUMENT, "All fields are required for updating a member.")
      ensures request.id != "" && request.name != "" && request.email != "" ==>
        && (request.id !in old(service.repository.members) ==>
              context.Status() == RpcStatus(NOT_FOUND, MemberNotFound(request.id)))
        && (request.id in old(service.repository.members) && !EmailFormat.IsValidEmailFormat(request.email) ==>
              context.Status() == RpcStatus(INVALID_ARGUMENT, InvalidEmailMessage))
        && (request.id in old(service.repository.members) && EmailFormat.IsValidEmailFormat(request.email) &&
            EmailTaken(old(service.repository.members), request.email, request.id) ==>
              context.Status() == RpcStatus(ALREADY_EXISTS,
                                            "Another member with email " + request.email + " already exists."))
        && (request.id in old(service.repository.members) && EmailFormat.IsValidEmailFormat(request.email) &&
            !EmailTaken(old(service.repository.members), request.email, request.id) ==>
              context.code == OK)
    {
      var r := service.UpdateMember(request.id, request.name, request.email);
      match r {
        case Success(Some(member)) =>
          response := MemberResponse(Some(ToMemberMsg(member)));
        case Success(None) =>
          // `if not member` (NOT_FOUND): the service raises NOT_FOUND first
          assert false;
        case Failure(e) =>
          context.Report(e);
          response := MemberResponse(None);
      }
    }

    method DeleteMember(request: IdRequest, context: ServicerContext) returns (response: EmptyMsg)
      requires Valid() && context.Status() == RpcStatus(OK, "")
      modifies service.repository, context
      ensures Valid()
      ensures context.code != OK ==> unchanged(service.repository)
      ensures context.code == OK ==> request.id !in service.repository.members
      ensures request.id == "" ==>
        context.Status() == RpcStatus(INVALID_ARGUMENT, "Member ID is required for deleting a member.")
      ensures request.id != "" && request.id !in old(service.repository.members) ==>
        context.Status() == RpcStatus(NOT_FOUND, MemberNotFound(request.id))
      ensures request.id != "" && request.id in old(service.repository.members) ==>
        (MemberReferenced(old(service.repository.records), request.id) <==>
           context.Status() == RpcStatus(INTERNAL, Unexpected)) &&
        (!MemberReferenced(old(service.repository.records), request.id) <==> context.code == OK)
    {
      var r := service.DeleteMember(request.id);
      if r.Failure? {
        context.Report(r.error);
      } else {
        // the `if not success` (NOT_FOUND) branch: the service answers True or raises
        assert r.value;
      }
      response := EmptyMsg;
    }

    method GetMember(request: IdRequest, context: ServicerContext) returns (response: MemberMsg)
      requires Valid() && context.Status() == RpcStatus(OK, "")
      modifies context
      ensures context.code != OK ==> response == DefaultMember
      ensures request.id == "" ==>
        context.Status() == RpcStatus(INVALID_ARGUMENT, "Member ID is required for getting a member.")
      ensures request.id != "" && request.id !in service.repository.members ==>
        context.Status() == RpcStatus(NOT_FOUND, MemberNotFound(request.id))
      ensures request.id != "" && request.id in service.repository.members ==>
        context.code == OK && response == ToMemberMsg(service.repository.members[request.id])
    {
      var r := service.GetMember(request.id);
      match r {
        case Success(member) =>
          response := ToMemberMsg(member);
        case Failure(e) =>
          context.Report(e);
          response := DefaultMember;
      }
    }

    method BorrowBook(request: BorrowBookRequest, newId: Id, today: Date, context: ServicerContext)
      returns (response: BorrowRecordResponse)
      requires Valid() && newId !in service.repository.records && IsValidDate(today)
      requires context.Status() == RpcStatus(OK, "")
      modifies service.repository, context
      ensures Valid()
      ensures context.code == OK <==> response.borrowRecord.Some?
      ensures context.code != OK ==> response == BorrowRecordResponse(None) && unchanged(service.repository)
      ensures context.code == OK ==>
        newId in service.repository.records &&
        response.borrowRecord == Some(ToBorrowRecordMsg(service.repository.records[newId])) &&
        response.borrowRecord.value.status == "BORROWED"
      ensures request.bookId == "" || request.memberId == "" ==>
        context.Status() == RpcStatus(INVALID_ARGUMENT, "Book ID and Member ID are required for borrowing a book.")
      ensures request.bookId != "" && request.memberId != "" ==>
        && (request.bookId !in old(service.repository.books) ==>
              context.Status() == RpcStatus(NOT_FOUND, BookNotFound(request.bookId)))
        && (request.bookId in old(service.repository.books) &&
            !old(service.repository.books[request.bookId].isAvailable) ==>
              context.Status() == RpcStatus(FAILED_PRECONDITION,
                                            "Book with id " + request.bookId + " is not available."))
        && (request.bookId in old(service.repository.books) &&
            old(service.repository.books[request.bookId].isAvailable) &&
            request.memberId !in old(service.repository.members) ==>
              context.Status() == RpcStatus(NOT_FOUND, MemberNotFound(request.memberId)))
        && (request.bookId in old(service.repository.books) &&
            old(service.repository.books[request.bookId].isAvailable) &&
            request.memberId in old(service.repository.members) ==>
              context.code == OK)
    {
      var r := service.BorrowBook(newId, today, request.bookId, request.memberId);
      match r {
        case Success(record) =>
          response := BorrowRecordResponse(Some(ToBorrowRecordMsg(record)));
        case Failure(e) =>
          context.Report(e);
          response := BorrowRecordResponse(None);
      }
    }

    method ReturnBook(request: ReturnBookRequest, today: Date, context: ServicerContext)
      returns (response: BorrowRecordResponse)
      requires Valid() && IsValidDate(today) && context.Status() == RpcStatus(OK, "")
      modifies service.repository, context
      ensures Valid()
      ensures context.code == OK <==> response.borrowRecord.Some?
      ensures context.code != OK ==> response == BorrowRecordResponse(None) && unchanged(service.repository)
      ensures context.code == OK ==>
        request.borrowRecordId in service.repository.records &&
        response.borrowRecord == Some(ToBorrowRecordMsg(service.repository.records[request.borrowRecordId])) &&
        response.borrowRecord.value.status == "RETURNED" &&
        response.borrowRecord.value.returnDate == Some(today)
      ensures request.borrowRecordId == "" ==>
        context.Status() == RpcStatus(INVALID_ARGUMENT, "Borrow record ID is required for returning a book.")
      ensures request.borrowRecordId != "" && request.borrowRecordId !in old(service.repository.records) ==>
        context.Status() == RpcStatus(NOT_FOUND, "Borrow record with id " + request.borrowRecordId + " not found.")
      ensures request.borrowRecordId != "" && request.borrowRecordId in old(service.repository.records) ==>
        && (old(service.repository.records[request.borrowRecordId]).status == RETURNED ==>
              context.Status() == RpcStatus(FAILED_PRECONDITION, "Book for borrow record id " +
                                            request.borrowRecordId + " has already been returned."))
        && (old(service.repository.records[request.borrowRecordId]).status == BORROWED ==> context.code == OK)
    {
      var r := service.ReturnBook(request.borrowRecordId, today);
      match r {
        case Success(Some(record)) =>
          response := BorrowRecordResponse(Some(ToBorrowRecordMsg(record)));
        case Success(None) =>
          // the service checked the record exists before updating it
          assert false;
        case Failure(e) =>
          context.Report(e);
          response := BorrowRecordResponse(None);
      }
    }

    /**
     * One BorrowingDetails per listed record, in the listed order, each
     * pairing the record with its own book and member.
     */
    method ListBorrowings(context: ServicerContext) returns (response: ListBorrowingsResponse, ghost listed: seq<BorrowRecord>)
      requires Valid() && context.Status() == RpcStatus(OK, "")
      ensures |listed| == |service.repository.records| == |response.borrowings|
      ensures forall r :: r in listed <==> r in service.repository.records.Values
      ensures forall i :: 0 <= i < |listed| ==>
        && Joinable(listed[i], service.repository.books, service.repository.members)
        && response.borrowings[i] == DetailsOf(listed[i], service.repository.books, service.repository.members)
    {
      var records := service.ListBorrowings();
      listed := records;
      forall i | 0 <= i < |records|
        ensures Joinable(records[i], service.repository.books, service.repository.members)
      {
        StoredRecordJoinable(service.repository.books, service.repository.members, service.repository.records,
                             records[i]);
      }
      var books, members := service.repository.books, service.repository.members;
      var details := JoinAll(records, r requires Joinable(r, books, members) => DetailsOf(r, books, members));
      response := ListBorrowingsResponse(details);
    }
  }
}
