/**
 * The business rules: each operation runs its checks in a fixed order,
 * raises on the first that fails, and only then calls the repository.
 *
 * A raised `ValueError` is `ValueError(message)`, a raised
 * `grpc.RpcError(code, details)` is `RpcError(code, details)`, and an
 * integrity error from a commit is `IntegrityFailure`. The source builds its
 * RpcError with positional arguments and reads them back with `code()` and
 * `details()`, which that class does not define; here the error carries the
 * code and details it was raised with (see `LibraryServer.StatusFor`).
 */
module Service {
  import opened Wrappers
  import opened Dates
  import opened Models
  import opened GrpcStatus
  import opened EmailFormat
  import Repository

  datatype ServiceError =
    | ValueError(message: string)
    | RpcError(code: StatusCode, details: string)
    | IntegrityFailure(violated: Repository.IntegrityError)

  const InvalidDateMessage := "Invalid date format for published_date. Use YYYY-MM-DD."
  const InvalidEmailMessage := "Invalid email format."

  function BookNotFound(id: Id): string { "Book with id " + id + " not found." }
  function MemberNotFound(id: Id): string { "Member with id " + id + " not found." }

  // ---------------------------------------- the borrowing invariant, step by step

  /** A new, available book that no record mentions keeps the invariant. */
  lemma {:induction false} AvailabilityKeptByNewBook(
    books: map<Id, Book>, members: map<Id, Member>, records: map<Id, BorrowRecord>, b: Book)
    requires SchemaHolds(books, members, records) && AvailabilityAgrees(books, records)
    requires b.id !in books && b.isAvailable
    ensures AvailabilityAgrees(books[b.id := b], records)
  {
    assert !HasOpenBorrow(records, b.id) by {
      forall k | k in records ensures records[k].bookId != b.id {
        assert records[k].bookId in books;
      }
    }
  }

  /** Editing a book without touching its flag keeps the invariant. */
  lemma {:induction false} AvailabilityKeptByEdit(books: map<Id, Book>, records: map<Id, BorrowRecord>, b: Book)
    requires AvailabilityAgrees(books, records)
    requires b.id in books && b.isAvailable == books[b.id].isAvailable
    ensures AvailabilityAgrees(books[b.id := b], records)
  {
    var books' := books[b.id := b];
    forall k | k in books' ensures books'[k].isAvailable <==> !HasOpenBorrow(records, k) {
      assert books'[k].isAvailable == books[k].isAvailable;
    }
  }

  /**
   * Borrowing an available book: the new BORROWED record is the book's only
   * one, and the book turns unavailable.
   */
  lemma {:induction false} AvailabilityKeptByBorrow(
    books: map<Id, Book>, records: map<Id, BorrowRecord>, rec: BorrowRecord)
    requires AvailabilityAgrees(books, records)
    requires rec.id !in records && rec.status == BORROWED
    requires rec.bookId in books && books[rec.bookId].isAvailable
    ensures AvailabilityAgrees(books[rec.bookId := books[rec.bookId].(isAvailable := false)],
                               records[rec.id := rec])
  {
    var books' := books[rec.bookId := books[rec.bookId].(isAvailable := false)];
    var records' := records[rec.id := rec];
    assert !HasOpenBorrow(records, rec.bookId);
    assert HasOpenBorrow(records', rec.bookId) by {
      assert records'[rec.id] == rec;
    }
    forall b | b in books' && b != rec.bookId
      ensures HasOpenBorrow(records', b) <==> HasOpenBorrow(records, b)
    {
      if HasOpenBorrow(records', b) {
        var k :| k in records' && records'[k].bookId == b && records'[k].status == BORROWED;
        assert k != rec.id && records[k] == records'[k];
      }
      if HasOpenBorrow(records, b) {
        var k :| k in records && records[k].bookId == b && records[k].status == BORROWED;
        assert k != rec.id && records'[k] == records[k];
      }
    }
    forall r1, r2 | r1 in records' && r2 in records' &&
                    records'[r1].status == BORROWED && records'[r2].status == BORROWED &&
                    records'[r1].bookId == records'[r2].bookId
      ensures r1 == r2
    {
      if r1 != rec.id && r2 != rec.id {
        assert records[r1] == records'[r1] && records[r2] == records'[r2];
      }
    }
  }

  /**
   * Returning a BORROWED record: it was the book's only open one, so the
   * book has none left and turns available.
   */
  lemma {:induction false} AvailabilityKeptByReturn(
    books: map<Id, Book>, records: map<Id, BorrowRecord>, id: Id, today: Date)
    requires AvailabilityAgrees(books, records)
    requires id in records && records[id].status == BORROWED && records[id].bookId in books
    ensures
      var rec := records[id].(returnDate := Some(today), status := RETURNED);
      AvailabilityAgrees(books[rec.bookId := books[rec.bookId].(isAvailable := true)], records[id := rec])
  {
    var rec := records[id].(returnDate := Some(today), status := RETURNED);
    var books' := books[rec.bookId := books[rec.bookId].(isAvailable := true)];
    var records' := records[id := rec];
    assert !HasOpenBorrow(records', rec.bookId) by {
      forall k | k in records' && records'[k].bookId == rec.bookId
        ensures records'[k].status != BORROWED
      {
        if k != id {
          assert records'[k] == records[k];
        }
      }
    }
    forall b | b in books' && b != rec.bookId
      ensures HasOpenBorrow(records', b) <==> HasOpenBorrow(records, b)
    {
      if HasOpenBorrow(records, b) {
        var k :| k in records && records[k].bookId == b && records[k].status == BORROWED;
        assert k != id && records'[k] == records[k];
      }
      if HasOpenBorrow(records', b) {
        var k :| k in records' && records'[k].bookId == b && records'[k].status == BORROWED;
        assert k != id && records'[k] == records[k];
      }
    }
    forall r1, r2 | r1 in records' && r2 in records' &&
                    records'[r1].status == BORROWED && records'[r2].status == BORROWED &&
                    records'[r1].bookId == records'[r2].bookId
      ensures r1 == r2
    {
      assert r1 != id && r2 != id;
      assert records[r1] == records'[r1] && records[r2] == records'[r2];
    }
  }

  /** Removing a book that no record mentions keeps the invariant. */
  lemma {:induction false} AvailabilityKeptByDelete(books: map<Id, Book>, records: map<Id, BorrowRecord>, id: Id)
    requires AvailabilityAgrees(books, records)
    ensures AvailabilityAgrees(books - {id}, records)
  {
    var books' := books - {id};
    forall k | k in books' ensures books'[k].isAvailable <==> !HasOpenBorrow(records, k) {
      assert books'[k] == books[k];
    }
  }

  // ------------------------------------------------------------ the service

  class LibraryService {
    const repository: Repository.LibraryRepository

    /** The schema holds and availability agrees with the open borrow records. */
    ghost predicate Valid()
      reads this, repository
    {
      repository.Valid() && AvailabilityAgrees(repository.books, repository.records)
    }

    constructor (repository: Repository.LibraryRepository)
      requires repository.Valid() && AvailabilityAgrees(repository.books, repository.records)
      ensures this.repository == repository && Valid()
    {
      this.repository := repository;
    }

    /**
     * All four fields are required and the date must parse; then the book is
     * stored under the fresh id `newId`.
     */
    method CreateBook(newId: Id, title: string, author: string, publishedDate: string, isbn: string)
      returns (r: Result<Book, ServiceError>)
      requires Valid() && newId !in repository.books
      modifies repository
      ensures Valid()
      ensures r.Failure? ==> unchanged(repository)
      ensures title == "" || author == "" || publishedDate == "" || isbn == "" ==>
        r == Failure(ValueError("All fields are required for creating a book."))
      ensures title != "" && author != "" && publishedDate != "" && isbn != "" ==>
        && (ParseDate(publishedDate).None? ==> r == Failure(ValueError(InvalidDateMessage)))
        && (ParseDate(publishedDate).Some? && IsbnTaken(old(repository.books), isbn, newId) ==>
              r == Failure(IntegrityFailure(Repository.DuplicateIsbn)))
        && (ParseDate(publishedDate).Some? && !IsbnTaken(old(repository.books), isbn, newId) ==>
              && r == Success(Book(newId, title, author, ParseDate(publishedDate).value, isbn, true))
              && repository.books == old(repository.books)[newId := r.value]
              && repository.members == old(repository.members)
              && repository.records == old(repository.records))
    {
      if title == "" || author == "" || publishedDate == "" || isbn == "" {
        return Failure(ValueError("All fields are required for creating a book."));
      }
      var date := ParseDate(publishedDate);
      if date.None? {
        return Failure(ValueError(InvalidDateMessage));
      }
      ghost var books, records := repository.books, repository.records;
      var created := repository.CreateBook(newId, title, author, date.value, isbn);
      match created {
        case Success(book) =>
          AvailabilityKeptByNewBook(books, repository.members, records, book);
          r := Success(book);
        case Failure(e) =>
          r := Failure(IntegrityFailure(e));
      }
    }

    /**
     * All five fields are required; an unknown id answers None BEFORE the
     * date is parsed, so a bad date on a missing book is not an error.
     */
    method UpdateBook(bookId: Id, title: string, author: string, publishedDate: string, isbn: string)
      returns (r: Result<Option<Book>, ServiceError>)
      requires Valid()
      modifies repository
      ensures Valid()
      ensures r.Failure? || r == Success(None) ==> unchanged(repository)
      ensures bookId == "" || title == "" || author == "" || publishedDate == "" || isbn == "" ==>
        r == Failure(ValueError("All fields are required for updating a book."))
      ensures bookId != "" && title != "" && author != "" && publishedDate != "" && isbn != "" ==>
        && (bookId !in old(repository.books) ==> r == Success(None))
        && (bookId in old(repository.books) && ParseDate(publishedDate).None? ==>
              r == Failure(ValueError(InvalidDateMessage)))
        && (bookId in old(repository.books) && ParseDate(publishedDate).Some? &&
            IsbnTaken(old(repository.books), isbn, bookId) ==>
              r == Failure(IntegrityFailure(Repository.DuplicateIsbn)))
        && (bookId in old(repository.books) && ParseDate(publishedDate).Some? &&
            !IsbnTaken(old(repository.books), isbn, bookId) ==>
              && r.Success? && r.value.Some?
              && r.value.value == old(repository.books[bookId]).(title := title, author := author,
                                    publishedDate := ParseDate(publishedDate).value, isbn := isbn)
              && repository.books == old(repository.books)[bookId := r.value.value]
              && repository.members == old(repository.members)
              && repository.records == old(repository.records))
    {
      if bookId == "" || title == "" || author == "" || publishedDate == "" || isbn == "" {
        return Failure(ValueError("All fields are required for updating a book."));
      }
      var book := repository.GetBookById(bookId);
      if book.None? {
        return Success(None);
      }
      var date := ParseDate(publishedDate);
      if date.None? {
        return Failure(ValueError(InvalidDateMessage));
      }
      ghost var books := repository.books;
      var updated := repository.UpdateBook(bookId, title, author, date.value, isbn);
      match updated {
        case Success(b) =>
          if b.Some? {
            AvailabilityKeptByEdit(books, repository.records, b.value);
          }
          r := Success(b);
        case Failure(e) =>
          r := Failure(IntegrityFailure(e));
      }
    }

    /**
     * The id is required and must name a book; the delete then fails only on
     * the foreign key of a borrow record that still mentions the book.
     */
    method DeleteBook(bookId: Id) returns (r: Result<bool, ServiceError>)
      requires Valid()
      modifies repository
      ensures Valid()
      ensures r.Failure? ==> unchanged(repository)
      ensures bookId == "" ==> r == Failure(ValueError("Book ID is required for deleting a book."))
      ensures bookId != "" && bookId !in old(repository.books) ==>
        r == Failure(RpcError(NOT_FOUND, BookNotFound(bookId)))
      ensures bookId != "" && bookId in old(repository.books) && BookReferenced(old(repository.records), bookId) ==>
        r == Failure(IntegrityFailure(Repository.ForeignKeyViolation))
      ensures bookId != "" && bookId in old(repository.books) && !BookReferenced(old(repository.records), bookId) ==>
        && r == Success(true)
        && repository.books == old(repository.books) - {bookId}
        && repository.members == old(repository.members)
        && repository.records == old(repository.records)
    {
      if bookId == "" {
        return Failure(ValueError("Book ID is required for deleting a book."));
      }
      var book := repository.GetBookById(bookId);
      if book.None? {
        return Failure(RpcError(NOT_FOUND, BookNotFound(bookId)));
      }
      ghost var books := repository.books;
      var deleted := repository.DeleteBook(bookId);
      AvailabilityKeptByDelete(books, repository.records, bookId);
      match deleted {
        case Success(found) => r := Success(found);
        case Failure(e) => r := Failure(IntegrityFailure(e));
      }
    }

    /** The id is required and must name a book; nothing changes. */
    method GetBook(bookId: Id) returns (r: Result<Book, ServiceError>)
      requires Valid()
      ensures bookId == "" ==> r == Failure(ValueError("Book ID is required for getting a book."))
      ensures bookId != "" && bookId !in repository.books ==>
        r == Failure(RpcError(NOT_FOUND, BookNotFound(bookId)))
      ensures bookId != "" && bookId in repository.books ==>
        r.Success? && r.value == repository.books[bookId] && r.value.id == bookId
    {
      if bookId == "" {
        return Failure(ValueError("Book ID is required for getting a book."));
      }
      var book := repository.GetBookById(bookId);
      if book.None? {
        return Failure(RpcError(NOT_FOUND, BookNotFound(bookId)));
      }
      r := Success(book.value);
    }

    method ListBooks() returns (bs: seq<Book>)
      ensures |bs| == |repository.books|
      ensures forall b :: b in bs <==> b in repository.books.Values
    {
      bs := repository.ListBooks();
    }

    method ListMembers() returns (ms: seq<Member>)
      ensures |ms| == |repository.members|
      ensures forall m :: m in ms <==> m in repository.members.Values
    {
      ms := repository.ListAllMembers();
    }

    /**
     * Name and email are required, the email must pass the format check and
     * must not be in use; then the member is stored under `newId`, joined `today`.
     */
    method CreateMember(newId: Id, today: Date, name: string, email: string)
      returns (r: Result<Member, ServiceError>)
      requires Valid() && newId !in repository.members && IsValidDate(today)
      modifies repository
      ensures Valid()
      ensures r.Failure? ==> unchanged(repository)
      ensures name == "" || email == "" ==>
        r == Failure(ValueError("Name and email are required for creating a member."))
      ensures name != "" && email != "" ==>
        && (!IsValidEmailFormat(email) ==> r == Failure(ValueError(InvalidEmailMessage)))
        && (IsValidEmailFormat(email) && EmailInUse(old(repository.members), email) ==>
              r == Failure(RpcError(ALREADY_EXISTS, "Member with email " + email + " already exists.")))
        && (IsValidEmailFormat(email) && !EmailInUse(old(repository.members), email) ==>
              && r == Success(Member(newId, name, email, today))
              && repository.members == old(repository.members)[newId := r.value]
              && repository.books == old(repository.books)
              && repository.records == old(repository.records))
    {
      if name == "" || email == "" {
        return Failure(ValueError("Name and email are required for creating a member."));
      }
      if !IsValidEmailFormat(email) {
        return Failure(ValueError(InvalidEmailMessage));
      }
      var existing := repository.GetMemberByEmail(email);
      if existing.Some? {
        return Failure(RpcError(ALREADY_EXISTS, "Member with email " + email + " already exists."));
      }
      var created := repository.CreateMember(newId, name, email, today);
      match created {
        case Success(m) => r := Success(m);
        case Failure(e) => r := Failure(IntegrityFailure(e));
      }
    }

    /**
     * All fields are required; then, in this order, the member must exist,
     * the email must pass the format check, and no OTHER member may hold the
     * email (keeping one's own email is allowed).
     */
    method UpdateMember(memberId: Id, name: string, email: string)
      returns (r: Result<Option<Member>, ServiceError>)
      requires Valid()
      modifies repository
      ensures Valid()
      ensures r.Failure? ==> unchanged(repository)
      ensures memberId == "" || name == "" || email == "" ==>
        r == Failure(ValueError("All fields are required for updating a member."))
      ensures memberId != "" && name != "" && email != "" ==>
        && (memberId !in old(repository.members) ==>
              r == Failure(RpcError(NOT_FOUND, MemberNotFound(memberId))))
        && (memberId in old(repository.members) && !IsValidEmailFormat(email) ==>
              r == Failure(ValueError(InvalidEmailMessage)))
        && (memberId in old(repository.members) && IsValidEmailFormat(email) &&
            EmailTaken(old(repository.members), email, memberId) ==>
              r == Failure(RpcError(ALREADY_EXISTS, "Another member with email " + email + " already exists.")))
        && (memberId in old(repository.members) && IsValidEmailFormat(email) &&
            !EmailTaken(old(repository.members), email, memberId) ==>
              && r == Success(Some(old(repository.members[memberId]).(name := name, email := email)))
              && repository.members == old(repository.members)[memberId := r.value.value]
              && repository.books == old(repository.books)
              && repository.records == old(repository.records))
    {
      if memberId == "" || name == "" || email == "" {
        return Failure(ValueError("All fields are required for updating a member."));
      }
      var member := repository.GetMemberById(memberId);
      if member.None? {
        return Failure(RpcError(NOT_FOUND, MemberNotFound(memberId)));
      }
      if !IsValidEmailFormat(email) {
        return Failure(ValueError(InvalidEmailMessage));
      }
      var existing := repository.GetMemberByEmail(email);
      if existing.Some? && existing.value.id != memberId {
        return Failure(RpcError(ALREADY_EXISTS, "Another member with email " + email + " already exists."));
      }
      var updated := repository.UpdateMember(memberId, name, email);
      match updated {
        case Success(m) => r := Success(m);
        case Failure(e) => r := Failure(IntegrityFailure(e));
      }
    }

    /**
     * The id is required and must name a member; the delete then fails only
     * on the foreign key of a borrow record that still mentions the member.
     */
    method DeleteMember(memberId: Id) returns (r: Result<bool, ServiceError>)
      requires Valid()
      modifies repository
      ensures Valid()
      ensures r.Failure? ==> unchanged(repository)
      ensures memberId == "" ==> r == Failure(ValueError("Member ID is required for deleting a member."))
      ensures memberId != "" && memberId !in old(repository.members) ==>
        r == Failure(RpcError(NOT_FOUND, MemberNotFound(memberId)))
      ensures memberId != "" && memberId in old(repository.members) &&
              MemberReferenced(old(repository.records), memberId) ==>
        r == Failure(IntegrityFailure(Repository.ForeignKeyViolation))
      ensures memberId != "" && memberId in old(repository.members) &&
              !MemberReferenced(old(repository.records), memberId) ==>
        && r == Success(true)
        && repository.members == old(repository.members) - {memberId}
        && repository.books == old(repository.books)
        && repository.records == old(repository.records)
    {
      if memberId == "" {
        return Failure(ValueError("Member ID is required for deleting a member."));
      }
      var member := repository.GetMemberById(memberId);
      if member.None? {
        return Failure(RpcError(NOT_FOUND, MemberNotFound(memberId)));
      }
      var deleted := repository.DeleteMember(memberId);
      match deleted {
        case Success(found) => r := Success(found);
        case Failure(e) => r := Failure(IntegrityFailure(e));
      }
    }

    /** The id is required and must name a member; nothing changes. */
    method GetMember(memberId: Id) returns (r: Result<Member, ServiceError>)
      requires Valid()
      ensures memberId == "" ==> r == Failure(ValueError("Member ID is required for getting a member."))
      ensures memberId != "" && memberId !in repository.members ==>
        r == Failure(RpcError(NOT_FOUND, MemberNotFound(memberId)))
      ensures memberId != "" && memberId in repository.members ==>
        r.Success? && r.value == repository.members[memberId] && r.value.id == memberId
    {
      if memberId == "" {
        return Failure(ValueError("Member ID is required for getting a member."));
      }
      var member := repository.GetMemberById(memberId);
      if member.None? {
        return Failure(RpcError(NOT_FOUND, MemberNotFound(memberId)));
      }
      r := Success(member.value);
    }

    /**
     * Both ids are required; then, in this order, the book must exist, the
     * book must be available, and the member must exist. Only then is a
     * BORROWED record stored under `newId` and the book marked unavailable.
     */
    method BorrowBook(newId: Id, today: Date, bookId: Id, memberId: Id)
      returns (r: Result<BorrowRecord, ServiceError>)
      requires Valid() && newId !in repository.records && IsValidDate(today)
      modifies repository
      ensures Valid()
      ensures r.Failure? ==> unchanged(repository)
      ensures bookId == "" || memberId == "" ==>
        r == Failure(ValueError("Book ID and Member ID are required for borrowing a book."))
      ensures bookId != "" && memberId != "" ==>
        && (bookId !in old(repository.books) ==>
              r == Failure(RpcError(NOT_FOUND, BookNotFound(bookId))))
        && (bookId in old(repository.books) && !old(repository.books[bookId].isAvailable) ==>
              r == Failure(RpcError(FAILED_PRECONDITION, "Book with id " + bookId + " is not available.")))
        && (bookId in old(repository.books) && old(repository.books[bookId].isAvailable) &&
            memberId !in old(repository.members) ==>
              r == Failure(RpcError(NOT_FOUND, MemberNotFound(memberId))))
        && (bookId in old(repository.books) && old(repository.books[bookId].isAvailable) &&
            memberId in old(repository.members) ==>
              && r == Success(BorrowRecord(newId, bookId, memberId, today, None, BORROWED))
              && repository.records == old(repository.records)[newId := r.value]
              && repository.books == old(repository.books)[bookId := old(repository.books[bookId]).(isAvailable := false)]
              && !repository.books[bookId].isAvailable
              && repository.members == old(repository.members))
    {
      if bookId == "" || memberId == "" {
        return Failure(ValueError("Book ID and Member ID are required for borrowing a book."));
      }
      var book := repository.GetBookById(bookId);
      if book.None? {
        return Failure(RpcError(NOT_FOUND, BookNotFound(bookId)));
      }
      if !book.value.isAvailable {
        return Failure(RpcError(FAILED_PRECONDITION, "Book with id " + bookId + " is not available."));
      }
      var member := repository.GetMemberById(memberId);
      if member.None? {
        return Failure(RpcError(NOT_FOUND, MemberNotFound(memberId)));
      }
      ghost var books, records := repository.books, repository.records;
      var created := repository.CreateBorrowRecord(newId, bookId, memberId, today);
      match created {
        case Success(rec) =>
          AvailabilityKeptByBorrow(books, records, rec);
          r := Success(rec);
        case Failure(e) =>
          r := Failure(IntegrityFailure(e));
      }
    }

    /**
     * The id is required and must name a record that is not yet RETURNED;
     * then the record is RETURNED as of `today` and its book available again.
     * A second return of the same record therefore always fails the same way.
     */
    method ReturnBook(recordId: Id, today: Date) returns (r: Result<Option<BorrowRecord>, ServiceError>)
      requires Valid() && IsValidDate(today)
      modifies repository
      ensures Valid()
      ensures r.Failure? ==> unchanged(repository)
      ensures recordId == "" ==>
        r == Failure(ValueError("Borrow record ID is required for returning a book."))
      ensures recordId != "" && recordId !in old(repository.records) ==>
        r == Failure(RpcError(NOT_FOUND, "Borrow record with id " + recordId + " not found."))
      ensures recordId != "" && recordId in old(repository.records) &&
              old(repository.records[recordId]).status == RETURNED ==>
        r == Failure(RpcError(FAILED_PRECONDITION,
                              "Book for borrow record id " + recordId + " has already been returned."))
      ensures recordId != "" && recordId in old(repository.records) &&
              old(repository.records[recordId]).status == BORROWED ==>
        && r.Success? && r.value.Some?
        && r.value.value == old(repository.records[recordId]).(status := RETURNED, returnDate := Some(today))
        && repository.records == old(repository.records)[recordId := r.value.value]
        && repository.records[recordId].status == RETURNED
        && repository.books[r.value.value.bookId].isAvailable
        && repository.books == old(repository.books)[r.value.value.bookId :=
                                 old(repository.books[r.value.value.bookId]).(isAvailable := true)]
        && repository.members == old(repository.members)
    {
      if recordId == "" {
        return Failure(ValueError("Borrow record ID is required for returning a book."));
      }
      var record := repository.GetBorrowRecordById(recordId);
      if record.None? {
        return Failure(RpcError(NOT_FOUND, "Borrow record with id " + recordId + " not found."));
      }
      if record.value.status == RETURNED {
        return Failure(RpcError(FAILED_PRECONDITION,
                                "Book for borrow record id " + recordId + " has already been returned."));
      }
      ghost var books, records := repository.books, repository.records;
      var updated := repository.UpdateBorrowRecordStatusToReturned(recordId, today);
      AvailabilityKeptByReturn(books, records, recordId, today);
      r := Success(updated);
    }

    method ListBorrowings() returns (rs: seq<BorrowRecord>)
      ensures |rs| == |repository.records|
      ensures forall x :: x in rs <==> x in repository.records.Values
    {
      rs := repository.ListAllBorrowings();
    }
  }
}
