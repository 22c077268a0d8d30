/**
 * The backend's stored entities (the three tables), their defaults and the
 * constraints the database enforces on every commit.
 */
module Models {
  import opened Wrappers
  import opened Dates

  /** Primary keys are strings (fresh UUID text for new rows). */
  type Id = string

  /** The two states of a borrow record. */
  datatype BorrowingStatus = BORROWED | RETURNED

  /** A row of `books`; every column but `is_available` is NOT NULL. */
  datatype Book = Book(
    id: Id,
    title: string,
    author: string,
    publishedDate: Date,
    isbn: string,
    isAvailable: bool)

  /** A row of `members`. */
  datatype Member = Member(id: Id, name: string, email: string, joinDate: Date)

  /** A row of `borrow_records`; only `return_date` is nullable. */
  datatype BorrowRecord = BorrowRecord(
    id: Id,
    bookId: Id,
    memberId: Id,
    borrowDate: Date,
    returnDate: Option<Date>,
    status: BorrowingStatus)

  /** A book as inserted: `is_available` takes its column default, true. */
  function NewBook(id: Id, title: string, author: string, publishedDate: Date, isbn: string): (b: Book)
    ensures b.id == id && b.isAvailable
  {
    Book(id, title, author, publishedDate, isbn, true)
  }

  /** A borrow record as inserted: status BORROWED and no return date. */
  function NewBorrowRecord(id: Id, bookId: Id, memberId: Id, today: Date): (r: BorrowRecord)
    ensures r.id == id && r.status == BORROWED && r.returnDate == None
  {
    BorrowRecord(id, bookId, memberId, today, None, BORROWED)
  }

  // ------------------------------------------------------------ constraints

  /** Some book other than `except` already has this isbn. */
  predicate IsbnTaken(books: map<Id, Book>, isbn: string, except: Id)
  {
    exists k :: k in books && k != except && books[k].isbn == isbn
  }

  /** Some member other than `except` already has this email. */
  predicate EmailTaken(members: map<Id, Member>, email: string, except: Id)
  {
    exists k :: k in members && k != except && members[k].email == email
  }

  /** Some member has this email. */
  predicate EmailInUse(members: map<Id, Member>, email: string)
  {
    exists k :: k in members && members[k].email == email
  }

  /** Some borrow record points at this book. */
  predicate BookReferenced(records: map<Id, BorrowRecord>, bookId: Id)
  {
    exists k :: k in records && records[k].bookId == bookId
  }

  /** Some borrow record points at this member. */
  predicate MemberReferenced(records: map<Id, BorrowRecord>, memberId: Id)
  {
    exists k :: k in records && records[k].memberId == memberId
  }

  /** Each row sits under its own primary key, and every stored date is a real date. */
  ghost predicate KeyedAndDated(books: map<Id, Book>, members: map<Id, Member>, records: map<Id, BorrowRecord>)
  {
    (forall k :: k in books ==> books[k].id == k && IsValidDate(books[k].publishedDate)) &&
    (forall k :: k in members ==> members[k].id == k && IsValidDate(members[k].joinDate)) &&
    (forall k :: k in records ==>
       && records[k].id == k
       && IsValidDate(records[k].borrowDate)
       && (records[k].returnDate.Some? ==> IsValidDate(records[k].returnDate.value)))
  }

  /** `isbn` is UNIQUE in `books`. */
  ghost predicate IsbnUnique(books: map<Id, Book>)
  {
    forall a, b :: a in books && b in books && books[a].isbn == books[b].isbn ==> a == b
  }

  /** `email` is UNIQUE in `members`. */
  ghost predicate EmailUnique(members: map<Id, Member>)
  {
    forall a, b :: a in members && b in members && members[a].email == members[b].email ==> a == b
  }

  /** The two foreign keys of `borrow_records`. */
  ghost predicate ReferencesExist(books: map<Id, Book>, members: map<Id, Member>, records: map<Id, BorrowRecord>)
  {
    forall k :: k in records ==> records[k].bookId in books && records[k].memberId in members
  }

  /** Everything the schema guarantees of a committed state. */
  ghost predicate SchemaHolds(books: map<Id, Book>, members: map<Id, Member>, records: map<Id, BorrowRecord>)
  {
    KeyedAndDated(books, members, records) &&
    IsbnUnique(books) && EmailUnique(members) &&
    ReferencesExist(books, members, records)
  }

  // ------------------------------------------------- the borrowing invariant

  /** The book has a record in state BORROWED. */
  predicate HasOpenBorrow(records: map<Id, BorrowRecord>, bookId: Id)
  {
    exists k :: k in records && records[k].bookId == bookId && records[k].status == BORROWED
  }

  /**
   * What borrowing and returning keep true: a book is unavailable exactly
   * when it has a BORROWED record, and it never has two.
   */
  ghost predicate AvailabilityAgrees(books: map<Id, Book>, records: map<Id, BorrowRecord>)
  {
    (forall b :: b in books ==> (books[b].isAvailable <==> !HasOpenBorrow(records, b))) &&
    (forall r1, r2 ::
       r1 in records && r2 in records &&
       records[r1].status == BORROWED && records[r2].status == BORROWED &&
       records[r1].bookId == records[r2].bookId
       ==> r1 == r2)
  }

  // ------------------------------------------------- schema-keeping updates

  /** Changing only the availability flag of a stored book keeps the schema. */
  lemma SchemaKeptByFlag(books: map<Id, Book>, members: map<Id, Member>, records: map<Id, BorrowRecord>,
                         bookId: Id, flag: bool)
    requires SchemaHolds(books, members, records) && bookId in books
    ensures SchemaHolds(books[bookId := books[bookId].(isAvailable := flag)], members, records)
  {
    var books' := books[bookId := books[bookId].(isAvailable := flag)];
    assert books'.Keys == books.Keys;
    assert forall k :: k in books' ==> books'[k].isbn == books[k].isbn;
  }

  /** Storing a record under its own fresh key, with existing references, keeps the schema. */
  lemma SchemaKeptByRecord(books: map<Id, Book>, members: map<Id, Member>, records: map<Id, BorrowRecord>,
                           rec: BorrowRecord)
    requires SchemaHolds(books, members, records)
    requires rec.bookId in books && rec.memberId in members
    requires IsValidDate(rec.borrowDate) && (rec.returnDate.Some? ==> IsValidDate(rec.returnDate.value))
    ensures SchemaHolds(books, members, records[rec.id := rec])
  {
  }
}
