/**
 * The data-access layer: one object over the three tables, whose methods
 * insert, overwrite and delete rows in place and commit.
 *
 * The database session becomes the three maps. A commit that would break a
 * constraint of the schema (a duplicate isbn or email, a borrow record whose
 * book or member does not exist) raises an integrity error and is rolled
 * back, so such a method returns Failure and leaves every table as it was.
 */
module Repository {
  import opened Wrappers
  import opened Dates
  import opened Models

  /** The constraint a failed commit violated. */
  datatype IntegrityError = DuplicateIsbn | DuplicateEmail | ForeignKeyViolation

  /**
   * The rows of a table, each exactly once, in whatever order the query
   * yields them (the queries have no ORDER BY).
   */
  method Rows<V(==)>(table: map<Id, V>) returns (rows: seq<V>)
    ensures |rows| == |table|
    ensures forall v :: v in rows <==> v in table.Values
  {
    rows := [];
    ghost var keys: seq<Id> := [];
    var rest := table.Keys;
    while rest != {}
      invariant rest <= table.Keys
      invariant |keys| == |rows| && |rows| + |rest| == |table|
      invariant forall k :: k in table ==> (k in rest <==> k !in keys)
      invariant forall i :: 0 <= i < |keys| ==> keys[i] in table && rows[i] == table[keys[i]]
      decreases rest
    {
      var k :| k in rest;
      assert rest == (rest - {k}) + {k};
      keys, rows := keys + [k], rows + [table[k]];
      rest := rest - {k};
    }
    forall v | v in table.Values ensures v in rows {
      var k :| k in table && table[k] == v;
      var i :| 0 <= i < |keys| && keys[i] == k;
      assert rows[i] == v;
    }
  }

  class LibraryRepository {
    var books: map<Id, Book>
    var members: map<Id, Member>
    var records: map<Id, BorrowRecord>

    /** The committed state satisfies the schema. */
    ghost predicate Valid()
      reads this
    {
      SchemaHolds(books, members, records)
    }

    constructor ()
      ensures Valid()
      ensures books == map[] && members == map[] && records == map[]
    {
      books, members, records := map[], map[], map[];
    }

    // --------------------------------------------------------------- books

    function GetBookById(id: Id): Option<Book>
      reads this
    {
      if id in books then Some(books[id]) else None
    }

    /** Inserts a new book under the fresh key `id`; it starts out available. */
    method CreateBook(id: Id, title: string, author: string, publishedDate: Date, isbn: string)
      returns (r: Result<Book, IntegrityError>)
      requires Valid() && id !in books && IsValidDate(publishedDate)
      modifies this
      ensures Valid()
      ensures IsbnTaken(old(books), isbn, id) ==> r == Failure(DuplicateIsbn) && unchanged(this)
      ensures !IsbnTaken(old(books), isbn, id) ==>
        && r.Success? && r.value.isAvailable
        && r.value == Book(id, title, author, publishedDate, isbn, true)
        && books == old(books)[id := r.value]
        && members == old(members) && records == old(records)
    {
      if IsbnTaken(books, isbn, id) {
        return Failure(DuplicateIsbn);
      }
      var book := NewBook(id, title, author, publishedDate, isbn);
      books := books[id := book];
      r := Success(book);
    }

    /**
     * Overwrites title, author, published date and isbn of an existing book;
     * its id and availability stay. A missing id gives None.
     */
    method UpdateBook(id: Id, title: string, author: string, publishedDate: Date, isbn: string)
      returns (r: Result<Option<Book>, IntegrityError>)
      requires Valid() && IsValidDate(publishedDate)
      modifies this
      ensures Valid()
      ensures id !in old(books) ==> r == Success(None) && unchanged(this)
      ensures id in old(books) && IsbnTaken(old(books), isbn, id) ==>
        r == Failure(DuplicateIsbn) && unchanged(this)
      ensures id in old(books) && !IsbnTaken(old(books), isbn, id) ==>
        && r.Success? && r.value.Some?
        && r.value.value == old(books[id]).(title := title, author := author,
                                           publishedDate := publishedDate, isbn := isbn)
        && r.value.value.id == id && r.value.value.isAvailable == old(books[id].isAvailable)
        && books == old(books)[id := r.value.value]
        && members == old(members) && records == old(records)
    {
      var found := GetBookById(id);
      if found.None? {
        return Success(None);
      }
      if IsbnTaken(books, isbn, id) {
        return Failure(DuplicateIsbn);
      }
      var book := found.value.(title := title, author := author, publishedDate := publishedDate, isbn := isbn);
      books := books[id := book];
      r := Success(Some(book));
    }

    /**
     * Deletes a book, answering whether it existed. A book that a borrow
     * record still points at cannot be deleted: the foreign key fails the commit.
     */
    method DeleteBook(id: Id) returns (r: Result<bool, IntegrityError>)
      requires Valid()
      modifies this
      ensures Valid()
      ensures id !in old(books) ==> r == Success(false) && unchanged(this)
      ensures id in old(books) && BookReferenced(old(records), id) ==>
        r == Failure(ForeignKeyViolation) && unchanged(this)
      ensures id in old(books) && !BookReferenced(old(records), id) ==>
        && r == Success(true) && id !in books
        && books == old(books) - {id}
        && members == old(members) && records == old(records)
    {
      if id !in books {
        return Success(false);
      }
      if BookReferenced(records, id) {
        return Failure(ForeignKeyViolation);
      }
      books := books - {id};
      r := Success(true);
    }

    /** Every book, each once. */
    method ListBooks() returns (bs: seq<Book>)
      ensures |bs| == |books|
      ensures forall b :: b in bs <==> b in books.Values
    {
      bs := Rows(books);
    }

    /**
     * The books no borrow record holds in state BORROWED, judged from the
     * records and not from the availability flag.
     */
    method ListAvailableBooks() returns (bs: seq<Book>)
      requires Valid()
      ensures forall b :: b in bs <==> b in books.Values && !HasOpenBorrow(records, b.id)
      ensures |bs| == |set k | k in books && !HasOpenBorrow(records, k)|
    {
      var borrowed := set k | k in records && records[k].status == BORROWED :: records[k].bookId;
      var available := map k | k in books && k !in borrowed :: books[k];
      bs := Rows(available);
      assert available.Keys == set k | k in books && !HasOpenBorrow(records, k) by {
        forall k | k in books ensures HasOpenBorrow(records, k) <==> k in borrowed {
          if HasOpenBorrow(records, k) {
            var j :| j in records && records[j].bookId == k && records[j].status == BORROWED;
          }
        }
      }
      forall b ensures b in bs <==> b in books.Values && !HasOpenBorrow(records, b.id) {
        if b in bs {
          var k :| k in available && available[k] == b;
          assert books[k] == b && b.id == k;
          assert HasOpenBorrow(records, k) <==> k in borrowed;
        }
        if b in books.Values && !HasOpenBorrow(records, b.id) {
          var k :| k in books && books[k] == b;
          assert b.id == k;
          assert HasOpenBorrow(records, k) <==> k in borrowed;
          assert available[k] == b;
        }
      }
    }

    // ------------------------------------------------------------- members

    /** Every member, each once. */
    method ListAllMembers() returns (ms: seq<Member>)
      ensures |ms| == |members|
      ensures forall m :: m in ms <==> m in members.Values
    {
      ms := Rows(members);
    }

    /** Inserts a new member under the fresh key `id`, joined `today`. */
    method CreateMember(id: Id, name: string, email: string, today: Date)
      returns (r: Result<Member, IntegrityError>)
      requires Valid() && id !in members && IsValidDate(today)
      modifies this
      ensures Valid()
      ensures EmailInUse(old(members), email) ==> r == Failure(DuplicateEmail) && unchanged(this)
      ensures !EmailInUse(old(members), email) ==>
        && r == Success(Member(id, name, email, today))
        && members == old(members)[id := r.value]
        && books == old(books) && records == old(records)
    {
      if EmailInUse(members, email) {
        return Failure(DuplicateEmail);
      }
      var member := Member(id, name, email, today);
      members := members[id := member];
      r := Success(member);
    }

    function GetMemberById(id: Id): Option<Member>
      reads this
    {
      if id in members then Some(members[id]) else None
    }

    /** Overwrites name and email of an existing member; a missing id gives None. */
    method UpdateMember(id: Id, name: string, email: string)
      returns (r: Result<Option<Member>, IntegrityError>)
      requires Valid()
      modifies this
      ensures Valid()
      ensures id !in old(members) ==> r == Success(None) && unchanged(this)
      ensures id in old(members) && EmailTaken(old(members), email, id) ==>
        r == Failure(DuplicateEmail) && unchanged(this)
      ensures id in old(members) && !EmailTaken(old(members), email, id) ==>
        && r.Success? && r.value.Some?
        && r.value.value == old(members[id]).(name := name, email := email)
        && r.value.value.id == id && r.value.value.joinDate == old(members[id].joinDate)
        && members == old(members)[id := r.value.value]
        && books == old(books) && records == old(records)
    {
      var found := GetMemberById(id);
      if found.None? {
        return Success(None);
      }
      if EmailTaken(members, email, id) {
        return Failure(DuplicateEmail);
      }
      var member := found.value.(name := name, email := email);
      members := members[id := member];
      r := Success(Some(member));
    }

    /**
     * Deletes a member, answering whether it existed; a member a borrow
     * record points at cannot be deleted.
     */
    method DeleteMember(id: Id) returns (r: Result<bool, IntegrityError>)
      requires Valid()
      modifies this
      ensures Valid()
      ensures id !in old(members) ==> r == Success(false) && unchanged(this)
      ensures id in old(members) && MemberReferenced(old(records), id) ==>
        r == Failure(ForeignKeyViolation) && unchanged(this)
      ensures id in old(members) && !MemberReferenced(old(records), id) ==>
        && r == Success(true) && id !in members
        && members == old(members) - {id}
        && books == old(books) && records == old(records)
    {
      if id !in members {
        return Success(false);
      }
      if MemberReferenced(records, id) {
        return Failure(ForeignKeyViolation);
      }
      members := members - {id};
      r := Success(true);
    }

    /** The member with this email, if there is one (there is at most one). */
    method GetMemberByEmail(email: string) returns (r: Option<Member>)
      requires Valid()
      ensures r.None? <==> !EmailInUse(members, email)
      ensures r.Some? ==> r.value.id in members && members[r.value.id] == r.value && r.value.email == email
    {
      if !EmailInUse(members, email) {
        return None;
      }
      var k :| k in members && members[k].email == email;
      r := Some(members[k]);
    }

    // ------------------------------------------------------ borrow records

    /**
     * Inserts a BORROWED record under the fresh key `id` and marks the book
     * unavailable. The book is looked up and flagged only if it exists, but a
     * record whose book or member is missing fails the commit on its foreign key.
     */
    method CreateBorrowRecord(id: Id, bookId: Id, memberId: Id, today: Date)
      returns (r: Result<BorrowRecord, IntegrityError>)
      requires Valid() && id !in records && IsValidDate(today)
      modifies this
      ensures Valid()
      ensures bookId !in old(books) || memberId !in old(members) ==>
        r == Failure(ForeignKeyViolation) && unchanged(this)
      ensures bookId in old(books) && memberId in old(members) ==>
        && r.Success? && r.value.status == BORROWED && r.value.returnDate == None
        && r.value == BorrowRecord(id, bookId, memberId, today, None, BORROWED)
        && records == old(records)[id := r.value]
        && books == old(books)[bookId := old(books[bookId]).(isAvailable := false)]
        && members == old(members)
    {
      var record := NewBorrowRecord(id, bookId, memberId, today);
      if bookId !in books || memberId !in members {
        return Failure(ForeignKeyViolation);
      }
      SchemaKeptByRecord(books, members, records, record);
      records := records[id := record];
      SchemaKeptByFlag(books, members, records, bookId, false);
      books := books[bookId := books[bookId].(isAvailable := false)];
      r := Success(record);
    }

    function GetBorrowRecordById(id: Id): Option<BorrowRecord>
      reads this
    {
      if id in records then Some(records[id]) else None
    }

    /**
     * Marks a record RETURNED as of `today` and its book available again. A
     * missing record gives None; a record already RETURNED is answered as it
     * is and nothing changes, so a second call is harmless.
     */
    method UpdateBorrowRecordStatusToReturned(id: Id, today: Date) returns (r: Option<BorrowRecord>)
      requires Valid() && IsValidDate(today)
      modifies this
      ensures Valid()
      ensures id !in old(records) ==> r == None && unchanged(this)
      ensures id in old(records) && old(records[id]).status == RETURNED ==>
        r == Some(old(records[id])) && unchanged(this)
      ensures id in old(records) && old(records[id]).status == BORROWED ==>
        && r.Some? && r.value.status == RETURNED && r.value.returnDate == Some(today)
        && r.value == old(records[id]).(status := RETURNED, returnDate := Some(today))
        && records == old(records)[id := r.value]
        && r.value.bookId in old(books)
        && books == old(books)[r.value.bookId := old(books[r.value.bookId]).(isAvailable := true)]
        && members == old(members)
    {
      var found := GetBorrowRecordById(id);
      if found.None? {
        return None;
      }
      var record := found.value;
      if record.status == RETURNED {
        return Some(record);
      }
      record := record.(returnDate := Some(today), status := RETURNED);
      SchemaKeptByRecord(books, members, records, record);
      records := records[id := record];
      if record.bookId in books {
        SchemaKeptByFlag(books, members, records, record.bookId, true);
        books := books[record.bookId := books[record.bookId].(isAvailable := true)];
      }
      r := Some(record);
    }

    /** Every borrow record, each once. */
    method ListAllBorrowings() returns (rs: seq<BorrowRecord>)
      ensures |rs| == |records|
      ensures forall r :: r in rs <==> r in records.Values
    {
      rs := Rows(records);
    }
  }
}
