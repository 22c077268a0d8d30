/**
 * The messages of the `library` gRPC service as the servicer builds them.
 * A message-typed field left unset is `None`; scalar fields always carry a
 * value (proto3 defaults: "" and false).
 */
module LibraryProto {
  import opened Wrappers
  import opened Dates

  datatype BookMsg = BookMsg(
    id: string,
    title: string,
    author: string,
    publishedDate: string,
    isbn: string,
    isAvailable: bool)

  datatype MemberMsg = MemberMsg(id: string, name: string, email: string, joinDate: string)

  /**
   * `return_date` is a google.protobuf.Timestamp for midnight UTC of the
   * return day; the day stands for it here. `status` is the enum value
   * named like the stored status.
   */
  datatype BorrowRecordMsg = BorrowRecordMsg(
    id: string,
    bookId: string,
    memberId: string,
    borrowDate: string,
    returnDate: Option<Date>,
    status: string)

  datatype BorrowingDetailsMsg = BorrowingDetailsMsg(borrowRecord: BorrowRecordMsg, book: BookMsg, member: MemberMsg)

  // ---------------------------------------------------------------- requests

  datatype CreateBookRequest = CreateBookRequest(title: string, author: string, publishedDate: string, isbn: string)
  datatype UpdateBookRequest = UpdateBookRequest(id: string, title: string, author: string, publishedDate: string, isbn: string)
  /** The request of DeleteBook, GetBook, DeleteMember and GetMember. */
  datatype IdRequest = IdRequest(id: string)
  datatype CreateMemberRequest = CreateMemberRequest(name: string, email: string)
  datatype UpdateMemberRequest = UpdateMemberRequest(id: string, name: string, email: string)
  datatype BorrowBookRequest = BorrowBookRequest(bookId: string, memberId: string)
  datatype ReturnBookRequest = ReturnBookRequest(borrowRecordId: string)

  // --------------------------------------------------------------- responses

  /** CreateBookResponse and UpdateBookResponse. */
  datatype BookResponse = BookResponse(book: Option<BookMsg>)
  /** CreateMemberResponse and UpdateMemberResponse. */
  datatype MemberResponse = MemberResponse(member: Option<MemberMsg>)
  /** BorrowBookResponse and ReturnBookResponse. */
  datatype BorrowRecordResponse = BorrowRecordResponse(borrowRecord: Option<BorrowRecordMsg>)
  /** google.protobuf.Empty. */
  datatype EmptyMsg = EmptyMsg
  datatype ListBooksResponse = ListBooksResponse(books: seq<BookMsg>)
  datatype ListMembersResponse = ListMembersResponse(members: seq<MemberMsg>)
  datatype ListBorrowingsResponse = ListBorrowingsResponse(borrowings: seq<BorrowingDetailsMsg>)

  /** The empty Book and Member messages, every field at its default. */
  const DefaultBook := BookMsg("", "", "", "", "", false)
  const DefaultMember := MemberMsg("", "", "", "")
}
