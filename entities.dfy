/** The persistent records, the request and response shapes, and the service errors. */
module Entities {
  import opened Wrappers

  /** An identity assigned by the store when a record is first saved. */
  type Id = nat

  /** A reading of the clock, as an opaque ordered value. */
  type Instant = int

  datatype Borrower = Borrower(id: Id, name: string, email: string, createdAt: Instant)

  /**
   * A copy of a book. `borrower` holds the borrowing record itself, as the
   * many-to-one reference does; borrowers are never changed once saved.
   */
  datatype Book = Book(
    id: Id,
    title: string,
    author: string,
    isbn: string,
    borrower: Option<Borrower>,
    borrowedAt: Option<Instant>,
    createdAt: Instant)
  {
    /** A book is on loan exactly when it has a borrower. */
    predicate IsBorrowed() {
      borrower.Some?
    }

    /** The lending invariant: a borrower is recorded exactly when a borrowed-at time is. */
    predicate LendingConsistent() {
      borrower.Some? <==> borrowedAt.Some?
    }
  }

  datatype BookRequest = BookRequest(title: string, author: string, isbn: string)

  datatype BorrowerRequest = BorrowerRequest(name: string, email: string)

  datatype BookResponse = BookResponse(
    id: Id,
    title: string,
    author: string,
    isbn: string,
    borrowed: bool,
    borrowerId: Option<Id>,
    borrowerName: Option<string>,
    borrowedAt: Option<Instant>,
    createdAt: Instant)

  datatype BorrowerResponse = BorrowerResponse(id: Id, name: string, email: string, createdAt: Instant)

  /** What a missing resource was. */
  datatype Missing =
    | BookWithId(bookId: int)
    | BorrowerWithId(borrowerId: int)
    | BookNotBorrowed

  /** Which uniqueness or exclusion rule a request broke. */
  datatype Conflict =
    | IsbnWithOtherTitleOrAuthor(isbn: string)
    | BookAlreadyBorrowed
    | BorrowerWithEmail(email: string)

  /** The two exceptions the services throw. */
  datatype Error =
    | ResourceNotFound(missing: Missing)
    | ResourceAlreadyExists(conflict: Conflict)
}
