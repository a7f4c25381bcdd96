/** The two services wired to shared stores, as the application context does. */
module Library {
  import opened Wrappers
  import opened Entities
  import opened Repositories
  import Books
  import Borrowers

  /** A second registration under the same email is refused. */
  method RegisteringTwice(t0: Instant)
  {
    var borrowers := new BorrowerRepository();
    var borrowerService := new Borrowers.BorrowerService(borrowers);

    var alice := borrowerService.CreateBorrower(BorrowerRequest("Alice", "alice@example.org"), t0);
    assert alice == Success(BorrowerResponse(1, "Alice", "alice@example.org", t0));

    assert borrowers.borrowers[0].email == "alice@example.org";
    var again := borrowerService.CreateBorrower(BorrowerRequest("Alicia", "alice@example.org"), t0);
    assert again == Failure(ResourceAlreadyExists(BorrowerWithEmail("alice@example.org")));
  }

  /** A copy under a known ISBN but another title is refused. */
  method AdmittingAConflictingCopy(t1: Instant)
  {
    var books := new BookRepository();
    var borrowers := new BorrowerRepository();
    var bookService := new Books.BookService(books, borrowers);

    var copy := bookService.CreateBook(BookRequest("Dune", "Herbert", "0441172717"), t1);
    assert copy.Success? && copy.value.id == 1 && !copy.value.borrowed;

    assert books.books[0].isbn == "0441172717" && books.books[0].title == "Dune";
    var clash := bookService.CreateBook(BookRequest("Dune Messiah", "Herbert", "0441172717"), t1);
    assert clash == Failure(ResourceAlreadyExists(IsbnWithOtherTitleOrAuthor("0441172717")));
  }

  /**
   * A lending cycle driven through the service contracts alone: lend a
   * copy, refuse a second loan, return it, refuse a second return, refuse
   * an unknown borrower, and lend the returned copy again.
   */
  method LendingCycle(request: BookRequest, reader: BorrowerRequest, t0: Instant, t1: Instant, t2: Instant)
  {
    var books := new BookRepository();
    var borrowers := new BorrowerRepository();
    var bookService := new Books.BookService(books, borrowers);
    var borrowerService := new Borrowers.BorrowerService(borrowers);

    var who := borrowerService.CreateBorrower(reader, t0);
    var copy := bookService.CreateBook(request, t0);
    assert who.Success? && copy.Success?;

    var lent := bookService.BorrowBook(1, 1, t1);
    assert lent.Success? && lent.value.borrowerId == Some(1) && lent.value.borrowedAt == Some(t1);

    var twice := bookService.BorrowBook(1, 1, t1);
    assert twice == Failure(ResourceAlreadyExists(BookAlreadyBorrowed));

    var back := bookService.ReturnBook(1);
    assert back.Success? && !back.value.borrowed && back.value.borrowedAt == None;

    var backAgain := bookService.ReturnBook(1);
    assert backAgain == Failure(ResourceNotFound(BookNotBorrowed));

    var nobody := bookService.BorrowBook(1, 7, t2);
    assert nobody == Failure(ResourceNotFound(BorrowerWithId(7)));

    var relent := bookService.BorrowBook(1, 1, t2);
    assert relent.Success? && relent.value.borrowedAt == Some(t2);
  }
}
