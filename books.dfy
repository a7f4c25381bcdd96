/**
 * The book service: registering copies, listing and fetching them, and the
 * lending cycle (available, borrowed, returned).
 */
module Books {
  import opened Wrappers
  import opened Entities
  import opened Repositories

  // ---------------------------------------------------------------------
  // The response a caller sees

  /** `convertToDto`: the catalogue fields always, the loan fields only for a book on loan. */
  function ConvertToDto(book: Book): (dto: BookResponse)
    ensures dto.id == book.id && dto.title == book.title && dto.author == book.author
    ensures dto.isbn == book.isbn && dto.createdAt == book.createdAt
    ensures dto.borrowed <==> book.IsBorrowed()
    ensures dto.borrowed ==>
              dto.borrowerId == Some(book.borrower.value.id) &&
              dto.borrowerName == Some(book.borrower.value.name) &&
              dto.borrowedAt == book.borrowedAt
    ensures !dto.borrowed ==> dto.borrowerId == None && dto.borrowerName == None && dto.borrowedAt == None
  {
    var dto := BookResponse(book.id, book.title, book.author, book.isbn, false, None, None, None, book.createdAt);
    match book.borrower
    case Some(who) =>
      dto.(borrowed := true, borrowerId := Some(who.id), borrowerName := Some(who.name), borrowedAt := book.borrowedAt)
    case None => dto
  }

  /** For a record that keeps the lending invariant, the response shows a loan time exactly when it shows a loan. */
  lemma DtoShowsLoanTimeIffBorrowed(book: Book)
    requires book.LendingConsistent()
    ensures ConvertToDto(book).borrowedAt.Some? <==> ConvertToDto(book).borrowed
    ensures ConvertToDto(book).borrowed ==> ConvertToDto(book).borrowedAt == book.borrowedAt
  {
  }

  // ---------------------------------------------------------------------
  // The catalogue invariants

  /** Every copy that shares an ISBN has the same title and author. */
  ghost predicate IsbnConsistent(books: seq<Book>) {
    forall i, j :: 0 <= i < |books| && 0 <= j < |books| && books[i].isbn == books[j].isbn ==>
      books[i].title == books[j].title && books[i].author == books[j].author
  }

  /** Every stored copy keeps the lending invariant, and ISBNs are used consistently. */
  ghost predicate Catalogue(books: seq<Book>) {
    (forall i :: 0 <= i < |books| ==> books[i].LendingConsistent()) && IsbnConsistent(books)
  }

  /** Some stored copy has exactly this ISBN, title and author. */
  ghost predicate HasCopy(books: seq<Book>, request: BookRequest) {
    exists i :: 0 <= i < |books| &&
      books[i].isbn == request.isbn && books[i].title == request.title && books[i].author == request.author
  }

  /** Some stored copy has this ISBN. */
  ghost predicate IsbnUsed(books: seq<Book>, isbn: string) {
    exists i :: 0 <= i < |books| && books[i].isbn == isbn
  }

  /** The admission rule for a new copy: another copy of a known book, or a new ISBN. */
  ghost predicate Admits(books: seq<Book>, request: BookRequest) {
    HasCopy(books, request) || !IsbnUsed(books, request.isbn)
  }

  /** Some stored copy has this ISBN under another title or author. */
  ghost predicate Conflicts(books: seq<Book>, request: BookRequest) {
    exists i :: 0 <= i < |books| && books[i].isbn == request.isbn &&
      (books[i].title != request.title || books[i].author != request.author)
  }

  /** The record `save` stores for an admitted request. */
  function NewCopy(id: Id, request: BookRequest, now: Instant): (book: Book)
    ensures book.id == id && !book.IsBorrowed() && book.LendingConsistent()
    ensures book.isbn == request.isbn && book.title == request.title && book.author == request.author
  {
    Book(id, request.title, request.author, request.isbn, None, None, now)
  }

  /** On a consistent catalogue, a request is admitted exactly when no stored copy contradicts it. */
  lemma AdmitsIffNoConflict(books: seq<Book>, request: BookRequest)
    requires IsbnConsistent(books)
    ensures Admits(books, request) <==> !Conflicts(books, request)
  {
  }

  /**
   * `createBook` inspects only the first copy `findByIsbn` returns; the
   * verdict would be the same whichever listed copy it inspected.
   */
  lemma AnyListedCopyGivesSameVerdict(books: seq<Book>, request: BookRequest, k: nat)
    requires k < |WithIsbn(books, request.isbn)|
    ensures var b := WithIsbn(books, request.isbn)[k];
            (HasCopy(books, request) || (b.title == request.title && b.author == request.author))
              <==> Admits(books, request)
  {
  }

  /** Admitting a request keeps the catalogue invariants. */
  lemma AdmissionKeepsCatalogue(books: seq<Book>, request: BookRequest, id: Id, now: Instant)
    requires Catalogue(books) && Admits(books, request)
    ensures Catalogue(books + [NewCopy(id, request, now)])
  {
  }

  // ---------------------------------------------------------------------
  // The lending cycle on one record

  /** The catalogue fields of two records agree. */
  predicate SameCopy(a: Book, b: Book) {
    a.id == b.id && a.title == b.title && a.author == b.author && a.isbn == b.isbn && a.createdAt == b.createdAt
  }

  /** Available to borrowed: the record names its borrower and the time of the loan. */
  function Lend(book: Book, who: Borrower, now: Instant): (r: Book)
    ensures SameCopy(r, book) && r.IsBorrowed() && r.LendingConsistent()
    ensures r.borrower == Some(who) && r.borrowedAt == Some(now)
  {
    book.(borrower := Some(who), borrowedAt := Some(now))
  }

  /** Borrowed to available: both loan fields are cleared. */
  function Release(book: Book): (r: Book)
    ensures SameCopy(r, book) && !r.IsBorrowed() && r.LendingConsistent()
    ensures r.borrowedAt == None
  {
    book.(borrower := None, borrowedAt := None)
  }

  /** Returning a book restores the record it had before it was lent. */
  lemma ReleaseUndoesLend(book: Book, who: Borrower, now: Instant)
    requires !book.IsBorrowed() && book.LendingConsistent()
    ensures Release(Lend(book, who, now)) == book
  {
  }

  /** Replacing one record by another copy of the same book keeps the catalogue invariants. */
  lemma ReplaceKeepsCatalogue(books: seq<Book>, k: nat, book: Book)
    requires Catalogue(books) && k < |books|
    requires SameCopy(book, books[k]) && book.LendingConsistent()
    ensures Catalogue(books[k := book])
  {
  }

  // ---------------------------------------------------------------------
  // The service

  class BookService {
    const bookRepository: BookRepository
    const borrowerRepository: BorrowerRepository

    ghost predicate Valid()
      reads this, bookRepository, borrowerRepository
    {
      bookRepository.Valid() && borrowerRepository.Valid() && Catalogue(bookRepository.books)
    }

    constructor (bookRepository: BookRepository, borrowerRepository: BorrowerRepository)
      requires bookRepository.Valid() && borrowerRepository.Valid() && Catalogue(bookRepository.books)
      ensures Valid()
      ensures this.bookRepository == bookRepository && this.borrowerRepository == borrowerRepository
    {
      this.bookRepository := bookRepository;
      this.borrowerRepository := borrowerRepository;
    }

    /**
     * `createBook`: a request is refused when its ISBN is already used by a
     * copy with another title or author; otherwise a new copy is stored.
     */
    method CreateBook(request: BookRequest, now: Instant) returns (r: Result<BookResponse, Error>)
      requires Valid()
      modifies bookRepository
      ensures Valid()
      ensures r.Success? <==> Admits(old(bookRepository.books), request)
      ensures r.Failure? ==>
                r.error == ResourceAlreadyExists(IsbnWithOtherTitleOrAuthor(request.isbn)) &&
                bookRepository.books == old(bookRepository.books)
      ensures r.Success? ==>
                var saved := NewCopy(|old(bookRepository.books)| + 1, request, now);
                bookRepository.books == old(bookRepository.books) + [saved] &&
                r.value == ConvertToDto(saved)
    {
      var bookExists := bookRepository.ExistsByIsbnAndTitleAndAuthor(request.isbn, request.title, request.author);
      if !bookExists {
        var existingBooks := bookRepository.FindByIsbn(request.isbn);
        if existingBooks != [] {
          var existingBook := existingBooks[0];
          assert existingBook in existingBooks;
          if existingBook.title != request.title || existingBook.author != request.author {
            return Failure(ResourceAlreadyExists(IsbnWithOtherTitleOrAuthor(request.isbn)));
          }
        }
      }
      AdmissionKeepsCatalogue(bookRepository.books, request, |bookRepository.books| + 1, now);
      var saved := bookRepository.SaveNew(request.title, request.author, request.isbn, now);
      r := Success(ConvertToDto(saved));
    }

    /** `getAllBooks`: one response per stored copy, in store order. */
    function GetAllBooks(): (r: seq<BookResponse>)
      reads bookRepository
      ensures |r| == |bookRepository.books|
      ensures forall i :: 0 <= i < |r| ==> r[i] == ConvertToDto(bookRepository.books[i])
    {
      var books := bookRepository.books;
      seq(|books|, i requires 0 <= i < |books| => ConvertToDto(books[i]))
    }

    /** `getBookById`: the copy with this id, or not-found. */
    function GetBookById(id: int): (r: Result<BookResponse, Error>)
      reads bookRepository
      requires bookRepository.Valid()
      ensures r.Success? <==> exists i :: 0 <= i < |bookRepository.books| && bookRepository.books[i].id == id
      ensures r.Success? ==> r.value.id == id
      ensures r.Success? ==> exists i :: 0 <= i < |bookRepository.books| && r.value == ConvertToDto(bookRepository.books[i])
      ensures r.Failure? ==> r.error == ResourceNotFound(BookWithId(id))
    {
      match bookRepository.FindById(id)
      case Some(book) => Success(ConvertToDto(book))
      case None => Failure(ResourceNotFound(BookWithId(id)))
    }

    /**
     * `borrowBook`: the book must exist and be available and the borrower
     * must exist, checked in that order; the loan is then recorded on that
     * copy alone.
     */
    method BorrowBook(bookId: int, borrowerId: int, now: Instant) returns (r: Result<BookResponse, Error>)
      requires Valid()
      modifies bookRepository
      ensures Valid()
      ensures r.Failure? ==> bookRepository.books == old(bookRepository.books)
      ensures old(bookRepository.FindById(bookId)).None? ==>
                r == Failure(ResourceNotFound(BookWithId(bookId)))
      ensures old(bookRepository.FindById(bookId)).Some? && old(bookRepository.FindById(bookId)).value.IsBorrowed() ==>
                r == Failure(ResourceAlreadyExists(BookAlreadyBorrowed))
      ensures old(bookRepository.FindById(bookId)).Some? && !old(bookRepository.FindById(bookId)).value.IsBorrowed() &&
              borrowerRepository.FindById(borrowerId).None? ==>
                r == Failure(ResourceNotFound(BorrowerWithId(borrowerId)))
      ensures old(bookRepository.FindById(bookId)).Some? && !old(bookRepository.FindById(bookId)).value.IsBorrowed() &&
              borrowerRepository.FindById(borrowerId).Some? ==>
                var lent := Lend(old(bookRepository.FindById(bookId)).value, borrowerRepository.FindById(borrowerId).value, now);
                bookRepository.books == old(bookRepository.books)[bookId - 1 := lent] &&
                r == Success(ConvertToDto(lent))
    {
      var found := bookRepository.FindById(bookId);
      if found.None? {
        return Failure(ResourceNotFound(BookWithId(bookId)));
      }
      var book := found.value;
      if book.borrower.Some? {
        return Failure(ResourceAlreadyExists(BookAlreadyBorrowed));
      }
      var who := borrowerRepository.FindById(borrowerId);
      if who.None? {
        return Failure(ResourceNotFound(BorrowerWithId(borrowerId)));
      }
      var lent := Lend(book, who.value, now);
      ReplaceKeepsCatalogue(bookRepository.books, bookId - 1, lent);
      bookRepository.SaveExisting(lent);
      r := Success(ConvertToDto(lent));
    }

    /**
     * `returnBook`: a missing book and a book that is not on loan are both
     * reported as not found; otherwise the loan is cleared on that copy alone.
     */
    method ReturnBook(bookId: int) returns (r: Result<BookResponse, Error>)
      requires Valid()
      modifies bookRepository
      ensures Valid()
      ensures r.Failure? ==> r.error.ResourceNotFound? && bookRepository.books == old(bookRepository.books)
      ensures old(bookRepository.FindById(bookId)).None? ==>
                r == Failure(ResourceNotFound(BookWithId(bookId)))
      ensures old(bookRepository.FindById(bookId)).Some? && !old(bookRepository.FindById(bookId)).value.IsBorrowed() ==>
                r == Failure(ResourceNotFound(BookNotBorrowed))
      ensures old(bookRepository.FindById(bookId)).Some? && old(bookRepository.FindById(bookId)).value.IsBorrowed() ==>
                var returned := Release(old(bookRepository.FindById(bookId)).value);
                bookRepository.books == old(bookRepository.books)[bookId - 1 := returned] &&
                r == Success(ConvertToDto(returned))
    {
      var found := bookRepository.FindById(bookId);
      if found.None? {
        return Failure(ResourceNotFound(BookWithId(bookId)));
      }
      var book := found.value;
      if book.borrower.None? {
        return Failure(ResourceNotFound(BookNotBorrowed));
      }
      var returned := Release(book);
      ReplaceKeepsCatalogue(bookRepository.books, bookId - 1, returned);
      bookRepository.SaveExisting(returned);
      r := Success(ConvertToDto(returned));
    }
  }
}
