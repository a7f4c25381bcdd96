/**
 * The two stores, modelled as in-memory tables. Each store keeps its
 * records in insertion order and assigns identities 1, 2, 3, ... as an
 * identity column does, so the record with id `k` sits at index `k - 1`.
 */
module Repositories {
  import opened Wrappers
  import opened Entities

  /** The books whose ISBN is `isbn`, in store order. */
  function WithIsbn(books: seq<Book>, isbn: string): (r: seq<Book>)
    ensures |r| <= |books|
    ensures forall b :: b in r <==> b in books && b.isbn == isbn
    ensures r != [] ==> exists i :: 0 <= i < |books| && books[i] == r[0]
  {
    if books == [] then []
    else if books[0].isbn == isbn then [books[0]] + WithIsbn(books[1..], isbn)
    else WithIsbn(books[1..], isbn)
  }

  class BookRepository {
    var books: seq<Book>

    /** Identities are the positions in the table, counted from 1. */
    ghost predicate Valid()
      reads this
    {
      forall i :: 0 <= i < |books| ==> books[i].id == i + 1
    }

    constructor ()
      ensures Valid() && books == []
    {
      books := [];
    }

    /** `findById`: the stored book with this id, if any. */
    function FindById(id: int): (r: Option<Book>)
      reads this
      requires Valid()
      ensures r.Some? <==> exists i :: 0 <= i < |books| && books[i].id == id
      ensures r.Some? ==> r.value.id == id && r.value == books[id - 1]
    {
      if 1 <= id <= |books| then Some(books[id - 1]) else None
    }

    /** `findByIsbn`: every stored copy with this ISBN. */
    function FindByIsbn(isbn: string): (r: seq<Book>)
      reads this
      ensures forall b :: b in r <==> b in books && b.isbn == isbn
    {
      WithIsbn(books, isbn)
    }

    /** `existsByIsbnAndTitleAndAuthor`: some copy under this ISBN has this title and author. */
    function ExistsByIsbnAndTitleAndAuthor(isbn: string, title: string, author: string): (r: bool)
      reads this
      ensures r <==> exists i :: 0 <= i < |books| &&
                       books[i].isbn == isbn && books[i].title == title && books[i].author == author
    {
      exists b | b in WithIsbn(books, isbn) :: b.title == title && b.author == author
    }

    /** `save` of a new entity: the store assigns the next id and stamps the creation time. */
    method SaveNew(title: string, author: string, isbn: string, now: Instant) returns (saved: Book)
      requires Valid()
      modifies this
      ensures Valid()
      ensures saved == Book(|old(books)| + 1, title, author, isbn, None, None, now)
      ensures books == old(books) + [saved]
    {
      saved := Book(|books| + 1, title, author, isbn, None, None, now);
      books := books + [saved];
    }

    /** `save` of an entity that is already stored: its row is overwritten. */
    method SaveExisting(book: Book)
      requires Valid()
      requires 1 <= book.id <= |books|
      modifies this
      ensures Valid()
      ensures books == old(books)[book.id - 1 := book]
    {
      books := books[book.id - 1 := book];
    }
  }

  class BorrowerRepository {
    var borrowers: seq<Borrower>

    /** Identities are the positions in the table, counted from 1. */
    ghost predicate Valid()
      reads this
    {
      forall i :: 0 <= i < |borrowers| ==> borrowers[i].id == i + 1
    }

    constructor ()
      ensures Valid() && borrowers == []
    {
      borrowers := [];
    }

    /** `findById`: the stored borrower with this id, if any. */
    function FindById(id: int): (r: Option<Borrower>)
      reads this
      requires Valid()
      ensures r.Some? <==> exists i :: 0 <= i < |borrowers| && borrowers[i].id == id
      ensures r.Some? ==> r.value.id == id && r.value == borrowers[id - 1]
    {
      if 1 <= id <= |borrowers| then Some(borrowers[id - 1]) else None
    }

    /** `existsByEmail`: some stored borrower has this email address. */
    function ExistsByEmail(email: string): (r: bool)
      reads this
      ensures r <==> exists i :: 0 <= i < |borrowers| && borrowers[i].email == email
    {
      exists b | b in borrowers :: b.email == email
    }

    /** `save` of a new entity: the store assigns the next id and stamps the creation time. */
    method SaveNew(name: string, email: string, now: Instant) returns (saved: Borrower)
      requires Valid()
      modifies this
      ensures Valid()
      ensures saved == Borrower(|old(borrowers)| + 1, name, email, now)
      ensures borrowers == old(borrowers) + [saved]
    {
      saved := Borrower(|borrowers| + 1, name, email, now);
      borrowers := borrowers + [saved];
    }
  }
}
