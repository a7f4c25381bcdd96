# Library catalogue core in Dafny

This project models the behavioural core of a small library catalogue
service and proves properties of it. The model covers three parts:

- **ISBN validator** (`isbn.dfy`, module `Isbn`). It decides whether a
  string is an acceptable ISBN:
  - A null or blank value is accepted.
  - Two hard-coded raw strings are always accepted.
  - Otherwise every space, tab, line break, form feed, vertical tab and
    hyphen is deleted, and the result is checked against one of two rules.
    A 10-character candidate uses the ISBN-10 check of ISO 2108
    (modulus 11, weights 10 down to 2, `X`/`x` standing for 10). A
    13-character candidate uses the EAN-13 check digit (weights 1 and 3).
  - `IsValid` keeps the original digit scans and summing loops. It is
    proved equal to the recursive specification `Accepts`, and the
    properties are proved about `Accepts`.
- **Book service** (`books.dfy`, module `Books`). It covers:
  - admitting a new copy under an ISBN;
  - listing and fetching copies;
  - the lending cycle, available to borrowed and back.
  `BookService` is a class over the two stores. Its methods change the
  stores in place, and its invariant `Valid` covers two facts. Every copy
  has a borrower exactly when it has a borrowed-at time. All copies that
  share an ISBN share title and author.
- **Borrower service** (`borrowers.dfy`, module `Borrowers`). It covers
  registering borrowers under unique email addresses, and listing and
  fetching them.

Supporting modules:
- `entities.dfy` holds the stored records, requests, responses and the
  error datatype. The two exceptions become
  `ResourceNotFound`/`ResourceAlreadyExists`, each tagged with the reason.
- `repositories.dfy` models the two JPA repositories as in-memory tables.
  Each is a class holding a `seq` in insertion order. It hands out ids
  1, 2, 3, … as an identity column does, so id `k` is at index `k - 1`.
- `wrappers.dfy` holds `Option` and `Result`. `None` stands for Java's
  `null`.
- `library.dfy` holds three verified client scenarios that drive the
  services through their contracts alone. One registers a borrower twice.
  One admits a copy and then a conflicting one. The third wires both
  services to shared stores and goes through a lending cycle.

The clock (`Instant.now()`, and `createdAt` as set by `@PrePersist`) is
a parameter `now` of the operations that read it.

Three behaviours of the code deserve a note:
- The validator accepts the raw strings `0-13-149505-0` and `0131495050`
  before any checksum. The weighted ISBN-10 sum of `0131495050` is 139,
  which is 7 modulo 11, so the checksum alone would reject both strings
  (`Isbn.BypassFailsChecksum`). The same digits with a space inside,
  `0 131495050`, are not a bypass string, so they are rejected
  (`Isbn.SpacedBypassRejected`).
- Blank means `trim().isEmpty()`, and `trim` removes every character up to
  U+0020, control characters included. Cleaning removes only the
  characters of `[\s-]`. The model keeps these as two predicates,
  `IsBlank` and `IsSeparator`.
- `returnBook` throws the same `ResourceNotFoundException` for a missing
  book and for an available one, with two different messages.
  `ReturnBook` keeps both reasons and proves that every failure is a
  `ResourceNotFound`.

## Model

| member | source | states |
|---|---|---|
| Isbn.Clean | src/main/java/app/library/validation/ISBNValidator.java:28 | deleting separators never lengthens the value and leaves no separator in it |
| Isbn.IsValid | src/main/java/app/library/validation/ISBNValidator.java:17-81 | total: no precondition and every character access is in bounds; the answer is exactly `Accepts`: null or blank gives true, the two bypass strings give true, then the cleaned length picks the ISBN-10 rule, the ISBN-13 rule or false |
| Isbn.CleanAppend | src/main/java/app/library/validation/ISBNValidator.java:28 | cleaning a concatenation is the concatenation of the cleaned parts |
| Isbn.CleanIgnoresSeparator | src/main/java/app/library/validation/ISBNValidator.java:28 | inserting one separator anywhere does not change the cleaned value |
| Isbn.CleanKeepsOtherCharacters | src/main/java/app/library/validation/ISBNValidator.java:28 | a value without separators is its own cleaned form |
| Isbn.CleanIdempotent | src/main/java/app/library/validation/ISBNValidator.java:28 | cleaning twice is the same as cleaning once |
| Isbn.CleanOfSeparatorsIsEmpty | src/main/java/app/library/validation/ISBNValidator.java:28 | a value made only of separators cleans to the empty string |
| Isbn.NullOrBlankAccepted | src/main/java/app/library/validation/ISBNValidator.java:18-20 | null, empty and blank values are accepted |
| Isbn.WrongLengthRejected | src/main/java/app/library/validation/ISBNValidator.java:28-80 | a non-blank, non-bypass value whose cleaned length is neither 10 nor 13 is rejected |
| Isbn.OnlyHyphensRejected | src/main/java/app/library/validation/ISBNValidator.java:28-80 | a non-empty value of hyphens only is not blank, cleans to length 0 and is rejected |
| Isbn.VerdictDependsOnlyOnCleaned | src/main/java/app/library/validation/ISBNValidator.java:28-80 | two non-blank, non-bypass values with the same cleaned form get the same verdict |
| Isbn.SeparatorDoesNotChangeVerdict | src/main/java/app/library/validation/ISBNValidator.java:28-80 | outside the blank and bypass cases, adding or removing a separator never changes the verdict |
| Isbn.Sum10Substitution | src/main/java/app/library/validation/ISBNValidator.java:46-49 | changing one digit changes the weighted ISBN-10 sum by its weight times the change in value |
| Isbn.Isbn10DetectsSingleSubstitution | src/main/java/app/library/validation/ISBNValidator.java:31-57 | changing the value of any one character of a valid ISBN-10, the check character included, always gives a string the ISBN-10 rule rejects |
| Isbn.Sum13Substitution | src/main/java/app/library/validation/ISBNValidator.java:68-72 | changing one digit changes the 1/3-weighted sum by its weight times the change in value |
| Isbn.Valid13IffWeightedSumMultipleOf10 | src/main/java/app/library/validation/ISBNValidator.java:67-77 | for 13 digits, the check-digit comparison holds exactly when the weighted sum over all 13 digits, with the check digit at weight 1, is a multiple of 10 |
| Isbn.Isbn13DetectsSingleSubstitution | src/main/java/app/library/validation/ISBNValidator.java:59-77 | changing any one digit of a valid ISBN-13 always gives a string the ISBN-13 rule rejects |
| Isbn.BypassChecksum | src/main/java/app/library/validation/ISBNValidator.java:23-25 | `0131495050` is well formed, its weighted sum is 139, which is 7 modulo 11, so it fails the ISBN-10 rule |
| Isbn.CleanBypassHyphenated | src/main/java/app/library/validation/ISBNValidator.java:23-28 | the hyphenated bypass string cleans to the plain one |
| Isbn.BypassFailsChecksum | src/main/java/app/library/validation/ISBNValidator.java:23-25 | both bypass strings fail the checksum after cleaning, yet both are accepted |
| Isbn.SpacedBypassRejected | src/main/java/app/library/validation/ISBNValidator.java:23-28 | the bypass compares the raw value, so `0 131495050` falls through to the checksum and is rejected |
| Isbn.Isbn10Examples | src/test/java/app/library/validation/ISBNValidatorTest.java:28-83 | `0306406152` and `039304002X` pass the ISBN-10 rule; `0306406153` fails it |
| Isbn.Isbn13Examples | src/test/java/app/library/validation/ISBNValidatorTest.java:31-85 | `9780306406157` passes the ISBN-13 rule; `9780306406158` fails it |
| Repositories.WithIsbn | src/main/java/app/library/repository/BookRepository.java:12 | keeps exactly the copies carrying the ISBN, and its first element is a stored copy |
| Repositories.BookRepository.FindById | src/main/java/app/library/repository/BookRepository.java:11 | finds a copy exactly when one is stored under that id, and returns that copy |
| Repositories.BookRepository.FindByIsbn | src/main/java/app/library/repository/BookRepository.java:12 | lists exactly the stored copies carrying the ISBN |
| Repositories.BookRepository.ExistsByIsbnAndTitleAndAuthor | src/main/java/app/library/repository/BookRepository.java:18 | holds exactly when some stored copy has that ISBN, title and author |
| Repositories.BookRepository.SaveNew | src/main/java/app/library/model/entity/Book.java:19-44 | appends one record with the next identity, no borrower, no borrowed-at and the creation time; earlier records are unchanged |
| Repositories.BookRepository.SaveExisting | src/main/java/app/library/repository/BookRepository.java:11 | overwrites the record with the same id and nothing else |
| Repositories.BorrowerRepository.FindById | src/main/java/app/library/repository/BorrowerRepository.java:11 | finds a borrower exactly when one is stored under that id, and returns that borrower |
| Repositories.BorrowerRepository.ExistsByEmail | src/main/java/app/library/repository/BorrowerRepository.java:13 | holds exactly when some stored borrower has that email |
| Repositories.BorrowerRepository.SaveNew | src/main/java/app/library/model/entity/Borrower.java:18-34 | appends one record with the next identity and the creation time; earlier records are unchanged |
| Books.ConvertToDto | src/main/java/app/library/service/impl/BookServiceImpl.java:112-130 | the response copies id, title, author, ISBN and creation time; it reports borrowed exactly when the copy has a borrower, and only then carries the borrower's id and name and the borrowed-at time |
| Books.DtoShowsLoanTimeIffBorrowed | src/main/java/app/library/model/entity/Book.java:33-37 | for a record that keeps the lending invariant, the response shows a borrowed-at time exactly when it shows a loan |
| Books.NewCopy | src/main/java/app/library/service/impl/BookServiceImpl.java:52-57 | a new copy carries the requested title, author and ISBN and starts available |
| Books.AdmitsIffNoConflict | src/main/java/app/library/service/impl/BookServiceImpl.java:33-50 | on a consistent catalogue, a request is admitted exactly when no stored copy has its ISBN under another title or author |
| Books.AnyListedCopyGivesSameVerdict | src/main/java/app/library/service/impl/BookServiceImpl.java:38-48 | after a failed exact-match test, inspecting any copy that `findByIsbn` lists, not only the first, gives the same verdict as the admission rule |
| Books.AdmissionKeepsCatalogue | src/main/java/app/library/service/impl/BookServiceImpl.java:31-59 | storing an admitted copy keeps the lending invariant and the one-title-and-author-per-ISBN invariant |
| Books.Lend | src/main/java/app/library/service/impl/BookServiceImpl.java:88-89 | lending sets the borrower and the borrowed-at time and keeps every catalogue field |
| Books.Release | src/main/java/app/library/service/impl/BookServiceImpl.java:105-106 | returning clears the borrower and the borrowed-at time and keeps every catalogue field |
| Books.ReleaseUndoesLend | src/main/java/app/library/service/impl/BookServiceImpl.java:88-106 | lending an available copy and then returning it gives back the record it had before |
| Books.ReplaceKeepsCatalogue | src/main/java/app/library/service/impl/BookServiceImpl.java:88-108 | overwriting a copy with a lent or returned version of itself keeps both catalogue invariants |
| Books.BookService.constructor | src/main/java/app/library/service/impl/BookServiceImpl.java:22-27 | the service holds the two stores it is given and starts out valid |
| Books.BookService.CreateBook | src/main/java/app/library/service/impl/BookServiceImpl.java:31-59 | succeeds exactly when the exact (ISBN, title, author) triple is stored or the ISBN is unused; a refusal reports the ISBN conflict and saves nothing; a success appends exactly one available copy and returns its response; the invariants are kept |
| Books.BookService.GetAllBooks | src/main/java/app/library/service/impl/BookServiceImpl.java:61-66 | one response per stored copy, in store order |
| Books.BookService.GetBookById | src/main/java/app/library/service/impl/BookServiceImpl.java:68-73 | succeeds exactly when a copy has that id and then returns that copy's response; otherwise reports the book id as not found |
| Books.BookService.BorrowBook | src/main/java/app/library/service/impl/BookServiceImpl.java:75-93 | checks in this order: unknown book gives not found, a book on loan gives already borrowed whatever the borrower id, an unknown borrower gives not found; every failure changes nothing; a success lends that copy to that borrower at `now`, changes no other copy and returns the lent copy's response |
| Books.BookService.ReturnBook | src/main/java/app/library/service/impl/BookServiceImpl.java:95-110 | an unknown book and an available book both give not found, which changes nothing; a success clears the loan on that copy alone and returns its response |
| Borrowers.ConvertToDto | src/main/java/app/library/service/impl/BorrowerServiceImpl.java:53-60 | the response carries every field of the record, which can be read back unchanged |
| Borrowers.RegistrationKeepsEmailsUnique | src/main/java/app/library/service/impl/BorrowerServiceImpl.java:27-35 | adding a borrower whose email is unused keeps emails unique |
| Borrowers.EmailIdentifiesBorrower | src/main/java/app/library/repository/BorrowerRepository.java:12 | with unique emails, two stored borrowers with the same email are the same borrower |
| Borrowers.BorrowerService.constructor | src/main/java/app/library/service/impl/BorrowerServiceImpl.java:18-22 | the service holds the store it is given and starts out valid |
| Borrowers.BorrowerService.CreateBorrower | src/main/java/app/library/service/impl/BorrowerServiceImpl.java:26-37 | fails exactly when the email is already stored, and then reports that email and saves nothing; otherwise appends exactly one borrower with the given name and email and returns its response; emails stay unique |
| Borrowers.BorrowerService.GetAllBorrowers | src/main/java/app/library/service/impl/BorrowerServiceImpl.java:39-44 | one response per stored borrower, in store order, each reading back as that borrower |
| Borrowers.BorrowerService.GetBorrowerById | src/main/java/app/library/service/impl/BorrowerServiceImpl.java:46-51 | succeeds exactly when a borrower has that id and then returns a response for that stored borrower; otherwise reports the borrower id as not found |

## Left out

- Isbn.IsValid: treats only `'0'`..`'9'` as digits. `Character.isDigit` and `Character.getNumericValue` also accept other Unicode decimal digits. The model does not capture that behaviour.
- Isbn.IsValid: Java's 32-bit `int` is not modelled. The sums are at most 496, so they never overflow.
- No 978/979 prefix check exists in the code, so none is modelled.
- HTTP controllers, status codes and the OpenAPI configuration are presentation. The error messages are reduced to reason tags.
- Bean Validation is not modelled: `@NotBlank`, `@Email`, `@NotNull` and the wiring of the `@ISBN` annotation are framework behaviour. Requests are taken as given, and ids are integers, never null.
- `findByTitleContainingIgnoreCase`, `findByAuthorContainingIgnoreCase` and `findByEmail` are not modelled. The services never call them, and the first two depend on database collation and case folding.
- Transactions and concurrent requests are not modelled. Each operation runs atomically and alone.
- `Instant.now()` is not modelled as real time. Each operation that reads it takes it as its `now` parameter.
- Repositories.BookRepository.FindByIsbn: lists copies in insertion order. The database gives no order. `Books.AnyListedCopyGivesSameVerdict` shows that `createBook`'s verdict does not depend on which copy comes first.
- Books.BookService.GetAllBooks: "in store order" means insertion order. The model fixes `findAll` to that order, while the database promises none without an ORDER BY, for example after a borrow or a return has updated a row. Borrowers.BorrowerService.GetAllBorrowers: the same.
- Repositories.BookRepository.SaveNew: assigns consecutive ids from 1. No operation of the core deletes a record.
- A borrowed book holds a copy of its borrower record rather than a reference. Borrowers are never changed after they are saved, so the two agree. The foreign-key relation between a loan and the borrower table is not stated.
- Books.BookService.constructor: requires the injected stores to satisfy the invariants. This holds for stores written only through these services. Borrowers.BorrowerService.constructor: the same, for unique emails.
- Lombok-generated `equals`, `hashCode` and accessors, and JPA lazy loading, are not modelled.
