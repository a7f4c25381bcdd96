/** The borrower service: registering borrowers, listing and fetching them. */
module Borrowers {
  import opened Wrappers
  import opened Entities
  import opened Repositories

  /** The record a response describes; responses carry every field of a borrower. */
  function BorrowerOf(dto: BorrowerResponse): Borrower {
    Borrower(dto.id, dto.name, dto.email, dto.createdAt)
  }

  /** `convertToDto`: the response echoes the stored record, field for field. */
  function ConvertToDto(borrower: Borrower): (dto: BorrowerResponse)
    ensures BorrowerOf(dto) == borrower
  {
    BorrowerResponse(borrower.id, borrower.name, borrower.email, borrower.createdAt)
  }

  /** No two stored borrowers share an email address. */
  ghost predicate EmailsUnique(borrowers: seq<Borrower>) {
    forall i, j :: 0 <= i < |borrowers| && 0 <= j < |borrowers| && borrowers[i].email == borrowers[j].email ==> i == j
  }

  /** Some stored borrower has this email address. */
  ghost predicate EmailTaken(borrowers: seq<Borrower>, email: string) {
    exists i :: 0 <= i < |borrowers| && borrowers[i].email == email
  }

  /** Registering a borrower under an unused email keeps emails unique. */
  lemma RegistrationKeepsEmailsUnique(borrowers: seq<Borrower>, b: Borrower)
    requires EmailsUnique(borrowers) && !EmailTaken(borrowers, b.email)
    ensures EmailsUnique(borrowers + [b])
  {
  }

  /** With unique emails, an email address names at most one borrower. */
  lemma EmailIdentifiesBorrower(borrowers: seq<Borrower>, a: Borrower, b: Borrower)
    requires EmailsUnique(borrowers)
    requires a in borrowers && b in borrowers && a.email == b.email
    ensures a == b
  {
  }

  class BorrowerService {
    const borrowerRepository: BorrowerRepository

    ghost predicate Valid()
      reads this, borrowerRepository
    {
      borrowerRepository.Valid() && EmailsUnique(borrowerRepository.borrowers)
    }

    constructor (borrowerRepository: BorrowerRepository)
      requires borrowerRepository.Valid() && EmailsUnique(borrowerRepository.borrowers)
      ensures Valid() && this.borrowerRepository == borrowerRepository
    {
      this.borrowerRepository := borrowerRepository;
    }

    /** `createBorrower`: a taken email is refused; otherwise a new borrower is stored. */
    method CreateBorrower(request: BorrowerRequest, now: Instant) returns (r: Result<BorrowerResponse, Error>)
      requires Valid()
      modifies borrowerRepository
      ensures Valid()
      ensures r.Failure? <==> EmailTaken(old(borrowerRepository.borrowers), request.email)
      ensures r.Failure? ==>
                r.error == ResourceAlreadyExists(BorrowerWithEmail(request.email)) &&
                borrowerRepository.borrowers == old(borrowerRepository.borrowers)
      ensures r.Success? ==>
                var saved := Borrower(|old(borrowerRepository.borrowers)| + 1, request.name, request.email, now);
                borrowerRepository.borrowers == old(borrowerRepository.borrowers) + [saved] &&
                r.value == ConvertToDto(saved)
    {
      if borrowerRepository.ExistsByEmail(request.email) {
        return Failure(ResourceAlreadyExists(BorrowerWithEmail(request.email)));
      }
      RegistrationKeepsEmailsUnique(borrowerRepository.borrowers,
        Borrower(|borrowerRepository.borrowers| + 1, request.name, request.email, now));
      var saved := borrowerRepository.SaveNew(request.name, request.email, now);
      r := Success(ConvertToDto(saved));
    }

    /** `getAllBorrowers`: one response per stored borrower, in store order. */
    function GetAllBorrowers(): (r: seq<BorrowerResponse>)
      reads borrowerRepository
      ensures |r| == |borrowerRepository.borrowers|
      ensures forall i :: 0 <= i < |r| ==> BorrowerOf(r[i]) == borrowerRepository.borrowers[i]
    {
      var borrowers := borrowerRepository.borrowers;
      seq(|borrowers|, i requires 0 <= i < |borrowers| => ConvertToDto(borrowers[i]))
    }

    /** `getBorrowerById`: the borrower with this id, or not-found. */
    function GetBorrowerById(id: int): (r: Result<BorrowerResponse, Error>)
      reads borrowerRepository
      requires borrowerRepository.Valid()
      ensures r.Success? <==> exists i :: 0 <= i < |borrowerRepository.borrowers| && borrowerRepository.borrowers[i].id == id
      ensures r.Success? ==> r.value.id == id && BorrowerOf(r.value) in borrowerRepository.borrowers
      ensures r.Failure? ==> r.error == ResourceNotFound(BorrowerWithId(id))
    {
      match borrowerRepository.FindById(id)
      case Some(borrower) => Success(ConvertToDto(borrower))
      case None => Failure(ResourceNotFound(BorrowerWithId(id)))
    }
  }
}
