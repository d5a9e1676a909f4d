/** `AuthorsController`: the create, update and delete decision chains for authors. */
module AuthorsController {
  import opened Entities
  import opened Http
  import opened Store
  import AuthorRepository
  import CountryRepository

  /**
   * The author row that is written for a request: the submitted country is
   * replaced by the stored country with the submitted id.
   */
  function Bind(db: Db, request: AuthorRequest): (a: Author)
    requires Keyed(db) && request.country.id in db.countries
    ensures a.countryId in db.countries && db.countries[a.countryId] == CountryRepository.GetCountry(db, request.country.id).value
    ensures a.id == request.id && a.firstName == request.firstName && a.lastName == request.lastName
  {
    var country := CountryRepository.GetCountry(db, request.country.id).value;
    Author(request.id, request.firstName, request.lastName, country.id)
  }

  /** `CreateAuthor`: 400 on a missing body, 404 for an unknown country, then 400, 500 or 201. */
  method CreateAuthor(ctx: BookDbContext, ms: ModelState, authorToCreate: Option<AuthorRequest>, newId: int, saved: bool)
    returns (status: Status)
    requires ctx.Valid() && newId !in ctx.authors
    modifies ctx
    ensures ctx.Valid()
    ensures status == if authorToCreate.None? then BadRequest
                      else if authorToCreate.value.country.id !in old(ctx.countries) then NotFound
                      else if !ms.IsValid() then BadRequest
                      else if saved then Created
                      else InternalServerError
    ensures status == Created ==>
      authorToCreate.Some? &&
      var req := authorToCreate.value;
      ctx.State() == old(ctx.State()).(authors := old(ctx.authors)[newId := Author(newId, req.firstName, req.lastName, req.country.id)]) &&
      ctx.countries[ctx.authors[newId].countryId] == CountryRepository.GetCountry(old(ctx.State()), req.country.id).value
    ensures status != Created ==> ctx.State() == old(ctx.State())
  {
    if authorToCreate.None? {
      return BadRequest;
    }
    var request := authorToCreate.value;
    var db := ctx.State();
    if !CountryRepository.CountryExists(db, request.country.id) {
      return NotFound;
    }
    var author := Bind(db, request);
    if !ms.IsValid() {
      return BadRequest;
    }
    var ok := AuthorRepository.CreateAuthor(ctx, author, newId, saved);
    if !ok {
      return InternalServerError;
    }
    return Created;
  }

  /**
   * `UpdateAuthor`, as written: the existence guard is inverted, so an
   * author that IS stored gets 404. For one that is not stored the
   * repository update fails, except for the key 0, which the update inserts
   * as a new author; that is the only way the endpoint answers 204.
   */
  method UpdateAuthor(ctx: BookDbContext, ms: ModelState, authorId: int, authorToUpdate: Option<AuthorRequest>,
                      newId: int, saved: bool)
    returns (status: Status)
    requires ctx.Valid() && newId !in ctx.authors
    modifies ctx
    ensures ctx.Valid()
    ensures status == if authorToUpdate.None? || authorId != authorToUpdate.value.id then BadRequest
                      else if authorId in old(ctx.authors) then NotFound
                      else if authorToUpdate.value.country.id !in old(ctx.countries) then NotFound
                      else if !ms.IsValid() then BadRequest
                      else if authorId == 0 && saved then NoContent
                      else InternalServerError
    ensures authorId != 0 ==> status != NoContent
    ensures status == NoContent ==>
      authorToUpdate.Some? && authorId == 0 &&
      var req := authorToUpdate.value;
      ctx.State() == old(ctx.State()).(authors := old(ctx.authors)[newId := Author(newId, req.firstName, req.lastName, req.country.id)])
    ensures status != NoContent ==> ctx.State() == old(ctx.State())
  {
    if authorToUpdate.None? || authorId != authorToUpdate.value.id {
      return BadRequest;
    }
    var request := authorToUpdate.value;
    var db := ctx.State();
    if AuthorRepository.AuthorExists(db, authorId) {
      return NotFound;
    }
    if !CountryRepository.CountryExists(db, request.country.id) {
      return NotFound;
    }
    var author := Bind(db, request);
    if !ms.IsValid() {
      return BadRequest;
    }
    var ok := AuthorRepository.UpdateAuthor(ctx, author, newId, saved);
    if !ok {
      return InternalServerError;
    }
    return NoContent;
  }

  /**
   * `DeleteAuthor`: 404 for an unknown author, 400 on an invalid model
   * state, 409 while any book is linked to the author (no cascade), then
   * 500 or 204.
   */
  method DeleteAuthor(ctx: BookDbContext, ms: ModelState, authorId: int, saved: bool)
    returns (status: Status)
    requires ctx.Valid()
    modifies ctx
    ensures ctx.Valid()
    ensures status == if authorId !in old(ctx.authors) then NotFound
                      else if !ms.IsValid() then BadRequest
                      else if AuthorRepository.GetBooksByAuthor(old(ctx.State()), authorId) != {} then Conflict
                      else if saved then NoContent
                      else InternalServerError
    ensures status == Conflict ==> exists k | k in ctx.books :: BookAuthor(k, authorId) in ctx.bookAuthors
    ensures status == NoContent ==> ctx.State() == old(ctx.State()).(authors := old(ctx.authors) - {authorId})
    ensures status != NoContent ==> ctx.State() == old(ctx.State())
  {
    var db := ctx.State();
    if !AuthorRepository.AuthorExists(db, authorId) {
      return NotFound;
    }
    var authorToDelete := AuthorRepository.GetAuthor(db, authorId).value;
    var books := AuthorRepository.GetBooksByAuthor(db, authorId);
    if !ms.IsValid() {
      return BadRequest;
    }
    if books != {} {
      LinkedBookExists(db, authorId, books);
      return Conflict;
    }
    // The second model-state test of the original cannot fire here: the
    // model state is unchanged since the first one.
    var ok := AuthorRepository.DeleteAuthor(ctx, authorToDelete, saved);
    if !ok {
      return InternalServerError;
    }
    return NoContent;
  }

  /** A non-empty answer of `GetBooksByAuthor` has a stored book linked to the author. */
  lemma LinkedBookExists(db: Db, authorId: int, books: set<Book>)
    requires Keyed(db) && books == AuthorRepository.GetBooksByAuthor(db, authorId) && books != {}
    ensures exists k | k in db.books :: BookAuthor(k, authorId) in db.bookAuthors
  {
  }
}
