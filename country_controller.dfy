/** `CountryController`: the create, update and delete decision chains for countries. */
module CountryController {
  import opened Entities
  import opened Http
  import opened Store
  import opened Text
  import CountryRepository

  /**
   * The duplicate test of `CreateCountry`: some listed country has the same
   * trimmed, upper-cased name. No country is excluded.
   */
  function NameTaken(db: Db, name: string): (r: bool)
    requires Keyed(db)
    ensures r <==> exists k | k in db.countries :: Norm(db.countries[k].name) == Norm(name)
  {
    var countries := CountryRepository.GetCountries(db);
    if exists c | c in countries :: Norm(c.name) == Norm(name) then
      true
    else
      assert forall k | k in db.countries :: db.countries[k] in countries;
      false
  }

  /** For a record not in the table, the create test and the update test agree. */
  lemma NameTakenIsDuplicateOfAnAbsentId(db: Db, countryId: int, name: string)
    requires Keyed(db) && countryId !in db.countries
    ensures NameTaken(db, name) == CountryRepository.IsDuplicateCountryName(db, countryId, name)
  {
  }

  /** `CreateCountry`: 400 on a missing body, 422 on a taken name, then 400, 500 or 201. */
  method CreateCountry(ctx: BookDbContext, ms: ModelState, countryToCreate: Option<Country>, newId: int, saved: bool)
    returns (status: Status)
    requires ctx.Valid() && newId !in ctx.countries
    modifies ctx
    ensures ctx.Valid()
    ensures countryToCreate.None? ==> status == BadRequest
    ensures countryToCreate.Some? && NameTaken(old(ctx.State()), countryToCreate.value.name) ==> status == UnprocessableEntity
    ensures countryToCreate.Some? && !NameTaken(old(ctx.State()), countryToCreate.value.name) ==>
      status == if !ms.IsValid() then BadRequest else if saved then Created else InternalServerError
    ensures status == Created ==>
      countryToCreate.Some? && ctx.State() == old(ctx.State()).(countries := old(ctx.countries)[newId := countryToCreate.value.(id := newId)])
    ensures status != Created ==> ctx.State() == old(ctx.State())
  {
    if countryToCreate.None? {
      return BadRequest;
    }
    var country := countryToCreate.value;
    var countryExists := NameTaken(ctx.State(), country.name);
    if countryExists {
      return UnprocessableEntity;
    }
    if !ms.IsValid() {
      return BadRequest;
    }
    var ok := CountryRepository.CreateCountry(ctx, country, newId, saved);
    if !ok {
      return InternalServerError;
    }
    return Created;
  }

  /**
   * `UpdateCountry`: 400 on a missing body or an id mismatch, 404 for an
   * unknown country, 422 when ANOTHER country has the name, then 400, 500
   * or 204.
   */
  method UpdateCountry(ctx: BookDbContext, ms: ModelState, countryId: int, updatedCountryInfo: Option<Country>, saved: bool)
    returns (status: Status)
    requires ctx.Valid()
    modifies ctx
    ensures ctx.Valid()
    ensures updatedCountryInfo.None? || updatedCountryInfo.value.id != countryId ==> status == BadRequest
    ensures updatedCountryInfo.Some? && updatedCountryInfo.value.id == countryId ==>
      status == if countryId !in old(ctx.countries) then NotFound
                else if CountryRepository.IsDuplicateCountryName(old(ctx.State()), countryId, updatedCountryInfo.value.name) then UnprocessableEntity
                else if !ms.IsValid() then BadRequest
                else if saved then NoContent
                else InternalServerError
    ensures status == NoContent ==>
      updatedCountryInfo.Some? && ctx.State() == old(ctx.State()).(countries := old(ctx.countries)[countryId := updatedCountryInfo.value])
    ensures status != NoContent ==> ctx.State() == old(ctx.State())
  {
    if updatedCountryInfo.None? {
      return BadRequest;
    }
    var country := updatedCountryInfo.value;
    if country.id != countryId {
      return BadRequest;
    }
    var db := ctx.State();
    if !CountryRepository.CountryExists(db, countryId) {
      return NotFound;
    }
    if CountryRepository.IsDuplicateCountryName(db, countryId, country.name) {
      return UnprocessableEntity;
    }
    if !ms.IsValid() {
      return BadRequest;
    }
    var ok := CountryRepository.UpdateCountry(ctx, country, saved);
    if !ok {
      return InternalServerError;
    }
    return NoContent;
  }

  /**
   * `DeleteCountry`: 404 for an unknown country, 409 while
   * `GetAuthorsFromACountry` reports anyone, then 400, 500 or 204.
   */
  method DeleteCountry(ctx: BookDbContext, ms: ModelState, countryId: int, saved: bool)
    returns (status: Status)
    requires ctx.Valid()
    modifies ctx
    ensures ctx.Valid()
    ensures status == if countryId !in old(ctx.countries) then NotFound
                      else if |CountryRepository.GetAuthorsFromACountry(old(ctx.State()), countryId)| > 0 then Conflict
                      else if !ms.IsValid() then BadRequest
                      else if saved then NoContent
                      else InternalServerError
    ensures status == NoContent ==> ctx.State() == old(ctx.State()).(countries := old(ctx.countries) - {countryId})
    ensures status != NoContent ==> ctx.State() == old(ctx.State())
  {
    var db := ctx.State();
    if !CountryRepository.CountryExists(db, countryId) {
      return NotFound;
    }
    var countryToDelete := CountryRepository.GetCountry(db, countryId).value;
    if |CountryRepository.GetAuthorsFromACountry(db, countryId)| > 0 {
      return Conflict;
    }
    if !ms.IsValid() {
      return BadRequest;
    }
    var ok := CountryRepository.DeleteCountry(ctx, countryToDelete, saved);
    if !ok {
      return InternalServerError;
    }
    return NoContent;
  }
}
