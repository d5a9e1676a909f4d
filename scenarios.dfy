/**
 * Request sequences against a fresh store. Each one runs the controllers
 * from an empty database and pins down the answers, showing a behaviour
 * of the code as written end to end.
 */
module Scenarios {
  import opened Entities
  import opened Http
  import opened Store
  import opened Text
  import CountryController
  import CountryRepository
  import AuthorsController
  import ReviewerController
  import BookRepository
  import ReviewsController

  const Valid := ModelState([])

  /**
   * A second country whose name differs from a stored one only by case and
   * a trailing blank is refused with 422, and only the first is stored.
   */
  method DuplicateCountryName() returns (first: Status, second: Status, stored: map<int, Country>)
    ensures first == Created && second == UnprocessableEntity
    ensures stored == map[1 := Country(1, "France")]
  {
    var ctx := new BookDbContext();
    first := CountryController.CreateCountry(ctx, Valid, Some(Country(0, "France")), 1, true);
    PaddedLowerCaseClashes();
    second := CountryController.CreateCountry(ctx, Valid, Some(Country(0, "france ")), 2, true);
    stored := ctx.countries;
  }

  /** One country, Ghana (1). */
  method OneCountry() returns (ctx: BookDbContext)
    ensures fresh(ctx) && ctx.Valid()
    ensures ctx.State() == Db(map[1 := Country(1, "Ghana")], map[], map[], map[], map[], map[], {}, {})
  {
    ctx := new BookDbContext();
    var s := CountryController.CreateCountry(ctx, Valid, Some(Country(0, "Ghana")), 1, true);
  }

  /** Two countries, Ghana (1) and Peru (2). */
  method TwoCountries() returns (ctx: BookDbContext)
    ensures fresh(ctx) && ctx.Valid()
    ensures ctx.State() == Db(map[1 := Country(1, "Ghana"), 2 := Country(2, "Peru")],
                              map[], map[], map[], map[], map[], {}, {})
  {
    ctx := OneCountry();
    var db := ctx.State();
    TrimmedIsFixed("Ghana");
    TrimmedIsFixed("Peru");
    assert |Norm("Ghana")| != |Norm("Peru")|;
    assert forall k | k in db.countries :: k == 1 && db.countries[k].name == "Ghana";
    assert !CountryController.NameTaken(db, "Peru");
    var s := CountryController.CreateCountry(ctx, Valid, Some(Country(0, "Peru")), 2, true);
    assert ctx.countries == db.countries[2 := Country(2, "Peru")];
  }

  /** The two countries and one author, living in Peru. */
  method AuthorInPeru() returns (ctx: BookDbContext)
    ensures fresh(ctx) && ctx.Valid()
    ensures ctx.State() == Db(map[1 := Country(1, "Ghana"), 2 := Country(2, "Peru")],
                              map[1 := Author(1, "Ada", "Mensah", 2)],
                              map[], map[], map[], map[], {}, {})
  {
    ctx := TwoCountries();
    var s := AuthorsController.CreateAuthor(ctx, Valid, Some(AuthorRequest(0, "Ada", "Mensah", Country(2, ""))), 1, true);
  }

  /**
   * The country delete guard looks for an author whose own id is the
   * country id: deleting the country an author lives in passes the guard
   * and, with no foreign key in the model, leaves the author holding the
   * deleted country's id, while a country nobody lives in is refused with
   * 409.
   */
  method DeleteCountryOfAnAuthor() returns (emptyCountry: Status, homeCountry: Status, author: Author, countries: map<int, Country>)
    ensures emptyCountry == Conflict && homeCountry == NoContent
    ensures author.countryId == 2 && author.countryId !in countries && 1 in countries
  {
    var ctx := AuthorInPeru();
    var db := ctx.State();
    assert db.authors[1] in CountryRepository.GetAuthorsFromACountry(db, 1);
    emptyCountry := CountryController.DeleteCountry(ctx, Valid, 1, true);
    assert ctx.State() == db;
    assert 2 !in db.authors;
    homeCountry := CountryController.DeleteCountry(ctx, Valid, 2, true);
    author := ctx.authors[1];
    countries := ctx.countries;
  }

  /** Updating a stored author answers 404 and leaves the author as it was. */
  method UpdateStoredAuthor() returns (status: Status, author: Author)
    ensures status == NotFound
    ensures author == Author(1, "Ada", "Mensah", 1)
  {
    var ctx := OneCountry();
    var s := AuthorsController.CreateAuthor(ctx, Valid, Some(AuthorRequest(0, "Ada", "Mensah", Country(1, ""))), 1, true);
    status := AuthorsController.UpdateAuthor(ctx, Valid, 1, Some(AuthorRequest(1, "Ada", "Owusu", Country(1, ""))), 2, true);
    author := ctx.authors[1];
  }

  /**
   * Updating the unstored key 0 answers 204 and inserts the author under
   * the next identity key.
   */
  method UpdateKeyZeroInserts() returns (status: Status, authors: map<int, Author>)
    ensures status == NoContent
    ensures authors == map[1 := Author(1, "Ada", "Mensah", 1)]
  {
    var ctx := OneCountry();
    status := AuthorsController.UpdateAuthor(ctx, Valid, 0, Some(AuthorRequest(0, "Ada", "Mensah", Country(1, ""))), 1, true);
    authors := ctx.authors;
  }

  /** One book with one review, written by reviewer 1. */
  method ReviewedBook() returns (ctx: BookDbContext)
    ensures fresh(ctx) && ctx.Valid()
    ensures ctx.reviewers == map[1 := Reviewer(1, "Kofi", "Boateng")]
    ensures ctx.reviews == map[1 := Review(1, "Fine", "A fine book.", 4, 1, 1)]
  {
    ctx := new BookDbContext();
    var ok := BookRepository.CreateBook(ctx, [], [], Book(0, "978-0", "Arrow of God", None), 1, true);
    var s := ReviewerController.CreateReviewer(ctx, Valid, Some(Reviewer(0, "Kofi", "Boateng")), 1, true);
    var ms;
    s, ms := ReviewsController.CreateReview(ctx, Valid,
      Some(ReviewRequest(0, "Fine", "A fine book.", 4, Book(1, "", "", None), Reviewer(1, "", ""))), 1, true);
  }

  /**
   * The reviewer is deleted before its reviews: when the second save fails
   * the answer is 500, the reviewer is gone and, with no foreign key in the
   * model, its review is still stored with the deleted reviewer's id.
   */
  method ReviewsOutliveTheirReviewer() returns (status: Status, reviewers: map<int, Reviewer>, reviews: map<int, Review>)
    ensures status == InternalServerError
    ensures reviewers == map[] && 1 in reviews && reviews[1].reviewerId !in reviewers
  {
    var ctx := ReviewedBook();
    status := ReviewerController.DeleteReviewer(ctx, Valid, 1, true, false);
    reviewers, reviews := ctx.reviewers, ctx.reviews;
  }
}
