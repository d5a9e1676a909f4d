/**
 * `BookController`: the rating endpoint and the three book writes, with
 * the validation that guards create and update.
 */
module BookController {
  import opened Entities
  import opened Http
  import opened Store
  import BookRepository
  import ReviewRepository
  import AuthorRepository
  import CategoryRepository

  /** `GetBookRating` (the endpoint): 404 for an unknown book, else the repository's rating. */
  method GetBookRating(ctx: BookDbContext, ms: ModelState, bookId: int) returns (status: Status, rating: real)
    requires ctx.Valid()
    ensures bookId !in ctx.books ==> status == NotFound
    ensures bookId in ctx.books && !ms.IsValid() ==> status == BadRequest
    ensures bookId in ctx.books && ms.IsValid() ==> status == Ok && rating == BookRepository.GetBookRating(ctx.State(), bookId)
  {
    rating := 0.0;
    var db := ctx.State();
    if !BookRepository.BookExists(db, bookId) {
      return NotFound, rating;
    }
    rating := BookRepository.GetBookRating(db, bookId);
    if !ms.IsValid() {
      return BadRequest, rating;
    }
    return Ok, rating;
  }

  /** The outcome of the validation rules, in the order `ValidateBook` applies them. */
  datatype Verdict = Pass | Fail(status: Status, error: ModelError)

  ghost predicate AllAuthorsStored(db: Db, authorIds: seq<int>) {
    forall id | id in authorIds :: id in db.authors
  }

  ghost predicate AllCategoriesStored(db: Db, categoryIds: seq<int>) {
    forall id | id in categoryIds :: id in db.categories
  }

  /**
   * The rules a submitted book must pass: a book and at least one author
   * and one category id (400), no other book with the same normalised ISBN
   * (422), every author id stored (404), every category id stored (404).
   */
  ghost function BookRules(db: Db, authorIds: seq<int>, categoryIds: seq<int>, book: Option<Book>): Verdict
    requires Keyed(db)
  {
    if book.None? || |authorIds| <= 0 || |categoryIds| <= 0 then Fail(BadRequest, MissingBookAuthorOrCategory)
    else if BookRepository.IsDuplicateIsbn(db, book.value.id, book.value.isbn) then Fail(UnprocessableEntity, DuplicateIsbn)
    else if !AllAuthorsStored(db, authorIds) then Fail(NotFound, AuthorNotFound)
    else if !AllCategoriesStored(db, categoryIds) then Fail(NotFound, CategoryNotFound)
    else Pass
  }

  /**
   * `ValidateBook`: applies the rules in order, stops at the first that
   * fails and records its error; when all pass, an already invalid model
   * state still answers 400.
   */
  method ValidateBook(ctx: BookDbContext, ms: ModelState, authorId: seq<int>, categoryId: seq<int>, book: Option<Book>)
    returns (status: Status, msOut: ModelState)
    requires ctx.Valid()
    ensures match BookRules(ctx.State(), authorId, categoryId, book)
      case Fail(s, e) => status == s && msOut == ms.AddModelError(e)
      case Pass => msOut == ms && status == (if ms.IsValid() then NoContent else BadRequest)
    ensures status == NoContent <==> msOut.IsValid()
  {
    var db := ctx.State();
    msOut := ms;
    if book.None? || |authorId| <= 0 || |categoryId| <= 0 {
      msOut := msOut.AddModelError(MissingBookAuthorOrCategory);
      return BadRequest, msOut;
    }
    if BookRepository.IsDuplicateIsbn(db, book.value.id, book.value.isbn) {
      msOut := msOut.AddModelError(DuplicateIsbn);
      return UnprocessableEntity, msOut;
    }
    for i := 0 to |authorId|
      invariant forall j | 0 <= j < i :: authorId[j] in db.authors
    {
      if !AuthorRepository.AuthorExists(db, authorId[i]) {
        msOut := msOut.AddModelError(AuthorNotFound);
        return NotFound, msOut;
      }
    }
    for i := 0 to |categoryId|
      invariant forall j | 0 <= j < i :: categoryId[j] in db.categories
    {
      if !CategoryRepository.CategoryExists(db, categoryId[i]) {
        msOut := msOut.AddModelError(CategoryNotFound);
        return NotFound, msOut;
      }
    }
    if !msOut.IsValid() {
      return BadRequest, msOut;
    }
    return NoContent, msOut;
  }

  /**
   * `CreateBook`: validation first; a rejected book is answered with the
   * validation's status and nothing is written.
   */
  method CreateBook(ctx: BookDbContext, ms: ModelState, authId: seq<int>, catId: seq<int>, book: Option<Book>,
                    newId: int, saved: bool)
    returns (status: Status)
    requires ctx.Valid() && BookRepository.FreshBookId(ctx.State(), newId)
    modifies ctx
    ensures ctx.Valid()
    ensures var v := BookRules(old(ctx.State()), authId, catId, book);
      (v.Fail? ==> status == v.status) &&
      (v.Pass? && !ms.IsValid() ==> status == BadRequest) &&
      (v.Pass? && ms.IsValid() ==> status == if saved then Created else InternalServerError)
    ensures status == Created ==>
      book.Some? && ctx.State() == BookRepository.Created(old(ctx.State()), authId, catId, book.value, newId)
    ensures status != Created ==> ctx.State() == old(ctx.State())
  {
    var statusCode, msChecked := ValidateBook(ctx, ms, authId, catId, book);
    if !msChecked.IsValid() {
      return statusCode;
    }
    var ok := BookRepository.CreateBook(ctx, authId, catId, book.value, newId, saved);
    if !ok {
      return InternalServerError;
    }
    return Created;
  }

  /**
   * `UpdateBook`: 400 on a path/body id mismatch and 404 for an unknown
   * book, both before validation; then as `CreateBook`, with the links
   * rebuilt instead of added.
   */
  method UpdateBook(ctx: BookDbContext, ms: ModelState, bookId: int, authId: seq<int>, catId: seq<int>,
                    bookToUpdate: Book, saved: bool)
    returns (status: Status)
    requires ctx.Valid()
    modifies ctx
    ensures ctx.Valid()
    ensures bookId != bookToUpdate.id ==> status == BadRequest
    ensures bookId == bookToUpdate.id && bookId !in old(ctx.books) ==> status == NotFound
    ensures var v := BookRules(old(ctx.State()), authId, catId, Some(bookToUpdate));
      bookId == bookToUpdate.id && bookId in old(ctx.books) ==>
        (v.Fail? ==> status == v.status) &&
        (v.Pass? && !ms.IsValid() ==> status == BadRequest) &&
        (v.Pass? && ms.IsValid() ==> status == if saved then NoContent else InternalServerError)
    ensures status == NoContent ==> ctx.State() == BookRepository.Relinked(old(ctx.State()), authId, catId, bookToUpdate)
    ensures status != NoContent ==> ctx.State() == old(ctx.State())
  {
    if bookId != bookToUpdate.id {
      return BadRequest;
    }
    if !BookRepository.BookExists(ctx.State(), bookId) {
      return NotFound;
    }
    var statusCode, msChecked := ValidateBook(ctx, ms, authId, catId, Some(bookToUpdate));
    if !msChecked.IsValid() {
      return statusCode;
    }
    var ok := BookRepository.UpdateBook(ctx, authId, catId, bookToUpdate, saved);
    if !ok {
      return InternalServerError;
    }
    return NoContent;
  }

  /**
   * `DeleteBook`: deletes the book's reviews, then the book. When the review
   * delete fails nothing has changed; when the book delete fails the
   * reviews are already gone.
   */
  method DeleteBook(ctx: BookDbContext, ms: ModelState, bookId: int, reviewsSaved: bool, bookSaved: bool)
    returns (status: Status)
    requires ctx.Valid()
    modifies ctx
    ensures ctx.Valid()
    ensures bookId !in old(ctx.books) ==> status == NotFound && ctx.State() == old(ctx.State())
    ensures bookId in old(ctx.books) && !ms.IsValid() ==> status == BadRequest && ctx.State() == old(ctx.State())
    ensures bookId in old(ctx.books) && ms.IsValid() && !reviewsSaved ==>
      status == InternalServerError && ctx.State() == old(ctx.State())
    ensures var cleared := old(ctx.State()).(reviews := old(ctx.reviews) - ReviewRepository.IdsOf(ReviewRepository.GetReviewsOfABook(old(ctx.State()), bookId)));
      bookId in old(ctx.books) && ms.IsValid() && reviewsSaved ==>
        status == (if bookSaved then NoContent else InternalServerError) &&
        ctx.State() == if bookSaved then cleared.(books := cleared.books - {bookId}) else cleared
    ensures status == NoContent ==>
      bookId !in ctx.books && (forall k | k in ctx.reviews :: ctx.reviews[k].bookId != bookId)
  {
    var db := ctx.State();
    if !BookRepository.BookExists(db, bookId) {
      return NotFound;
    }
    var reviewsToDelete := ReviewRepository.GetReviewsOfABook(db, bookId);
    var bookToDelete := BookRepository.GetBook(db, bookId).value;
    if !ms.IsValid() {
      return BadRequest;
    }
    var ok := ReviewRepository.DeleteReviews(ctx, reviewsToDelete, reviewsSaved);
    if !ok {
      return InternalServerError;
    }
    ok := BookRepository.DeleteBook(ctx, bookToDelete, bookSaved);
    if !ok {
      return InternalServerError;
    }
    ReviewRepository.DeletingReviewsOfABookClearsIt(db, bookId);
    return NoContent;
  }
}
