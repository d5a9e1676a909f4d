/**
 * `ReviewsController` (version 1): the review writes. Missing books,
 * reviewers and reviews are recorded in the model state one after the
 * other, and the action answers 404 once the model state holds any error.
 */
module ReviewsController {
  import opened Entities
  import opened Http
  import opened Store
  import BookRepository
  import ReviewerRepository
  import ReviewRepository

  /**
   * The review row that is written for a request: the nested book and
   * reviewer are replaced by the stored records with the submitted ids.
   */
  function Bind(db: Db, request: ReviewRequest): (r: Review)
    requires Keyed(db) && request.book.id in db.books && request.reviewer.id in db.reviewers
    ensures r.bookId in db.books && db.books[r.bookId] == BookRepository.GetBook(db, request.book.id).value
    ensures r.reviewerId in db.reviewers && db.reviewers[r.reviewerId] == ReviewerRepository.GetReviewer(db, request.reviewer.id).value
    ensures r.id == request.id && r.headline == request.headline && r.reviewText == request.reviewText && r.rating == request.rating
  {
    var book := BookRepository.GetBook(db, request.book.id).value;
    var reviewer := ReviewerRepository.GetReviewer(db, request.reviewer.id).value;
    Review(request.id, request.headline, request.reviewText, request.rating, book.id, reviewer.id)
  }

  /**
   * Records a not-found error for the book and then for the reviewer of
   * the request, each when it is not stored.
   */
  method CheckBookAndReviewer(db: Db, ms: ModelState, request: ReviewRequest) returns (msOut: ModelState)
    requires Keyed(db)
    ensures msOut.errors == ms.errors
      + (if request.book.id in db.books then [] else [BookNotFound(request.book.id)])
      + (if request.reviewer.id in db.reviewers then [] else [ReviewerNotFound(request.reviewer.id)])
    ensures msOut.IsValid() <==> ms.IsValid() && request.book.id in db.books && request.reviewer.id in db.reviewers
  {
    msOut := ms;
    if !BookRepository.BookExists(db, request.book.id) {
      msOut := msOut.AddModelError(BookNotFound(request.book.id));
    }
    if !ReviewerRepository.ReviewerExists(db, request.reviewer.id) {
      msOut := msOut.AddModelError(ReviewerNotFound(request.reviewer.id));
    }
  }

  /**
   * `CreateReview`: 400 on a missing body; 404, with both lookups recorded,
   * when the book or the reviewer is missing (or the model state already
   * held an error); then 500 or 201.
   */
  method CreateReview(ctx: BookDbContext, ms: ModelState, reviewToCreate: Option<ReviewRequest>, newId: int, saved: bool)
    returns (status: Status, msOut: ModelState)
    requires ctx.Valid() && newId !in ctx.reviews
    modifies ctx
    ensures ctx.Valid()
    ensures reviewToCreate.None? ==> status == BadRequest && msOut == ms
    ensures reviewToCreate.Some? ==>
      var req := reviewToCreate.value;
      msOut.errors == ms.errors
        + (if req.book.id in old(ctx.books) then [] else [BookNotFound(req.book.id)])
        + (if req.reviewer.id in old(ctx.reviewers) then [] else [ReviewerNotFound(req.reviewer.id)]) &&
      status == if !msOut.IsValid() then NotFound else if saved then Created else InternalServerError
    ensures status == Created ==>
      reviewToCreate.Some? &&
      var req := reviewToCreate.value;
      ctx.State() == old(ctx.State()).(reviews := old(ctx.reviews)[newId :=
        Review(newId, req.headline, req.reviewText, req.rating, req.book.id, req.reviewer.id)]) &&
      ctx.books[ctx.reviews[newId].bookId] == BookRepository.GetBook(old(ctx.State()), req.book.id).value &&
      ctx.reviewers[ctx.reviews[newId].reviewerId] == ReviewerRepository.GetReviewer(old(ctx.State()), req.reviewer.id).value
    ensures status != Created ==> ctx.State() == old(ctx.State())
  {
    if reviewToCreate.None? {
      return BadRequest, ms;
    }
    var request := reviewToCreate.value;
    var db := ctx.State();
    msOut := CheckBookAndReviewer(db, ms, request);
    if !msOut.IsValid() {
      return NotFound, msOut;
    }
    var review := Bind(db, request);
    // The original tests the model state a second time here; nothing was
    // recorded since the first test, so that branch cannot be taken.
    var ok := ReviewRepository.CreateReview(ctx, review, newId, saved);
    if !ok {
      return InternalServerError, msOut;
    }
    return Created, msOut;
  }

  /**
   * `UpdateReview`: 400 on a missing body or an id mismatch; 404, with
   * every lookup recorded, when the review, the book or the reviewer is
   * missing; then 500 or 204.
   */
  method UpdateReview(ctx: BookDbContext, ms: ModelState, reviewId: int, reviewToUpdate: Option<ReviewRequest>, saved: bool)
    returns (status: Status, msOut: ModelState)
    requires ctx.Valid()
    modifies ctx
    ensures ctx.Valid()
    ensures reviewToUpdate.None? || reviewToUpdate.value.id != reviewId ==> status == BadRequest && msOut == ms
    ensures reviewToUpdate.Some? && reviewToUpdate.value.id == reviewId ==>
      var req := reviewToUpdate.value;
      msOut.errors == ms.errors
        + (if reviewId in old(ctx.reviews) then [] else [ReviewNotFound])
        + (if req.book.id in old(ctx.books) then [] else [BookNotFound(req.book.id)])
        + (if req.reviewer.id in old(ctx.reviewers) then [] else [ReviewerNotFound(req.reviewer.id)]) &&
      status == if !msOut.IsValid() then NotFound else if saved then NoContent else InternalServerError
    ensures status == NoContent ==>
      reviewToUpdate.Some? && reviewId in old(ctx.reviews) &&
      var req := reviewToUpdate.value;
      ctx.State() == old(ctx.State()).(reviews := old(ctx.reviews)[reviewId :=
        Review(reviewId, req.headline, req.reviewText, req.rating, req.book.id, req.reviewer.id)])
    ensures status != NoContent ==> ctx.State() == old(ctx.State())
  {
    if reviewToUpdate.None? {
      return BadRequest, ms;
    }
    var request := reviewToUpdate.value;
    if reviewId != request.id {
      return BadRequest, ms;
    }
    var db := ctx.State();
    msOut := ms;
    if !ReviewRepository.ReviewExists(db, reviewId) {
      msOut := msOut.AddModelError(ReviewNotFound);
    }
    msOut := CheckBookAndReviewer(db, msOut, request);
    if !msOut.IsValid() {
      return NotFound, msOut;
    }
    var review := Bind(db, request);
    // As in `CreateReview`, the second model-state test cannot fire.
    var ok := ReviewRepository.UpdateReview(ctx, review, saved);
    if !ok {
      return InternalServerError, msOut;
    }
    return NoContent, msOut;
  }

  /** `DeleteReview`: 404 for an unknown review, then 400, 500 or 204 (exactly that review removed). */
  method DeleteReview(ctx: BookDbContext, ms: ModelState, reviewId: int, saved: bool)
    returns (status: Status)
    requires ctx.Valid()
    modifies ctx
    ensures ctx.Valid()
    ensures status == if reviewId !in old(ctx.reviews) then NotFound
                      else if !ms.IsValid() then BadRequest
                      else if saved then NoContent
                      else InternalServerError
    ensures status == NoContent ==> ctx.State() == old(ctx.State()).(reviews := old(ctx.reviews) - {reviewId})
    ensures status != NoContent ==> ctx.State() == old(ctx.State())
  {
    var db := ctx.State();
    if !ReviewRepository.ReviewExists(db, reviewId) {
      return NotFound;
    }
    var reviewToDelete := ReviewRepository.GetReview(db, reviewId).value;
    if !ms.IsValid() {
      return BadRequest;
    }
    var ok := ReviewRepository.DeleteReview(ctx, reviewToDelete, saved);
    if !ok {
      return InternalServerError;
    }
    return NoContent;
  }
}
