/** `ReviewerController`: the reviewer writes, with the reviews cascade on delete. */
module ReviewerController {
  import opened Entities
  import opened Http
  import opened Store
  import ReviewerRepository
  import ReviewRepository

  /** `CreateReviewer`: 400 on a missing body or an invalid model state, then 500 or 201. */
  method CreateReviewer(ctx: BookDbContext, ms: ModelState, reviewer: Option<Reviewer>, newId: int, saved: bool)
    returns (status: Status)
    requires ctx.Valid() && newId !in ctx.reviewers
    modifies ctx
    ensures ctx.Valid()
    ensures status == if reviewer.None? || !ms.IsValid() then BadRequest
                      else if saved then Created
                      else InternalServerError
    ensures status == Created ==>
      reviewer.Some? && ctx.State() == old(ctx.State()).(reviewers := old(ctx.reviewers)[newId := reviewer.value.(id := newId)])
    ensures status != Created ==> ctx.State() == old(ctx.State())
  {
    if reviewer.None? || !ms.IsValid() {
      return BadRequest;
    }
    var ok := ReviewerRepository.CreateReviewer(ctx, reviewer.value, newId, saved);
    if !ok {
      return InternalServerError;
    }
    return Created;
  }

  /** `UpdateReviewer`: 400 on a missing body or an id mismatch, 404 for an unknown reviewer, then 400, 500 or 204. */
  method UpdateReviewer(ctx: BookDbContext, ms: ModelState, reviewerId: int, reviewer: Option<Reviewer>, saved: bool)
    returns (status: Status)
    requires ctx.Valid()
    modifies ctx
    ensures ctx.Valid()
    ensures status == if reviewer.None? || reviewer.value.id != reviewerId then BadRequest
                      else if reviewerId !in old(ctx.reviewers) then NotFound
                      else if !ms.IsValid() then BadRequest
                      else if saved then NoContent
                      else InternalServerError
    ensures status == NoContent ==>
      reviewer.Some? && ctx.State() == old(ctx.State()).(reviewers := old(ctx.reviewers)[reviewerId := reviewer.value])
    ensures status != NoContent ==> ctx.State() == old(ctx.State())
  {
    if reviewer.None? || reviewer.value.id != reviewerId {
      return BadRequest;
    }
    if !ReviewerRepository.ReviewerExists(ctx.State(), reviewerId) {
      return NotFound;
    }
    if !ms.IsValid() {
      return BadRequest;
    }
    var ok := ReviewerRepository.UpdateReviewer(ctx, reviewer.value, saved);
    if !ok {
      return InternalServerError;
    }
    return NoContent;
  }

  /** Deleting the collected reviews of a reviewer leaves no review by that reviewer and every other review. */
  lemma DeletingReviewsByReviewerClearsIt(db: Db, reviewerId: int)
    requires Keyed(db)
    ensures var rest := db.reviews - ReviewRepository.IdsOf(ReviewerRepository.GetReviewsByReviewer(db, reviewerId));
      (forall k | k in rest :: rest[k].reviewerId != reviewerId) &&
      (forall k | k in db.reviews && db.reviews[k].reviewerId != reviewerId :: k in rest && rest[k] == db.reviews[k])
  {
  }

  /**
   * `DeleteReviewer`: 404 for an unknown reviewer; its reviews are
   * collected; 400 on an invalid model state. Then the reviewer is deleted
   * FIRST (a failure answers 500 with nothing changed) and its reviews
   * second (a failure answers 500 with the reviewer gone and its reviews
   * still holding its id; the model has no foreign keys).
   */
  method DeleteReviewer(ctx: BookDbContext, ms: ModelState, reviewerId: int, reviewerSaved: bool, reviewsSaved: bool)
    returns (status: Status)
    requires ctx.Valid()
    modifies ctx
    ensures ctx.Valid()
    ensures status == if reviewerId !in old(ctx.reviewers) then NotFound
                      else if !ms.IsValid() then BadRequest
                      else if reviewerSaved && reviewsSaved then NoContent
                      else InternalServerError
    ensures status != NoContent && !(status == InternalServerError && reviewerSaved) ==> ctx.State() == old(ctx.State())
    ensures status == InternalServerError && reviewerSaved ==>
      ctx.State() == old(ctx.State()).(reviewers := old(ctx.reviewers) - {reviewerId}) &&
      forall k | k in old(ctx.reviews) && old(ctx.reviews)[k].reviewerId == reviewerId ::
        k in ctx.reviews && ctx.reviews[k].reviewerId !in ctx.reviewers
    ensures status == NoContent ==>
      var collected := ReviewerRepository.GetReviewsByReviewer(old(ctx.State()), reviewerId);
      ctx.State() == old(ctx.State()).(reviewers := old(ctx.reviewers) - {reviewerId},
                                       reviews := old(ctx.reviews) - ReviewRepository.IdsOf(collected)) &&
      (forall k | k in ctx.reviews :: ctx.reviews[k].reviewerId != reviewerId) &&
      (forall k | k in old(ctx.reviews) && old(ctx.reviews)[k].reviewerId != reviewerId :: k in ctx.reviews)
  {
    var db := ctx.State();
    if !ReviewerRepository.ReviewerExists(db, reviewerId) {
      return NotFound;
    }
    var reviewerToDelete := ReviewerRepository.GetReviewer(db, reviewerId).value;
    var reviewsToDelete := ReviewerRepository.GetReviewsByReviewer(db, reviewerId);
    if !ms.IsValid() {
      return BadRequest;
    }
    var ok := ReviewerRepository.DeleteReviewer(ctx, reviewerToDelete, reviewerSaved);
    if !ok {
      return InternalServerError;
    }
    ok := ReviewRepository.DeleteReviews(ctx, reviewsToDelete, reviewsSaved);
    if !ok {
      return InternalServerError;
    }
    DeletingReviewsByReviewerClearsIt(db, reviewerId);
    return NoContent;
  }
}
