/**
 * `ReviewersController` (version 1): the same reviewer writes as
 * `ReviewerController`, served under the versioned route. Each action
 * runs the same decision chain, so each delegates to it.
 */
module ReviewersController {
  import opened Entities
  import opened Http
  import opened Store
  import ReviewerRepository
  import ReviewRepository
  import ReviewerController

  /** `CreateReviewer`, version 1. */
  method CreateReviewer(ctx: BookDbContext, ms: ModelState, reviewer: Option<Reviewer>, newId: int, saved: bool)
    returns (status: Status)
    requires ctx.Valid() && newId !in ctx.reviewers
    modifies ctx
    ensures ctx.Valid()
    ensures status == if reviewer.None? || !ms.IsValid() then BadRequest
                      else if saved then Created
                      else InternalServerError
    ensures status == Created ==>
      reviewer.Some? && ctx.State() == old(ctx.State()).(reviewers := old(ctx.reviewers)[newId := reviewer.value.(id := newId)])
    ensures status != Created ==> ctx.State() == old(ctx.State())
  {
    status := ReviewerController.CreateReviewer(ctx, ms, reviewer, newId, saved);
  }

  /** `UpdateReviewer`, version 1. */
  method UpdateReviewer(ctx: BookDbContext, ms: ModelState, reviewerId: int, reviewer: Option<Reviewer>, saved: bool)
    returns (status: Status)
    requires ctx.Valid()
    modifies ctx
    ensures ctx.Valid()
    ensures status == if reviewer.None? || reviewer.value.id != reviewerId then BadRequest
                      else if reviewerId !in old(ctx.reviewers) then NotFound
                      else if !ms.IsValid() then BadRequest
                      else if saved then NoContent
                      else InternalServerError
    ensures status == NoContent ==>
      reviewer.Some? && ctx.State() == old(ctx.State()).(reviewers := old(ctx.reviewers)[reviewerId := reviewer.value])
    ensures status != NoContent ==> ctx.State() == old(ctx.State())
  {
    status := ReviewerController.UpdateReviewer(ctx, ms, reviewerId, reviewer, saved);
  }

  /** `DeleteReviewer`, version 1. */
  method DeleteReviewer(ctx: BookDbContext, ms: ModelState, reviewerId: int, reviewerSaved: bool, reviewsSaved: bool)
    returns (status: Status)
    requires ctx.Valid()
    modifies ctx
    ensures ctx.Valid()
    ensures status == if reviewerId !in old(ctx.reviewers) then NotFound
                      else if !ms.IsValid() then BadRequest
                      else if reviewerSaved && reviewsSaved then NoContent
                      else InternalServerError
    ensures status != NoContent && !(status == InternalServerError && reviewerSaved) ==> ctx.State() == old(ctx.State())
    ensures status == InternalServerError && reviewerSaved ==>
      ctx.State() == old(ctx.State()).(reviewers := old(ctx.reviewers) - {reviewerId}) &&
      forall k | k in old(ctx.reviews) && old(ctx.reviews)[k].reviewerId == reviewerId ::
        k in ctx.reviews && ctx.reviews[k].reviewerId !in ctx.reviewers
    ensures status == NoContent ==>
      var collected := ReviewerRepository.GetReviewsByReviewer(old(ctx.State()), reviewerId);
      ctx.State() == old(ctx.State()).(reviewers := old(ctx.reviewers) - {reviewerId},
                                       reviews := old(ctx.reviews) - ReviewRepository.IdsOf(collected)) &&
      (forall k | k in ctx.reviews :: ctx.reviews[k].reviewerId != reviewerId) &&
      (forall k | k in old(ctx.reviews) && old(ctx.reviews)[k].reviewerId != reviewerId :: k in ctx.reviews)
  {
    status := ReviewerController.DeleteReviewer(ctx, ms, reviewerId, reviewerSaved, reviewsSaved);
  }
}
