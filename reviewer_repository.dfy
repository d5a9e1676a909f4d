/** `ReviewerRepository`: queries on Reviewers and their reviews, and the reviewer writes. */
module ReviewerRepository {
  import opened Entities
  import opened Store
  import opened Listing

  predicate ByLastName(a: Reviewer, b: Reviewer) {
    StrLe(a.lastName, b.lastName)
  }

  /** `GetReviewers`: every reviewer exactly once, ordered by last name. */
  function GetReviewers(db: Db): (r: seq<Reviewer>)
    requires Keyed(db)
    ensures |r| == |db.reviewers|
    ensures forall k | k in db.reviewers :: db.reviewers[k] in r
    ensures forall x | x in r :: x.id in db.reviewers && db.reviewers[x.id] == x
    ensures NoDuplicates(r)
    ensures Ordered(r, ByLastName)
  {
    KeyOrderIsTotal((x: Reviewer) => x.lastName, ByLastName);
    SortBy(Rows(db.reviewers), ByLastName)
  }

  /** `GetReviewer`: the reviewer whose id is `reviewerId`, if there is one. */
  function GetReviewer(db: Db, reviewerId: int): (r: Option<Reviewer>)
    requires Keyed(db)
    ensures r.None? <==> forall k | k in db.reviewers :: db.reviewers[k].id != reviewerId
    ensures forall k | k in db.reviewers && db.reviewers[k].id == reviewerId :: r == Some(db.reviewers[k])
  {
    if reviewerId in db.reviewers then Some(db.reviewers[reviewerId]) else None
  }

  /** `GetReviewsByReviewer`: exactly the stored reviews written by `reviewerId`. */
  function GetReviewsByReviewer(db: Db, reviewerId: int): (r: seq<Review>)
    requires Keyed(db)
    ensures forall k | k in db.reviews :: db.reviews[k] in r <==> db.reviews[k].reviewerId == reviewerId
    ensures forall x | x in r :: x.reviewerId == reviewerId && x.id in db.reviews && db.reviews[x.id] == x
    ensures NoDuplicates(r)
  {
    Filter(Rows(db.reviews), (x: Review) => x.reviewerId == reviewerId)
  }

  /**
   * `GetReviewerOfAReview`: first the review's reviewer id, where a missing
   * review yields the default id 0; then the reviewer with that id.
   */
  function GetReviewerOfAReview(db: Db, reviewId: int): (r: Option<Reviewer>)
    requires Keyed(db)
    ensures reviewId in db.reviews ==> r == GetReviewer(db, db.reviews[reviewId].reviewerId)
    ensures reviewId !in db.reviews ==> r == GetReviewer(db, 0)
  {
    var reviewerId := if reviewId in db.reviews then db.reviews[reviewId].reviewerId else 0;
    GetReviewer(db, reviewerId)
  }

  /** `ReviewerExists`: some stored reviewer has id `reviewerId`. */
  function ReviewerExists(db: Db, reviewerId: int): (r: bool)
    requires Keyed(db)
    ensures r <==> reviewerId in db.reviewers
  {
    exists k | k in db.reviewers :: db.reviewers[k].id == reviewerId
  }

  /** A review's reviewer, when stored, lists the review among its reviews. */
  lemma ReviewerOfAReviewListsIt(db: Db, reviewId: int)
    requires Keyed(db) && reviewId in db.reviews
    requires GetReviewerOfAReview(db, reviewId).Some?
    ensures db.reviews[reviewId] in GetReviewsByReviewer(db, GetReviewerOfAReview(db, reviewId).value.id)
  {
  }

  /** Asking for the reviewer of a review that does not exist finds reviewer 0 when there is one. */
  lemma MissingReviewFallsBackToReviewerZero(db: Db, reviewId: int)
    requires Keyed(db) && reviewId !in db.reviews && 0 in db.reviewers
    ensures GetReviewerOfAReview(db, reviewId) == Some(db.reviewers[0])
  {
  }

  // -----------------------------------------------------------------------
  // Writes; `saved` is the outcome of `SaveChanges`.

  /** `CreateReviewer`: adds the reviewer under a fresh identity key. */
  method CreateReviewer(ctx: BookDbContext, reviewer: Reviewer, newId: int, saved: bool) returns (ok: bool)
    requires ctx.Valid() && newId !in ctx.reviewers
    modifies ctx
    ensures ctx.Valid() && ok == saved
    ensures ctx.State() == if ok then old(ctx.State()).(reviewers := old(ctx.reviewers)[newId := reviewer.(id := newId)])
                           else old(ctx.State())
  {
    ok := false;
    if saved {
      ctx.reviewers := ctx.reviewers[newId := reviewer.(id := newId)];
      ok := Save(1);
    }
  }

  /** `UpdateReviewer`: replaces the stored row; a key that is not stored makes the save fail. */
  method UpdateReviewer(ctx: BookDbContext, reviewer: Reviewer, saved: bool) returns (ok: bool)
    requires ctx.Valid()
    modifies ctx
    ensures ctx.Valid() && ok == (saved && reviewer.id in old(ctx.reviewers))
    ensures ctx.State() == if ok then old(ctx.State()).(reviewers := old(ctx.reviewers)[reviewer.id := reviewer])
                           else old(ctx.State())
  {
    ok := false;
    if saved && reviewer.id in ctx.reviewers {
      ctx.reviewers := ctx.reviewers[reviewer.id := reviewer];
      ok := Save(1);
    }
  }

  /** `DeleteReviewer`: removes the reviewer's row only; its reviews stay. */
  method DeleteReviewer(ctx: BookDbContext, reviewer: Reviewer, saved: bool) returns (ok: bool)
    requires ctx.Valid()
    modifies ctx
    ensures ctx.Valid() && ok == saved
    ensures ctx.State() == if ok then old(ctx.State()).(reviewers := old(ctx.reviewers) - {reviewer.id})
                           else old(ctx.State())
  {
    ok := false;
    if saved {
      ctx.reviewers := ctx.reviewers - {reviewer.id};
      ok := Save(1);
    }
  }
}
