/** `ReviewRepository`: queries and writes on the Reviews table. */
module ReviewRepository {
  import opened Entities
  import opened Store
  import opened Listing

  predicate ByRating(a: Review, b: Review) {
    a.rating <= b.rating
  }

  /** `GetReviews`: every review exactly once, in ascending rating. */
  function GetReviews(db: Db): (r: seq<Review>)
    requires Keyed(db)
    ensures |r| == |db.reviews|
    ensures forall k | k in db.reviews :: db.reviews[k] in r
    ensures forall x | x in r :: x.id in db.reviews && db.reviews[x.id] == x
    ensures NoDuplicates(r)
    ensures Ordered(r, ByRating)
  {
    assert TotalPreorder(ByRating);
    SortBy(Rows(db.reviews), ByRating)
  }

  /** `GetReview`: the review whose id is `reviewId`, if there is one. */
  function GetReview(db: Db, reviewId: int): (r: Option<Review>)
    requires Keyed(db)
    ensures r.None? <==> forall k | k in db.reviews :: db.reviews[k].id != reviewId
    ensures forall k | k in db.reviews && db.reviews[k].id == reviewId :: r == Some(db.reviews[k])
  {
    if reviewId in db.reviews then Some(db.reviews[reviewId]) else None
  }

  /** `GetReviewsOfABook`: exactly the stored reviews of book `bookId`. */
  function GetReviewsOfABook(db: Db, bookId: int): (r: seq<Review>)
    requires Keyed(db)
    ensures forall k | k in db.reviews :: db.reviews[k] in r <==> db.reviews[k].bookId == bookId
    ensures forall x | x in r :: x.bookId == bookId && x.id in db.reviews && db.reviews[x.id] == x
    ensures NoDuplicates(r)
  {
    Filter(Rows(db.reviews), (x: Review) => x.bookId == bookId)
  }

  /** A book has no reviews in the list exactly when no stored review points at it. */
  lemma UnreviewedBookHasNoReviews(db: Db, bookId: int)
    requires Keyed(db)
    ensures GetReviewsOfABook(db, bookId) == [] <==> forall k | k in db.reviews :: db.reviews[k].bookId != bookId
  {
    var rs := GetReviewsOfABook(db, bookId);
    if rs != [] {
      assert rs[0] in rs;
    }
  }

  /**
   * `GetBookOfAReview`: the book the review points at; nothing when the
   * review is absent (or its book row is gone).
   */
  function GetBookOfAReview(db: Db, reviewId: int): (r: Option<Book>)
    requires Keyed(db)
    ensures r.Some? <==> reviewId in db.reviews && db.reviews[reviewId].bookId in db.books
    ensures r.Some? ==> r.value.id == db.reviews[reviewId].bookId && r.value in db.books.Values
  {
    if reviewId in db.reviews && db.reviews[reviewId].bookId in db.books then
      Some(db.books[db.reviews[reviewId].bookId])
    else
      None
  }

  /** `ReviewExists`: some stored review has id `reviewId`. */
  function ReviewExists(db: Db, reviewId: int): (r: bool)
    requires Keyed(db)
    ensures r <==> reviewId in db.reviews
  {
    exists k | k in db.reviews :: db.reviews[k].id == reviewId
  }

  /** Following a review to its book and back finds the review again. */
  lemma BookOfAReviewListsIt(db: Db, reviewId: int)
    requires Keyed(db)
    requires GetBookOfAReview(db, reviewId).Some?
    ensures GetReview(db, reviewId).Some?
    ensures GetReview(db, reviewId).value in GetReviewsOfABook(db, GetBookOfAReview(db, reviewId).value.id)
  {
  }

  /** The ids of a list of reviews. */
  function IdsOf(reviews: seq<Review>): set<int> {
    set x | x in reviews :: x.id
  }

  // -----------------------------------------------------------------------
  // Writes. `saved` is the outcome of `SaveChanges`: when it is false the
  // unit of work is not committed and every table is left as it was.

  /** `CreateReview`: adds the review under a fresh identity key. */
  method CreateReview(ctx: BookDbContext, review: Review, newId: int, saved: bool) returns (ok: bool)
    requires ctx.Valid() && newId !in ctx.reviews
    modifies ctx
    ensures ctx.Valid() && ok == saved
    ensures ctx.State() == if ok then old(ctx.State()).(reviews := old(ctx.reviews)[newId := review.(id := newId)])
                           else old(ctx.State())
  {
    ok := false;
    if saved {
      ctx.reviews := ctx.reviews[newId := review.(id := newId)];
      ok := Save(1);
    }
  }

  /**
   * `UpdateReview`: replaces the row with the review's key. An update of a
   * key that is not stored touches no row, and the save then fails.
   */
  method UpdateReview(ctx: BookDbContext, review: Review, saved: bool) returns (ok: bool)
    requires ctx.Valid()
    modifies ctx
    ensures ctx.Valid() && ok == (saved && review.id in old(ctx.reviews))
    ensures ctx.State() == if ok then old(ctx.State()).(reviews := old(ctx.reviews)[review.id := review])
                           else old(ctx.State())
  {
    ok := false;
    if saved && review.id in ctx.reviews {
      ctx.reviews := ctx.reviews[review.id := review];
      ok := Save(1);
    }
  }

  /** `DeleteReview`: removes the row with the review's key. */
  method DeleteReview(ctx: BookDbContext, review: Review, saved: bool) returns (ok: bool)
    requires ctx.Valid()
    modifies ctx
    ensures ctx.Valid() && ok == saved
    ensures ctx.State() == if ok then old(ctx.State()).(reviews := old(ctx.reviews) - {review.id})
                           else old(ctx.State())
  {
    ok := false;
    if saved {
      ctx.reviews := ctx.reviews - {review.id};
      ok := Save(1);
    }
  }

  /** `DeleteReviews`: removes the rows of every listed review and no other. */
  method DeleteReviews(ctx: BookDbContext, reviews: seq<Review>, saved: bool) returns (ok: bool)
    requires ctx.Valid()
    modifies ctx
    ensures ctx.Valid() && ok == saved
    ensures ctx.State() == if ok then old(ctx.State()).(reviews := old(ctx.reviews) - IdsOf(reviews))
                           else old(ctx.State())
    ensures ok ==> forall k :: k in ctx.reviews <==> k in old(ctx.reviews) && forall x | x in reviews :: x.id != k
  {
    ok := false;
    if saved {
      ctx.reviews := ctx.reviews - IdsOf(reviews);
      ok := Save(|reviews|);
    }
  }

  /** Deleting the reviews of a book leaves no review of that book. */
  lemma DeletingReviewsOfABookClearsIt(db: Db, bookId: int)
    requires Keyed(db)
    ensures var rest := db.reviews - IdsOf(GetReviewsOfABook(db, bookId));
      (forall k | k in rest :: rest[k].bookId != bookId) &&
      (forall k | k in db.reviews && db.reviews[k].bookId != bookId :: k in rest && rest[k] == db.reviews[k])
  {
  }
}
