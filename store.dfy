/**
 * The database context: one table per entity, keyed by primary key, and
 * the two join tables. Queries read its value `Db`; writes update the
 * `BookDbContext` object in place.
 */
module Store {
  import opened Entities

  /** The contents of every table at one moment. */
  datatype Db = Db(
    countries: map<int, Country>,
    authors: map<int, Author>,
    categories: map<int, Category>,
    books: map<int, Book>,
    reviewers: map<int, Reviewer>,
    reviews: map<int, Review>,
    bookAuthors: set<BookAuthor>,
    bookCategories: set<BookCategory>)

  /** Every row is stored under its own primary key. */
  ghost predicate Keyed(db: Db) {
    (forall k | k in db.countries :: db.countries[k].id == k) &&
    (forall k | k in db.authors :: db.authors[k].id == k) &&
    (forall k | k in db.categories :: db.categories[k].id == k) &&
    (forall k | k in db.books :: db.books[k].id == k) &&
    (forall k | k in db.reviewers :: db.reviewers[k].id == k) &&
    (forall k | k in db.reviews :: db.reviews[k].id == k)
  }

  /** The store as the context's change tracker holds it. */
  class BookDbContext {
    var countries: map<int, Country>
    var authors: map<int, Author>
    var categories: map<int, Category>
    var books: map<int, Book>
    var reviewers: map<int, Reviewer>
    var reviews: map<int, Review>
    var bookAuthors: set<BookAuthor>
    var bookCategories: set<BookCategory>

    function State(): Db
      reads this
    {
      Db(countries, authors, categories, books, reviewers, reviews, bookAuthors, bookCategories)
    }

    ghost predicate Valid()
      reads this
    {
      Keyed(State())
    }

    /** An empty database. */
    constructor ()
      ensures Valid()
      ensures State() == Db(map[], map[], map[], map[], map[], map[], {}, {})
    {
      countries, authors, categories, books := map[], map[], map[], map[];
      reviewers, reviews := map[], map[];
      bookAuthors, bookCategories := {}, {};
    }
  }

  /**
   * `Save()`: success is `SaveChanges() >= 0`. The count of written rows is
   * never negative, so a save that returns always reports success.
   */
  function Save(savedChanges: nat): (ok: bool)
    ensures ok
  {
    savedChanges >= 0
  }
}
