/** `BookRepository`: queries on Books and the two join tables, and the book writes. */
module BookRepository {
  import opened Entities
  import opened Store
  import opened Listing
  import opened Text
  import ReviewRepository

  predicate ByTitle(a: Book, b: Book) {
    StrLe(a.title, b.title)
  }

  /** `GetBooks`: every book exactly once, ordered by title. */
  function GetBooks(db: Db): (r: seq<Book>)
    requires Keyed(db)
    ensures |r| == |db.books|
    ensures forall k | k in db.books :: db.books[k] in r
    ensures forall x | x in r :: x.id in db.books && db.books[x.id] == x
    ensures NoDuplicates(r)
    ensures Ordered(r, ByTitle)
  {
    KeyOrderIsTotal((b: Book) => b.title, ByTitle);
    SortBy(Rows(db.books), ByTitle)
  }

  /** `GetBook(int)`: the book whose id is `bookId`, if there is one. */
  function GetBook(db: Db, bookId: int): (r: Option<Book>)
    requires Keyed(db)
    ensures r.None? <==> forall k | k in db.books :: db.books[k].id != bookId
    ensures forall k | k in db.books && db.books[k].id == bookId :: r == Some(db.books[k])
  {
    if bookId in db.books then Some(db.books[bookId]) else None
  }

  /** `GetBook(string)`: a book whose ISBN is exactly `isbn`, if there is one. */
  function GetBookByIsbn(db: Db, isbn: string): (r: Option<Book>)
    requires Keyed(db)
    ensures r.None? <==> forall k | k in db.books :: db.books[k].isbn != isbn
    ensures r.Some? ==> r.value.isbn == isbn && r.value.id in db.books && db.books[r.value.id] == r.value
  {
    var hits := Filter(Rows(db.books), (b: Book) => b.isbn == isbn);
    if hits == [] then None
    else
      assert hits[0] in hits;
      Some(hits[0])
  }

  /** `BookExists(int)`: some stored book has id `bookId`. */
  function BookExists(db: Db, bookId: int): (r: bool)
    requires Keyed(db)
    ensures r <==> bookId in db.books
  {
    exists k | k in db.books :: db.books[k].id == bookId
  }

  /** `BookExists(string)`: some stored book has exactly this ISBN (no trimming, case-sensitive). */
  function BookExistsByIsbn(db: Db, isbn: string): (r: bool)
    requires Keyed(db)
    ensures r <==> GetBookByIsbn(db, isbn).Some?
  {
    exists k | k in db.books :: db.books[k].isbn == isbn
  }

  /**
   * `IsDuplicateISBN`: some OTHER book (a different id) has the same ISBN
   * once both are trimmed and upper-cased.
   */
  function IsDuplicateIsbn(db: Db, bookId: int, isbn: string): (r: bool)
    requires Keyed(db)
    ensures r <==> exists k | k in db.books && k != bookId :: Norm(db.books[k].isbn) == Norm(isbn)
  {
    exists k | k in db.books :: Norm(db.books[k].isbn) == Norm(isbn) && db.books[k].id != bookId
  }

  /** The book itself never makes its own ISBN a duplicate. */
  lemma OwnRowNeverDuplicates(db: Db, bookId: int, isbn: string)
    requires Keyed(db)
    ensures Keyed(db.(books := db.books - {bookId}))
    ensures IsDuplicateIsbn(db, bookId, isbn) == IsDuplicateIsbn(db.(books := db.books - {bookId}), bookId, isbn)
  {
    var d := db.(books := db.books - {bookId});
    if IsDuplicateIsbn(db, bookId, isbn) {
      var k :| k in db.books && k != bookId && Norm(db.books[k].isbn) == Norm(isbn);
      assert k in d.books;
    }
  }

  /** An ISBN that differs from another book's only by padding or letter case is a duplicate. */
  lemma PaddedOrUpperCasedIsbnIsDuplicate(db: Db, bookId: int, other: int, pre: string, post: string)
    requires Keyed(db) && other in db.books && other != bookId
    requires AllWhiteSpace(pre) && AllWhiteSpace(post)
    ensures IsDuplicateIsbn(db, bookId, pre + db.books[other].isbn + post)
    ensures IsDuplicateIsbn(db, bookId, ToUpper(db.books[other].isbn))
  {
    NormIgnoresPadding(pre, db.books[other].isbn, post);
    NormIgnoresCase(db.books[other].isbn);
  }

  /**
   * The ISBN lookup is exact while the duplicate check is not: an ISBN with
   * a leading blank is not found, yet duplicates the stored one.
   */
  lemma IsbnLookupIsExact()
    ensures var db := Db(map[], map[], map[], map[1 := Book(1, "isbn-1", "A", None)], map[], map[], {}, {});
      Keyed(db) && !BookExistsByIsbn(db, " isbn-1") && IsDuplicateIsbn(db, 2, " isbn-1")
  {
    var db := Db(map[], map[], map[], map[1 := Book(1, "isbn-1", "A", None)], map[], map[], {}, {});
    assert " isbn-1" == " " + "isbn-1" + [];
    assert AllWhiteSpace(" ");
    PaddedOrUpperCasedIsbnIsDuplicate(db, 2, 1, " ", []);
  }

  // -----------------------------------------------------------------------
  // Rating

  function SumOfRatings(rs: seq<Review>): int {
    if rs == [] then 0 else rs[0].rating + SumOfRatings(rs[1..])
  }

  /**
   * `GetBookRating`: 0 for a book without reviews, otherwise the mean of
   * its reviews' ratings (decimal division, here exact).
   */
  function GetBookRating(db: Db, bookId: int): (rating: real)
    requires Keyed(db)
    ensures (forall k | k in db.reviews :: db.reviews[k].bookId != bookId) ==> rating == 0.0
    ensures var rs := ReviewRepository.GetReviewsOfABook(db, bookId);
      |rs| > 0 ==> IsMeanRating(rating, rs)
  {
    var reviews := ReviewRepository.GetReviewsOfABook(db, bookId);
    ReviewRepository.UnreviewedBookHasNoReviews(db, bookId);
    if !(|reviews| > 0) then 0.0
    else RatingOf(reviews)
  }

  /** `rating` times the number of reviews is the sum of their ratings. */
  ghost predicate IsMeanRating(rating: real, reviews: seq<Review>) {
    rating * (|reviews| as real) == SumOfRatings(reviews) as real
  }

  /** The mean rating of a non-empty list of reviews. */
  function RatingOf(reviews: seq<Review>): (rating: real)
    requires |reviews| > 0
    ensures IsMeanRating(rating, reviews)
  {
    Mean(SumOfRatings(reviews), |reviews|)
  }

  /** Decimal division of a sum by a positive count. */
  function Mean(sum: int, count: nat): (q: real)
    requires count > 0
    ensures q * (count as real) == sum as real
  {
    sum as real / count as real
  }

  lemma {:induction false} SumOfRatingsBounds(rs: seq<Review>, lo: int, hi: int)
    requires forall x | x in rs :: lo <= x.rating <= hi
    ensures lo * |rs| <= SumOfRatings(rs) <= hi * |rs|
  {
    if rs != [] {
      assert forall x | x in rs[1..] :: x in rs;
      SumOfRatingsBounds(rs[1..], lo, hi);
      assert lo * |rs| == lo * (|rs| - 1) + lo;
      assert hi * |rs| == hi * (|rs| - 1) + hi;
    }
  }

  lemma MeanWithinBounds(q: real, count: nat, sum: int, lo: int, hi: int)
    requires count > 0 && q * (count as real) == sum as real
    requires lo * count <= sum <= hi * count
    ensures lo as real <= q <= hi as real
  {
    var n := count as real;
    assert (lo * count) as real == lo as real * n;
    assert (hi * count) as real == hi as real * n;
  }

  lemma MeanRatingWithinBounds(q: real, rs: seq<Review>, lo: int, hi: int)
    requires |rs| > 0 && IsMeanRating(q, rs)
    requires forall x | x in rs :: lo <= x.rating <= hi
    ensures lo as real <= q <= hi as real
  {
    SumOfRatingsBounds(rs, lo, hi);
    MeanWithinBounds(q, |rs|, SumOfRatings(rs), lo, hi);
  }

  /** A reviewed book's rating lies between its lowest and highest review. */
  lemma RatingWithinReviewBounds(db: Db, bookId: int, reviewKey: int, lo: int, hi: int)
    requires Keyed(db)
    requires reviewKey in db.reviews && db.reviews[reviewKey].bookId == bookId
    requires forall k | k in db.reviews && db.reviews[k].bookId == bookId :: lo <= db.reviews[k].rating <= hi
    ensures lo as real <= GetBookRating(db, bookId) <= hi as real
  {
    var rs := ReviewRepository.GetReviewsOfABook(db, bookId);
    assert db.reviews[reviewKey] in rs;
    forall x | x in rs ensures lo <= x.rating <= hi {
      assert x.id in db.reviews && db.reviews[x.id] == x;
    }
    MeanRatingWithinBounds(GetBookRating(db, bookId), rs, lo, hi);
  }

  // -----------------------------------------------------------------------
  // Book writes and the association rules they follow

  /** `Authors.Where(a => authorsId.Contains(a.Id))`: the stored authors listed by id. */
  function ListedAuthors(db: Db, authorsId: seq<int>): (r: seq<Author>)
    requires Keyed(db)
    ensures forall k | k in db.authors :: db.authors[k] in r <==> k in authorsId
    ensures forall a | a in r :: a.id in db.authors && a.id in authorsId && db.authors[a.id] == a
  {
    Filter(Rows(db.authors), (a: Author) => a.id in authorsId)
  }

  /** `Categories.Where(c => categoriesId.Contains(c.Id))`: the stored categories listed by id. */
  function ListedCategories(db: Db, categoriesId: seq<int>): (r: seq<Category>)
    requires Keyed(db)
    ensures forall k | k in db.categories :: db.categories[k] in r <==> k in categoriesId
    ensures forall c | c in r :: c.id in db.categories && c.id in categoriesId && db.categories[c.id] == c
  {
    Filter(Rows(db.categories), (c: Category) => c.id in categoriesId)
  }

  /** One author link per stored author that `authorsId` names. */
  ghost function AuthorLinks(db: Db, bookId: int, authorsId: seq<int>): set<BookAuthor> {
    set k | k in db.authors && k in authorsId :: BookAuthor(bookId, k)
  }

  /** One category link per stored category that `categoriesId` names. */
  ghost function CategoryLinks(db: Db, bookId: int, categoriesId: seq<int>): set<BookCategory> {
    set k | k in db.categories && k in categoriesId :: BookCategory(bookId, k)
  }

  /** An identity value the database has never handed out: no row refers to it. */
  ghost predicate FreshBookId(db: Db, id: int) {
    id !in db.books &&
    (forall l | l in db.bookAuthors :: l.bookId != id) &&
    (forall l | l in db.bookCategories :: l.bookId != id) &&
    (forall k | k in db.reviews :: db.reviews[k].bookId != id)
  }

  /** The store after `CreateBook` commits. */
  ghost function Created(db: Db, authorsId: seq<int>, categoriesId: seq<int>, book: Book, newId: int): Db {
    db.(books := db.books[newId := book.(id := newId)],
        bookAuthors := db.bookAuthors + AuthorLinks(db, newId, authorsId),
        bookCategories := db.bookCategories + CategoryLinks(db, newId, categoriesId))
  }

  /** The store after `UpdateBook` commits: the book's links are dropped and rebuilt. */
  ghost function Relinked(db: Db, authorsId: seq<int>, categoriesId: seq<int>, book: Book): Db {
    db.(books := db.books[book.id := book],
        bookAuthors := (set l | l in db.bookAuthors && l.bookId != book.id) + AuthorLinks(db, book.id, authorsId),
        bookCategories := (set l | l in db.bookCategories && l.bookId != book.id) + CategoryLinks(db, book.id, categoriesId))
  }

  lemma ListedAuthorsLink(db: Db, bookId: int, authorsId: seq<int>)
    requires Keyed(db)
    ensures (set a | a in ListedAuthors(db, authorsId) :: BookAuthor(bookId, a.id)) == AuthorLinks(db, bookId, authorsId)
  {
  }

  lemma ListedCategoriesLink(db: Db, bookId: int, categoriesId: seq<int>)
    requires Keyed(db)
    ensures (set c | c in ListedCategories(db, categoriesId) :: BookCategory(bookId, c.id)) == CategoryLinks(db, bookId, categoriesId)
  {
  }

  /** The `foreach` over the listed authors: one `BookAuthor` row per author. */
  method AddAuthorLinks(links: set<BookAuthor>, bookId: int, authors: seq<Author>) returns (r: set<BookAuthor>)
    ensures r == links + set a | a in authors :: BookAuthor(bookId, a.id)
  {
    r := links;
    for i := 0 to |authors|
      invariant r == links + set a | a in authors[..i] :: BookAuthor(bookId, a.id)
    {
      assert authors[..i + 1] == authors[..i] + [authors[i]];
      r := r + {BookAuthor(bookId, authors[i].id)};
    }
    assert authors[..|authors|] == authors;
  }

  /** The `foreach` over the listed categories: one `BookCategory` row per category. */
  method AddCategoryLinks(links: set<BookCategory>, bookId: int, categories: seq<Category>) returns (r: set<BookCategory>)
    ensures r == links + set c | c in categories :: BookCategory(bookId, c.id)
  {
    r := links;
    for i := 0 to |categories|
      invariant r == links + set c | c in categories[..i] :: BookCategory(bookId, c.id)
    {
      assert categories[..i + 1] == categories[..i] + [categories[i]];
      r := r + {BookCategory(bookId, categories[i].id)};
    }
    assert categories[..|categories|] == categories;
  }

  /**
   * The author rows both book writes add: the stored authors listed by id
   * (`Authors.Where(...)`), one link each, added to `links`.
   */
  method LinkListedAuthors(db: Db, links: set<BookAuthor>, bookId: int, authorsId: seq<int>)
    returns (r: set<BookAuthor>)
    requires Keyed(db)
    ensures r == links + AuthorLinks(db, bookId, authorsId)
  {
    var authors := ListedAuthors(db, authorsId);
    r := AddAuthorLinks(links, bookId, authors);
    ListedAuthorsLink(db, bookId, authorsId);
  }

  /** The category rows both book writes add, as `LinkListedAuthors` does for authors. */
  method LinkListedCategories(db: Db, links: set<BookCategory>, bookId: int, categoriesId: seq<int>)
    returns (r: set<BookCategory>)
    requires Keyed(db)
    ensures r == links + CategoryLinks(db, bookId, categoriesId)
  {
    var categories := ListedCategories(db, categoriesId);
    r := AddCategoryLinks(links, bookId, categories);
    ListedCategoriesLink(db, bookId, categoriesId);
  }

  /**
   * `CreateBook`: adds the book under a fresh key and links it to every
   * stored author and category listed; repeated ids give one link, unknown
   * ids none.
   */
  method CreateBook(ctx: BookDbContext, authorsId: seq<int>, categoriesId: seq<int>, book: Book, newId: int, saved: bool)
    returns (ok: bool)
    requires ctx.Valid() && FreshBookId(ctx.State(), newId)
    modifies ctx
    ensures ctx.Valid() && ok == saved
    ensures ctx.State() == if ok then Created(old(ctx.State()), authorsId, categoriesId, book, newId) else old(ctx.State())
  {
    var db := ctx.State();
    var created := book.(id := newId);
    var bookAuthors := LinkListedAuthors(db, db.bookAuthors, created.id, authorsId);
    var bookCategories := LinkListedCategories(db, db.bookCategories, created.id, categoriesId);
    assert Created(db, authorsId, categoriesId, book, newId) ==
      db.(books := db.books[newId := created], bookAuthors := bookAuthors, bookCategories := bookCategories);
    ok := false;
    if saved {
      ctx.books := ctx.books[newId := created];
      ctx.bookAuthors, ctx.bookCategories := bookAuthors, bookCategories;
      ok := Save(1);
    }
  }

  /**
   * `UpdateBook`: drops every link of the book, links it again to the
   * stored authors and categories listed, and replaces its row. An update
   * of a key that is not stored touches no row, and the save then fails.
   */
  method UpdateBook(ctx: BookDbContext, authorsId: seq<int>, categoriesId: seq<int>, book: Book, saved: bool)
    returns (ok: bool)
    requires ctx.Valid()
    modifies ctx
    ensures ctx.Valid() && ok == (saved && book.id in old(ctx.books))
    ensures ctx.State() == if ok then Relinked(old(ctx.State()), authorsId, categoriesId, book) else old(ctx.State())
  {
    var db := ctx.State();
    var keptAuthors := set l | l in db.bookAuthors && l.bookId != book.id;
    var keptCategories := set l | l in db.bookCategories && l.bookId != book.id;
    var bookAuthors := LinkListedAuthors(db, keptAuthors, book.id, authorsId);
    var bookCategories := LinkListedCategories(db, keptCategories, book.id, categoriesId);
    assert Relinked(db, authorsId, categoriesId, book) ==
      db.(books := db.books[book.id := book], bookAuthors := bookAuthors, bookCategories := bookCategories);
    ok := false;
    if saved && book.id in ctx.books {
      ctx.books := ctx.books[book.id := book];
      ctx.bookAuthors, ctx.bookCategories := bookAuthors, bookCategories;
      ok := Save(1);
    }
  }

  /** `DeleteBook`: removes the book's row and no other row. */
  method DeleteBook(ctx: BookDbContext, book: Book, saved: bool) returns (ok: bool)
    requires ctx.Valid()
    modifies ctx
    ensures ctx.Valid() && ok == saved
    ensures ctx.State() == if ok then old(ctx.State()).(books := old(ctx.books) - {book.id}) else old(ctx.State())
  {
    ok := false;
    if saved {
      ctx.books := ctx.books - {book.id};
      ok := Save(1);
    }
  }

  // -----------------------------------------------------------------------
  // What the writes promise

  /** A created book is linked to exactly the stored authors and categories listed, and every old row stays. */
  lemma CreatedLinksAreExact(db: Db, authorsId: seq<int>, categoriesId: seq<int>, book: Book, newId: int)
    requires Keyed(db) && FreshBookId(db, newId)
    ensures var r := Created(db, authorsId, categoriesId, book, newId);
      Keyed(r) && r.books[newId] == book.(id := newId) &&
      (forall a :: BookAuthor(newId, a) in r.bookAuthors <==> a in db.authors && a in authorsId) &&
      (forall c :: BookCategory(newId, c) in r.bookCategories <==> c in db.categories && c in categoriesId) &&
      db.bookAuthors <= r.bookAuthors && db.bookCategories <= r.bookCategories &&
      (forall l | l in r.bookAuthors - db.bookAuthors :: l.bookId == newId) &&
      (forall l | l in r.bookCategories - db.bookCategories :: l.bookId == newId)
  {
  }

  /** After an update the book's links are exactly the stored authors and categories listed. */
  lemma RelinkedLinksAreExact(db: Db, authorsId: seq<int>, categoriesId: seq<int>, book: Book)
    requires Keyed(db)
    ensures var r := Relinked(db, authorsId, categoriesId, book);
      Keyed(r) &&
      (forall a :: BookAuthor(book.id, a) in r.bookAuthors <==> a in db.authors && a in authorsId) &&
      (forall c :: BookCategory(book.id, c) in r.bookCategories <==> c in db.categories && c in categoriesId)
  {
  }

  /** An update leaves the links of every other book as they were. */
  lemma RelinkedKeepsOtherBooks(db: Db, authorsId: seq<int>, categoriesId: seq<int>, book: Book)
    ensures var r := Relinked(db, authorsId, categoriesId, book);
      (forall l: BookAuthor | l.bookId != book.id :: l in r.bookAuthors <==> l in db.bookAuthors) &&
      (forall l: BookCategory | l.bookId != book.id :: l in r.bookCategories <==> l in db.bookCategories) &&
      (forall k | k in db.books && k != book.id :: k in r.books && r.books[k] == db.books[k])
  {
  }

  /** Updates replace rather than merge: only the last submitted lists matter. */
  lemma RelinkIsFullReplace(db: Db, a1: seq<int>, c1: seq<int>, a2: seq<int>, c2: seq<int>, b1: Book, b2: Book)
    requires b1.id == b2.id
    ensures Relinked(Relinked(db, a1, c1, b1), a2, c2, b2) == Relinked(db, a2, c2, b2)
  {
    var once := Relinked(db, a1, c1, b1);
    var twice := Relinked(once, a2, c2, b2);
    var direct := Relinked(db, a2, c2, b2);
    assert twice.books == direct.books;
    assert twice.bookAuthors == direct.bookAuthors;
    assert twice.bookCategories == direct.bookCategories;
  }
}
