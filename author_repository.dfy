/** `AuthorRepository`: queries on Authors and BookAuthors, and the author writes. */
module AuthorRepository {
  import opened Entities
  import opened Store
  import opened Listing
  import BookRepository

  predicate ByLastName(a: Author, b: Author) {
    StrLe(a.lastName, b.lastName)
  }

  /** `GetAuthors`: every author exactly once, ordered by last name. */
  function GetAuthors(db: Db): (r: seq<Author>)
    requires Keyed(db)
    ensures |r| == |db.authors|
    ensures forall k | k in db.authors :: db.authors[k] in r
    ensures forall x | x in r :: x.id in db.authors && db.authors[x.id] == x
    ensures NoDuplicates(r)
    ensures Ordered(r, ByLastName)
  {
    KeyOrderIsTotal((a: Author) => a.lastName, ByLastName);
    SortBy(Rows(db.authors), ByLastName)
  }

  /** `GetAuthor`: the author whose id is `authorId`, if there is one. */
  function GetAuthor(db: Db, authorId: int): (r: Option<Author>)
    requires Keyed(db)
    ensures r.None? <==> forall k | k in db.authors :: db.authors[k].id != authorId
    ensures forall k | k in db.authors && db.authors[k].id == authorId :: r == Some(db.authors[k])
  {
    if authorId in db.authors then Some(db.authors[authorId]) else None
  }

  /**
   * `GetAuthorsOfABook`: the authors that a `BookAuthor` row of the book
   * points at (a row whose author is gone contributes nothing).
   */
  function GetAuthorsOfABook(db: Db, bookId: int): (r: set<Author>)
    requires Keyed(db)
    ensures forall k | k in db.authors :: db.authors[k] in r <==> BookAuthor(bookId, k) in db.bookAuthors
    ensures forall a | a in r :: a.id in db.authors && db.authors[a.id] == a
  {
    set l | l in db.bookAuthors && l.bookId == bookId && l.authorId in db.authors :: db.authors[l.authorId]
  }

  /** `GetBooksByAuthor`: the books that a `BookAuthor` row of the author points at. */
  function GetBooksByAuthor(db: Db, authorId: int): (r: set<Book>)
    requires Keyed(db)
    ensures forall k | k in db.books :: db.books[k] in r <==> BookAuthor(k, authorId) in db.bookAuthors
    ensures forall b | b in r :: b.id in db.books && db.books[b.id] == b
  {
    set l | l in db.bookAuthors && l.authorId == authorId && l.bookId in db.books :: db.books[l.bookId]
  }

  /** `AuthorExists`: some stored author has id `authorId`. */
  function AuthorExists(db: Db, authorId: int): (r: bool)
    requires Keyed(db)
    ensures r <==> authorId in db.authors
  {
    exists k | k in db.authors :: db.authors[k].id == authorId
  }

  /** The two navigation queries read the same join rows from opposite ends. */
  lemma AuthorNavigationIsSymmetric(db: Db, bookId: int, authorId: int)
    requires Keyed(db) && bookId in db.books && authorId in db.authors
    ensures db.authors[authorId] in GetAuthorsOfABook(db, bookId) <==> db.books[bookId] in GetBooksByAuthor(db, authorId)
  {
  }

  /**
   * After `UpdateBook` the book's authors, as this repository reads them,
   * are exactly the stored authors whose ids were submitted.
   */
  lemma UpdatedBookHasListedAuthors(db: Db, authorsId: seq<int>, categoriesId: seq<int>, book: Book)
    requires Keyed(db)
    ensures var r := BookRepository.Relinked(db, authorsId, categoriesId, book);
      Keyed(r) && forall a :: a in GetAuthorsOfABook(r, book.id) <==> a.id in db.authors && a.id in authorsId && db.authors[a.id] == a
  {
  }

  // -----------------------------------------------------------------------
  // Writes; `saved` is the outcome of `SaveChanges`.

  /** `CreateAuthor`: adds the author under a fresh identity key. */
  method CreateAuthor(ctx: BookDbContext, author: Author, newId: int, saved: bool) returns (ok: bool)
    requires ctx.Valid() && newId !in ctx.authors
    modifies ctx
    ensures ctx.Valid() && ok == saved
    ensures ctx.State() == if ok then old(ctx.State()).(authors := old(ctx.authors)[newId := author.(id := newId)])
                           else old(ctx.State())
  {
    ok := false;
    if saved {
      ctx.authors := ctx.authors[newId := author.(id := newId)];
      ok := Save(1);
    }
  }

  /**
   * `UpdateAuthor`: `Update` tracks an author whose key holds the default 0
   * as a new row, so the save inserts it under a fresh identity key; any
   * other key replaces the stored row, and a key that is not stored makes
   * the save fail.
   */
  method UpdateAuthor(ctx: BookDbContext, author: Author, newId: int, saved: bool) returns (ok: bool)
    requires ctx.Valid() && newId !in ctx.authors
    modifies ctx
    ensures ctx.Valid() && ok == (saved && (author.id == 0 || author.id in old(ctx.authors)))
    ensures ctx.State() == if !ok then old(ctx.State())
                           else if author.id == 0 then old(ctx.State()).(authors := old(ctx.authors)[newId := author.(id := newId)])
                           else old(ctx.State()).(authors := old(ctx.authors)[author.id := author])
  {
    ok := false;
    if saved && author.id == 0 {
      ctx.authors := ctx.authors[newId := author.(id := newId)];
      ok := Save(1);
    } else if saved && author.id in ctx.authors {
      ctx.authors := ctx.authors[author.id := author];
      ok := Save(1);
    }
  }

  /** `DeleteAuthor`: removes the author's row and no other row. */
  method DeleteAuthor(ctx: BookDbContext, author: Author, saved: bool) returns (ok: bool)
    requires ctx.Valid()
    modifies ctx
    ensures ctx.Valid() && ok == saved
    ensures ctx.State() == if ok then old(ctx.State()).(authors := old(ctx.authors) - {author.id})
                           else old(ctx.State())
  {
    ok := false;
    if saved {
      ctx.authors := ctx.authors - {author.id};
      ok := Save(1);
    }
  }
}
