/** `CategoryRepository`: queries on Categories and BookCategories, and the category writes. */
module CategoryRepository {
  import opened Entities
  import opened Store
  import opened Listing
  import opened Text

  predicate ByName(a: Category, b: Category) {
    StrLe(a.name, b.name)
  }

  /** `GetCategories`: every category exactly once, ordered by name. */
  function GetCategories(db: Db): (r: seq<Category>)
    requires Keyed(db)
    ensures |r| == |db.categories|
    ensures forall k | k in db.categories :: db.categories[k] in r
    ensures forall x | x in r :: x.id in db.categories && db.categories[x.id] == x
    ensures NoDuplicates(r)
    ensures Ordered(r, ByName)
  {
    KeyOrderIsTotal((c: Category) => c.name, ByName);
    SortBy(Rows(db.categories), ByName)
  }

  /** `GetCategory`: the category whose id is `categoryId`, if there is one. */
  function GetCategory(db: Db, categoryId: int): (r: Option<Category>)
    requires Keyed(db)
    ensures r.None? <==> forall k | k in db.categories :: db.categories[k].id != categoryId
    ensures forall k | k in db.categories && db.categories[k].id == categoryId :: r == Some(db.categories[k])
  {
    if categoryId in db.categories then Some(db.categories[categoryId]) else None
  }

  /**
   * `GetCategoriesOfABook`: the categories that a `BookCategory` row of the
   * book points at (a row whose category is gone contributes nothing).
   */
  function GetCategoriesOfABook(db: Db, bookId: int): (r: set<Category>)
    requires Keyed(db)
    ensures forall k | k in db.categories :: db.categories[k] in r <==> BookCategory(bookId, k) in db.bookCategories
    ensures forall c | c in r :: c.id in db.categories && db.categories[c.id] == c
  {
    set l | l in db.bookCategories && l.bookId == bookId && l.categoryId in db.categories :: db.categories[l.categoryId]
  }

  /** `GetBooksForCategory`: the books that a `BookCategory` row of the category points at. */
  function GetBooksForCategory(db: Db, categoryId: int): (r: set<Book>)
    requires Keyed(db)
    ensures forall k | k in db.books :: db.books[k] in r <==> BookCategory(k, categoryId) in db.bookCategories
    ensures forall b | b in r :: b.id in db.books && db.books[b.id] == b
  {
    set l | l in db.bookCategories && l.categoryId == categoryId && l.bookId in db.books :: db.books[l.bookId]
  }

  /** `CategoryExists`: some stored category has id `categoryId`. */
  function CategoryExists(db: Db, categoryId: int): (r: bool)
    requires Keyed(db)
    ensures r <==> categoryId in db.categories
  {
    exists k | k in db.categories :: db.categories[k].id == categoryId
  }

  /** `IsDuplicateCategoryName`: another category has the same trimmed, upper-cased name. */
  function IsDuplicateCategoryName(db: Db, categoryId: int, name: string): (r: bool)
    requires Keyed(db)
    ensures r <==> exists k | k in db.categories && k != categoryId :: Norm(db.categories[k].name) == Norm(name)
  {
    exists k | k in db.categories :: Norm(db.categories[k].name) == Norm(name) && db.categories[k].id != categoryId
  }

  /** A name that differs from another category's only by padding or letter case is a duplicate. */
  lemma PaddedOrUpperCasedNameIsDuplicate(db: Db, categoryId: int, other: int, pre: string, post: string)
    requires Keyed(db) && other in db.categories && other != categoryId
    requires AllWhiteSpace(pre) && AllWhiteSpace(post)
    ensures IsDuplicateCategoryName(db, categoryId, pre + db.categories[other].name + post)
    ensures IsDuplicateCategoryName(db, categoryId, ToUpper(db.categories[other].name))
  {
    NormIgnoresPadding(pre, db.categories[other].name, post);
    NormIgnoresCase(db.categories[other].name);
  }

  /** The two navigation queries read the same join rows from opposite ends. */
  lemma CategoryNavigationIsSymmetric(db: Db, bookId: int, categoryId: int)
    requires Keyed(db) && bookId in db.books && categoryId in db.categories
    ensures db.categories[categoryId] in GetCategoriesOfABook(db, bookId) <==> db.books[bookId] in GetBooksForCategory(db, categoryId)
  {
  }

  // -----------------------------------------------------------------------
  // Writes; `saved` is the outcome of `SaveChanges`.

  /** `CreateCategory`: adds the category under a fresh identity key. */
  method CreateCategory(ctx: BookDbContext, category: Category, newId: int, saved: bool) returns (ok: bool)
    requires ctx.Valid() && newId !in ctx.categories
    modifies ctx
    ensures ctx.Valid() && ok == saved
    ensures ctx.State() == if ok then old(ctx.State()).(categories := old(ctx.categories)[newId := category.(id := newId)])
                           else old(ctx.State())
  {
    ok := false;
    if saved {
      ctx.categories := ctx.categories[newId := category.(id := newId)];
      ok := Save(1);
    }
  }

  /** `UpdateCategory`: replaces the stored row; a key that is not stored makes the save fail. */
  method UpdateCategory(ctx: BookDbContext, category: Category, saved: bool) returns (ok: bool)
    requires ctx.Valid()
    modifies ctx
    ensures ctx.Valid() && ok == (saved && category.id in old(ctx.categories))
    ensures ctx.State() == if ok then old(ctx.State()).(categories := old(ctx.categories)[category.id := category])
                           else old(ctx.State())
  {
    ok := false;
    if saved && category.id in ctx.categories {
      ctx.categories := ctx.categories[category.id := category];
      ok := Save(1);
    }
  }

  /** `DeleteCategory`: removes the category's row and no other row. */
  method DeleteCategory(ctx: BookDbContext, category: Category, saved: bool) returns (ok: bool)
    requires ctx.Valid()
    modifies ctx
    ensures ctx.Valid() && ok == saved
    ensures ctx.State() == if ok then old(ctx.State()).(categories := old(ctx.categories) - {category.id})
                           else old(ctx.State())
  {
    ok := false;
    if saved {
      ctx.categories := ctx.categories - {category.id};
      ok := Save(1);
    }
  }
}
