/** `CategoriesController` (version 1): the categories-of-a-book query and the category writes. */
module CategoriesController {
  import opened Entities
  import opened Http
  import opened Store
  import opened Text
  import BookRepository
  import CategoryRepository

  /** `GetCategoriesOfABook`: 404 for an unknown book, otherwise 200 with its categories. */
  method GetCategoriesOfABook(ctx: BookDbContext, bookId: int) returns (status: Status, categories: set<Category>)
    requires ctx.Valid()
    ensures status == if bookId in ctx.books then Ok else NotFound
    ensures status == Ok ==>
      forall k | k in ctx.categories :: ctx.categories[k] in categories <==> BookCategory(bookId, k) in ctx.bookCategories
    ensures status == NotFound ==> categories == {}
  {
    var db := ctx.State();
    if !BookRepository.BookExists(db, bookId) {
      return NotFound, {};
    }
    categories := CategoryRepository.GetCategoriesOfABook(db, bookId);
    status := Ok;
  }

  /**
   * The duplicate test of `CreateCategory`: some listed category has the
   * same trimmed, upper-cased name. No category is excluded.
   */
  function NameTaken(db: Db, name: string): (r: bool)
    requires Keyed(db)
    ensures r <==> exists k | k in db.categories :: Norm(db.categories[k].name) == Norm(name)
  {
    var categories := CategoryRepository.GetCategories(db);
    if exists c | c in categories :: Norm(c.name) == Norm(name) then
      true
    else
      assert forall k | k in db.categories :: db.categories[k] in categories;
      false
  }

  /** For a record not in the table, the create test and the update test agree. */
  lemma NameTakenIsDuplicateOfAnAbsentId(db: Db, categoryId: int, name: string)
    requires Keyed(db) && categoryId !in db.categories
    ensures NameTaken(db, name) == CategoryRepository.IsDuplicateCategoryName(db, categoryId, name)
  {
  }

  /** `CreateCategory`: 400 on a missing body, 422 on a taken name, then 400, 500 or 201. */
  method CreateCategory(ctx: BookDbContext, ms: ModelState, categoryToCreate: Option<Category>, newId: int, saved: bool)
    returns (status: Status)
    requires ctx.Valid() && newId !in ctx.categories
    modifies ctx
    ensures ctx.Valid()
    ensures status == if categoryToCreate.None? then BadRequest
                      else if NameTaken(old(ctx.State()), categoryToCreate.value.name) then UnprocessableEntity
                      else if !ms.IsValid() then BadRequest
                      else if saved then Created
                      else InternalServerError
    ensures status == Created ==>
      categoryToCreate.Some? &&
      ctx.State() == old(ctx.State()).(categories := old(ctx.categories)[newId := categoryToCreate.value.(id := newId)])
    ensures status != Created ==> ctx.State() == old(ctx.State())
  {
    if categoryToCreate.None? {
      return BadRequest;
    }
    var category := categoryToCreate.value;
    var categoryExists := NameTaken(ctx.State(), category.name);
    if categoryExists {
      return UnprocessableEntity;
    }
    if !ms.IsValid() {
      return BadRequest;
    }
    var ok := CategoryRepository.CreateCategory(ctx, category, newId, saved);
    if !ok {
      return InternalServerError;
    }
    return Created;
  }

  /**
   * `UpdateCategory`: 400 on a missing body or an id mismatch, 404 for an
   * unknown category, 422 when ANOTHER category has the name, then 400, 500
   * or 204.
   */
  method UpdateCategory(ctx: BookDbContext, ms: ModelState, categoryId: int, categoryToUpdate: Option<Category>, saved: bool)
    returns (status: Status)
    requires ctx.Valid()
    modifies ctx
    ensures ctx.Valid()
    ensures status == if categoryToUpdate.None? || categoryToUpdate.value.id != categoryId then BadRequest
                      else if categoryId !in old(ctx.categories) then NotFound
                      else if CategoryRepository.IsDuplicateCategoryName(old(ctx.State()), categoryId, categoryToUpdate.value.name) then UnprocessableEntity
                      else if !ms.IsValid() then BadRequest
                      else if saved then NoContent
                      else InternalServerError
    ensures status == NoContent ==>
      categoryToUpdate.Some? && ctx.State() == old(ctx.State()).(categories := old(ctx.categories)[categoryId := categoryToUpdate.value])
    ensures status != NoContent ==> ctx.State() == old(ctx.State())
  {
    if categoryToUpdate.None? {
      return BadRequest;
    }
    var category := categoryToUpdate.value;
    if category.id != categoryId {
      return BadRequest;
    }
    var db := ctx.State();
    if !CategoryRepository.CategoryExists(db, categoryId) {
      return NotFound;
    }
    if CategoryRepository.IsDuplicateCategoryName(db, categoryId, category.name) {
      return UnprocessableEntity;
    }
    if !ms.IsValid() {
      return BadRequest;
    }
    var ok := CategoryRepository.UpdateCategory(ctx, category, saved);
    if !ok {
      return InternalServerError;
    }
    return NoContent;
  }

  /**
   * `DeleteCategory`: 404 for an unknown category, 409 while any book is
   * filed under it (the category is kept), then 400, 500 or 204.
   */
  method DeleteCategory(ctx: BookDbContext, ms: ModelState, categoryId: int, saved: bool)
    returns (status: Status)
    requires ctx.Valid()
    modifies ctx
    ensures ctx.Valid()
    ensures status == if categoryId !in old(ctx.categories) then NotFound
                      else if CategoryRepository.GetBooksForCategory(old(ctx.State()), categoryId) != {} then Conflict
                      else if !ms.IsValid() then BadRequest
                      else if saved then NoContent
                      else InternalServerError
    ensures status == NoContent ==>
      ctx.State() == old(ctx.State()).(categories := old(ctx.categories) - {categoryId}) &&
      forall k | k in ctx.books :: BookCategory(k, categoryId) !in ctx.bookCategories
    ensures status != NoContent ==> ctx.State() == old(ctx.State())
  {
    var db := ctx.State();
    if !CategoryRepository.CategoryExists(db, categoryId) {
      return NotFound;
    }
    var categoryToDelete := CategoryRepository.GetCategory(db, categoryId).value;
    if CategoryRepository.GetBooksForCategory(db, categoryId) != {} {
      return Conflict;
    }
    if !ms.IsValid() {
      return BadRequest;
    }
    var ok := CategoryRepository.DeleteCategory(ctx, categoryToDelete, saved);
    if !ok {
      return InternalServerError;
    }
    return NoContent;
  }
}
