# Book catalogue API: the referential-integrity rules

This project is a Dafny model of the data rules behind a small ASP.NET Core
book catalogue API. The catalogue stores countries, authors, categories,
books, reviewers and reviews. Authors and categories are linked to books
through two join tables. The model covers two layers:

- **Repositories.** These are the existence queries, the sorted listings,
  the navigation queries over the join tables, and the duplicate-name and
  duplicate-ISBN checks. The duplicate checks compare strings after trimming
  and upper-casing. The layer also holds the writes that add, replace or
  remove rows.
- **Controllers.** Each endpoint runs a chain of guards. The first guard
  that fires picks the answer (400, 404, 409, 422 or 500). If none fires,
  the endpoint succeeds with 201 or 204. The store changes only on the
  success path, or on the partial path of a two-step delete.

How the model is built:

- `Store.BookDbContext` is the database context. It is a class that holds
  one map per table, keyed by primary key, and one set per join table.
- Queries are functions of the store's value, `Store.Db`.
- Writes are methods that modify the context.
- The only thing the repositories promise about every row is
  `Store.Keyed`: each row is stored under its own id. Every write keeps it.

The model follows the code as written, including four behaviours that look
unintended:

- `CountryRepository.GetAuthorsFromACountry` compares the **author's** id
  with the country id. The country delete guard therefore asks whether some
  author has the country's id as its own id.
  - `CountryRepository.AuthorsFromACountryIgnoresCountry` shows this on
    concrete data.
  - In the model, `Scenarios.DeleteCountryOfAnAuthor` deletes the country
    an author lives in and gets 204, and asks to delete a country nobody
    lives in and gets 409. The guard does not stop the first delete; what
    the database's foreign key then does is not modelled (see "Left out").
- `AuthorsController.UpdateAuthor` answers 404 when the author **exists**
  (`Scenarios.UpdateStoredAuthor`). For an author that does not exist, the
  repository update has no row to replace, so the save fails. The one
  exception is the key 0: Entity Framework's `Update` treats an entity whose
  generated key holds the default value as new, so the save inserts the
  author under a fresh key and the endpoint answers 204
  (`Scenarios.UpdateKeyZeroInserts`). No other request is answered 204,
  and no stored author is ever changed.
- `AuthorsController.DeleteAuthor` refuses with 409 while any book is
  linked to the author. It does not cascade.
- `ReviewerController.DeleteReviewer` deletes the reviewer **before** the
  reviewer's reviews, in two saves. In the model, if the second save fails,
  the reviews remain and name the deleted reviewer
  (`Scenarios.ReviewsOutliveTheirReviewer`). The model has no foreign keys
  and no relationship fix-up (see "Left out"), so it does not capture what
  the database and Entity Framework would do to those reviews.

What the environment supplies is modelled as parameters:

- **`saved`.** Each repository write receives the outcome of
  `SaveChanges` as `saved`.
  - `Store.Save` is the repository's `Save()`: its result
    `SaveChanges() >= 0` is always true whenever it returns.
  - A commit that does not happen (an exception in the original) is
    `saved == false`, and the write then leaves every table unchanged.
  - A controller passes `saved` through unchanged. The 500 branches are
    reached when a write reports false.
- **`newId`.** The identity value the database assigns to a new row is a
  parameter, required to be a key not yet in use.
- **The model state.** The controllers receive the request's model state
  (`Http.ModelState`, a list of recorded errors) as a parameter. Errors
  that model binding recorded before the action ran appear there as
  `BindingError`.
- **The request body.** A body that may be null is an `Option`.

Strings are compared by `Text.Norm`, which trims and upper-cases. Both
operations are restricted to ASCII. Listings are sorted by ordinal string
order (`Listing.StrLe`). GetBookRating uses exact rational division.

## Model

| member | source | states |
|---|---|---|
| Store.Save | BookApiProject/Services/Repositories/BookRepository.cs:132-136 | a save that returns always reports success, whatever the number of rows written |
| BookRepository.GetBooks | BookApiProject/Services/Repositories/BookRepository.cs:20-23 | every stored book appears, exactly once, and nothing else; the list is ordered by title |
| BookRepository.GetBook | BookApiProject/Services/Repositories/BookRepository.cs:25-28 | nothing exactly when no book has the id; otherwise the stored book with that id |
| BookRepository.GetBookByIsbn | BookApiProject/Services/Repositories/BookRepository.cs:30-33 | nothing exactly when no book has exactly this ISBN; otherwise a stored book whose ISBN is exactly this one |
| BookRepository.BookExists | BookApiProject/Services/Repositories/BookRepository.cs:35-38 | true iff a book with this id is stored |
| BookRepository.BookExistsByIsbn | BookApiProject/Services/Repositories/BookRepository.cs:40-43 | true iff the exact-ISBN lookup finds a book |
| BookRepository.IsDuplicateIsbn | BookApiProject/Services/Repositories/BookRepository.cs:45-49 | true iff a book with a different id has an ISBN equal to this one after trimming and upper-casing |
| BookRepository.OwnRowNeverDuplicates | BookApiProject/Services/Repositories/BookRepository.cs:45-49 | removing the book's own row never changes the duplicate answer: the book is never its own duplicate |
| BookRepository.PaddedOrUpperCasedIsbnIsDuplicate | BookApiProject/Services/Repositories/BookRepository.cs:45-49 | another book's ISBN with blanks around it, or upper-cased, counts as a duplicate |
| BookRepository.IsbnLookupIsExact | BookApiProject/Services/Repositories/BookRepository.cs:40-49 | an ISBN with a leading blank is not found by the exact lookup, yet is a duplicate of the stored ISBN |
| BookRepository.GetBookRating | BookApiProject/Services/Repositories/BookRepository.cs:51-59 | 0 for a book no review points at; otherwise the rating times the number of the book's reviews equals the sum of their ratings |
| BookRepository.RatingOf | BookApiProject/Services/Repositories/BookRepository.cs:58 | the result times the number of reviews is the sum of their ratings |
| BookRepository.Mean | BookApiProject/Services/Repositories/BookRepository.cs:58 | the quotient times the count gives back the sum |
| BookRepository.SumOfRatingsBounds | BookApiProject/Services/Repositories/BookRepository.cs:58 | ratings within [lo, hi] sum to between lo and hi times their number |
| BookRepository.MeanWithinBounds | BookApiProject/Services/Repositories/BookRepository.cs:58 | a mean of a sum within count-scaled bounds lies within the bounds |
| BookRepository.MeanRatingWithinBounds | BookApiProject/Services/Repositories/BookRepository.cs:58 | the mean rating of reviews rated within [lo, hi] lies in [lo, hi] |
| BookRepository.RatingWithinReviewBounds | BookApiProject/Services/Repositories/BookRepository.cs:51-59 | a reviewed book's rating lies between the lowest and highest rating of its reviews |
| BookRepository.ListedAuthors | BookApiProject/Services/Repositories/BookRepository.cs:63 | a stored author is listed iff its id is among the submitted ids; every listed author is stored |
| BookRepository.ListedCategories | BookApiProject/Services/Repositories/BookRepository.cs:64 | a stored category is listed iff its id is among the submitted ids; every listed category is stored |
| BookRepository.ListedAuthorsLink | BookApiProject/Services/Repositories/BookRepository.cs:63-74 | the links made for the listed authors are one per stored author whose id was submitted |
| BookRepository.ListedCategoriesLink | BookApiProject/Services/Repositories/BookRepository.cs:64-84 | the links made for the listed categories are one per stored category whose id was submitted |
| BookRepository.AddAuthorLinks | BookApiProject/Services/Repositories/BookRepository.cs:66-74 | the loop adds exactly one author link per listed author to the existing links |
| BookRepository.AddCategoryLinks | BookApiProject/Services/Repositories/BookRepository.cs:76-84 | the loop adds exactly one category link per listed category to the existing links |
| BookRepository.LinkListedAuthors | BookApiProject/Services/Repositories/BookRepository.cs:63-74 | the author rows a book write adds are the existing links plus exactly one link per stored author whose id was submitted |
| BookRepository.LinkListedCategories | BookApiProject/Services/Repositories/BookRepository.cs:64-84 | the category rows a book write adds are the existing links plus exactly one link per stored category whose id was submitted |
| BookRepository.CreateBook | BookApiProject/Services/Repositories/BookRepository.cs:61-89 | on success the store becomes `Created`: the book under the new key, plus one link per stored listed author and category; on failure nothing changes |
| BookRepository.UpdateBook | BookApiProject/Services/Repositories/BookRepository.cs:91-124 | succeeds iff the save does and the book is stored; the store then becomes `Relinked` (the book's links dropped and rebuilt from the lists, its row replaced); otherwise nothing changes |
| BookRepository.DeleteBook | BookApiProject/Services/Repositories/BookRepository.cs:126-130 | on success only the book's row is removed; otherwise nothing changes |
| BookRepository.CreatedLinksAreExact | BookApiProject/Services/Repositories/BookRepository.cs:61-89 | after a create, the new book's author (category) links are exactly the stored authors (categories) whose ids were submitted, so repeated ids collapse and unknown ids are skipped; old links all stay and every new link is the new book's |
| BookRepository.RelinkedLinksAreExact | BookApiProject/Services/Repositories/BookRepository.cs:93-123 | after an update, the book's links are exactly the stored authors and categories submitted; prior links of the book are gone |
| BookRepository.RelinkedKeepsOtherBooks | BookApiProject/Services/Repositories/BookRepository.cs:96-100 | an update leaves every other book's links and rows unchanged |
| BookRepository.RelinkIsFullReplace | BookApiProject/Services/Repositories/BookRepository.cs:93-123 | two updates of the same book equal the second one alone: the update replaces, it does not merge |
| CategoryRepository.GetCategories | BookApiProject/Services/Repositories/CategoryRepository.cs:16-19 | every stored category exactly once, and nothing else, ordered by name |
| CategoryRepository.GetCategory | BookApiProject/Services/Repositories/CategoryRepository.cs:21-24 | nothing exactly when no category has the id; otherwise the stored category with that id |
| CategoryRepository.GetCategoriesOfABook | BookApiProject/Services/Repositories/CategoryRepository.cs:26-30 | a stored category is in the result iff a join row links it to the book; nothing unstored is returned |
| CategoryRepository.GetBooksForCategory | BookApiProject/Services/Repositories/CategoryRepository.cs:32-36 | a stored book is in the result iff a join row links it to the category; nothing unstored is returned |
| CategoryRepository.CategoryExists | BookApiProject/Services/Repositories/CategoryRepository.cs:38-41 | true iff a category with this id is stored |
| CategoryRepository.IsDuplicateCategoryName | BookApiProject/Services/Repositories/CategoryRepository.cs:43-49 | true iff a category with a different id has the same trimmed, upper-cased name |
| CategoryRepository.PaddedOrUpperCasedNameIsDuplicate | BookApiProject/Services/Repositories/CategoryRepository.cs:43-49 | another category's name with blanks around it, or upper-cased, counts as a duplicate |
| CategoryRepository.CategoryNavigationIsSymmetric | BookApiProject/Services/Repositories/CategoryRepository.cs:26-36 | a book lists a category iff that category lists the book |
| CategoryRepository.CreateCategory | BookApiProject/Services/Repositories/CategoryRepository.cs:51-55 | on success only the new category is added, under the new key; otherwise nothing changes |
| CategoryRepository.UpdateCategory | BookApiProject/Services/Repositories/CategoryRepository.cs:57-61 | succeeds iff the save does and the category is stored; only that row is replaced |
| CategoryRepository.DeleteCategory | BookApiProject/Services/Repositories/CategoryRepository.cs:63-67 | on success only that category's row is removed |
| CountryRepository.GetCountries | BookApiProject/Services/Repositories/CountryRepository.cs:16-19 | every stored country exactly once, and nothing else, ordered by name |
| CountryRepository.GetCountry | BookApiProject/Services/Repositories/CountryRepository.cs:21-24 | nothing exactly when no country has the id; otherwise the stored country with that id |
| CountryRepository.GetCountryOfAnAuthor | BookApiProject/Services/Repositories/CountryRepository.cs:26-29 | nothing for an unknown author; otherwise the stored country whose id is the author's country id, when stored |
| CountryRepository.GetAuthorsFromACountry | BookApiProject/Services/Repositories/CountryRepository.cs:31-34 | as written: the result holds exactly the author whose own id is the given id, if stored, whatever country that author lives in |
| CountryRepository.AuthorsFromACountryIgnoresCountry | BookApiProject/Services/Repositories/CountryRepository.cs:31-34 | on a concrete store, the query misses the author living in the country and reports one living elsewhere |
| CountryRepository.CountryExists | BookApiProject/Services/Repositories/CountryRepository.cs:36-39 | true iff a country with this id is stored |
| CountryRepository.IsDuplicateCountryName | BookApiProject/Services/Repositories/CountryRepository.cs:41-47 | true iff a country with a different id has the same trimmed, upper-cased name |
| CountryRepository.PaddedOrUpperCasedNameIsDuplicate | BookApiProject/Services/Repositories/CountryRepository.cs:41-47 | another country's name with blanks around it, or upper-cased, counts as a duplicate |
| CountryRepository.CreateCountry | BookApiProject/Services/Repositories/CountryRepository.cs:49-53 | on success only the new country is added, under the new key |
| CountryRepository.UpdateCountry | BookApiProject/Services/Repositories/CountryRepository.cs:55-59 | succeeds iff the save does and the country is stored; only that row is replaced |
| CountryRepository.DeleteCountry | BookApiProject/Services/Repositories/CountryRepository.cs:61-65 | on success only that country's row is removed |
| ReviewerRepository.GetReviewers | BookApiProject/Services/Repositories/ReviewerRepository.cs:17-20 | every stored reviewer exactly once, and nothing else, ordered by last name |
| ReviewerRepository.GetReviewer | BookApiProject/Services/Repositories/ReviewerRepository.cs:22-25 | nothing exactly when no reviewer has the id; otherwise the stored reviewer with that id |
| ReviewerRepository.GetReviewsByReviewer | BookApiProject/Services/Repositories/ReviewerRepository.cs:27-30 | a stored review is in the result iff its reviewer id matches; every result is stored, once |
| ReviewerRepository.GetReviewerOfAReview | BookApiProject/Services/Repositories/ReviewerRepository.cs:32-36 | looks up the review's reviewer id; for a missing review it looks up the default id 0 |
| ReviewerRepository.ReviewerExists | BookApiProject/Services/Repositories/ReviewerRepository.cs:38-41 | true iff a reviewer with this id is stored |
| ReviewerRepository.ReviewerOfAReviewListsIt | BookApiProject/Services/Repositories/ReviewerRepository.cs:27-36 | the reviewer found for a review lists that review among its reviews |
| ReviewerRepository.MissingReviewFallsBackToReviewerZero | BookApiProject/Services/Repositories/ReviewerRepository.cs:32-36 | asking about a review that does not exist returns reviewer 0 whenever reviewer 0 is stored |
| ReviewerRepository.CreateReviewer | BookApiProject/Services/Repositories/ReviewerRepository.cs:43-47 | on success only the new reviewer is added, under the new key |
| ReviewerRepository.UpdateReviewer | BookApiProject/Services/Repositories/ReviewerRepository.cs:49-53 | succeeds iff the save does and the reviewer is stored; only that row is replaced |
| ReviewerRepository.DeleteReviewer | BookApiProject/Services/Repositories/ReviewerRepository.cs:61-65 | on success only the reviewer row is removed; the reviews are untouched |
| ReviewRepository.GetReviews | BookApiProject/Services/Repositories/ReviewRepository.cs:17-20 | every stored review exactly once, and nothing else, ordered by rating |
| ReviewRepository.GetReview | BookApiProject/Services/Repositories/ReviewRepository.cs:22-25 | nothing exactly when no review has the id; otherwise the stored review with that id |
| ReviewRepository.GetReviewsOfABook | BookApiProject/Services/Repositories/ReviewRepository.cs:27-30 | a stored review is in the result iff its book id matches; every result is stored, once |
| ReviewRepository.UnreviewedBookHasNoReviews | BookApiProject/Services/Repositories/ReviewRepository.cs:27-30 | the list is empty iff no stored review points at the book |
| ReviewRepository.GetBookOfAReview | BookApiProject/Services/Repositories/ReviewRepository.cs:32-35 | a book exactly when the review is stored and its book is stored, and then that book |
| ReviewRepository.ReviewExists | BookApiProject/Services/Repositories/ReviewRepository.cs:37-40 | true iff a review with this id is stored |
| ReviewRepository.BookOfAReviewListsIt | BookApiProject/Services/Repositories/ReviewRepository.cs:22-35 | the book found for a review lists that review among its reviews |
| ReviewRepository.CreateReview | BookApiProject/Services/Repositories/ReviewRepository.cs:42-46 | on success only the new review is added, under the new key |
| ReviewRepository.UpdateReview | BookApiProject/Services/Repositories/ReviewRepository.cs:48-52 | succeeds iff the save does and the review is stored; only that row is replaced |
| ReviewRepository.DeleteReview | BookApiProject/Services/Repositories/ReviewRepository.cs:54-58 | on success only that review is removed |
| ReviewRepository.DeleteReviews | BookApiProject/Services/Repositories/ReviewRepository.cs:60-64 | on success a review remains iff it was stored and not listed; nothing else changes |
| ReviewRepository.DeletingReviewsOfABookClearsIt | BookApiProject/Services/Repositories/ReviewRepository.cs:27-30 | removing the reviews listed for a book leaves no review of the book and keeps every other review |
| AuthorRepository.GetAuthors | BookApiProject/Services/Repositories/AuthorRepository.cs:20-23 | every stored author exactly once, and nothing else, ordered by last name |
| AuthorRepository.GetAuthor | BookApiProject/Services/Repositories/AuthorRepository.cs:25-28 | nothing exactly when no author has the id; otherwise the stored author with that id |
| AuthorRepository.GetAuthorsOfABook | BookApiProject/Services/Repositories/AuthorRepository.cs:30-33 | a stored author is in the result iff a join row links it to the book |
| AuthorRepository.GetBooksByAuthor | BookApiProject/Services/Repositories/AuthorRepository.cs:35-38 | a stored book is in the result iff a join row links it to the author |
| AuthorRepository.AuthorExists | BookApiProject/Services/Repositories/AuthorRepository.cs:40-43 | true iff an author with this id is stored |
| AuthorRepository.AuthorNavigationIsSymmetric | BookApiProject/Services/Repositories/AuthorRepository.cs:30-38 | a book lists an author iff that author lists the book |
| AuthorRepository.UpdatedBookHasListedAuthors | BookApiProject/Services/Repositories/BookRepository.cs:93-110 | after a book update, the authors read for the book are exactly the stored authors submitted |
| AuthorRepository.CreateAuthor | BookApiProject/Services/Repositories/AuthorRepository.cs:45-49 | on success only the new author is added, under the new key |
| AuthorRepository.UpdateAuthor | BookApiProject/Services/Repositories/AuthorRepository.cs:51-55 | succeeds iff the save does and the key is 0 or stored; key 0 inserts the author under the fresh key, a stored key replaces only that row; on failure nothing changes |
| AuthorRepository.DeleteAuthor | BookApiProject/Services/Repositories/AuthorRepository.cs:57-61 | on success only that author's row is removed |
| BookController.GetBookRating | BookApiProject/Controllers/BookController.cs:111-123 | 404 for an unknown book, then 400 on an invalid model state, else 200 with the repository's rating |
| BookController.ValidateBook | BookApiProject/Controllers/BookController.cs:208-244 | 400 on a missing book or an empty id list, before anything else; then 422 on a duplicate ISBN; then 404 on any unknown author id, then on any unknown category id; the failing rule's error is recorded; when all pass, 204 iff the model state is valid |
| BookController.CreateBook | BookApiProject/Controllers/BookController.cs:133-146 | a failed validation answers its status and writes nothing; else 400, 500 or 201, and on 201 the store is the repository's `Created` |
| BookController.UpdateBook | BookApiProject/Controllers/BookController.cs:155-174 | 400 on an id mismatch, then 404 for an unknown book, both before validation; a failed validation writes nothing; on 204 the store is `Relinked` |
| BookController.DeleteBook | BookApiProject/Controllers/BookController.cs:182-206 | 404, then 400; reviews are deleted first, and if that fails the answer is 500 with nothing changed; on 204 the book is absent and no review refers to it |
| CountryController.NameTaken | BookApiProject/Controllers/CountryController.cs:151-153 | true iff some stored country has the same trimmed, upper-cased name; no row is excluded |
| CountryController.NameTakenIsDuplicateOfAnAbsentId | BookApiProject/Controllers/CountryController.cs:151-153 | for an id that is not stored, the create test equals the repository's duplicate test |
| CountryController.CreateCountry | BookApiProject/Controllers/CountryController.cs:146-171 | 400 on a null body, then 422 on a taken name, both without a write; then 400, 500 or 201, and only 201 adds exactly that country |
| CountryController.UpdateCountry | BookApiProject/Controllers/CountryController.cs:180-207 | 400 on a null body or id mismatch, then 404, then 422 when another country has the name; only 204 replaces exactly that row |
| CountryController.DeleteCountry | BookApiProject/Controllers/CountryController.cs:216-243 | 404, then 409 whenever the authors-from-a-country query is non-empty (nothing removed), then 400, 500 or 204; only 204 removes exactly that country |
| AuthorsController.Bind | BookApiProject/Controllers/AuthorsController.cs:153 | the written author's country is the stored country with the submitted id; its other fields are the request's |
| AuthorsController.CreateAuthor | BookApiProject/Controllers/AuthorsController.cs:141-164 | 400 on a null body, then 404 for an unknown country, both without a write; then 400, 500 or 201; on 201 the new author refers to the stored country |
| AuthorsController.UpdateAuthor | BookApiProject/Controllers/AuthorsController.cs:172-198 | as written: 400, then 404 for an author that exists, then 404 for an unknown country, then 400; then 204 only for key 0 with a successful save, which inserts the author under the fresh key, and otherwise 500 with nothing changed; no non-zero key is ever answered 204 |
| AuthorsController.DeleteAuthor | BookApiProject/Controllers/AuthorsController.cs:207-234 | 404, then 400, then 409 while a book is linked (with the author kept), then 500 or 204; only 204 removes exactly that author |
| AuthorsController.LinkedBookExists | BookApiProject/Controllers/AuthorsController.cs:212-222 | a non-empty books-by-author answer means a stored book is linked to the author |
| CategoriesController.GetCategoriesOfABook | BookApiProject/Controllers/V1/CategoriesController.cs:81-99 | 404 for an unknown book; otherwise 200 with exactly the linked stored categories |
| CategoriesController.NameTaken | BookApiProject/Controllers/V1/CategoriesController.cs:143-144 | true iff some stored category has the same trimmed, upper-cased name |
| CategoriesController.NameTakenIsDuplicateOfAnAbsentId | BookApiProject/Controllers/V1/CategoriesController.cs:143-144 | for an id that is not stored, the create test equals the repository's duplicate test |
| CategoriesController.CreateCategory | BookApiProject/Controllers/V1/CategoriesController.cs:138-162 | 400 on a null body, then 422 on a taken name, both without a write; then 400, 500 or 201 |
| CategoriesController.UpdateCategory | BookApiProject/Controllers/V1/CategoriesController.cs:171-198 | 400 on a null body or id mismatch, then 404, then 422 when another category has the name; only 204 replaces that row |
| CategoriesController.DeleteCategory | BookApiProject/Controllers/V1/CategoriesController.cs:207-232 | 404, then 409 while a book is filed under it (category kept), then 400, 500 or 204; on 204 no stored book is linked to it |
| ReviewsController.Bind | BookApiProject/Controllers/V1/ReviewsController.cs:163-164 | the written review's book and reviewer are the stored records with the submitted ids |
| ReviewsController.CheckBookAndReviewer | BookApiProject/Controllers/V1/ReviewsController.cs:146-154 | records a not-found error for the book and then for the reviewer, each when not stored; the state is valid iff none was recorded and none was there before |
| ReviewsController.CreateReview | BookApiProject/Controllers/V1/ReviewsController.cs:138-176 | 400 on a null body; both lookups are recorded before answering 404; then 500 or 201; on 201 the review refers to the stored book and reviewer |
| ReviewsController.UpdateReview | BookApiProject/Controllers/V1/ReviewsController.cs:184-228 | 400 on a null body or id mismatch; then the review, book and reviewer lookups are all recorded and any failure answers 404; only 204 replaces the row |
| ReviewsController.DeleteReview | BookApiProject/Controllers/V1/ReviewsController.cs:236-253 | 404 for an unknown review, then 400, 500 or 204; only 204 removes exactly that review |
| ReviewerController.CreateReviewer | BookApiProject/Controllers/ReviewerController.cs:139-151 | 400 on a null body or an invalid model state, then 500 or 201; only 201 adds that reviewer |
| ReviewerController.UpdateReviewer | BookApiProject/Controllers/ReviewerController.cs:159-177 | 400 on a null body or id mismatch, then 404, then 400, 500 or 204; only 204 replaces that row |
| ReviewerController.DeletingReviewsByReviewerClearsIt | BookApiProject/Controllers/ReviewerController.cs:190-206 | removing the collected reviews leaves none by the reviewer and every other review |
| ReviewerController.DeleteReviewer | BookApiProject/Controllers/ReviewerController.cs:185-209 | 404, then 400, with the reviews collected before any write; the reviewer is deleted first, and a failure there answers 500 with nothing changed; a failure deleting the reviews answers 500 with the reviewer gone and, as the model has no foreign keys, its reviews still holding its id; on 204 the reviewer and all its reviews are gone and every other review stays |
| ReviewersController.CreateReviewer | BookApiProject/Controllers/V1/ReviewerController.cs:137-149 | the version-1 create: same chain and outcome as the unversioned one |
| ReviewersController.UpdateReviewer | BookApiProject/Controllers/V1/ReviewerController.cs:157-175 | the version-1 update: same chain and outcome as the unversioned one |
| ReviewersController.DeleteReviewer | BookApiProject/Controllers/V1/ReviewerController.cs:183-208 | the version-1 delete: same ordered two-write cascade and outcomes as the unversioned one |
| Text.NormIgnoresPadding | BookApiProject/Services/Repositories/CountryRepository.cs:41-47 | blanks around a name do not change its normalised form |
| Text.NormIgnoresCase | BookApiProject/Services/Repositories/CountryRepository.cs:41-47 | upper-casing a name does not change its normalised form |
| Text.NormIdempotent | BookApiProject/Services/Repositories/CountryRepository.cs:41-47 | normalising twice is normalising once |
| Text.PaddedLowerCaseClashes | BookApiProject/Controllers/CountryController.cs:151-153 | "france " and "France" are different names with the same normalised form |
| Scenarios.DuplicateCountryName | BookApiProject/Controllers/CountryController.cs:146-171 | creating "France" answers 201; then creating "france " answers 422, and only the first country is stored |
| Scenarios.TwoCountries | BookApiProject/Controllers/CountryController.cs:146-171 | creating "Ghana" and then "Peru" in an empty store stores both, under keys 1 and 2, and nothing else |
| Scenarios.DeleteCountryOfAnAuthor | BookApiProject/Controllers/CountryController.cs:216-243 | in the model, deleting a country nobody lives in answers 409, while deleting the country an author lives in passes the guard and answers 204, the author keeping the deleted country's id |
| Scenarios.UpdateStoredAuthor | BookApiProject/Controllers/AuthorsController.cs:177-178 | updating a stored author answers 404 and leaves the author unchanged |
| Scenarios.UpdateKeyZeroInserts | BookApiProject/Controllers/AuthorsController.cs:172-198 | updating the unstored key 0 answers 204 and inserts the author under the next key |
| Scenarios.ReviewsOutliveTheirReviewer | BookApiProject/Controllers/ReviewerController.cs:196-206 | in the model, when the reviews' save fails after the reviewer's, the answer is 500, no reviewer remains and the review still holds the deleted reviewer's id |

## Left out

- Entity Framework mechanics are not modelled: change tracking, lazy loading of navigation properties, `AddAsync`, and exceptions thrown by `SaveChanges`. A commit is all or nothing, given by the `saved` parameter.
- Identity generation: the database's new key is the parameter `newId`, required to be unused. For a book it must also not be named by a join row or a review.
- An update of a non-zero key that is not stored is modelled as a failed save. The original throws a concurrency exception at that point.
- An update of key 0 is an insert under a fresh key, as Entity Framework's `Update` treats an entity with a default generated key as new. Only `AuthorRepository.UpdateAuthor` models this, because only its controller lets an unstored key through.
- CountryRepository.UpdateCountry: key 0 is treated like any other key, not as an insert. Its controller calls it only for a stored key, and identity keys are never 0.
- CategoryRepository.UpdateCategory: key 0 is treated like any other key, not as an insert. Its controller calls it only for a stored key, and identity keys are never 0.
- ReviewerRepository.UpdateReviewer: key 0 is treated like any other key, not as an insert. Its controller calls it only for a stored key, and identity keys are never 0.
- ReviewRepository.UpdateReview: key 0 is treated like any other key, not as an insert. Its controller calls it only for a stored key, and identity keys are never 0.
- BookRepository.UpdateBook: key 0 is treated like any other key, not as an insert. Its controller calls it only for a stored key, and identity keys are never 0.
- A failed commit leaves the store as it was. Partial commits are not modelled.
- Foreign-key constraints and Entity Framework's relationship fix-up are not modelled, and the database's cascade configuration is not part of the original's code. A delete that would leave a dangling reference therefore succeeds in the model: a deleted book's join rows stay, an author keeps the id of a deleted country, and reviews keep the id of a deleted reviewer. The running program's database would refuse such a delete or cascade it, and Entity Framework nulls or deletes tracked dependents. The navigation queries skip rows whose other end is gone.
- Join rows are modelled as sets. A pair of ids is stored at most once, so the navigation queries return sets.
- Culture-sensitive `ToUpper` and Unicode `Trim` are not modelled: `Text.Norm` trims ASCII white space and upper-cases ASCII letters.
- Listings use ordinal string order, not the database collation.
- String equality in queries is ordinal. `GetBook(string)` and `BookExists(string)` compare ISBNs exactly, while SQL Server's `=` ignores trailing spaces under every collation and letter case under the default one. `BookRepository.IsbnLookupIsExact` therefore uses a leading blank, which `=` does not ignore.
- The duplicate checks in the repositories run in the database, where `Trim` becomes LTRIM/RTRIM and removes only spaces. `Text.Norm` removes all ASCII white space.
- C# `decimal` precision: GetBookRating divides exactly, as a real.
- Every `Get*` endpoint other than the rating and categories-of-a-book endpoints is left out. They only copy fields into DTOs.
- Response bodies, error messages and `CreatedAtRoute` locations are not modelled. Only the status and the recorded model-state errors are.
- The automatic 400 of `[ApiController]` is not modelled. An invalid model state on entry is the `ms` parameter.
- Null nested objects are not modelled, such as an author request without a country or a review without a book. The original dereferences them and throws.
- A null body in `UpdateBook` is not modelled: the model's body is always present. The original reads the body's id before any check, so a null body throws there.
- Some second model-state tests can never fire, because nothing is recorded between the first test and the second. The models of `CreateReview`, `UpdateReview` and `DeleteAuthor` leave them out, and a comment marks each place.
- Each repository's own `Save()` is identical to `Store.Save`.
- Concurrent requests (check-then-act races) are out of scope.
- `MaxLength` and `Required` annotations are enforced by the framework. Startup, dependency injection, Swagger and the route constants are left out too.
