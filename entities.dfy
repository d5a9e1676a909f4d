/**
 * The records of the book catalogue (the entity classes of the data
 * layer). Navigation properties are replaced by the foreign-key ids they
 * follow; the two many-to-many relations are their own join records.
 */
module Entities {

  datatype Option<+T> = None | Some(value: T)

  datatype Country = Country(id: int, name: string)

  /** An author lives in one country (`Author.Country`). */
  datatype Author = Author(id: int, firstName: string, lastName: string, countryId: int)

  datatype Category = Category(id: int, name: string)

  datatype Book = Book(id: int, isbn: string, title: string, datePublished: Option<int>)

  datatype Reviewer = Reviewer(id: int, firstName: string, lastName: string)

  /** A review belongs to one book and one reviewer. */
  datatype Review = Review(id: int, headline: string, reviewText: string, rating: int, bookId: int, reviewerId: int)

  /** Join record "book `bookId` was written by author `authorId`". */
  datatype BookAuthor = BookAuthor(bookId: int, authorId: int)

  /** Join record "book `bookId` is filed under category `categoryId`". */
  datatype BookCategory = BookCategory(bookId: int, categoryId: int)

  /**
   * An author as a client posts it: the nested country is whatever the
   * client sent, of which only the id is trusted.
   */
  datatype AuthorRequest = AuthorRequest(id: int, firstName: string, lastName: string, country: Country)

  /** A review as a client posts it, with the nested book and reviewer it names. */
  datatype ReviewRequest = ReviewRequest(id: int, headline: string, reviewText: string, rating: int, book: Book, reviewer: Reviewer)
}
