/** The HTTP side of the controllers: status results and the model state. */
module Http {

  /** The action results the controllers return. */
  datatype Status =
    | Ok                   // 200
    | Created              // 201
    | NoContent            // 204
    | BadRequest           // 400
    | NotFound             // 404
    | Conflict             // 409
    | UnprocessableEntity  // 422
    | InternalServerError  // 500

  function Code(s: Status): int {
    match s
    case Ok => 200
    case Created => 201
    case NoContent => 204
    case BadRequest => 400
    case NotFound => 404
    case Conflict => 409
    case UnprocessableEntity => 422
    case InternalServerError => 500
  }

  /** The errors recorded in the model state that a later guard or the answer depends on. */
  datatype ModelError =
    | BindingError                    // recorded by model binding, before the action runs
    | MissingBookAuthorOrCategory
    | DuplicateIsbn
    | AuthorNotFound
    | CategoryNotFound
    | ReviewNotFound
    | BookNotFound(bookId: int)
    | ReviewerNotFound(reviewerId: int)

  /** `ModelState`: valid exactly when no error has been recorded. */
  datatype ModelState = ModelState(errors: seq<ModelError>) {
    predicate IsValid() {
      |errors| == 0
    }

    function AddModelError(e: ModelError): ModelState {
      ModelState(errors + [e])
    }
  }
}
