/**
 * What a handler answers: a success body (sent with `success: true` and
 * status 200) or an abort with an HTTP status code, which the registered
 * error handlers turn into the `{success: false, error, message}` envelope.
 */
module Responses {
  import opened Wrappers
  import opened Records

  const BadRequest := 400
  const NotFound := 404
  const Unprocessable := 422
  /** An uncaught Python exception: no handler is registered, so the framework's own 500 page. */
  const InternalError := 500

  /** The text sent instead of a list when a category has no questions. */
  const NoQuestionsText := "no questions available at this time"

  /** The `questions` field of the by-category answer: a list, or the placeholder text. */
  datatype Listing = Rows(rows: seq<Question>) | Placeholder(text: string)

  /** One success body per route; `success: true` and the null current category are implied. */
  datatype Body =
    | CategoryListing(categories: map<int, string>)
    | QuestionPage(questions: seq<Question>, totalQuestions: nat, categories: map<int, string>)
    | Deleted(deleted: string)
    | Created(created: int, totalQuestions: nat)
    | SearchResults(questions: seq<Question>, totalQuestions: nat)
    | CategoryQuestions(listing: Listing, totalQuestions: nat, currentCategory: int)
    | QuizQuestion(question: Question)

  datatype Response = Ok(body: Body) | Abort(code: int)

  /** The JSON error envelope; `success: false` is implied. */
  datatype ErrorEnvelope = ErrorEnvelope(error: int, message: string)

  /**
   * The registered error handlers: 404, 422 and 400 each get an envelope
   * echoing the code with a fixed message; any other code (500 in this
   * service) has no handler.
   */
  function ErrorHandler(code: int): (e: Option<ErrorEnvelope>)
    ensures e.Some? <==> code == NotFound || code == Unprocessable || code == BadRequest
    ensures e.Some? ==> e.value.error == code
    ensures code == NotFound ==> e.value.message == "resource not found"
    ensures code == Unprocessable ==> e.value.message == "unprocessable entity"
    ensures code == BadRequest ==> e.value.message == "bad request"
  {
    if code == NotFound then Some(ErrorEnvelope(NotFound, "resource not found"))
    else if code == Unprocessable then Some(ErrorEnvelope(Unprocessable, "unprocessable entity"))
    else if code == BadRequest then Some(ErrorEnvelope(BadRequest, "bad request"))
    else None
  }
}
