/** The JSON responses the routes send, and the four error handlers. */
module Responses {
  import opened Model

  /** The JSON bodies of the routes. In `QuestionsPayload`, `allCategories`
      (the `categories` key) is `None` when the key is absent, while
      `currentCategory` is `None` when the key is present with the value null. */
  datatype Body =
    | CategoriesPayload(categories: map<int, string>)
    | QuestionsPayload(questions: seq<Question>, totalQuestions: int,
                       allCategories: Option<map<int, string>>,
                       currentCategory: Option<map<int, string>>)
    | DeletedPayload(deleted: int)
    | CreatedPayload(success: bool, created: int)
    | QuizPayload(question: Option<Question>)
    | ErrorPayload(success: bool, error: int, message: string)

  datatype Response = Response(status: int, body: Body)

  /** The shape every error handler produces: the status repeated as the
      body's `error` code, `success` false, and a fixed message. */
  predicate IsError(r: Response, code: int, message: string) {
    r.status == code && r.body.ErrorPayload? && !r.body.success
    && r.body.error == code && r.body.message == message
  }

  function BadRequest(): (r: Response)
    ensures IsError(r, 400, "bad request")
  {
    Response(400, ErrorPayload(false, 400, "bad request"))
  }

  function NotFound(): (r: Response)
    ensures IsError(r, 404, "resource not found")
  {
    Response(404, ErrorPayload(false, 404, "resource not found"))
  }

  function Unprocessable(): (r: Response)
    ensures IsError(r, 422, "unprocessable")
  {
    Response(422, ErrorPayload(false, 422, "unprocessable"))
  }

  function InternalServerError(): (r: Response)
    ensures IsError(r, 500, "something went wrong")
  {
    Response(500, ErrorPayload(false, 500, "something went wrong"))
  }

  /** A successful response with a JSON body. */
  function Ok(body: Body): Response {
    Response(200, body)
  }
}
