/** What a handler answers: a success body (sent with `success: true`) or a
    failure kind, which the matching error handler turns into its envelope. */
module Responses {
  import opened Entities
  import opened Errors

  datatype Body =
    /** `GET /categories` */
    | CategoryList(categories: map<int, string>, totalCount: int)
      /** `GET /questions?page=N` */
    | QuestionPage(questions: seq<Question>, totalQuestions: int,
                   categories: map<int, string>, currentCategoryId: int)
      /** `DELETE /questions/<id>`: the deleted row */
    | Deleted(question: Question)
      /** `POST /questions`: the fields of the new question, formatted
          before the row was committed (so without its id) */
    | Created(fields: NewQuestion)
      /** `POST /questions/search` */
    | SearchResult(questions: seq<Question>, totalQuestions: int)
      /** `GET /categories/<id>/questions` */
    | InCategory(questions: seq<Question>, totalQuestions: int, currentCategory: Category)
      /** `POST /quizzes`: `None` is the JSON `null` */
    | QuizQuestion(drawn: Option<Question>)

  datatype Response = Ok(body: Body) | Err(status: Status)

  /** The HTTP status a response is sent with: 201 for a created question,
      200 for every other success, and the failure's own code otherwise. */
  function HttpStatus(r: Response): (code: int)
    ensures r.Ok? ==> code == (if r.body.Created? then 201 else 200)
    ensures r.Err? ==> StatusOf(code) == Some(r.status)
  {
    match r
    case Ok(b) => if b.Created? then 201 else 200
    case Err(s) => Code(s)
  }
}
