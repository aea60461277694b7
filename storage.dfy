/** The two handlers that change the question table, `POST /questions` and
    `DELETE /questions/<id>`, as methods of the store they change. */
module Storage {
  import opened Entities
  import opened Errors
  import opened Responses

  /** The body of `POST /questions`; `None` is a missing key or `null`. */
  datatype QuestionRequest = QuestionRequest(
    question: Option<string>, answer: Option<string>,
    category: Option<int>, difficulty: Option<int>)

  /** Python truthiness of a text field: present and non-empty. */
  predicate TruthyText(v: Option<string>) {
    v.Some? && v.value != ""
  }

  /** Python truthiness of a number field: present and not 0. */
  predicate TruthyNumber(v: Option<int>) {
    v.Some? && v.value != 0
  }

  /** The check `if not question or not answer or not category or not
      difficulty: abort(400)`: the fields of the new question when all four
      are truthy, nothing otherwise. */
  function Validate(req: QuestionRequest): (r: Option<NewQuestion>)
    ensures r.None? <==> (|| !TruthyText(req.question) || !TruthyText(req.answer)
                          || !TruthyNumber(req.category) || !TruthyNumber(req.difficulty))
    ensures r.Some? ==> && Some(r.value.question) == req.question
                        && Some(r.value.answer) == req.answer
                        && Some(r.value.category) == req.category
                        && Some(r.value.difficulty) == req.difficulty
  {
    if TruthyText(req.question) && TruthyText(req.answer)
       && TruthyNumber(req.category) && TruthyNumber(req.difficulty)
    then Some(NewQuestion(req.question.value, req.answer.value, req.category.value, req.difficulty.value))
    else None
  }

  /** A difficulty of 0 is rejected like a missing one. */
  lemma ZeroDifficultyIsRejected(req: QuestionRequest)
    requires req.difficulty == Some(0)
    ensures Validate(req) == None
  {
  }

  /** Every question's category names an existing category. */
  ghost predicate CategoriesExist(qs: seq<Question>, cs: seq<Category>) {
    forall q :: q in qs ==> FindCategory(cs, q.category).Some?
  }

  /** The trivia database: the question and category tables and the
      sequence the question table draws its keys from. */
  class Store {
    var questions: seq<Question>
    var categories: seq<Category>
    var nextId: int

    /** Both tables are keyed by `id`, and the key sequence is past every
        key in use. */
    ghost predicate Valid()
      reads this
    {
      && DistinctQuestionIds(questions)
      && DistinctCategoryIds(categories)
      && forall q :: q in questions ==> q.id < nextId
    }

    /** A store seeded with the given tables. */
    constructor (qs: seq<Question>, cs: seq<Category>, next: int)
      requires DistinctQuestionIds(qs) && DistinctCategoryIds(cs)
      requires forall q :: q in qs ==> q.id < next
      ensures Valid()
      ensures questions == qs && categories == cs && nextId == next
    {
      questions, categories, nextId := qs, cs, next;
    }

    /** `POST /questions`. Validation comes first and changes nothing: a
        falsy field is 400, then an unknown category is 422. A failed commit
        is 500 and is rolled back. Otherwise the table gains exactly one
        row, at the end, with the request's fields and a key no row had;
        the answer is 201 with those fields. */
    method CreateQuestion(req: QuestionRequest, commitFails: bool) returns (r: Response)
      requires Valid()
      modifies this
      ensures Valid()
      ensures categories == old(categories)
      ensures Validate(req).None? ==> r == Err(BadRequest)
      ensures Validate(req).Some? && FindCategory(categories, Validate(req).value.category).None? ==>
                r == Err(Unprocessable)
      ensures Validate(req).Some? && FindCategory(categories, Validate(req).value.category).Some? ==>
                r == if commitFails then Err(InternalError) else Ok(Created(Validate(req).value))
      ensures r.Err? ==> questions == old(questions) && nextId == old(nextId)
      ensures r.Ok? ==>
                && r.body.Created?
                && Some(r.body.fields.question) == req.question
                && Some(r.body.fields.answer) == req.answer
                && Some(r.body.fields.category) == req.category
                && Some(r.body.fields.difficulty) == req.difficulty
      ensures r.Ok? ==>
                && |questions| == |old(questions)| + 1
                && questions[..|old(questions)|] == old(questions)
                && questions[|old(questions)|].id == old(nextId)
                && Some(questions[|old(questions)|].question) == req.question
                && Some(questions[|old(questions)|].answer) == req.answer
                && Some(questions[|old(questions)|].category) == req.category
                && Some(questions[|old(questions)|].difficulty) == req.difficulty
                && (forall q :: q in old(questions) ==> q.id != old(nextId))
                && FindCategory(categories, questions[|old(questions)|].category).Some?
                && nextId == old(nextId) + 1
      ensures CategoriesExist(old(questions), categories) ==> CategoriesExist(questions, categories)
    {
      var fields := Validate(req);
      if fields.None? {
        return Err(BadRequest);
      }
      var created := fields.value;
      if FindCategory(categories, created.category).None? {
        return Err(Unprocessable);
      }
      if commitFails {
        return Err(InternalError);
      }
      var row := Stored(nextId, created);
      assert forall i :: 0 <= i < |questions| ==> questions[i] in questions;
      questions := questions + [row];
      nextId := nextId + 1;
      r := Ok(Created(created));
    }

    /** `DELETE /questions/<id>`. An unknown key is 404 and a failed commit
        is 500, both leaving the table as it was. Otherwise the row with that
        key is removed, every other row stays in its place, no row with that
        key is left, and the answer carries the deleted row. */
    method DeleteQuestion(id: int, commitFails: bool) returns (r: Response)
      requires Valid()
      modifies this
      ensures Valid()
      ensures categories == old(categories) && nextId == old(nextId)
      ensures FindQuestion(old(questions), id).None? ==> r == Err(NotFound)
      ensures FindQuestion(old(questions), id).Some? && commitFails ==> r == Err(InternalError)
      ensures r.Err? ==> questions == old(questions)
      ensures FindQuestion(old(questions), id).Some? && !commitFails ==>
                var i := FindQuestion(old(questions), id).value;
                && r == Ok(Deleted(old(questions)[i]))
                && questions == old(questions)[..i] + old(questions)[i+1..]
                && questions == WithoutId(old(questions), id)
                && FindQuestion(questions, id).None?
      ensures CategoriesExist(old(questions), categories) ==> CategoriesExist(questions, categories)
    {
      var found := FindQuestion(questions, id);
      if found.None? {
        return Err(NotFound);
      }
      if commitFails {
        return Err(InternalError);
      }
      var i := found.value;
      var row := questions[i];
      RemoveAtIsWithoutId(questions, i);
      RemoveAtKeepsOthers(questions, i);
      questions := questions[..i] + questions[i+1..];
      r := Ok(Deleted(row));
    }
  }
}
