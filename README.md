# Trivia API request handlers, modelled in Dafny

This project models the request-handling layer of a Flask trivia-question
API (`backend/flaskr/__init__.py`). The database sits under those handlers.
Here it is an in-memory store with two tables: a sequence of `Question`
rows `{id, question, answer, category, difficulty}` and a sequence of
`Category` rows `{id, type}`. Each handler is a decision rule over those
tables, and the model proves what each rule promises.

- `Filters`: an order-preserving `Filter` over sequences. It stands for the
  ORM's `filter`/`filter_by` queries. Its lemmas cover concatenation,
  agreeing predicates, monotonicity and strict shrinking.
- `Entities`: the row types, primary-key lookups (`Category.query.get`,
  `Question.query.get`), and row removal by key.
- `Errors`: the four registered error handlers (400, 404, 422, 500) and
  their fixed envelopes `{success: false, error, message}`.
- `Responses`: the success bodies of the seven endpoints and the HTTP status
  of each response (201 for a created question, otherwise 200).
- `Queries`: `format_categories`, `GET /categories`, the paginated
  `GET /questions` (page size `QUESTIONS_PER_PAGE = 10`) and
  `GET /categories/<id>/questions`.
- `Search`: `POST /questions/search`. It is a case-insensitive substring
  match, with `Contains` proved to be exactly the substring relation.
- `Quiz`: `POST /quizzes`. The draw made by `random.choice` is a parameter
  here, and a lemma shows that every candidate can be drawn. Another lemma
  follows a whole quiz session and shows that it never repeats a question.
- `Storage`: a `Store` class holding both tables and the key counter. Its
  methods `CreateQuestion` and `DeleteQuestion` change the question table in
  place.

The read-only handlers are functions over the two sequences. The handlers
that write are methods of `Store` whose postconditions give the whole new
state.

Three behaviours of the code worth knowing:

- `create_question` calls `format()` on the new row before committing it.
  The 201 body therefore carries the four submitted fields but not the key
  the database assigns later. The model returns those fields
  (`Responses.Body.Created`) and puts the fresh key in the store.
- `questions` reads `categories[0].id`. With no category row this raises an
  exception, which Flask answers with its 500 handler. The model returns
  `Err(InternalError)` in that case.
- The quiz filter compares the category by plain equality. There is no "all
  categories" case, although a comment in the handler says "if provided".

## Model

| member | source | states |
|---|---|---|
| `Queries.FormatCategories` | backend/flaskr/__init__.py:31-32 | the keys are exactly the category ids; each id maps to the type of the last row with that id (dict-comprehension overwrite) |
| `Queries.FormatCategoriesOfKeyedTable` | backend/flaskr/__init__.py:31-32 | on a table keyed by id, every category maps to its own type |
| `Queries.FormatCategoriesSize` | backend/flaskr/__init__.py:41-47 | on a table keyed by id, the mapping has one entry per row, so it agrees with `total_count` |
| `Queries.ListCategories` | backend/flaskr/__init__.py:39-47 | always succeeds; `total_count` is the number of rows; `categories` is exactly the `format_categories` mapping, so its keys are the category ids and, on a table keyed by id, each id maps to its category's type |
| `Queries.PageWindow` | backend/flaskr/__init__.py:63-66 | at most 10 rows; exactly `min(10, n - 10*(page-1))` rows when the offset is inside the table, else none; row k of the page is table row `10*(page-1)+k` |
| `Queries.ListQuestions` | backend/flaskr/__init__.py:61-80 | 404 exactly when the offset is past the table; 500 exactly when the page is non-empty and there is no category; otherwise the page, `total_questions` = table size, every category, and `current_category` = id of the first category row |
| `Queries.PagesArePrefix` | backend/flaskr/__init__.py:63-66 | pages 1..n, read in turn, are exactly the first `10*n` rows in table order (nothing skipped or repeated) |
| `Queries.PageOfPosition` | backend/flaskr/__init__.py:63-66 | the row at position i appears on page `i/10 + 1` at position `i % 10` |
| `Queries.NonEmptyPages` | backend/flaskr/__init__.py:64-70 | a page is not 404 exactly when `page <= ceil(n/10)`; every page before the last non-empty one holds 10 rows |
| `Queries.CategoryQuestions` | backend/flaskr/__init__.py:187-201 | 404 (and only 404) exactly when no category has the id; otherwise all and only the questions of that category in table order, their count, and the category row |
| `Queries.AppendedQuestionListing` | backend/flaskr/__init__.py:136-141 | a question appended to the table is listed last under its own category and changes no other category's listing |
| `Queries.DeletedQuestionUnlisted` | backend/flaskr/__init__.py:97-98 | once a key is deleted, no category listing contains a row with that key |
| `Queries.EveryQuestionListed` | backend/flaskr/__init__.py:189-194 | every stored question whose category exists is in that category's listing |
| `Search.Lower` | backend/flaskr/__init__.py:171 | lower-casing keeps the length and lower-cases each ASCII letter in place |
| `Search.ContainsIffOccurs` | backend/flaskr/__init__.py:171 | `Contains` holds exactly when the term occurs at some position of the text |
| `Search.OccurrenceIsContained` | backend/flaskr/__init__.py:171 | an occurrence at any position makes `Contains` hold |
| `Search.ContainedOccurs` | backend/flaskr/__init__.py:171 | `Contains` yields a position where the term occurs |
| `Search.ContainsTransitive` | backend/flaskr/__init__.py:171 | a substring of a substring is a substring |
| `Search.SearchQuestions` | backend/flaskr/__init__.py:164-177 | 400 exactly when the term is absent or empty; otherwise all and only the questions whose text contains the term case-insensitively, in table order, with `total_questions` equal to their number |
| `Search.SearchIgnoresCase` | backend/flaskr/__init__.py:171 | two terms equal up to letter case give the same response |
| `Search.SearchNarrows` | backend/flaskr/__init__.py:171 | a term containing another finds a subset of that term's matches, and no more of them |
| `Search.SearchFindsOwnText` | backend/flaskr/__init__.py:171 | a question is found by its own text and by its lower-cased text |
| `Search.NoMatchIsEmptySuccess` | backend/flaskr/__init__.py:168-177 | a non-empty term that matches nothing is a success with an empty list and count 0 |
| `Quiz.PlayQuiz` | backend/flaskr/__init__.py:215-233 | always a success; `null` exactly when no question of the category has an id outside `previous_questions`; otherwise a stored question of that category whose id is not in `previous_questions` |
| `Quiz.EveryCandidateCanBeDrawn` | backend/flaskr/__init__.py:229 | every candidate is returned for some draw |
| `Quiz.DrawShrinksCandidates` | backend/flaskr/__init__.py:221 | adding the drawn id to `previous_questions` leaves strictly fewer candidates |
| `Quiz.SessionNeverRepeats` | backend/flaskr/__init__.py:207-233 | over a session that feeds back the asked ids, no question is asked twice, none is a previous question, all are of the category, and there are no more rounds than candidates |
| `Errors.StatusOf` | backend/flaskr/__init__.py:240-270 | a handler exists exactly for codes 400, 404, 422 and 500, and the kind found has that code |
| `Errors.Envelope` | backend/flaskr/__init__.py:240-270 | an error envelope has `success` false, a code that identifies its failure kind, and that kind's message |
| `Errors.EnvelopesIdentifyStatus` | backend/flaskr/__init__.py:240-270 | code and kind round-trip; distinct kinds have distinct codes, messages and envelopes |
| `Errors.ErrorMessageTable` | backend/flaskr/__init__.py:240-270 | 400 "bad request", 404 "resource not found.", 422 "unprocessible entity", 500 "internal server error" |
| `Responses.HttpStatus` | backend/flaskr/__init__.py:148-151 | 201 for a created question, 200 for every other success, and the failure's own code otherwise |
| `Storage.Validate` | backend/flaskr/__init__.py:122-129 | rejects exactly when one of the four fields is missing or falsy (empty text, or 0); otherwise echoes all four fields |
| `Storage.ZeroDifficultyIsRejected` | backend/flaskr/__init__.py:128 | `difficulty = 0` is rejected like a missing difficulty |
| `Storage.Store.CreateQuestion` | backend/flaskr/__init__.py:120-151 | falsy field gives 400, then unknown category gives 422, then a failed commit gives 500, each with the store unchanged; otherwise a 201 whose body echoes the four request fields, the table gains exactly one row at the end, holding the request's four fields under a key no row had and naming an existing category, the earlier rows unchanged, the counter advances, categories are unchanged, and the store stays keyed |
| `Storage.Store.DeleteQuestion` | backend/flaskr/__init__.py:89-108 | unknown key gives 404 and a failed commit gives 500, store unchanged; otherwise the answer is the deleted row, that row alone is removed with the others in place, and the key is no longer found |
| `Entities.FindCategory` | backend/flaskr/__init__.py:131-134 | none exactly when no category has the id; otherwise a stored category with that id |
| `Entities.FindQuestion` | backend/flaskr/__init__.py:91-94 | none exactly when no question has the id; otherwise the position of a row with that id |
| `Entities.FindQuestionUnique` | backend/flaskr/__init__.py:91 | in a keyed table, the lookup finds the one row with that key |
| `Entities.RemoveAtIsWithoutId` | backend/flaskr/__init__.py:97-98 | in a keyed table, removing the row at its position equals keeping every row with a different key |
| `Entities.RemoveAtKeepsOthers` | backend/flaskr/__init__.py:97-98 | removing a row keeps the table keyed and keeps exactly the rows with other keys |

## Left out

- Flask routing, `request.get_json`/`request.args` parsing and `jsonify` are framework plumbing and are not modelled. Handlers take their arguments already parsed.
- `Queries.ListQuestions`: requires `page >= 1`. A non-integer `page` falls back to 1 in Flask. Page 0 or below gives a negative SQL `OFFSET`, whose effect depends on the database. A page so large that `10*(page-1)` exceeds PostgreSQL's 64-bit `OFFSET` makes the database raise an error, which Flask answers with 500; the model answers 404 there, as for any page past the table.
- CORS setup and the `after_request` header injection (lines 19-29) only set HTTP headers and are not modelled.
- SQLAlchemy sessions, `commit`/`rollback`/`close` and PostgreSQL are not modelled. Add and delete are atomic on the in-memory store. A failed commit is the boolean parameter `commitFails`, and it leaves the store unchanged.
- `Search.SearchQuestions`: does not treat `%` and `_` in the search term as `ILIKE` wildcards, nor `\` as `ILIKE`'s default escape character (line 171 gives no `ESCAPE` clause); the model matches the term literally, while the database does not for a term holding any of the three. Case folding is ASCII only, while the database's folding depends on its collation.
- `Quiz.PlayQuiz`: the random draw is the parameter `pick`. The model states membership in the candidate set, and that every candidate is reachable, but not that the draw is uniform.
- Malformed request bodies are not modelled. A missing JSON body, or a missing `quiz_category` or `previous_questions` key, raises an exception (lines 122, 166, 217-219).
- `Storage.Store.CreateQuestion`: on a failed commit the key counter is left as it was. PostgreSQL may still use up a sequence value on a rolled-back insert. Either way the next key is fresh.
- `Storage.Validate`: request fields are text or integers. JSON values of other types (booleans, lists, a category id sent as a string) are not modelled.
- Integer widths of the database columns are not modelled; ids and difficulties are unbounded integers.
- The order of `Query.all()` without `ORDER BY` is the order of the sequences in the model.
- `backend/models.py` is not part of this model. `Question.format()` and `Category.format()` are taken to give `{id, question, answer, category, difficulty}` and `{id, type}`, and a row is its own serialized form.
- `backend/test_flaskr.py` needs a live PostgreSQL database. It is not modelled.
- `create_app` and `setup_db` (application bootstrapping) are not modelled.
