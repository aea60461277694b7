/** The read-only handlers over the category and question tables:
    `GET /categories`, `GET /questions?page=N` and
    `GET /categories/<id>/questions`. */
module Queries {
  import opened Filters
  import opened Entities
  import opened Errors
  import opened Responses

  /** `QUESTIONS_PER_PAGE`: the fixed page size. */
  const QuestionsPerPage: nat := 10

  function Min(a: int, b: int): int {
    if a <= b then a else b
  }

  /** `format_categories`: the dict comprehension `{c.id: c.type}` over the
      rows in order, so a later row with a repeated key overwrites an
      earlier one. */
  function FormatCategories(cs: seq<Category>): (m: map<int, string>)
    ensures m.Keys == set c | c in cs :: c.id
    ensures forall i :: 0 <= i < |cs| && (forall j :: i < j < |cs| ==> cs[j].id != cs[i].id) ==>
                          m[cs[i].id] == cs[i].typeName
    decreases |cs|
  {
    if cs == [] then map[]
    else
      var init, last := cs[..|cs| - 1], cs[|cs| - 1];
      assert forall c :: c in cs <==> c in init || c == last;
      assert forall i :: 0 <= i < |init| ==> init[i] == cs[i];
      FormatCategories(init)[last.id := last.typeName]
  }

  /** On a table keyed by `id` (categories are), every category maps to its
      own type. */
  lemma FormatCategoriesOfKeyedTable(cs: seq<Category>)
    requires DistinctCategoryIds(cs)
    ensures forall c :: c in cs ==> FormatCategories(cs)[c.id] == c.typeName
  {
    forall c | c in cs ensures FormatCategories(cs)[c.id] == c.typeName {
      var i :| 0 <= i < |cs| && cs[i] == c;
    }
  }

  /** On a table keyed by `id` the mapping has one entry per row, so that
      `total_count` equals the number of entries of `categories`. */
  lemma {:induction false} FormatCategoriesSize(cs: seq<Category>)
    requires DistinctCategoryIds(cs)
    ensures |FormatCategories(cs)| == |cs|
    decreases |cs|
  {
    if cs != [] {
      var init, last := cs[..|cs| - 1], cs[|cs| - 1];
      LastKeyIsNew(cs);
      FormatCategoriesSize(init);
      var m0 := FormatCategories(init);
      assert FormatCategories(cs) == m0[last.id := last.typeName];
      assert |m0[last.id := last.typeName]| == |m0| + 1;
    }
  }

  /** In a keyed table the last row's key is not among the earlier rows'
      keys, and the earlier rows are keyed too. */
  lemma LastKeyIsNew(cs: seq<Category>)
    requires DistinctCategoryIds(cs) && cs != []
    ensures DistinctCategoryIds(cs[..|cs| - 1])
    ensures cs[|cs| - 1].id !in FormatCategories(cs[..|cs| - 1])
  {
    var init, last := cs[..|cs| - 1], cs[|cs| - 1];
    assert forall i :: 0 <= i < |init| ==> init[i] == cs[i];
    forall c | c in init ensures c.id != last.id {
      var i :| 0 <= i < |init| && init[i] == c;
    }
  }

  /** `GET /categories`: always a success, with the category mapping of
      `format_categories` (every id keyed to its type) and the number of
      rows as `total_count`. */
  function ListCategories(cs: seq<Category>): (r: Response)
    ensures r.Ok? && r.body.CategoryList?
    ensures r.body.totalCount == |cs|
    ensures r.body.categories == FormatCategories(cs)
    ensures r.body.categories.Keys == set c | c in cs :: c.id
    ensures DistinctCategoryIds(cs) ==> forall c :: c in cs ==> r.body.categories[c.id] == c.typeName
  {
    Ok(CategoryList(FormatCategories(cs), |cs|))
  }

  /** `Question.query.limit(10).offset(10 * (page - 1))`: the rows of page
      `page`, in table order. */
  function PageWindow(qs: seq<Question>, page: int): (w: seq<Question>)
    requires page >= 1
    ensures |w| <= QuestionsPerPage
    ensures |w| == if QuestionsPerPage * (page - 1) < |qs|
                   then Min(QuestionsPerPage, |qs| - QuestionsPerPage * (page - 1)) else 0
    ensures forall k :: 0 <= k < |w| ==> w[k] == qs[QuestionsPerPage * (page - 1) + k]
  {
    var start := QuestionsPerPage * (page - 1);
    if start >= |qs| then [] else qs[start .. Min(start + QuestionsPerPage, |qs|)]
  }

  /** `GET /questions?page=N`. An empty page is 404. Otherwise the body holds
      the page, the size of the whole table, every category, and the id of
      the first category row; with no category row that lookup raises, which
      is answered as 500. */
  function ListQuestions(qs: seq<Question>, cs: seq<Category>, page: int): (r: Response)
    requires page >= 1
    ensures r == Err(NotFound) <==> QuestionsPerPage * (page - 1) >= |qs|
    ensures r == Err(InternalError) <==> QuestionsPerPage * (page - 1) < |qs| && cs == []
    ensures r.Ok? <==> QuestionsPerPage * (page - 1) < |qs| && cs != []
    ensures r.Ok? ==>
              && r.body.QuestionPage?
              && r.body.questions == PageWindow(qs, page)
              && r.body.totalQuestions == |qs|
              && r.body.categories == FormatCategories(cs)
              && r.body.currentCategoryId == cs[0].id
  {
    var window := PageWindow(qs, page);
    if |window| == 0 then Err(NotFound)
    else if cs == [] then Err(InternalError)
    else Ok(QuestionPage(window, |qs|, FormatCategories(cs), cs[0].id))
  }

  /** Pages 1 to `n`, one after the other. */
  function Pages(qs: seq<Question>, n: nat): seq<Question> {
    if n == 0 then [] else Pages(qs, n - 1) + PageWindow(qs, n)
  }

  /** Reading pages 1, 2, ..., n in turn yields the first `10 * n` rows of the
      table, each once and in table order: pagination neither skips nor
      repeats a question. */
  lemma {:induction false} PagesArePrefix(qs: seq<Question>, n: nat)
    ensures Pages(qs, n) == qs[..Min(QuestionsPerPage * n, |qs|)]
  {
    if n > 0 {
      PagesArePrefix(qs, n - 1);
      var a, b := Min(QuestionsPerPage * (n - 1), |qs|), Min(QuestionsPerPage * n, |qs|);
      assert PageWindow(qs, n) == qs[a..b];
      assert qs[..a] + qs[a..b] == qs[..b];
    }
  }

  /** The question at position `i` of the table is shown on page `i / 10 + 1`,
      at position `i % 10` of that page. */
  lemma PageOfPosition(qs: seq<Question>, i: nat)
    requires i < |qs|
    ensures var w := PageWindow(qs, i / QuestionsPerPage + 1);
            i % QuestionsPerPage < |w| && w[i % QuestionsPerPage] == qs[i]
  {
    assert QuestionsPerPage * (i / QuestionsPerPage) + i % QuestionsPerPage == i;
  }

  /** The pages that are not 404 are exactly pages 1 to `ceil(n / 10)`, and
      every one of them but the last is full. */
  lemma NonEmptyPages(qs: seq<Question>, cs: seq<Category>, page: int)
    requires page >= 1
    ensures ListQuestions(qs, cs, page) != Err(NotFound) <==>
            page <= (|qs| + QuestionsPerPage - 1) / QuestionsPerPage
    ensures page < (|qs| + QuestionsPerPage - 1) / QuestionsPerPage ==>
            |PageWindow(qs, page)| == QuestionsPerPage
  {
    var n, last := |qs|, (|qs| + QuestionsPerPage - 1) / QuestionsPerPage;
    assert QuestionsPerPage * last <= n + QuestionsPerPage - 1 < QuestionsPerPage * (last + 1);
    if page <= last {
      assert QuestionsPerPage * (page - 1) <= QuestionsPerPage * (last - 1);
    } else {
      assert QuestionsPerPage * (page - 1) >= QuestionsPerPage * last;
    }
    if page < last {
      assert QuestionsPerPage * page <= QuestionsPerPage * (last - 1);
    }
  }

  function CategoryIs(id: int): Question -> bool {
    (q: Question) => q.category == id
  }

  /** `Question.query.filter_by(category=id)`, in table order. */
  function QuestionsOfCategory(qs: seq<Question>, id: int): seq<Question> {
    Filter(qs, CategoryIs(id))
  }

  /** `GET /categories/<id>/questions`: 404 exactly when no category has
      key `id`; otherwise all and only the questions of that category, their
      number, and the category row itself. */
  function CategoryQuestions(qs: seq<Question>, cs: seq<Category>, id: int): (r: Response)
    ensures r.Err? <==> forall c :: c in cs ==> c.id != id
    ensures r.Err? ==> r.status == NotFound
    ensures r.Ok? ==>
              && r.body.InCategory?
              && r.body.currentCategory in cs && r.body.currentCategory.id == id
              && r.body.totalQuestions == |r.body.questions|
              && r.body.questions == QuestionsOfCategory(qs, id)
              && (forall q :: q in r.body.questions <==> q in qs && q.category == id)
  {
    match FindCategory(cs, id)
    case None => Err(NotFound)
    case Some(c) =>
      var found := QuestionsOfCategory(qs, id);
      Ok(InCategory(found, |found|, c))
  }

  /** A question added at the end of the table is listed last under its
      category and leaves the other categories' listings as they were. */
  lemma AppendedQuestionListing(qs: seq<Question>, q: Question, id: int)
    ensures QuestionsOfCategory(qs + [q], id) ==
            QuestionsOfCategory(qs, id) + (if q.category == id then [q] else [])
  {
    FilterConcat(qs, [q], CategoryIs(id));
    assert [q][1..] == [];
  }

  /** After the row with key `id` is deleted it is listed under no category. */
  lemma DeletedQuestionUnlisted(qs: seq<Question>, id: int, cat: int)
    ensures forall q :: q in QuestionsOfCategory(WithoutId(qs, id), cat) ==> q.id != id
  {
  }

  /** Every question of the store is listed under its own category, once the
      category exists. */
  lemma EveryQuestionListed(qs: seq<Question>, cs: seq<Category>, q: Question)
    requires q in qs
    requires exists c :: c in cs && c.id == q.category
    ensures CategoryQuestions(qs, cs, q.category).Ok?
    ensures q in CategoryQuestions(qs, cs, q.category).body.questions
  {
  }
}
