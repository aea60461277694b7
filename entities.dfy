/** The two tables the API serves, as in-memory rows, and the primary-key
    lookups (`Category.query.get`, `Question.query.get`) the handlers use. */
module Entities {
  import opened Filters

  datatype Option<T> = None | Some(value: T)

  /** A category row `{id, type}`; `typeName` is the column called `type`.
      The row is also its serialized form. */
  datatype Category = Category(id: int, typeName: string)

  /** A question row; also its serialized form
      `{id, question, answer, category, difficulty}`. */
  datatype Question = Question(id: int, question: string, answer: string, category: int, difficulty: int)

  /** The four validated fields of a question that has not been stored yet. */
  datatype NewQuestion = NewQuestion(question: string, answer: string, category: int, difficulty: int)

  /** The row a new question becomes once the store has given it `id`. */
  function Stored(id: int, n: NewQuestion): Question {
    Question(id, n.question, n.answer, n.category, n.difficulty)
  }

  /** `id` is a primary key of the question table. */
  ghost predicate DistinctQuestionIds(qs: seq<Question>) {
    forall i, j :: 0 <= i < j < |qs| ==> qs[i].id != qs[j].id
  }

  /** `id` is a primary key of the category table. */
  ghost predicate DistinctCategoryIds(cs: seq<Category>) {
    forall i, j :: 0 <= i < j < |cs| ==> cs[i].id != cs[j].id
  }

  /** `Category.query.get(id)`: the category with that key, if any. */
  function FindCategory(cs: seq<Category>, id: int): (r: Option<Category>)
    ensures r.None? <==> forall c :: c in cs ==> c.id != id
    ensures r.Some? ==> r.value in cs && r.value.id == id
    decreases |cs|
  {
    if cs == [] then None
    else if cs[0].id == id then Some(cs[0])
    else FindCategory(cs[1..], id)
  }

  /** `Question.query.get(id)`, given as the position of the row with that
      key so that it can be removed. */
  function FindQuestion(qs: seq<Question>, id: int): (r: Option<nat>)
    ensures r.None? <==> forall q :: q in qs ==> q.id != id
    ensures r.Some? ==> r.value < |qs| && qs[r.value].id == id
    decreases |qs|
  {
    if qs == [] then None
    else if qs[0].id == id then Some(0)
    else match FindQuestion(qs[1..], id)
      case None => None
      case Some(i) => Some(i + 1)
  }

  function IdIsNot(id: int): Question -> bool {
    (q: Question) => q.id != id
  }

  /** The question table after the row with key `id` is deleted. */
  function WithoutId(qs: seq<Question>, id: int): seq<Question> {
    Filter(qs, IdIsNot(id))
  }

  /** Removing the row at position `i` from a table keyed by `id` is the same
      as keeping every row whose key differs from that row's key. */
  lemma RemoveAtIsWithoutId(qs: seq<Question>, i: nat)
    requires DistinctQuestionIds(qs)
    requires i < |qs|
    ensures qs[..i] + qs[i+1..] == WithoutId(qs, qs[i].id)
  {
    var id, a, b := qs[i].id, qs[..i], qs[i+1..];
    var p := IdIsNot(id);
    assert qs == a + ([qs[i]] + b);
    OthersKeepIds(qs, i, a, 0);
    OthersKeepIds(qs, i, b, i + 1);
    calc {
      WithoutId(qs, id);
      Filter(a + ([qs[i]] + b), p);
      { FilterConcat(a, [qs[i]] + b, p); }
      Filter(a, p) + Filter([qs[i]] + b, p);
      { FilterKeepsAll(a, p); }
      a + Filter([qs[i]] + b, p);
      { assert ([qs[i]] + b)[1..] == b; assert ([qs[i]] + b)[0] == qs[i]; assert !p(qs[i]);
        assert Filter([qs[i]] + b, p) == Filter(b, p); }
      a + Filter(b, p);
      { FilterKeepsAll(b, p); }
      a + b;
    }
  }

  /** Removing the row at position `i` keeps the table keyed and keeps
      exactly the rows whose key differs from that row's. */
  lemma RemoveAtKeepsOthers(qs: seq<Question>, i: nat)
    requires DistinctQuestionIds(qs)
    requires i < |qs|
    ensures DistinctQuestionIds(qs[..i] + qs[i+1..])
    ensures forall q :: q in qs[..i] + qs[i+1..] <==> q in qs && q.id != qs[i].id
  {
    var rest := qs[..i] + qs[i+1..];
    RemoveAtIsWithoutId(qs, i);
    forall k, l | 0 <= k < l < |rest| ensures rest[k].id != rest[l].id {
      assert rest[k] == qs[if k < i then k else k + 1];
      assert rest[l] == qs[if l < i then l else l + 1];
    }
  }

  /** A slice `part` of a keyed table that does not contain position `i`
      holds no row with the key of row `i`. */
  lemma OthersKeepIds(qs: seq<Question>, i: nat, part: seq<Question>, from: nat)
    requires DistinctQuestionIds(qs)
    requires i < |qs| && from + |part| <= |qs|
    requires part == qs[from..from + |part|]
    requires i < from || from + |part| <= i
    ensures forall q :: q in part ==> IdIsNot(qs[i].id)(q)
  {
    forall k | 0 <= k < |part| ensures part[k].id != qs[i].id {
      assert part[k] == qs[from + k];
    }
  }

  /** With distinct keys, the row `Question.query.get(id)` finds is the only
      row with that key. */
  lemma FindQuestionUnique(qs: seq<Question>, id: int, j: nat)
    requires DistinctQuestionIds(qs)
    requires j < |qs| && qs[j].id == id
    ensures FindQuestion(qs, id) == Some(j)
  {
    var r := FindQuestion(qs, id);
    assert qs[j] in qs;
    assert r.Some?;
  }
}
