/** `POST /questions/search`: the rows whose question text contains the
    search term, compared without regard to (ASCII) letter case, as
    `question ILIKE '%term%'` does. */
module Search {
  import opened Filters
  import opened Entities
  import opened Errors
  import opened Responses

  /** ASCII lower-casing of one character. */
  function LowerChar(c: char): char {
    if 'A' <= c <= 'Z' then (c as int + 32) as char else c
  }

  /** ASCII lower-casing of a string. */
  function Lower(s: string): (r: string)
    ensures |r| == |s|
    ensures forall i :: 0 <= i < |s| ==> r[i] == LowerChar(s[i])
    decreases |s|
  {
    if s == [] then [] else [LowerChar(s[0])] + Lower(s[1..])
  }

  /** Lower-casing twice is lower-casing once. */
  lemma LowerIdempotent(s: string)
    ensures Lower(Lower(s)) == Lower(s)
  {
    assert forall i :: 0 <= i < |s| ==> LowerChar(LowerChar(s[i])) == LowerChar(s[i]);
  }

  /** `term` is a prefix of `text` or occurs in `text`'s tail. */
  predicate Contains(text: string, term: string)
    decreases |text|
  {
    term <= text || (text != [] && Contains(text[1..], term))
  }

  /** `term` occurs in `text` starting at position `i`. */
  predicate OccursAt(text: string, term: string, i: nat) {
    i + |term| <= |text| && text[i..i + |term|] == term
  }

  /** An occurrence at any position makes `Contains` hold. */
  lemma {:induction false} OccurrenceIsContained(text: string, term: string, i: nat)
    requires OccursAt(text, term, i)
    ensures Contains(text, term)
    decreases i
  {
    if i == 0 {
      assert text[..|term|] == term;
    } else {
      assert text[1..][i - 1..i - 1 + |term|] == text[i..i + |term|];
      OccurrenceIsContained(text[1..], term, i - 1);
    }
  }

  /** `Contains` holds only where there is an occurrence; the position is
      returned. */
  lemma {:induction false} ContainedOccurs(text: string, term: string) returns (i: nat)
    requires Contains(text, term)
    ensures OccursAt(text, term, i)
    decreases |text|
  {
    if term <= text {
      i := 0;
      assert text[..|term|] == term;
    } else {
      var j := ContainedOccurs(text[1..], term);
      i := j + 1;
      assert text[1..][j..j + |term|] == text[i..i + |term|];
    }
  }

  /** `Contains` is exactly the substring relation. */
  lemma ContainsIffOccurs(text: string, term: string)
    ensures Contains(text, term) <==> exists i: nat :: OccursAt(text, term, i)
  {
    if Contains(text, term) {
      var i := ContainedOccurs(text, term);
    }
    if exists i: nat :: OccursAt(text, term, i) {
      var i: nat :| OccursAt(text, term, i);
      OccurrenceIsContained(text, term, i);
    }
  }

  /** A substring of a substring is a substring. */
  lemma ContainsTransitive(a: string, b: string, c: string)
    requires Contains(a, b) && Contains(b, c)
    ensures Contains(a, c)
  {
    var i := ContainedOccurs(a, b);
    var j := ContainedOccurs(b, c);
    forall k | 0 <= k < |c| ensures a[i + j + k] == c[k] {
      assert b[j + k] == c[k];
      assert a[i + j + k] == b[j + k];
    }
    assert a[i + j..i + j + |c|] == c;
    OccurrenceIsContained(a, c, i + j);
  }

  /** `Question.question.ilike('%term%')`. */
  predicate MatchesTerm(q: Question, term: string) {
    Contains(Lower(q.question), Lower(term))
  }

  function TermMatches(term: string): Question -> bool {
    (q: Question) => MatchesTerm(q, term)
  }

  /** The matching rows, in table order. */
  function SearchMatches(qs: seq<Question>, term: string): seq<Question> {
    Filter(qs, TermMatches(term))
  }

  /** `POST /questions/search`: an absent or empty `searchTerm` is 400;
      otherwise all and only the matching questions, in table order, and
      their number. */
  function SearchQuestions(qs: seq<Question>, term: Option<string>): (r: Response)
    ensures r.Err? <==> term.None? || term.value == ""
    ensures r.Err? ==> r.status == BadRequest
    ensures r.Ok? ==>
              && r.body.SearchResult?
              && r.body.totalQuestions == |r.body.questions|
              && r.body.questions == SearchMatches(qs, term.value)
              && (forall q :: q in r.body.questions <==> q in qs && MatchesTerm(q, term.value))
  {
    if term.None? || term.value == "" then Err(BadRequest)
    else
      var found := SearchMatches(qs, term.value);
      Ok(SearchResult(found, |found|))
  }

  /** Two terms that differ only in letter case find the same questions. */
  lemma SearchIgnoresCase(qs: seq<Question>, t1: string, t2: string)
    requires Lower(t1) == Lower(t2)
    ensures SearchQuestions(qs, Some(t1)) == SearchQuestions(qs, Some(t2))
  {
    FilterAgree(qs, TermMatches(t1), TermMatches(t2));
  }

  /** A longer term finds no question a term it contains misses. */
  lemma SearchNarrows(qs: seq<Question>, t1: string, t2: string)
    requires Contains(Lower(t2), Lower(t1))
    ensures forall q :: q in SearchMatches(qs, t2) ==> q in SearchMatches(qs, t1)
    ensures |SearchMatches(qs, t2)| <= |SearchMatches(qs, t1)|
  {
    forall q | q in qs && TermMatches(t2)(q) ensures TermMatches(t1)(q) {
      ContainsTransitive(Lower(q.question), Lower(t2), Lower(t1));
    }
    FilterMonotone(qs, TermMatches(t1), TermMatches(t2));
  }

  /** A question is found by its own text, and by that text lower-cased. */
  lemma SearchFindsOwnText(qs: seq<Question>, q: Question)
    requires q in qs && q.question != ""
    ensures q in SearchQuestions(qs, Some(q.question)).body.questions
    ensures q in SearchQuestions(qs, Some(Lower(q.question))).body.questions
  {
    var t := Lower(q.question);
    assert Contains(t, t);
    LowerIdempotent(q.question);
  }

  /** A term no question matches is a success with an empty list. */
  lemma NoMatchIsEmptySuccess(qs: seq<Question>, term: string)
    requires term != ""
    requires forall q :: q in qs ==> !MatchesTerm(q, term)
    ensures SearchQuestions(qs, Some(term)) == Ok(SearchResult([], 0))
  {
    FilterKeepsNone(qs, TermMatches(term));
  }
}
