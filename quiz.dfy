/** `POST /quizzes`: one question of the chosen category that is not among
    the previous questions, or `null` once there is none left. */
module Quiz {
  import opened Filters
  import opened Entities
  import opened Responses

  /** The filter `category == cat` and `~id.in_(previous_questions)`. There
      is no "all categories" case: the category is compared as given. */
  function IsCandidate(cat: int, previous: seq<int>): Question -> bool {
    (q: Question) => q.category == cat && q.id !in previous
  }

  /** The rows the draw is made from, in table order. */
  function Candidates(qs: seq<Question>, cat: int, previous: seq<int>): seq<Question> {
    Filter(qs, IsCandidate(cat, previous))
  }

  /** `POST /quizzes`. The random draw is the parameter `pick`: the question
      returned is the candidate at position `pick % |candidates|`. The answer
      is `null` exactly when no question of the category is left; otherwise
      it is a question of the category that was not asked before. */
  function PlayQuiz(qs: seq<Question>, cat: int, previous: seq<int>, pick: nat): (r: Response)
    ensures r.Ok? && r.body.QuizQuestion?
    ensures r.body.drawn.None? <==> forall q :: q in qs ==> q.category != cat || q.id in previous
    ensures r.body.drawn.Some? ==>
              && r.body.drawn.value in qs
              && r.body.drawn.value.category == cat
              && r.body.drawn.value.id !in previous
  {
    var available := Candidates(qs, cat, previous);
    if |available| == 0 then
      Ok(QuizQuestion(None))
    else
      assert available[0] in available;
      Ok(QuizQuestion(Some(available[pick % |available|])))
  }

  /** Every candidate is the answer for some draw: the model does not rule
      out any question `random.choice` could return. */
  lemma EveryCandidateCanBeDrawn(qs: seq<Question>, cat: int, previous: seq<int>, q: Question)
    requires q in qs && q.category == cat && q.id !in previous
    ensures exists pick: nat :: PlayQuiz(qs, cat, previous, pick).body.drawn == Some(q)
  {
    var available := Candidates(qs, cat, previous);
    assert q in available;
    var k :| 0 <= k < |available| && available[k] == q;
    assert k % |available| == k;
    assert PlayQuiz(qs, cat, previous, k).body.drawn == Some(q);
  }

  /** Adding the drawn question to the previous questions leaves strictly
      fewer candidates. */
  lemma DrawShrinksCandidates(qs: seq<Question>, cat: int, previous: seq<int>, pick: nat)
    requires PlayQuiz(qs, cat, previous, pick).body.drawn.Some?
    ensures var q := PlayQuiz(qs, cat, previous, pick).body.drawn.value;
            |Candidates(qs, cat, previous + [q.id])| < |Candidates(qs, cat, previous)|
  {
    var q := PlayQuiz(qs, cat, previous, pick).body.drawn.value;
    FilterShrinks(qs, IsCandidate(cat, previous), IsCandidate(cat, previous + [q.id]), q);
  }

  /** A quiz played as the client plays it: each round sends the ids asked
      so far as `previous_questions`, with `picks` as the successive draws,
      and the game ends at the first `null`. */
  function Session(qs: seq<Question>, cat: int, previous: seq<int>, picks: seq<nat>): seq<Question>
    decreases |picks|
  {
    if picks == [] then []
    else match PlayQuiz(qs, cat, previous, picks[0]).body.drawn
      case None => []
      case Some(q) => [q] + Session(qs, cat, previous + [q.id], picks[1..])
  }

  /** A quiz session never asks a question twice, never asks a previous
      question, asks only questions of its category, and has no more rounds
      than there are candidates. */
  lemma {:induction false} SessionNeverRepeats(qs: seq<Question>, cat: int, previous: seq<int>, picks: seq<nat>)
    ensures var s := Session(qs, cat, previous, picks);
            && |s| <= |Candidates(qs, cat, previous)|
            && (forall i :: 0 <= i < |s| ==> s[i] in qs && s[i].category == cat && s[i].id !in previous)
            && (forall i, j :: 0 <= i < j < |s| ==> s[i].id != s[j].id)
    decreases |picks|
  {
    if picks != [] {
      var r := PlayQuiz(qs, cat, previous, picks[0]).body.drawn;
      if r.Some? {
        var q := r.value;
        var rest := Session(qs, cat, previous + [q.id], picks[1..]);
        SessionNeverRepeats(qs, cat, previous + [q.id], picks[1..]);
        DrawShrinksCandidates(qs, cat, previous, picks[0]);
        var s := [q] + rest;
        assert Session(qs, cat, previous, picks) == s;
        forall i | 0 < i < |s| ensures s[i].id !in previous && s[i].id != q.id {
          assert s[i] == rest[i - 1];
        }
      }
    }
  }
}
