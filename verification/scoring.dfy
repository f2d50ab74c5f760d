/** Quiz scoring: positional comparison of the submitted answers with the
    questions' answer keys, and the percentage score. */
module Scoring {
  import opened Rows

  /** Position `i` counts as correct when an answer was submitted there and it
      equals the question's key (`answers[i] == q.get('answer')`); a missing
      position is the IndexError the scorer swallows. */
  predicate AnsweredCorrectly(questions: seq<Question>, answers: seq<Option<int>>, i: int)
    requires 0 <= i < |questions|
  {
    i < |answers| && answers[i] == questions[i].answer
  }

  /** The `correct` counter after the scoring loop has seen every question. */
  function CountCorrect(questions: seq<Question>, answers: seq<Option<int>>): (n: nat)
    ensures n <= |questions|
  {
    if questions == [] then 0
    else
      var last := |questions| - 1;
      CountCorrect(questions[..last], answers) + (if AnsweredCorrectly(questions, answers, last) then 1 else 0)
  }

  /** Positions answered correctly: an independent description of the count. */
  ghost function CorrectPositions(questions: seq<Question>, answers: seq<Option<int>>): set<int> {
    set i | 0 <= i < |questions| && AnsweredCorrectly(questions, answers, i)
  }

  /** The loop's count is the number of correctly answered positions. */
  lemma {:induction false} CountIsCorrectPositions(questions: seq<Question>, answers: seq<Option<int>>)
    ensures CountCorrect(questions, answers) == |CorrectPositions(questions, answers)|
  {
    if questions != [] {
      var last := |questions| - 1;
      var prefix := questions[..last];
      CountIsCorrectPositions(prefix, answers);
      var before := CorrectPositions(prefix, answers);
      var now := CorrectPositions(questions, answers);
      assert forall i :: 0 <= i < last ==> questions[i] == prefix[i];
      if AnsweredCorrectly(questions, answers, last) {
        assert now == before + {last};
      } else {
        assert now == before;
      }
    }
  }

  /** Every question is counted correct exactly when every position holds
      the question's key. */
  lemma {:induction false} AllCorrect(questions: seq<Question>, answers: seq<Option<int>>)
    ensures CountCorrect(questions, answers) == |questions|
        <==> forall i :: 0 <= i < |questions| ==> AnsweredCorrectly(questions, answers, i)
  {
    if questions != [] {
      var last := |questions| - 1;
      var prefix := questions[..last];
      AllCorrect(prefix, answers);
      assert forall i :: 0 <= i < last ==>
        AnsweredCorrectly(prefix, answers, i) == AnsweredCorrectly(questions, answers, i);
    }
  }

  /** With no answers at all nothing is correct, and nothing fails. */
  lemma {:induction false} NoAnswersScoresNothing(questions: seq<Question>)
    ensures CountCorrect(questions, []) == 0
  {
    if questions != [] {
      NoAnswersScoresNothing(questions[..|questions| - 1]);
    }
  }

  /** Answers past the last question are never looked at. */
  lemma {:induction false} TrailingAnswersIgnored(questions: seq<Question>, answers: seq<Option<int>>, extra: seq<Option<int>>)
    requires |questions| <= |answers|
    ensures CountCorrect(questions, answers + extra) == CountCorrect(questions, answers)
  {
    if questions != [] {
      TrailingAnswersIgnored(questions[..|questions| - 1], answers, extra);
    }
  }

  /** `round(correct / total * 100, 2) if total else 0`, without the rounding. */
  function Score(correct: nat, total: nat): (score: real)
    requires correct <= total
    ensures 0.0 <= score <= 100.0
    ensures total == 0 ==> score == 0.0
    ensures score == 100.0 <==> total > 0 && correct == total
  {
    if total == 0 then 0.0 else (correct as real) * 100.0 / (total as real)
  }

  /** A three-question quiz answered right, wrong, right scores 2 of 3. */
  lemma ThreeQuestionExample(a: string, b: string, c: string)
    ensures var questions := [Question(a, ["x", "y"], Some(0)), Question(b, ["x", "y"], Some(1)),
                              Question(c, ["x", "y", "z"], Some(2))];
            var answers := [Some(0), Some(0), Some(2)];
            CountCorrect(questions, answers) == 2 && Score(2, 3) == 200.0 / 3.0
  {
    var questions := [Question(a, ["x", "y"], Some(0)), Question(b, ["x", "y"], Some(1)),
                      Question(c, ["x", "y", "z"], Some(2))];
    var answers := [Some(0), Some(0), Some(2)];
    assert questions[..1][..0] == [];
    assert questions[..2][..1] == questions[..1];
    assert CountCorrect(questions[..1], answers) == 1;
    assert CountCorrect(questions[..2], answers) == 1;
    assert Score(2, 3) == 200.0 / 3.0;
  }

  /** A question stored without an answer key matches a question the student
      left unanswered: Python's `None == None`. */
  lemma MissingKeyMatchesMissingAnswer(q: Question)
    requires q.answer == None
    ensures CountCorrect([q], [None]) == 1
  {
    assert [q][..0] == [];
  }
}
