/** Quiz attempts across the stored quiz: a perfect answer sheet, an empty
    quiz, and an attempt that answers nothing. */
module Quizzes {
  import opened Rows
  import opened Scoring
  import opened Transitions

  /** The answer sheet holding every question's own key. */
  function KeySheet(questions: seq<Question>): (answers: seq<Option<int>>)
    ensures |answers| == |questions|
    ensures forall i :: 0 <= i < |questions| ==> answers[i] == questions[i].answer
  {
    seq(|questions|, i requires 0 <= i < |questions| => questions[i].answer)
  }

  /** Submitting the keys scores 100 on a quiz with questions. */
  lemma FullMarks(t: Tables, quizId: int, studentId: int)
    requires Valid(t) && quizId in t.quizzes && |t.quizzes[quizId].questions| > 0
    ensures var n := |t.quizzes[quizId].questions|;
            EvaluateQuizAttempt(t, quizId, studentId, KeySheet(t.quizzes[quizId].questions)).result
              == Returned(QuizResult(100.0, n, n))
  {
    var questions := t.quizzes[quizId].questions;
    AllCorrect(questions, KeySheet(questions));
  }

  /** A quiz without questions scores 0 whatever is submitted. */
  lemma EmptyQuizScoresZero(t: Tables, quizId: int, studentId: int, answers: seq<Option<int>>)
    requires Valid(t) && quizId in t.quizzes && t.quizzes[quizId].questions == []
    ensures EvaluateQuizAttempt(t, quizId, studentId, answers).result == Returned(QuizResult(0.0, 0, 0))
  {
  }

  /** An empty answer sheet is recorded with score 0 and nothing correct. */
  lemma BlankAttempt(t: Tables, quizId: int, studentId: int)
    requires Valid(t) && quizId in t.quizzes
    ensures var n := |t.quizzes[quizId].questions|;
            var r := EvaluateQuizAttempt(t, quizId, studentId, []);
            && r.result == Returned(QuizResult(0.0, 0, n))
            && r.db.attempts[t.nextId] == Attempt(quizId, studentId, [], 0.0)
  {
    NoAnswersScoresNothing(t.quizzes[quizId].questions);
  }
}
