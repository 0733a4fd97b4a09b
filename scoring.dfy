/** Exam scoring: which questions count as correct, how many, and the score
    they earn. */
module Scoring {
  import opened Questions

  /** A question is answered correctly when an answer is recorded for its id
      and that answer is exactly the stored answer string. */
  predicate IsCorrect(q: Question, answers: map<int, string>)
  {
    q.id in answers && answers[q.id] == q.answer
  }

  /** The correctly answered questions, in list order. */
  function Correct(qs: seq<Question>, answers: map<int, string>): (r: seq<Question>)
    ensures |r| <= |qs|
  {
    if |qs| == 0 then []
    else
      var last := qs[|qs| - 1];
      Correct(qs[..|qs| - 1], answers) + (if IsCorrect(last, answers) then [last] else [])
  }

  /** The questions not answered correctly, unanswered ones included. */
  function Missed(qs: seq<Question>, answers: map<int, string>): (r: seq<Question>)
    ensures |r| <= |qs|
  {
    if |qs| == 0 then []
    else
      var last := qs[|qs| - 1];
      Missed(qs[..|qs| - 1], answers) + (if IsCorrect(last, answers) then [] else [last])
  }

  /** Correct keeps exactly the correctly answered questions and Missed
      exactly the others. */
  lemma {:induction false} CorrectMissedMembers(qs: seq<Question>, answers: map<int, string>)
    ensures forall q :: q in Correct(qs, answers) <==> q in qs && IsCorrect(q, answers)
    ensures forall q :: q in Missed(qs, answers) <==> q in qs && !IsCorrect(q, answers)
  {
    if qs != [] {
      var init, last := qs[..|qs| - 1], qs[|qs| - 1];
      assert qs == init + [last];
      CorrectMissedMembers(init, answers);
    }
  }

  /** Sum of the scores of a list of questions. */
  function TotalScore(qs: seq<Question>): real
  {
    if |qs| == 0 then 0.0 else TotalScore(qs[..|qs| - 1]) + qs[|qs| - 1].score
  }

  /** The exam's `correct` count. */
  function CountCorrect(qs: seq<Question>, answers: map<int, string>): nat
  {
    |Correct(qs, answers)|
  }

  /** The exam's earned score: the scores of the correctly answered questions. */
  function Earned(qs: seq<Question>, answers: map<int, string>): real
  {
    TotalScore(Correct(qs, answers))
  }

  /** Every question is either correct or missed, so correct + wrong == total
      with wrong counting exactly the missed questions. */
  lemma {:induction false} CorrectPlusMissed(qs: seq<Question>, answers: map<int, string>)
    ensures CountCorrect(qs, answers) + |Missed(qs, answers)| == |qs|
  {
    if qs != [] {
      CorrectPlusMissed(qs[..|qs| - 1], answers);
    }
  }

  lemma {:induction false} TotalScoreAppend(a: seq<Question>, b: seq<Question>)
    ensures TotalScore(a + b) == TotalScore(a) + TotalScore(b)
  {
    if b != [] {
      assert (a + b)[..|a + b| - 1] == a + b[..|b| - 1];
      TotalScoreAppend(a, b[..|b| - 1]);
    } else {
      assert a + b == a;
    }
  }

  /** With non-negative scores, the earned score lies between zero and the
      exam's total score. */
  lemma {:induction false} EarnedBounds(qs: seq<Question>, answers: map<int, string>)
    requires forall q :: q in qs ==> q.score >= 0.0
    ensures 0.0 <= Earned(qs, answers) <= TotalScore(qs)
  {
    if qs != [] {
      var init, last := qs[..|qs| - 1], qs[|qs| - 1];
      assert qs == init + [last];
      assert last in qs;
      EarnedBounds(init, answers);
      assert Correct(qs, answers) == Correct(init, answers) + (if IsCorrect(last, answers) then [last] else []);
      assert TotalScore(qs) == TotalScore(init) + last.score;
      if IsCorrect(last, answers) {
        TotalScoreAppend(Correct(init, answers), [last]);
        assert TotalScore([last]) == last.score by {
          assert [last][..0] == [];
        }
      } else {
        assert Correct(qs, answers) == Correct(init, answers);
      }
    }
  }

  /** All questions counted correct exactly when every question is answered
      correctly; then the full total score is earned. */
  lemma {:induction false} AllCorrect(qs: seq<Question>, answers: map<int, string>)
    ensures CountCorrect(qs, answers) == |qs| <==> forall q :: q in qs ==> IsCorrect(q, answers)
    ensures (forall q :: q in qs ==> IsCorrect(q, answers)) ==> Earned(qs, answers) == TotalScore(qs)
  {
    if qs != [] {
      var init, last := qs[..|qs| - 1], qs[|qs| - 1];
      assert qs == init + [last];
      assert last in qs;
      AllCorrect(init, answers);
      if !IsCorrect(last, answers) {
        assert CountCorrect(qs, answers) == CountCorrect(init, answers) <= |init|;
      }
    }
  }
}
