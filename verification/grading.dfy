/**
 * Quiz auto-grading: answers are matched to questions by position, compared
 * case-insensitively with surrounding whitespace trimmed, and scored by points
 * with a 0-point question worth 1.
 */
module Grading {
  import opened Wrappers
  import opened Text
  import opened Seqs
  import opened Helpers
  import opened Quizzes

  /** `answers[i]?.selectedAnswer || ''`: a missing entry, a missing field and the empty string all read as "". */
  function SelectedAnswer(answers: seq<Option<string>>, i: nat): (a: string)
    ensures i >= |answers| ==> a == ""
    ensures i < |answers| && answers[i].Some? ==> a == answers[i].value
    ensures i < |answers| && answers[i].None? ==> a == ""
  {
    if i < |answers| && answers[i].Some? then answers[i].value else ""
  }

  /** Lower-case then trim, as both sides of the comparison are normalised. */
  function Normalize(s: string): (r: string)
    ensures r == Trim(Lower(s)) && r == Lower(Trim(s))
  {
    LowerTrimCommute(s);
    Trim(Lower(s))
  }

  predicate IsCorrect(q: Question, selected: string)
  {
    Normalize(selected) == Normalize(q.answer)
  }

  /** The graded answers: one per question, in question order. */
  function GradeAnswers(qs: seq<Question>, answers: seq<Option<string>>): (r: seq<GradedAnswer>)
    ensures |r| == |qs|
    ensures forall i :: 0 <= i < |r| ==>
      && r[i].questionIndex == i
      && r[i].selectedAnswer == SelectedAnswer(answers, i)
      && (r[i].isCorrect <==> Normalize(SelectedAnswer(answers, i)) == Normalize(qs[i].answer))
  {
    seq(|qs|, i requires 0 <= i < |qs| => GradedAnswer(i, SelectedAnswer(answers, i), IsCorrect(qs[i], SelectedAnswer(answers, i))))
  }

  /** Points earned: a question's effective points when its answer is correct, else nothing. */
  function EarnedPoints(qs: seq<Question>, graded: seq<GradedAnswer>): (e: real)
    requires |graded| == |qs|
    ensures (forall i :: 0 <= i < |qs| ==> qs[i].points >= 0.0) ==> 0.0 <= e <= TotalPoints(qs)
    ensures (forall i :: 0 <= i < |qs| ==> graded[i].isCorrect) ==> e == TotalPoints(qs)
    ensures (forall i :: 0 <= i < |qs| ==> !graded[i].isCorrect) ==> e == 0.0
  {
    if |qs| == 0 then 0.0
    else
      var n := |qs| - 1;
      EarnedPoints(qs[..n], graded[..n]) + (if graded[n].isCorrect then EffectivePoints(qs[n]) else 0.0)
  }

  /**
   * Each question contributes its own share: marking answer `i` correct rather than
   * incorrect adds exactly that question's effective points, whatever the other answers.
   */
  lemma {:induction false} EarnedPointsShare(qs: seq<Question>, graded: seq<GradedAnswer>, i: nat)
    requires |graded| == |qs| && i < |qs|
    ensures EarnedPoints(qs, graded[i := graded[i].(isCorrect := true)])
         == EarnedPoints(qs, graded[i := graded[i].(isCorrect := false)]) + EffectivePoints(qs[i])
    decreases |qs|
  {
    var n := |qs| - 1;
    var right := graded[i := graded[i].(isCorrect := true)];
    var wrong := graded[i := graded[i].(isCorrect := false)];
    EarnedPointsLast(qs, right);
    EarnedPointsLast(qs, wrong);
    if i == n {
      assert right[..n] == wrong[..n];
    } else {
      var pre := graded[..n];
      assert right[..n] == pre[i := pre[i].(isCorrect := true)];
      assert wrong[..n] == pre[i := pre[i].(isCorrect := false)];
      assert right[n] == wrong[n];
      EarnedPointsShare(qs[..n], pre, i);
    }
  }

  /** The last question's points are added to those of the others. */
  lemma EarnedPointsLast(qs: seq<Question>, graded: seq<GradedAnswer>)
    requires |graded| == |qs| > 0
    ensures EarnedPoints(qs, graded) == EarnedPoints(qs[..|qs| - 1], graded[..|qs| - 1])
      + (if graded[|qs| - 1].isCorrect then EffectivePoints(qs[|qs| - 1]) else 0.0)
  {
  }

  predicate Correct(g: GradedAnswer)
  {
    g.isCorrect
  }

  /** The values quiz marking reports and stores. */
  datatype GradeReport = GradeReport(
    answers: seq<GradedAnswer>,
    correctAnswers: nat,
    totalQuestions: nat,
    marks: real,
    totalPoints: real,
    percentage: real)

  /** Grade one attempt of a quiz. */
  function Grade(qs: seq<Question>, answers: seq<Option<string>>): (r: GradeReport)
    ensures r.answers == GradeAnswers(qs, answers)
    ensures r.totalQuestions == |qs|
    ensures r.correctAnswers == Count(r.answers, Correct) <= r.totalQuestions
    ensures r.totalPoints == TotalPoints(qs)
    ensures r.marks == EarnedPoints(qs, r.answers)
    ensures r.percentage == CalculatePercentage(r.marks, r.totalPoints)
    ensures (forall i :: 0 <= i < |qs| ==> qs[i].points >= 0.0) ==>
              && 0.0 <= r.marks <= r.totalPoints
              && (|qs| > 0 ==> 0.0 <= r.percentage <= 100.0)
    ensures (forall i :: 0 <= i < |qs| ==> qs[i].points == 0.0 || qs[i].points >= 1.0) ==> r.totalPoints >= |qs| as real
  {
    var graded := GradeAnswers(qs, answers);
    var earned := EarnedPoints(qs, graded);
    GradeReport(graded, Count(graded, Correct), |qs|, earned, TotalPoints(qs), CalculatePercentage(earned, TotalPoints(qs)))
  }

  /** A quiz answered entirely correctly scores every point and 100 percent. */
  lemma AllCorrectScoresFull(qs: seq<Question>, answers: seq<Option<string>>)
    requires |qs| > 0
    requires forall i :: 0 <= i < |qs| ==> qs[i].points >= 0.0
    requires forall i :: 0 <= i < |qs| ==> Normalize(SelectedAnswer(answers, i)) == Normalize(qs[i].answer)
    ensures Grade(qs, answers).marks == Grade(qs, answers).totalPoints
    ensures Grade(qs, answers).percentage == 100.0
    ensures Grade(qs, answers).correctAnswers == |qs|
  {
    var graded := GradeAnswers(qs, answers);
    assert forall i :: 0 <= i < |qs| ==> graded[i].isCorrect;
    CountAllIff(graded, Correct);
    assert EarnedPoints(qs, graded) == TotalPoints(qs);
  }

  /** An attempt with no answers earns nothing, whatever the questions. */
  lemma EmptyAttemptScoresZero(qs: seq<Question>)
    requires forall i :: 0 <= i < |qs| ==> |Normalize(qs[i].answer)| > 0
    ensures Grade(qs, []).marks == 0.0
    ensures Grade(qs, []).percentage == 0.0
    ensures Grade(qs, []).correctAnswers == 0
  {
    var graded := GradeAnswers(qs, []);
    NormalizeEmpty();
    assert forall i :: 0 <= i < |qs| ==> !graded[i].isCorrect;
    var none := (g: GradedAnswer) => !g.isCorrect;
    CountComplement(graded, Correct, none);
    CountAllIff(graded, none);
    assert EarnedPoints(qs, graded) == 0.0;
  }

  lemma NormalizeEmpty()
    ensures Normalize("") == ""
  {
    assert Lower("") == "";
    assert TrimStart("") == "";
  }

  /** Neither letter case nor white space around either side changes the normalised answer. */
  lemma NormalizeIgnoresCaseAndPadding(pre: string, s: string, post: string)
    requires AllSpace(pre) && AllSpace(post)
    ensures Normalize(pre + s + post) == Normalize(s)
    ensures Normalize(Lower(s)) == Normalize(s)
  {
    TrimIgnoresPadding(pre, s, post);
    LowerTrimCommute(Lower(s));
    LowerIdempotent(Trim(s));
  }
}
