/** The quiz document: questions with point values, embedded submissions, schema defaults and lookups. */
module Quizzes {
  import opened Wrappers
  import opened Ids
  import opened Text
  import opened Seqs

  datatype Question = Question(question: string, options: seq<string>, answer: string, points: real)

  /** One graded answer of a submission; the question is identified by its position. */
  datatype GradedAnswer = GradedAnswer(questionIndex: nat, selectedAnswer: string, isCorrect: bool)

  datatype QuizSubmission = QuizSubmission(
    studentId: UserId,
    answers: seq<GradedAnswer>,
    marks: real,
    totalPoints: real,
    percentage: real,
    submittedAt: Time,
    timeTaken: nat)

  datatype Quiz = Quiz(
    classId: ClassId,
    title: string,
    description: string,
    questions: seq<Question>,
    submissions: seq<QuizSubmission>,
    timeLimit: int,
    startDate: Time,
    endDate: Option<Time>,
    isPublished: bool,
    allowRetake: bool,
    showResults: bool,
    shuffleQuestions: bool,
    createdBy: Option<UserId>)

  /** A question as the schema builds it: points default to 1 when not given. */
  function NewQuestion(question: string, options: seq<string>, answer: string, points: Option<real>): (q: Question)
    ensures points.None? ==> q.points == 1.0
    ensures points.Some? ==> q.points == points.value
    ensures q.question == Trim(question) && q.options == options && q.answer == answer
  {
    Question(Trim(question), options, answer, if points.Some? then points.value else 1.0)
  }

  /** The question schema: non-empty trimmed text and answer, non-empty options, points not negative. */
  predicate QuestionValid(q: Question)
  {
    && |q.question| > 0 && q.question == Trim(q.question)
    && |q.answer| > 0
    && (forall i :: 0 <= i < |q.options| ==> |q.options[i]| > 0)
    && q.points >= 0.0
  }

  /** The quiz schema: title (trimmed, at most 200), description (at most 1000), at least one valid question, time limit at least 1 minute. */
  predicate QuizValid(q: Quiz)
  {
    && |q.title| > 0 && q.title == Trim(q.title) && |q.title| <= 200
    && |q.description| <= 1000
    && |q.questions| > 0
    && (forall i :: 0 <= i < |q.questions| ==> QuestionValid(q.questions[i]))
    && q.timeLimit >= 1
  }

  /**
   * A quiz with the schema's defaults: empty description, a 30-minute limit,
   * unpublished, no retakes, results shown, questions not shuffled, no submissions.
   */
  function NewQuiz(classId: ClassId, title: string, questions: seq<Question>, now: Time): (q: Quiz)
    ensures q.description == "" && q.timeLimit == 30 && q.submissions == []
    ensures !q.isPublished && !q.allowRetake && q.showResults && !q.shuffleQuestions
    ensures q.startDate == now && q.endDate.None?
    ensures q.title == Trim(title) && q.questions == questions
  {
    Quiz(classId, Trim(title), "", questions, [], 30, now, None, false, false, true, false, None)
  }

  /**
   * The question schema accepts a built question exactly when its trimmed text, its
   * answer and every option are non-empty and its points, when given, are not negative.
   */
  lemma NewQuestionValid(question: string, options: seq<string>, answer: string, points: Option<real>)
    ensures QuestionValid(NewQuestion(question, options, answer, points)) <==>
      && |Trim(question)| > 0 && |answer| > 0
      && (forall i :: 0 <= i < |options| ==> |options[i]| > 0)
      && (points.Some? ==> points.value >= 0.0)
  {
    TrimIdempotent(question);
  }

  /**
   * The quiz schema accepts a new quiz exactly when its trimmed title has 1 to 200
   * characters and it has at least one question, every one valid.
   */
  lemma NewQuizValid(classId: ClassId, title: string, questions: seq<Question>, now: Time)
    ensures QuizValid(NewQuiz(classId, title, questions, now)) <==>
      && 0 < |Trim(title)| <= 200
      && |questions| > 0
      && (forall i :: 0 <= i < |questions| ==> QuestionValid(questions[i]))
  {
    TrimIdempotent(title);
  }

  /** `q.points || 1`: a question worth 0 points counts as worth 1. */
  function EffectivePoints(q: Question): (p: real)
    ensures q.points >= 0.0 ==> p > 0.0
    ensures q.points == 0.0 ==> p == 1.0
    ensures q.points != 0.0 ==> p == q.points
  {
    if q.points == 0.0 then 1.0 else q.points
  }

  /**
   * The `totalPoints` virtual: the sum of the questions' points with 0 counted as 1.
   * It is positive for any non-empty quiz, and at least the number of questions
   * when every point value is 0 or at least 1.
   */
  function TotalPoints(qs: seq<Question>): (t: real)
    ensures (forall i :: 0 <= i < |qs| ==> qs[i].points >= 0.0) ==> t >= 0.0 && (|qs| > 0 ==> t > 0.0)
    ensures (forall i :: 0 <= i < |qs| ==> qs[i].points == 0.0 || qs[i].points >= 1.0) ==> t >= |qs| as real
  {
    if |qs| == 0 then 0.0 else TotalPoints(qs[..|qs| - 1]) + EffectivePoints(qs[|qs| - 1])
  }

  function TotalQuestions(q: Quiz): nat
  {
    |q.questions|
  }

  /** The `submissionCount` virtual. */
  function SubmissionCount(q: Quiz): nat
  {
    |q.submissions|
  }

  /** The submissions of student `s`, as a filter predicate. */
  function By(s: UserId): QuizSubmission -> bool
  {
    (sub: QuizSubmission) => sub.studentId == s
  }

  /** The submissions of everyone but `s`, as a filter predicate. */
  function NotBy(s: UserId): QuizSubmission -> bool
  {
    (sub: QuizSubmission) => sub.studentId != s
  }

  /** `hasStudentSubmitted`: some submission is the student's. */
  predicate HasStudentSubmitted(q: Quiz, s: UserId)
  {
    exists i :: 0 <= i < |q.submissions| && q.submissions[i].studentId == s
  }

  /** `getStudentSubmission`: the first submission of the student, if any. */
  function GetStudentSubmission(q: Quiz, s: UserId): (r: Option<QuizSubmission>)
    ensures r.Some? ==> exists i :: 0 <= i < |q.submissions| && q.submissions[i] == r.value && r.value.studentId == s
                          && forall j :: 0 <= j < i ==> q.submissions[j].studentId != s
    ensures r.None? ==> forall i :: 0 <= i < |q.submissions| ==> q.submissions[i].studentId != s
  {
    match FindIndex(q.submissions, By(s))
    case None => None
    case Some(i) => Some(q.submissions[i])
  }

  /** The two lookups agree: a student has submitted exactly when a submission of theirs is found. */
  lemma SubmittedIffFound(q: Quiz, s: UserId)
    ensures HasStudentSubmitted(q, s) <==> GetStudentSubmission(q, s).Some?
  {
  }

  /** The invariant the retake logic keeps: no student has two live submissions. */
  predicate AtMostOnePerStudent(subs: seq<QuizSubmission>)
  {
    forall i, j :: 0 <= i < j < |subs| ==> subs[i].studentId != subs[j].studentId
  }
}
