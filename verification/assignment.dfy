/** The assignment document: embedded file submissions, their status, count virtuals and lookups. */
module Assignments {
  import opened Wrappers
  import opened Ids
  import opened Text
  import opened Seqs

  datatype Status = Pending | Graded | Late | Resubmitted

  function StatusName(s: Status): string
  {
    match s
    case Pending => "pending"
    case Graded => "graded"
    case Late => "late"
    case Resubmitted => "resubmitted"
  }

  datatype Submission = Submission(
    studentId: UserId,
    fileUrl: string,
    fileName: string,
    submittedAt: Time,
    marks: Option<real>,
    maxMarks: real,
    feedback: Option<string>,
    status: Status,
    isLate: bool)

  datatype Assignment = Assignment(
    classId: ClassId,
    title: string,
    description: string,
    submissions: seq<Submission>,
    dueDate: Time,
    totalMarks: real,
    isPublished: bool,
    allowLateSubmission: bool,
    lateSubmissionPenalty: real,
    createdBy: Option<UserId>)

  /**
   * A submission with the schema's defaults for the fields a student does not set:
   * no marks, maximum 100, no feedback, status pending, and `isLate` false unless given.
   */
  function NewSubmission(s: UserId, fileUrl: string, fileName: Option<string>, now: Time, isLate: Option<bool>): (r: Submission)
    ensures r.studentId == s && r.fileUrl == fileUrl && r.submittedAt == now
    ensures r.fileName == (if fileName.Some? then fileName.value else "submission")
    ensures r.marks.None? && r.maxMarks == 100.0 && r.feedback.None?
    ensures r.status == Pending
    ensures r.isLate <==> isLate == Some(true)
  {
    Submission(s, fileUrl, if fileName.Some? then fileName.value else "submission", now,
               None, 100.0, None, Pending, isLate == Some(true))
  }

  /** The submission schema: a file URL, marks (when set) not negative, feedback at most 1000 characters. */
  predicate SubmissionValid(sub: Submission)
  {
    && |sub.fileUrl| > 0
    && (sub.marks.Some? ==> sub.marks.value >= 0.0)
    && (sub.feedback.Some? ==> |sub.feedback.value| <= 1000)
  }

  /** The assignment schema: title (trimmed, at most 200), description (1 to 2000), total marks at least 1, penalty in [0, 100]. */
  predicate AssignmentValid(a: Assignment)
  {
    && |a.title| > 0 && a.title == Trim(a.title) && |a.title| <= 200
    && 0 < |a.description| <= 2000
    && a.totalMarks >= 1.0
    && 0.0 <= a.lateSubmissionPenalty <= 100.0
    && (forall i :: 0 <= i < |a.submissions| ==> SubmissionValid(a.submissions[i]))
  }

  /** An assignment with the schema's defaults: 100 marks, published, late submissions allowed with a 10% penalty, no submissions. */
  function NewAssignment(classId: ClassId, title: string, description: string, dueDate: Time): (a: Assignment)
    ensures a.totalMarks == 100.0 && a.isPublished && a.allowLateSubmission && a.lateSubmissionPenalty == 10.0
    ensures a.submissions == [] && a.dueDate == dueDate && a.title == Trim(title)
    ensures 0 < |Trim(title)| <= 200 && 0 < |description| <= 2000 ==> AssignmentValid(a)
  {
    Assignment(classId, Trim(title), description, [], dueDate, 100.0, true, true, 10.0, None)
  }

  /** The `submissionCount` virtual. */
  function SubmissionCount(a: Assignment): nat
  {
    |a.submissions|
  }

  predicate IsGraded(s: Submission)
  {
    s.status == Graded
  }

  predicate IsPending(s: Submission)
  {
    s.status == Pending
  }

  /** The `gradedCount` virtual: the submissions whose status is graded. */
  function GradedCount(a: Assignment): (n: nat)
    ensures n <= SubmissionCount(a)
  {
    Count(a.submissions, IsGraded)
  }

  /** The `pendingCount` virtual: the submissions whose status is pending. */
  function PendingCount(a: Assignment): (n: nat)
    ensures n <= SubmissionCount(a)
  {
    Count(a.submissions, IsPending)
  }

  /**
   * Graded and pending submissions never outnumber all submissions; the two
   * counts reach the total exactly when no submission is late or resubmitted.
   */
  lemma GradedPendingBound(a: Assignment)
    ensures GradedCount(a) + PendingCount(a) <= SubmissionCount(a)
    ensures GradedCount(a) + PendingCount(a) == SubmissionCount(a)
            <==> forall i :: 0 <= i < |a.submissions| ==> a.submissions[i].status in {Graded, Pending}
  {
    var both := (s: Submission) => IsGraded(s) || IsPending(s);
    CountDisjoint(a.submissions, IsGraded, IsPending, both);
    CountAllIff(a.submissions, both);
  }

  /** `isOverdue`: the current time is strictly past the due date. */
  predicate IsOverdue(a: Assignment, now: Time)
  {
    now > a.dueDate
  }

  /** An assignment is not overdue at its due date, and once overdue it stays overdue. */
  lemma OverdueStays(a: Assignment, t1: Time, t2: Time)
    requires t1 <= t2
    ensures !IsOverdue(a, a.dueDate)
    ensures IsOverdue(a, t1) ==> IsOverdue(a, t2)
  {
  }

  /** `hasStudentSubmitted`: some submission is the student's. */
  predicate HasStudentSubmitted(a: Assignment, s: UserId)
  {
    exists i :: 0 <= i < |a.submissions| && a.submissions[i].studentId == s
  }

  /** `getStudentSubmission`: the position of the first submission of the student, if any. */
  function StudentSubmissionIndex(a: Assignment, s: UserId): (r: Option<nat>)
    ensures r.Some? ==> r.value < |a.submissions| && a.submissions[r.value].studentId == s
                        && forall j :: 0 <= j < r.value ==> a.submissions[j].studentId != s
    ensures r.None? <==> !HasStudentSubmitted(a, s)
  {
    FindIndex(a.submissions, (sub: Submission) => sub.studentId == s)
  }

  /** `getStudentSubmission`: the first submission of the student, if any. */
  function GetStudentSubmission(a: Assignment, s: UserId): (r: Option<Submission>)
    ensures r.Some? ==> exists i :: 0 <= i < |a.submissions| && a.submissions[i] == r.value && r.value.studentId == s
                          && forall j :: 0 <= j < i ==> a.submissions[j].studentId != s
    ensures r.None? ==> forall i :: 0 <= i < |a.submissions| ==> a.submissions[i].studentId != s
  {
    match StudentSubmissionIndex(a, s)
    case None => None
    case Some(i) => Some(a.submissions[i])
  }

  /** The two lookups agree: a student has submitted exactly when a submission of theirs is found. */
  lemma SubmittedIffFound(a: Assignment, s: UserId)
    ensures HasStudentSubmitted(a, s) <==> GetStudentSubmission(a, s).Some?
  {
  }

  /** No student has two submissions. */
  predicate AtMostOnePerStudent(subs: seq<Submission>)
  {
    forall i, j :: 0 <= i < j < |subs| ==> subs[i].studentId != subs[j].studentId
  }
}
