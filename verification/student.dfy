/**
 * The student-side write operations: attempting a quiz (with auto-grading and
 * retakes) and submitting an assignment (with the duplicate and deadline rules).
 */
module StudentOps {
  import opened Wrappers
  import opened Ids
  import opened Seqs
  import opened Quizzes
  import opened Grading
  import Assignments

  // ----- attemptQuiz -----

  /** The stored quiz after a successful attempt and what the response reports. */
  datatype Attempt = Attempt(quiz: Quiz, report: GradeReport)

  /** The submission list with the student's earlier attempts removed. */
  function WithoutStudent(subs: seq<QuizSubmission>, s: UserId): (r: seq<QuizSubmission>)
    ensures forall i :: 0 <= i < |r| ==> r[i].studentId != s && r[i] in subs
    ensures forall i :: 0 <= i < |subs| && subs[i].studentId != s ==> subs[i] in r
  {
    Filter(subs, NotBy(s))
  }

  /**
   * The submission list after an attempt by `sub.studentId`: the student's earlier
   * attempts are dropped when retakes are allowed, then the new one is appended.
   */
  function RecordAttempt(subs: seq<QuizSubmission>, sub: QuizSubmission, allowRetake: bool): (r: seq<QuizSubmission>)
    ensures |r| > 0 && r[|r| - 1] == sub
    ensures !allowRetake ==> r == subs + [sub]
  {
    (if allowRetake then WithoutStudent(subs, sub.studentId) else subs) + [sub]
  }

  /**
   * `attemptQuiz` for the quiz found under the requested id (`None` when there is none),
   * the requesting student `s`, the classes they are assigned to, and the request's
   * `answers` (`None` when the body has none, which makes the handler fail with 500).
   */
  function AttemptQuiz(quiz: Option<Quiz>, s: UserId, enrolled: seq<ClassId>,
                       answers: Option<seq<Option<string>>>, now: Time): (r: Response<Attempt>)
    ensures quiz.None? ==> r == Err(404, "Quiz not found")
    ensures quiz.Some? && !quiz.value.isPublished ==> r == Err(400, "Quiz is not available")
    ensures quiz.Some? && quiz.value.isPublished && HasStudentSubmitted(quiz.value, s) && !quiz.value.allowRetake
            ==> r == Err(400, "Quiz already attempted")
    ensures r.Ok? <==> quiz.Some? && quiz.value.isPublished && (!HasStudentSubmitted(quiz.value, s) || quiz.value.allowRetake)
                       && quiz.value.classId in enrolled && answers.Some?
    ensures r.Ok? ==>
      var q := quiz.value;
      var rep := r.value.report;
      && rep == Grade(q.questions, answers.value)
      && r.value.quiz == q.(submissions := RecordAttempt(q.submissions,
           QuizSubmission(s, rep.answers, rep.marks, rep.totalPoints, rep.percentage, now, 0), q.allowRetake))
      && Count(r.value.quiz.submissions, By(s)) == 1
      && Filter(r.value.quiz.submissions, NotBy(s)) == Filter(q.submissions, NotBy(s))
      && (AtMostOnePerStudent(q.submissions) ==> AtMostOnePerStudent(r.value.quiz.submissions))
  {
    if quiz.None? then Err(404, "Quiz not found")
    else
      var q := quiz.value;
      if !q.isPublished then Err(400, "Quiz is not available")
      else if HasStudentSubmitted(q, s) && !q.allowRetake then Err(400, "Quiz already attempted")
      else if q.classId !in enrolled then Err(403, "Not enrolled in this class")
      else if answers.None? then Err(500, "Server error")
      else
        var report := Grade(q.questions, answers.value);
        var sub := QuizSubmission(s, report.answers, report.marks, report.totalPoints, report.percentage, now, 0);
        RecordAttemptLeavesOne(q.submissions, sub, q.allowRetake);
        RecordAttemptKeepsOthers(q.submissions, sub, q.allowRetake);
        if AtMostOnePerStudent(q.submissions) then
          RecordAttemptOnePerStudent(q.submissions, sub, q.allowRetake);
          Ok(Attempt(q.(submissions := RecordAttempt(q.submissions, sub, q.allowRetake)), report))
        else
          Ok(Attempt(q.(submissions := RecordAttempt(q.submissions, sub, q.allowRetake)), report))
  }

  /** Filtering keeps submissions of distinct students distinct. */
  lemma {:induction false} FilterKeepsOnePerStudent(subs: seq<QuizSubmission>, p: QuizSubmission -> bool)
    requires AtMostOnePerStudent(subs)
    ensures AtMostOnePerStudent(Filter(subs, p))
    decreases |subs|
  {
    if |subs| > 0 {
      var init := subs[..|subs| - 1];
      var last := subs[|subs| - 1];
      assert AtMostOnePerStudent(init);
      FilterKeepsOnePerStudent(init, p);
      if p(last) {
        var f := Filter(init, p);
        forall i | 0 <= i < |f| ensures f[i].studentId != last.studentId {
          var j :| 0 <= j < |init| && init[j] == f[i];
        }
      }
    }
  }

  lemma NoneCounted(subs: seq<QuizSubmission>, s: UserId)
    requires forall i :: 0 <= i < |subs| ==> subs[i].studentId != s
    ensures Filter(subs, By(s)) == []
  {
  }

  /** After a recorded attempt (allowed: a retake, or a first attempt) the student has exactly one submission. */
  lemma RecordAttemptLeavesOne(subs: seq<QuizSubmission>, sub: QuizSubmission, allowRetake: bool)
    requires allowRetake || forall i :: 0 <= i < |subs| ==> subs[i].studentId != sub.studentId
    ensures Count(RecordAttempt(subs, sub, allowRetake), By(sub.studentId)) == 1
  {
    var kept := if allowRetake then WithoutStudent(subs, sub.studentId) else subs;
    NoneCounted(kept, sub.studentId);
    FilterAppend(kept, [sub], By(sub.studentId));
    assert Filter([sub], By(sub.studentId)) == [sub] by {
      assert [sub][..0] == [];
    }
  }

  /** Recording an attempt leaves the other students' submissions as they were, in order. */
  lemma RecordAttemptKeepsOthers(subs: seq<QuizSubmission>, sub: QuizSubmission, allowRetake: bool)
    ensures Filter(RecordAttempt(subs, sub, allowRetake), NotBy(sub.studentId)) == Filter(subs, NotBy(sub.studentId))
  {
    var s := sub.studentId;
    var kept := if allowRetake then WithoutStudent(subs, s) else subs;
    FilterAppend(kept, [sub], NotBy(s));
    assert Filter([sub], NotBy(s)) == [] by {
      assert [sub][..0] == [];
    }
    if allowRetake {
      FilterAll(kept, NotBy(s));
    }
  }

  /** Recording an allowed attempt keeps at most one live submission per student. */
  lemma RecordAttemptOnePerStudent(subs: seq<QuizSubmission>, sub: QuizSubmission, allowRetake: bool)
    requires AtMostOnePerStudent(subs)
    requires allowRetake || forall i :: 0 <= i < |subs| ==> subs[i].studentId != sub.studentId
    ensures AtMostOnePerStudent(RecordAttempt(subs, sub, allowRetake))
  {
    var kept := if allowRetake then WithoutStudent(subs, sub.studentId) else subs;
    if allowRetake {
      FilterKeepsOnePerStudent(subs, NotBy(sub.studentId));
    }
    assert forall i :: 0 <= i < |kept| ==> kept[i].studentId != sub.studentId;
  }

  /** Without retakes, a second attempt after a successful one is always refused. */
  lemma SecondAttemptRefused(quiz: Option<Quiz>, s: UserId, enrolled: seq<ClassId>,
                             answers: Option<seq<Option<string>>>, now: Time,
                             answers2: Option<seq<Option<string>>>, later: Time)
    requires AttemptQuiz(quiz, s, enrolled, answers, now).Ok?
    requires !quiz.value.allowRetake
    ensures AttemptQuiz(Some(AttemptQuiz(quiz, s, enrolled, answers, now).value.quiz), s, enrolled, answers2, later)
            == Err(400, "Quiz already attempted")
  {
    var q2 := AttemptQuiz(quiz, s, enrolled, answers, now).value.quiz;
    assert q2.submissions[|q2.submissions| - 1].studentId == s;
  }

  // ----- submitAssignment -----

  /** The uploaded file: the name it was stored under and the name the student gave it. */
  datatype UploadedFile = UploadedFile(filename: string, originalname: string)

  /**
   * `submitAssignment` for the assignment found under the requested id, the student `s`,
   * their assigned classes, the uploaded file (if any) and the current time.
   */
  function SubmitAssignment(a: Option<Assignments.Assignment>, s: UserId, enrolled: seq<ClassId>,
                            file: Option<UploadedFile>, now: Time): (r: Response<Assignments.Assignment>)
    ensures file.None? ==> r == Err(400, "File is required")
    ensures file.Some? && a.None? ==> r == Err(404, "Assignment not found")
    ensures file.Some? && a.Some? && a.value.classId !in enrolled ==> r == Err(403, "Not enrolled in this class")
    ensures file.Some? && a.Some? && a.value.classId in enrolled && Assignments.HasStudentSubmitted(a.value, s)
            ==> r == Err(400, "Already submitted")
    ensures r.Ok? <==> file.Some? && a.Some? && a.value.classId in enrolled && !Assignments.HasStudentSubmitted(a.value, s)
                       && (now > a.value.dueDate ==> a.value.allowLateSubmission)
    ensures r.Ok? ==>
      && |r.value.submissions| == |a.value.submissions| + 1
      && r.value.submissions[..|a.value.submissions|] == a.value.submissions
      && r.value == a.value.(submissions := r.value.submissions)
      && var sub := r.value.submissions[|a.value.submissions|];
         && sub.studentId == s && sub.submittedAt == now
         && sub.status == Assignments.Pending && sub.marks.None?
         && (sub.isLate <==> Assignments.IsOverdue(a.value, now))
         && sub.fileUrl == "/uploads/submissions/" + file.value.filename
         && sub.fileName == file.value.originalname
  {
    if file.None? then Err(400, "File is required")
    else if a.None? then Err(404, "Assignment not found")
    else
      var asg := a.value;
      if asg.classId !in enrolled then Err(403, "Not enrolled in this class")
      else if Assignments.GetStudentSubmission(asg, s).Some? then Err(400, "Already submitted")
      else
        var isLate := now > asg.dueDate;
        if isLate && !asg.allowLateSubmission then Err(400, "Assignment deadline has passed")
        else
          var sub := Assignments.NewSubmission(s, "/uploads/submissions/" + file.value.filename,
                                               Some(file.value.originalname), now, Some(isLate));
          Ok(asg.(submissions := asg.submissions + [sub]))
  }

  /** A second submission by the same student is always refused. */
  lemma SecondSubmissionRefused(a: Option<Assignments.Assignment>, s: UserId, enrolled: seq<ClassId>,
                                file: Option<UploadedFile>, now: Time, file2: Option<UploadedFile>, later: Time)
    requires SubmitAssignment(a, s, enrolled, file, now).Ok?
    requires file2.Some?
    ensures SubmitAssignment(Some(SubmitAssignment(a, s, enrolled, file, now).value), s, enrolled, file2, later)
            == Err(400, "Already submitted")
  {
    var a2 := SubmitAssignment(a, s, enrolled, file, now).value;
    assert a2.submissions[|a2.submissions| - 1].studentId == s;
  }

  /** Submitting keeps every student at no more than one submission per assignment. */
  lemma SubmitPreservesOnePerStudent(a: Option<Assignments.Assignment>, s: UserId, enrolled: seq<ClassId>,
                                     file: Option<UploadedFile>, now: Time)
    requires a.Some? && Assignments.AtMostOnePerStudent(a.value.submissions)
    requires SubmitAssignment(a, s, enrolled, file, now).Ok?
    ensures Assignments.AtMostOnePerStudent(SubmitAssignment(a, s, enrolled, file, now).value.submissions)
  {
  }
}
