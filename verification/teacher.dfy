/**
 * The teacher-side operations: entering, correcting and deleting marks, grading
 * an assignment submission, the per-student totals of a class, and creating a quiz.
 */
module TeacherOps {
  import opened Wrappers
  import opened Ids
  import opened Text
  import opened Seqs
  import opened Quizzes
  import opened Assignments
  import opened Marks
  import opened Store
  import Helpers

  /** The `Class.findOne({ _id: classId, teacher })` lookup: `t` is the class's teacher. */
  predicate Owns(db: Db, t: UserId, c: ClassId)
  {
    c in db.classes && db.classes[c].teacher == Some(t)
  }

  // ----- addMarks -----

  /** The body of an `addMarks` request; an absent `type` or `title` is the empty string. */
  datatype MarksRequest = MarksRequest(
    studentId: Option<UserId>,
    classId: Option<ClassId>,
    kind: string,
    title: string,
    marks: Option<real>,
    totalMarks: real,
    feedback: Option<string>)

  /** The presence test: every field truthy, except `marks`, which may be 0 but not absent. */
  predicate MarksFieldsPresent(r: MarksRequest)
  {
    r.studentId.Some? && r.classId.Some? && r.kind != "" && r.title != "" && r.marks.Some? && r.totalMarks != 0.0
  }

  /** The document `Marks.create` builds: the title trimmed, `feedback || null`, graded by the teacher now. */
  function RequestedRecord(r: MarksRequest, kind: MarksType, t: UserId, now: Time): (m: MarksRecord)
    requires MarksFieldsPresent(r)
    ensures m.studentId == r.studentId.value && m.classId == r.classId.value && m.kind == kind
    ensures m.title == Trim(r.title) && m.marks == r.marks.value && m.totalMarks == r.totalMarks
    ensures m.feedback == OrNull(r.feedback) && m.gradedBy == Some(t) && m.gradedAt == now && m.isPublished
  {
    MarksRecord(r.studentId.value, r.classId.value, kind, Trim(r.title), r.marks.value, r.totalMarks,
                0.0, Helpers.F, OrNull(r.feedback), Some(t), now, now, true)
  }

  /**
   * `addMarks` by teacher `t`, stored under the fresh id `id`: required fields (400),
   * marks within [0, totalMarks] (400), a class the teacher owns (404), a student on
   * its roster (400), then the schema, whose failure is answered with 500.
   */
  function AddMarks(db: Db, t: UserId, id: MarksId, r: MarksRequest, now: Time): (o: Outcome)
    requires id !in db.marks
    ensures !MarksFieldsPresent(r) ==> o == Fail(400, "All fields are required", db)
    ensures MarksFieldsPresent(r) && !(0.0 <= r.marks.value <= r.totalMarks) ==> o.response.Err? && o.response.status == 400
    ensures o.response.Err? ==> o.db == db
    ensures o.response.Ok? <==>
      && MarksFieldsPresent(r) && 0.0 <= r.marks.value <= r.totalMarks
      && Owns(db, t, r.classId.value) && r.studentId.value in db.classes[r.classId.value].students
      && ParseMarksType(r.kind).Some? && SchemaValid(RequestedRecord(r, ParseMarksType(r.kind).value, t, now))
    ensures o.response.Ok? ==>
      o.db == db.(marks := db.marks[id := PreSave(RequestedRecord(r, ParseMarksType(r.kind).value, t, now))])
  {
    if !MarksFieldsPresent(r) then Fail(400, "All fields are required", db)
    else if !(0.0 <= r.marks.value <= r.totalMarks) then Fail(400, "Marks must be between 0 and totalMarks", db)
    else if !Owns(db, t, r.classId.value) then Fail(404, "Class not found or not assigned to you", db)
    else if r.studentId.value !in db.classes[r.classId.value].students then Fail(400, "Student not in this class", db)
    else match ParseMarksType(r.kind)
      case None => Fail(500, "Invalid marks type", db)
      case Some(kind) =>
        match Save(RequestedRecord(r, kind, t, now))
        case Err(_, msg) => Fail(500, msg, db)
        case Ok(saved) => Done(db.(marks := db.marks[id := saved]))
  }

  /**
   * The schema accepts the requested record exactly when the total is at least 1, the
   * trimmed title is not empty and the feedback fits; the stored record then has its
   * percentage and grade derived, with the percentage in [0, 100].
   */
  lemma AddMarksStores(db: Db, t: UserId, id: MarksId, r: MarksRequest, now: Time)
    requires id !in db.marks && MarksFieldsPresent(r) && 0.0 <= r.marks.value <= r.totalMarks
    requires ParseMarksType(r.kind).Some?
    ensures var rec := RequestedRecord(r, ParseMarksType(r.kind).value, t, now);
      SchemaValid(rec) <==> r.totalMarks >= 1.0 && |Trim(r.title)| > 0 && (OrNull(r.feedback).Some? ==> |r.feedback.value| <= 500)
    ensures AddMarks(db, t, id, r, now).response.Ok? ==>
      var stored := AddMarks(db, t, id, r, now).db.marks[id];
      SchemaValid(stored) && Derived(stored) && 0.0 <= stored.percentage <= 100.0
  {
    TrimIdempotent(r.title);
    if AddMarks(db, t, id, r, now).response.Ok? {
      SavedPercentageInRange(AddMarks(db, t, id, r, now).db.marks[id]);
    }
  }

  // ----- updateMarks and deleteMarks -----

  /**
   * `updateMarks` by teacher `t`: the record must exist (404); new marks, when given,
   * must lie within the stored total (400); feedback is replaced when present; the
   * `gradedBy` and `gradedAt` are always rewritten, and the save hook re-derives the
   * percentage and grade. No ownership of the class is checked.
   */
  function UpdateMarks(db: Db, t: UserId, k: MarksId, marks: Option<real>, feedback: Patch<Option<string>>, now: Time): (o: Outcome)
    ensures k !in db.marks ==> o == Fail(404, "Marks record not found", db)
    ensures k in db.marks && marks.Some? && !(0.0 <= marks.value <= db.marks[k].totalMarks) ==>
      o.response.Err? && o.response.status == 400
    ensures o.response.Err? ==> o.db == db
    ensures o.response.Ok? ==>
      && k in db.marks && k in o.db.marks
      && o.db == db.(marks := db.marks[k := o.db.marks[k]])
      && var before := db.marks[k];
         var after := o.db.marks[k];
         && after.marks == (if marks.Some? then marks.value else before.marks)
         && after.feedback == ApplyPatch(feedback, before.feedback)
         && after.gradedBy == Some(t) && after.gradedAt == now
         && after.(marks := before.marks, feedback := before.feedback, gradedBy := before.gradedBy,
                   gradedAt := before.gradedAt, percentage := before.percentage, grade := before.grade) == before
         && Derived(after) && SchemaValid(after)
  {
    if k !in db.marks then Fail(404, "Marks record not found", db)
    else
      var before := db.marks[k];
      if marks.Some? && !(0.0 <= marks.value <= before.totalMarks) then
        Fail(400, "Marks must be between 0 and totalMarks", db)
      else
        var edited := before.(marks := if marks.Some? then marks.value else before.marks,
                              feedback := ApplyPatch(feedback, before.feedback),
                              gradedBy := Some(t), gradedAt := now);
        match Save(edited)
        case Err(_, _) => Fail(500, "Server error", db)
        case Ok(saved) => Done(db.(marks := db.marks[k := saved]))
  }

  /** A stored record accepts any in-range marks and any feedback the schema allows. */
  lemma UpdateMarksSucceedsOnValid(db: Db, t: UserId, k: MarksId, marks: Option<real>, feedback: Patch<Option<string>>, now: Time)
    requires k in db.marks && SchemaValid(db.marks[k])
    requires marks.Some? ==> 0.0 <= marks.value <= db.marks[k].totalMarks
    requires feedback.Set? && feedback.value.Some? ==> |feedback.value.value| <= 500
    ensures UpdateMarks(db, t, k, marks, feedback, now).response.Ok?
  {
  }

  /** Re-entering the same marks keeps a saved record's percentage and grade. */
  lemma UpdateSameMarksKeepsGrade(db: Db, t: UserId, k: MarksId, now: Time)
    requires k in db.marks && SchemaValid(db.marks[k]) && Derived(db.marks[k])
    requires db.marks[k].marks <= db.marks[k].totalMarks
    ensures var o := UpdateMarks(db, t, k, Some(db.marks[k].marks), Keep, now);
      && o.response.Ok?
      && o.db.marks[k].percentage == db.marks[k].percentage
      && o.db.marks[k].grade == db.marks[k].grade
  {
    var before := db.marks[k];
    UpdateMarksSucceedsOnValid(db, t, k, Some(before.marks), Keep, now);
    var after := UpdateMarks(db, t, k, Some(before.marks), Keep, now).db.marks[k];
    assert after.marks == before.marks && after.totalMarks == before.totalMarks;
  }

  /** `deleteMarks`: the record must exist (404); then it, and only it, is gone. */
  function DeleteMarks(db: Db, k: MarksId): (o: Outcome)
    ensures o.response.Ok? <==> k in db.marks
    ensures o.response.Err? ==> o == Fail(404, "Marks record not found", db)
    ensures o.response.Ok? ==> o.db == db.(marks := db.marks - {k})
  {
    if k !in db.marks then Fail(404, "Marks record not found", db)
    else Done(db.(marks := db.marks - {k}))
  }

  /** Deleting the record that `addMarks` just stored gives back the database as it was. */
  lemma AddThenDeleteMarks(db: Db, t: UserId, id: MarksId, r: MarksRequest, now: Time)
    requires id !in db.marks
    requires AddMarks(db, t, id, r, now).response.Ok?
    ensures DeleteMarks(AddMarks(db, t, id, r, now).db, id).db == db
  {
    var d := AddMarks(db, t, id, r, now).db;
    assert d.marks - {id} == db.marks;
  }

  // ----- gradeAssignment -----

  /**
   * `gradeAssignment`: marks are required (400), the assignment must exist (404) and
   * hold a submission by the student (404), and the marks must lie within the
   * assignment's total (400). The student's first submission gets the marks,
   * `feedback || null` and status graded; the save's validation failure answers 500.
   */
  function GradeAssignment(db: Db, a: AssignmentId, s: UserId, marks: Option<real>, feedback: Option<string>): (o: Outcome)
    ensures marks.None? ==> o == Fail(400, "Marks are required", db)
    ensures marks.Some? && a !in db.assignments ==> o == Fail(404, "Assignment not found", db)
    ensures marks.Some? && a in db.assignments && !Assignments.HasStudentSubmitted(db.assignments[a], s) ==>
      o == Fail(404, "Submission not found", db)
    ensures o.response.Err? ==> o.db == db
    ensures o.response.Ok? ==>
      && marks.Some? && a in db.assignments && 0.0 <= marks.value <= db.assignments[a].totalMarks
      && StudentSubmissionIndex(db.assignments[a], s).Some?
      && var i := StudentSubmissionIndex(db.assignments[a], s).value;
         var before := db.assignments[a];
         && a in o.db.assignments
         && o.db == db.(assignments := db.assignments[a := o.db.assignments[a]])
         && o.db.assignments[a] == before.(submissions := o.db.assignments[a].submissions)
         && |o.db.assignments[a].submissions| == |before.submissions|
         && (forall j :: 0 <= j < |before.submissions| && j != i ==>
               o.db.assignments[a].submissions[j] == before.submissions[j])
         && o.db.assignments[a].submissions[i]
            == before.submissions[i].(marks := Some(marks.value), feedback := OrNull(feedback), status := Graded)
  {
    if marks.None? then Fail(400, "Marks are required", db)
    else if a !in db.assignments then Fail(404, "Assignment not found", db)
    else
      var asg := db.assignments[a];
      match StudentSubmissionIndex(asg, s)
      case None => Fail(404, "Submission not found", db)
      case Some(i) =>
        if !(0.0 <= marks.value <= asg.totalMarks) then Fail(400, "Marks must be between 0 and totalMarks", db)
        else
          var updated := GradeSubmission(asg, i, marks.value, feedback);
          if !AssignmentValid(updated) then Fail(500, "Server error", db)
          else Done(db.(assignments := db.assignments[a := updated]))
  }

  /** The submission at position `i` with the marks, `feedback || null` and status graded. */
  function GradeSubmission(asg: Assignment, i: nat, m: real, feedback: Option<string>): (r: Assignment)
    requires i < |asg.submissions|
    ensures r == asg.(submissions := r.submissions) && |r.submissions| == |asg.submissions|
    ensures forall j :: 0 <= j < |asg.submissions| && j != i ==> r.submissions[j] == asg.submissions[j]
    ensures r.submissions[i] == asg.submissions[i].(marks := Some(m), feedback := OrNull(feedback), status := Graded)
  {
    asg.(submissions := asg.submissions[i := asg.submissions[i].(marks := Some(m), feedback := OrNull(feedback), status := Graded)])
  }

  /** A valid assignment with a submission by the student accepts any in-range marks and fitting feedback. */
  lemma GradeAssignmentSucceedsOnValid(db: Db, a: AssignmentId, s: UserId, m: real, feedback: Option<string>)
    requires a in db.assignments && AssignmentValid(db.assignments[a]) && Assignments.HasStudentSubmitted(db.assignments[a], s)
    requires 0.0 <= m <= db.assignments[a].totalMarks
    requires OrNull(feedback).Some? ==> |feedback.value| <= 1000
    ensures GradeAssignment(db, a, s, Some(m), feedback).response.Ok?
  {
    var asg := db.assignments[a];
    var i := StudentSubmissionIndex(asg, s).value;
    var graded := asg.submissions[i].(marks := Some(m), feedback := OrNull(feedback), status := Graded);
    var updated := asg.(submissions := asg.submissions[i := graded]);
    assert forall j :: 0 <= j < |updated.submissions| ==> SubmissionValid(updated.submissions[j]) by {
      forall j | 0 <= j < |updated.submissions| ensures SubmissionValid(updated.submissions[j]) {
        if j != i {
          assert updated.submissions[j] == asg.submissions[j];
        }
      }
    }
  }

  /** Grading the same submission twice with the same input has the effect of grading it once. */
  lemma GradeAssignmentIdempotent(db: Db, a: AssignmentId, s: UserId, m: real, feedback: Option<string>)
    requires GradeAssignment(db, a, s, Some(m), feedback).response.Ok?
    ensures var d := GradeAssignment(db, a, s, Some(m), feedback).db;
      GradeAssignment(d, a, s, Some(m), feedback) == Outcome(Ok(()), d)
  {
    var d := GradeAssignment(db, a, s, Some(m), feedback).db;
    var before := db.assignments[a];
    var i := StudentSubmissionIndex(before, s).value;
    var after := d.assignments[a];
    assert after == GradeSubmission(before, i, m, feedback);
    FirstIndexUnique(after, s, i);
    assert GradeSubmission(after, i, m, feedback) == after;
    assert d.assignments[a := after] == d.assignments;
  }

  lemma FirstIndexUnique(asg: Assignment, s: UserId, i: nat)
    requires i < |asg.submissions| && asg.submissions[i].studentId == s
    requires forall j :: 0 <= j < i ==> asg.submissions[j].studentId != s
    ensures StudentSubmissionIndex(asg, s) == Some(i)
  {
  }

  /**
   * Grading keeps the submission count and the one-per-student rule, and raises the
   * graded count by one exactly when the submission was not graded before.
   */
  lemma GradeAssignmentCounts(db: Db, a: AssignmentId, s: UserId, m: real, feedback: Option<string>)
    requires GradeAssignment(db, a, s, Some(m), feedback).response.Ok?
    ensures var before := db.assignments[a];
      var after := GradeAssignment(db, a, s, Some(m), feedback).db.assignments[a];
      && Assignments.SubmissionCount(after) == Assignments.SubmissionCount(before)
      && GradedCount(after) == GradedCount(before)
           + (if before.submissions[StudentSubmissionIndex(before, s).value].status == Graded then 0 else 1)
      && (Assignments.AtMostOnePerStudent(before.submissions) ==> Assignments.AtMostOnePerStudent(after.submissions))
  {
    var before := db.assignments[a];
    var i := StudentSubmissionIndex(before, s).value;
    var after := GradeAssignment(db, a, s, Some(m), feedback).db.assignments[a];
    assert after.submissions == before.submissions[i := after.submissions[i]];
    CountUpdate(before.submissions, i, after.submissions[i], IsGraded);
  }

  // ----- getClassStudents -----

  /** One row of `getClassStudents`: a roster entry with the totals of their marks in the class. */
  datatype StudentTotals = StudentTotals(
    studentId: UserId,
    marksCount: nat,
    totalObtained: real,
    totalPossible: real,
    percentage: real)

  /** The records of student `s` in class `c`, in store order. */
  function RecordsOf(rs: seq<MarksRecord>, s: UserId, c: ClassId): (r: seq<MarksRecord>)
    ensures forall i :: 0 <= i < |r| ==> r[i].studentId == s && r[i].classId == c && r[i] in rs
    ensures forall i :: 0 <= i < |rs| && rs[i].studentId == s && rs[i].classId == c ==> rs[i] in r
  {
    Filter(rs, (m: MarksRecord) => m.studentId == s && m.classId == c)
  }

  /** The totals of one student: sums of obtained and possible marks, and `calculatePercentage` of them. */
  function TotalsFor(rs: seq<MarksRecord>, s: UserId, c: ClassId): (row: StudentTotals)
    ensures row.studentId == s && row.marksCount == |RecordsOf(rs, s, c)|
    ensures row.totalObtained == Numeric.Sum(MarksOf(RecordsOf(rs, s, c)))
    ensures row.totalPossible == Numeric.Sum(TotalsOf(RecordsOf(rs, s, c)))
    ensures row.percentage == Helpers.CalculatePercentage(row.totalObtained, row.totalPossible)
  {
    var mine := RecordsOf(rs, s, c);
    var obtained := Numeric.Sum(MarksOf(mine));
    var possible := Numeric.Sum(TotalsOf(mine));
    StudentTotals(s, |mine|, obtained, possible, Helpers.CalculatePercentage(obtained, possible))
  }

  /**
   * `getClassStudents` by teacher `t` over the stored marks records `rs`: the class
   * must be the teacher's (404); then one row per student of the populated roster,
   * in roster order.
   */
  function GetClassStudents(db: Db, t: UserId, c: ClassId, rs: seq<MarksRecord>): (r: Response<seq<StudentTotals>>)
    ensures r.Ok? <==> Owns(db, t, c)
    ensures r.Err? ==> r == Err(404, "Class not found or not assigned to you")
    ensures r.Ok? ==>
      && |r.value| == |LiveRoster(db, c)|
      && forall i :: 0 <= i < |r.value| ==> r.value[i] == TotalsFor(rs, LiveRoster(db, c)[i], c)
  {
    if !Owns(db, t, c) then Err(404, "Class not found or not assigned to you")
    else
      var roster := LiveRoster(db, c);
      Ok(seq(|roster|, i requires 0 <= i < |roster| => TotalsFor(rs, roster[i], c)))
  }

  /** A student without marks in the class totals 0 possible marks and 0 percent. */
  lemma NoMarksGiveZero(rs: seq<MarksRecord>, s: UserId, c: ClassId)
    requires forall i :: 0 <= i < |rs| ==> !(rs[i].studentId == s && rs[i].classId == c)
    ensures TotalsFor(rs, s, c).marksCount == 0
    ensures TotalsFor(rs, s, c).totalPossible == 0.0 && TotalsFor(rs, s, c).percentage == 0.0
  {
    var mine := RecordsOf(rs, s, c);
    if |mine| > 0 {
      assert mine[0] in rs;
    }
  }

  /** For stored records with marks within their totals, a student's percentage lies in [0, 100]. */
  lemma TotalsPercentageInRange(rs: seq<MarksRecord>, s: UserId, c: ClassId)
    requires AllStored(rs)
    requires forall i :: 0 <= i < |rs| ==> 0.0 <= rs[i].marks <= rs[i].totalMarks
    ensures 0.0 <= TotalsFor(rs, s, c).percentage <= 100.0
    ensures TotalsFor(rs, s, c).totalPossible >= TotalsFor(rs, s, c).marksCount as real
  {
    var mine := RecordsOf(rs, s, c);
    forall i | 0 <= i < |mine| ensures 0.0 <= mine[i].marks <= mine[i].totalMarks && mine[i].totalMarks >= 1.0 {
      var j :| 0 <= j < |rs| && rs[j] == mine[i];
    }
    SumDominated(mine);
    TotalsBound(mine);
  }

  // ----- addQuiz -----

  /** The body of an `addQuiz` request; an absent title is the empty string, absent numbers are `None`. */
  datatype QuizRequest = QuizRequest(
    classId: Option<ClassId>,
    title: string,
    description: Option<string>,
    questions: Option<seq<Question>>,
    timeLimit: Option<int>,
    startDate: Option<Time>,
    endDate: Option<Time>,
    allowRetake: bool,
    shuffleQuestions: bool)

  /** The quiz `Quiz.create` builds: the request's fields with the `||` defaults, published, by the teacher. */
  function RequestedQuiz(r: QuizRequest, t: UserId, now: Time): (q: Quiz)
    requires r.classId.Some? && r.questions.Some?
    ensures q.classId == r.classId.value && q.title == Trim(r.title) && q.questions == TrimQuestions(r.questions.value)
    ensures q.description == (if r.description.Some? then r.description.value else "")
    ensures q.timeLimit == (if r.timeLimit.None? || r.timeLimit == Some(0) then 30 else r.timeLimit.value)
    ensures q.startDate == (if r.startDate.Some? then r.startDate.value else now)
    ensures q.isPublished && q.submissions == [] && q.showResults && q.createdBy == Some(t)
    ensures q.allowRetake == r.allowRetake && q.shuffleQuestions == r.shuffleQuestions
  {
    Quiz(r.classId.value, Trim(r.title), if r.description.Some? then r.description.value else "",
         TrimQuestions(r.questions.value), [],
         if r.timeLimit.None? || r.timeLimit == Some(0) then 30 else r.timeLimit.value,
         if r.startDate.Some? then r.startDate.value else now, r.endDate,
         true, r.allowRetake, true, r.shuffleQuestions, Some(t))
  }

  /** The question texts as the schema stores them, trimmed. */
  function TrimQuestions(qs: seq<Question>): (r: seq<Question>)
    ensures |r| == |qs|
    ensures forall i :: 0 <= i < |qs| ==> r[i] == qs[i].(question := Trim(qs[i].question))
  {
    seq(|qs|, i requires 0 <= i < |qs| => qs[i].(question := Trim(qs[i].question)))
  }

  /**
   * `addQuiz` by teacher `t`, stored under the fresh id `id`: a class id, a title and a
   * non-empty question list are required (400), the class must be the teacher's (404),
   * and a quiz the schema rejects is answered with 500.
   */
  function AddQuiz(db: Db, t: UserId, id: QuizId, r: QuizRequest, now: Time): (o: Outcome)
    requires id !in db.quizzes
    ensures r.classId.None? || r.title == "" || r.questions.None? || |r.questions.value| == 0 ==>
      o == Fail(400, "Class ID, title, and questions are required", db)
    ensures o.response.Err? ==> o.db == db
    ensures o.response.Ok? <==>
      && r.classId.Some? && r.title != "" && r.questions.Some? && |r.questions.value| > 0
      && Owns(db, t, r.classId.value) && QuizValid(RequestedQuiz(r, t, now))
    ensures o.response.Ok? ==> o.db == db.(quizzes := db.quizzes[id := RequestedQuiz(r, t, now)])
  {
    if r.classId.None? || r.title == "" || r.questions.None? || |r.questions.value| == 0 then
      Fail(400, "Class ID, title, and questions are required", db)
    else if !Owns(db, t, r.classId.value) then Fail(404, "Class not found or not assigned to you", db)
    else
      var q := RequestedQuiz(r, t, now);
      if !QuizValid(q) then Fail(500, "Quiz validation failed", db)
      else Done(db.(quizzes := db.quizzes[id := q]))
  }

  /**
   * A created quiz is published, has no submissions yet, and is worth a positive number
   * of points; with whole-number points, at least one point per question.
   */
  lemma AddQuizStoresFreshQuiz(db: Db, t: UserId, id: QuizId, r: QuizRequest, now: Time)
    requires id !in db.quizzes && AddQuiz(db, t, id, r, now).response.Ok?
    ensures var q := AddQuiz(db, t, id, r, now).db.quizzes[id];
      && q.isPublished && q.timeLimit >= 1 && TotalPoints(q.questions) > 0.0
      && (forall s :: !Quizzes.HasStudentSubmitted(q, s))
      && ((forall i :: 0 <= i < |r.questions.value| ==> r.questions.value[i].points == 0.0 || r.questions.value[i].points >= 1.0)
          ==> TotalPoints(q.questions) >= |r.questions.value| as real)
  {
    var q := RequestedQuiz(r, t, now);
    assert AddQuiz(db, t, id, r, now).db.quizzes[id] == q;
    ValidQuizHasPoints(q);
    TrimmedQuestionsKeepPoints(r.questions.value);
  }

  /** A quiz the schema accepts is worth a positive number of points. */
  lemma ValidQuizHasPoints(q: Quiz)
    requires QuizValid(q)
    ensures TotalPoints(q.questions) > 0.0
  {
    assert forall i :: 0 <= i < |q.questions| ==> QuestionValid(q.questions[i]);
  }

  /** Trimming the question texts keeps the points: with whole-number points, at least one per question. */
  lemma TrimmedQuestionsKeepPoints(qs: seq<Question>)
    ensures (forall i :: 0 <= i < |qs| ==> qs[i].points == 0.0 || qs[i].points >= 1.0) ==>
      TotalPoints(TrimQuestions(qs)) >= |qs| as real
  {
    var t := TrimQuestions(qs);
    assert forall i :: 0 <= i < |t| ==> t[i].points == qs[i].points;
  }
}
