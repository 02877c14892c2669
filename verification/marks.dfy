/**
 * The grade record of one assessment of one student in one class: its schema
 * bounds, the percentage and letter derived on every save, and the per-student
 * and per-class summaries.
 */
module Marks {
  import opened Wrappers
  import opened Ids
  import opened Text
  import opened Seqs
  import Numeric
  import Helpers

  /** The seven assessment kinds the schema admits. */
  datatype MarksType = QuizMarks | AssignmentMarks | Midterm | Final | Project | Participation | OtherMarks

  function MarksTypeName(t: MarksType): string
  {
    match t
    case QuizMarks => "quiz"          case AssignmentMarks => "assignment"
    case Midterm => "midterm"         case Final => "final"
    case Project => "project"         case Participation => "participation"
    case OtherMarks => "other"
  }

  /** The schema's enum check on the `type` field. */
  function ParseMarksType(s: string): (r: Option<MarksType>)
    ensures r.Some? ==> MarksTypeName(r.value) == s
    ensures r.None? ==> forall t :: MarksTypeName(t) != s
  {
    if s == "quiz" then Some(QuizMarks)
    else if s == "assignment" then Some(AssignmentMarks)
    else if s == "midterm" then Some(Midterm)
    else if s == "final" then Some(Final)
    else if s == "project" then Some(Project)
    else if s == "participation" then Some(Participation)
    else if s == "other" then Some(OtherMarks)
    else None
  }

  lemma ParseMarksTypeRoundTrip(t: MarksType)
    ensures ParseMarksType(MarksTypeName(t)) == Some(t)
  {
  }

  datatype MarksRecord = MarksRecord(
    studentId: UserId,
    classId: ClassId,
    kind: MarksType,
    title: string,
    marks: real,
    totalMarks: real,
    percentage: real,
    grade: Helpers.Letter,
    feedback: Option<string>,
    gradedBy: Option<UserId>,
    gradedAt: Time,
    createdAt: Time,
    isPublished: bool)

  /** The schema's validators: marks at least 0, total at least 1, a non-empty trimmed title, feedback of at most 500 characters. */
  predicate SchemaValid(r: MarksRecord)
  {
    && r.marks >= 0.0
    && r.totalMarks >= 1.0
    && |r.title| > 0 && r.title == Trim(r.title)
    && (r.feedback.Some? ==> |r.feedback.value| <= 500)
  }

  /** The percentage the save hook stores: 0 unless the total is positive. */
  function HookPercentage(marks: real, totalMarks: real): (p: real)
    ensures totalMarks <= 0.0 ==> p == 0.0
    ensures totalMarks > 0.0 ==> p == Numeric.Round2(marks / totalMarks * 100.0)
    ensures totalMarks > 0.0 ==> p == Helpers.CalculatePercentage(marks, totalMarks)
  {
    if totalMarks > 0.0 then Numeric.Round2(marks / totalMarks * 100.0) else 0.0
  }

  /** The save hook's own copy of the letter cascade; it agrees with `calculateGrade` everywhere. */
  function HookGrade(p: real): (g: Helpers.Letter)
    ensures g == Helpers.CalculateGrade(p)
  {
    if p >= 90.0 then Helpers.APlus
    else if p >= 85.0 then Helpers.A
    else if p >= 80.0 then Helpers.AMinus
    else if p >= 75.0 then Helpers.BPlus
    else if p >= 70.0 then Helpers.B
    else if p >= 65.0 then Helpers.BMinus
    else if p >= 60.0 then Helpers.CPlus
    else if p >= 55.0 then Helpers.C
    else if p >= 50.0 then Helpers.CMinus
    else if p >= 45.0 then Helpers.D
    else Helpers.F
  }

  /** The derived fields agree with the marks: what holds after every save. */
  predicate Derived(r: MarksRecord)
  {
    r.percentage == HookPercentage(r.marks, r.totalMarks) && r.grade == Helpers.CalculateGrade(r.percentage)
  }

  /** The pre-save hook: recompute percentage, then the grade from that percentage. */
  function PreSave(r: MarksRecord): (s: MarksRecord)
    ensures Derived(s)
    ensures s.(percentage := r.percentage, grade := r.grade) == r
  {
    var p := HookPercentage(r.marks, r.totalMarks);
    r.(percentage := p, grade := HookGrade(p))
  }

  /** Saving twice derives the same fields as saving once. */
  lemma PreSaveIdempotent(r: MarksRecord)
    ensures PreSave(PreSave(r)) == PreSave(r)
  {
  }

  /**
   * `save()`: schema validation, whose failure the controllers answer with 500,
   * then the pre-save hook.
   */
  function Save(r: MarksRecord): (res: Response<MarksRecord>)
    ensures res.Ok? <==> SchemaValid(r)
    ensures res.Ok? ==> Derived(res.value) && SchemaValid(res.value)
    ensures res.Ok? ==> res.value.(percentage := r.percentage, grade := r.grade) == r
    ensures res.Err? ==> res.status == 500
  {
    if SchemaValid(r) then Ok(PreSave(r)) else Err(500, "Validation failed")
  }

  /** A valid record with marks not above the total stores a percentage in [0, 100]. */
  lemma SavedPercentageInRange(r: MarksRecord)
    requires SchemaValid(r) && Derived(r) && r.marks <= r.totalMarks
    ensures 0.0 <= r.percentage <= 100.0
  {
    Helpers.PercentageInRange(r.marks, r.totalMarks);
  }

  // ----- summaries -----

  function MarksOf(rs: seq<MarksRecord>): (xs: seq<real>)
    ensures |xs| == |rs| && forall i :: 0 <= i < |rs| ==> xs[i] == rs[i].marks
  {
    seq(|rs|, i requires 0 <= i < |rs| => rs[i].marks)
  }

  function TotalsOf(rs: seq<MarksRecord>): (xs: seq<real>)
    ensures |xs| == |rs| && forall i :: 0 <= i < |rs| ==> xs[i] == rs[i].totalMarks
  {
    seq(|rs|, i requires 0 <= i < |rs| => rs[i].totalMarks)
  }

  function PercentagesOf(rs: seq<MarksRecord>): (xs: seq<real>)
    ensures |xs| == |rs| && forall i :: 0 <= i < |rs| ==> xs[i] == rs[i].percentage
  {
    seq(|rs|, i requires 0 <= i < |rs| => rs[i].percentage)
  }

  /** Every record has a total of at least 1, as the schema guarantees for stored records. */
  predicate AllStored(rs: seq<MarksRecord>)
  {
    forall i :: 0 <= i < |rs| ==> rs[i].totalMarks >= 1.0
  }

  /** The records of one class, in order. */
  function OfClass(rs: seq<MarksRecord>, c: ClassId): (r: seq<MarksRecord>)
    ensures forall i :: 0 <= i < |r| ==> r[i].classId == c && r[i] in rs
    ensures AllStored(rs) ==> AllStored(r)
  {
    Filter(rs, (r: MarksRecord) => r.classId == c)
  }

  /** The `$match` stage of the student summary: the student's records, restricted to one class when one is given. */
  function StudentMatch(rs: seq<MarksRecord>, s: UserId, classId: Option<ClassId>): (r: seq<MarksRecord>)
    ensures forall i :: 0 <= i < |r| ==> r[i].studentId == s && (classId.None? || r[i].classId == classId.value)
    ensures forall i :: 0 <= i < |r| ==> r[i] in rs
    ensures AllStored(rs) ==> AllStored(r)
  {
    Filter(rs, (r: MarksRecord) => r.studentId == s && (classId.None? || r.classId == classId.value))
  }

  datatype StudentSummaryRow = StudentSummaryRow(
    classId: ClassId,
    classname: string,
    totalMarks: real,
    totalPossible: real,
    averagePercentage: real,
    count: nat,
    overallPercentage: real)

  /** The group of one class, from records of which at least one belongs to it. */
  function SummaryRow(group: seq<MarksRecord>, c: ClassId, classname: string): (row: StudentSummaryRow)
    requires |group| > 0 && AllStored(group)
    ensures row.classId == c && row.classname == classname && row.count == |group|
    ensures row.totalMarks == Numeric.Sum(MarksOf(group))
    ensures row.totalPossible == Numeric.Sum(TotalsOf(group))
    ensures row.totalPossible >= row.count as real
    ensures row.overallPercentage == Numeric.RoundHalfEven2(row.totalMarks / row.totalPossible * 100.0)
    ensures row.averagePercentage == Numeric.RoundHalfEven2(Numeric.Mean(PercentagesOf(group)))
    ensures (forall i :: 0 <= i < |group| ==> 0.0 <= group[i].marks <= group[i].totalMarks) ==>
              0.0 <= row.overallPercentage <= 100.0
    ensures (forall i :: 0 <= i < |group| ==> 0.0 <= group[i].percentage <= 100.0) ==>
              0.0 <= row.averagePercentage <= 100.0
  {
    var totalMarks := Numeric.Sum(MarksOf(group));
    var totalPossible := Numeric.Sum(TotalsOf(group));
    GroupBounds(group);
    StudentSummaryRow(c, classname, totalMarks, totalPossible,
                      Numeric.RoundHalfEven2(Numeric.Mean(PercentagesOf(group))), |group|,
                      Numeric.RoundHalfEven2(totalMarks / totalPossible * 100.0))
  }

  lemma GroupBounds(group: seq<MarksRecord>)
    requires |group| > 0 && AllStored(group)
    ensures Numeric.Sum(TotalsOf(group)) >= |group| as real
    ensures (forall i :: 0 <= i < |group| ==> 0.0 <= group[i].marks <= group[i].totalMarks) ==>
              0.0 <= Numeric.Sum(MarksOf(group)) / Numeric.Sum(TotalsOf(group)) * 100.0 <= 100.0
    ensures (forall i :: 0 <= i < |group| ==> 0.0 <= group[i].percentage <= 100.0) ==>
              0.0 <= Numeric.Mean(PercentagesOf(group)) <= 100.0
  {
    TotalsBound(group);
    if forall i :: 0 <= i < |group| ==> 0.0 <= group[i].marks <= group[i].totalMarks {
      SumDominated(group);
      Helpers.PercentageInRange(Numeric.Sum(MarksOf(group)), Numeric.Sum(TotalsOf(group)));
    }
    if forall i :: 0 <= i < |group| ==> 0.0 <= group[i].percentage <= 100.0 {
      Numeric.MeanBounds(PercentagesOf(group), 0.0, 100.0);
    }
  }

  lemma TotalsBound(group: seq<MarksRecord>)
    requires AllStored(group)
    ensures Numeric.Sum(TotalsOf(group)) >= |group| as real
  {
    var ts := TotalsOf(group);
    if |group| > 0 {
      var hi := Numeric.Max(ts);
      Numeric.SumBounds(ts, 1.0, hi);
    }
  }

  lemma {:induction false} SumDominated(rs: seq<MarksRecord>)
    requires forall i :: 0 <= i < |rs| ==> 0.0 <= rs[i].marks <= rs[i].totalMarks
    ensures 0.0 <= Numeric.Sum(MarksOf(rs)) <= Numeric.Sum(TotalsOf(rs))
    decreases |rs|
  {
    if |rs| > 0 {
      var init := rs[..|rs| - 1];
      SumDominated(init);
      assert MarksOf(rs)[..|rs| - 1] == MarksOf(init);
      assert TotalsOf(rs)[..|rs| - 1] == TotalsOf(init);
    }
  }

  /** The classes some record of the sequence belongs to. */
  function ClassesOf(rs: seq<MarksRecord>): set<ClassId>
  {
    set i | 0 <= i < |rs| :: rs[i].classId
  }

  /**
   * `getStudentSummary`: one row per class of the student's (matching) records, with
   * summed marks and totals and the record count; `overallPercentage` weighs by the
   * totals while `averagePercentage` averages the stored percentages. A class whose
   * document no longer exists is dropped, as the lookup-and-unwind stages do.
   */
  function GetStudentSummary(rs: seq<MarksRecord>, classNames: map<ClassId, string>, s: UserId,
                             classId: Option<ClassId>): (r: map<ClassId, StudentSummaryRow>)
    requires AllStored(rs)
    ensures r.Keys == ClassesOf(StudentMatch(rs, s, classId)) * classNames.Keys
    ensures classId.Some? ==> r.Keys <= {classId.value}
    ensures forall c :: c in r ==>
      && r[c].classId == c && r[c].classname == classNames[c]
      && r[c].count == |OfClass(StudentMatch(rs, s, classId), c)| > 0
      && r[c] == SummaryRow(OfClass(StudentMatch(rs, s, classId), c), c, classNames[c])
  {
    var matched := StudentMatch(rs, s, classId);
    map c | c in ClassesOf(matched) && c in classNames :: GroupRow(matched, c, classNames[c])
  }

  /** The summary row of class `c`, one of the classes of `matched`. */
  function GroupRow(matched: seq<MarksRecord>, c: ClassId, classname: string): (row: StudentSummaryRow)
    requires AllStored(matched) && c in ClassesOf(matched)
    ensures row.classId == c && row.classname == classname
    ensures row.count == |OfClass(matched, c)| > 0
    ensures row == SummaryRow(OfClass(matched, c), c, classname)
  {
    var group := OfClass(matched, c);
    ghost var i :| 0 <= i < |matched| && matched[i].classId == c;
    assert matched[i] in group;
    SummaryRow(group, c, classname)
  }

  /** Every record summarised in a row belongs to the student and to the row's class. */
  lemma StudentSummaryGroup(rs: seq<MarksRecord>, s: UserId, classId: Option<ClassId>, c: ClassId)
    ensures forall r :: r in OfClass(StudentMatch(rs, s, classId), c) ==> r.studentId == s && r.classId == c
    ensures |OfClass(StudentMatch(rs, s, classId), c)| > 0 && classId.Some? ==> c == classId.value
  {
    var matched := StudentMatch(rs, s, classId);
    var group := OfClass(matched, c);
    forall r | r in group
      ensures r.studentId == s && r.classId == c && (classId.Some? ==> c == classId.value)
    {
      var i :| 0 <= i < |group| && group[i] == r;
      assert r in matched;
      var j :| 0 <= j < |matched| && matched[j] == r;
    }
    if |group| > 0 {
      assert group[0] in group;
    }
  }

  /** The weighted and unweighted averages of one group can differ: 1/1 and 0/3 give 25 against 50. */
  lemma OverallAndAverageDiffer()
    ensures var g := [Sample(1.0, 1.0), Sample(0.0, 3.0)];
      var row := SummaryRow(g, 7, "Algebra");
      row.overallPercentage == 25.0 && row.averagePercentage == 50.0
  {
    var g := [Sample(1.0, 1.0), Sample(0.0, 3.0)];
    assert MarksOf(g) == [1.0, 0.0];
    assert TotalsOf(g) == [1.0, 3.0];
    assert PercentagesOf(g) == [100.0, 0.0];
    assert Numeric.Sum([1.0, 0.0]) == 1.0 by {
      assert [1.0, 0.0][..1] == [1.0];
      assert [1.0][..0] == [];
    }
    assert Numeric.Sum([1.0, 3.0]) == 4.0 by {
      assert [1.0, 3.0][..1] == [1.0];
      assert [1.0][..0] == [];
    }
    assert Numeric.Sum([100.0, 0.0]) == 100.0 by {
      assert [100.0, 0.0][..1] == [100.0];
      assert [100.0][..0] == [];
    }
  }

  /** A saved record of student 1 in class 7 with the given marks and total. */
  function Sample(marks: real, total: real): MarksRecord
    requires total >= 1.0
  {
    PreSave(MarksRecord(1, 7, QuizMarks, "Quiz", marks, total, 0.0, Helpers.F, None, None, 0, 0, true))
  }

  datatype ClassSummary = ClassSummary(
    averageMarks: real,
    averagePercentage: real,
    highestMarks: real,
    lowestMarks: real,
    totalEntries: nat)

  /**
   * `getClassSummary`: over the class's records, the mean marks and percentage, the
   * extreme marks and the record count; no row at all when the class has no records.
   */
  function GetClassSummary(rs: seq<MarksRecord>, c: ClassId): (r: Option<ClassSummary>)
    ensures r.None? <==> forall i :: 0 <= i < |rs| ==> rs[i].classId != c
    ensures r.Some? ==>
      && r.value.lowestMarks <= r.value.averageMarks <= r.value.highestMarks
      && r.value.totalEntries == |OfClass(rs, c)| > 0
      && r.value.averageMarks == Numeric.Mean(MarksOf(OfClass(rs, c)))
      && r.value.averagePercentage == Numeric.Mean(PercentagesOf(OfClass(rs, c)))
      && (forall i :: 0 <= i < |rs| && rs[i].classId == c ==>
            r.value.lowestMarks <= rs[i].marks <= r.value.highestMarks)
      && (exists i :: 0 <= i < |rs| && rs[i].classId == c && rs[i].marks == r.value.highestMarks)
      && (exists i :: 0 <= i < |rs| && rs[i].classId == c && rs[i].marks == r.value.lowestMarks)
  {
    var group := OfClass(rs, c);
    if |group| == 0 then
      None
    else
      var ms := MarksOf(group);
      Numeric.MinMeanMax(ms);
      assert forall i :: 0 <= i < |rs| && rs[i].classId == c ==> rs[i].marks in ms by {
        forall i | 0 <= i < |rs| && rs[i].classId == c ensures rs[i].marks in ms {
          assert rs[i] in group;
          var j :| 0 <= j < |group| && group[j] == rs[i];
          assert ms[j] == rs[i].marks;
        }
      }
      var hi := Numeric.Max(ms);
      var lo := Numeric.Min(ms);
      ghost var jh :| 0 <= jh < |ms| && ms[jh] == hi;
      ghost var jl :| 0 <= jl < |ms| && ms[jl] == lo;
      assert group[jh] in rs && group[jl] in rs;
      Some(ClassSummary(Numeric.Mean(ms), Numeric.Mean(PercentagesOf(group)), hi, lo, |group|))
  }
}
