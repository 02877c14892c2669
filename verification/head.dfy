/**
 * The head's result views: the statistics over every marks record, the result
 * summary of one class with its students ranked by average, and the dashboard's
 * completion rate per class.
 */
module HeadOps {
  import opened Wrappers
  import opened Ids
  import opened Seqs
  import opened Numeric
  import opened Marks
  import opened Classes
  import opened Store
  import Helpers
  import Quizzes
  import Assignments
  import Users

  // ----- the letter names -----

  /** `getGradeFromPercentage`: the letter cascade written out a third time, as names. */
  function GradeFromPercentage(p: real): string
  {
    if p >= 90.0 then "A+"
    else if p >= 85.0 then "A"
    else if p >= 80.0 then "A-"
    else if p >= 75.0 then "B+"
    else if p >= 70.0 then "B"
    else if p >= 65.0 then "B-"
    else if p >= 60.0 then "C+"
    else if p >= 55.0 then "C"
    else if p >= 50.0 then "C-"
    else if p >= 45.0 then "D"
    else "F"
  }

  /** The third copy of the cascade names the same letter as `calculateGrade` on every percentage. */
  lemma GradeFromPercentageAgrees(p: real)
    ensures GradeFromPercentage(p) == Helpers.LetterName(Helpers.CalculateGrade(p))
  {
  }

  // ----- getAllResults -----

  function AtLeast(lo: real): real -> bool
  {
    (p: real) => p >= lo
  }

  function Between(lo: real, hi: real): real -> bool
  {
    (p: real) => lo <= p < hi
  }

  function Below(hi: real): real -> bool
  {
    (p: real) => p < hi
  }

  datatype ResultStats = ResultStats(
    avgScore: real,
    highestScore: real,
    lowestScore: real,
    passRate: real,
    gradeA: nat,
    gradeB: nat,
    gradeC: nat,
    gradeD: nat,
    gradeF: nat)

  /**
   * The statistics of `getAllResults` over the percentages `ps`: mean, extremes and
   * pass rate (0 when there are none), and the five ten-point buckets.
   */
  function AllResultsStats(ps: seq<real>): (st: ResultStats)
    ensures |ps| == 0 ==> st == ResultStats(0.0, 0.0, 0.0, 0.0, 0, 0, 0, 0, 0)
    ensures |ps| > 0 ==> st.highestScore == Max(ps) && st.lowestScore == Min(ps)
    ensures |ps| > 0 ==> st.avgScore == Round2(Mean(ps))
    ensures |ps| > 0 ==> st.passRate == Round2(Count(ps, AtLeast(50.0)) as real / |ps| as real * 100.0)
    ensures |ps| > 0 ==> st.lowestScore <= st.highestScore
    ensures forall i :: 0 <= i < |ps| ==> st.lowestScore <= ps[i] <= st.highestScore
  {
    var n := |ps|;
    ResultStats(
      if n > 0 then Round2(Sum(ps) / n as real) else 0.0,
      if n > 0 then Max(ps) else 0.0,
      if n > 0 then Min(ps) else 0.0,
      if n > 0 then Round2(Count(ps, AtLeast(50.0)) as real / n as real * 100.0) else 0.0,
      Count(ps, AtLeast(90.0)),
      Count(ps, Between(80.0, 90.0)),
      Count(ps, Between(70.0, 80.0)),
      Count(ps, Between(60.0, 70.0)),
      Count(ps, Below(60.0)))
  }

  /** One row of the results list: the record and the letter of its stored percentage. */
  datatype ResultRow = ResultRow(record: MarksRecord, grade: string)

  /** `getAllResults` over the stored marks `rs` (newest first, as the query sorts them). */
  function GetAllResults(rs: seq<MarksRecord>): (r: (seq<ResultRow>, ResultStats))
    ensures |r.0| == |rs|
    ensures forall i :: 0 <= i < |rs| ==> r.0[i].record == rs[i] && r.0[i].grade == Helpers.LetterName(Helpers.CalculateGrade(rs[i].percentage))
    ensures r.1 == AllResultsStats(PercentagesOf(rs))
  {
    forall i | 0 <= i < |rs| ensures GradeFromPercentage(rs[i].percentage) == Helpers.LetterName(Helpers.CalculateGrade(rs[i].percentage)) {
      GradeFromPercentageAgrees(rs[i].percentage);
    }
    (seq(|rs|, i requires 0 <= i < |rs| => ResultRow(rs[i], GradeFromPercentage(rs[i].percentage))),
     AllResultsStats(PercentagesOf(rs)))
  }

  /** The five buckets partition the percentages: every record is counted exactly once. */
  lemma BucketsPartition(ps: seq<real>)
    ensures var st := AllResultsStats(ps);
      st.gradeA + st.gradeB + st.gradeC + st.gradeD + st.gradeF == |ps|
  {
    CountDisjoint(ps, AtLeast(90.0), Between(80.0, 90.0), AtLeast(80.0));
    CountDisjoint(ps, AtLeast(80.0), Between(70.0, 80.0), AtLeast(70.0));
    CountDisjoint(ps, AtLeast(70.0), Between(60.0, 70.0), AtLeast(60.0));
    CountComplement(ps, AtLeast(60.0), Below(60.0));
  }

  /**
   * The pass rate is a percentage: 100 when every record reaches 50 and 0 when none
   * does (rounding can also show 100 for a single failure among very many passes).
   */
  lemma PassRateRange(ps: seq<real>)
    requires |ps| > 0
    ensures 0.0 <= AllResultsStats(ps).passRate <= 100.0
    ensures (forall i :: 0 <= i < |ps| ==> ps[i] >= 50.0) ==> AllResultsStats(ps).passRate == 100.0
    ensures (forall i :: 0 <= i < |ps| ==> ps[i] < 50.0) ==> AllResultsStats(ps).passRate == 0.0
  {
    var k := Count(ps, AtLeast(50.0));
    CountAllIff(ps, AtLeast(50.0));
    CountComplement(ps, AtLeast(50.0), Below(50.0));
    CountAllIff(ps, Below(50.0));
    ShareAsPercentage(k, |ps|);
  }

  /** `k` out of `n` as a rounded percentage. */
  lemma ShareAsPercentage(k: nat, n: nat)
    requires 0 < n && k <= n
    ensures 0.0 <= Round2(k as real / n as real * 100.0) <= 100.0
    ensures k == n ==> Round2(k as real / n as real * 100.0) == 100.0
    ensures k == 0 ==> Round2(k as real / n as real * 100.0) == 0.0
  {
    Helpers.PercentageInRange(k as real, n as real);
    if k == n {
      var x := n as real;
      assert k as real == x && x > 0.0;
      assert x / x == 1.0;
      assert Round2(100.0) == 100.0;
    }
  }

  /** Passing means earning at least the C- letter: the pass threshold is the lowest non-D, non-F boundary. */
  lemma PassIsCMinusOrBetter(p: real)
    ensures AtLeast(50.0)(p) <==> Helpers.Rank(Helpers.CalculateGrade(p)) >= Helpers.Rank(Helpers.CMinus)
  {
  }

  /** The buckets are not the letters: 85 is an A, yet it is counted in bucket B. */
  lemma BucketsAreNotLetters()
    ensures GradeFromPercentage(85.0) == "A"
    ensures AllResultsStats([85.0]).gradeA == 0 && AllResultsStats([85.0]).gradeB == 1
  {
    assert [85.0][..0] == [];
  }

  // ----- getClassResults -----

  /** One student's row: totals over the class's records and the letter of the rounded mean percentage. */
  datatype StudentResult = StudentResult(
    studentId: UserId,
    totalObtained: real,
    totalPossible: real,
    averagePercentage: real,
    assessmentCount: nat,
    grade: Option<string>)

  function OfStudent(s: UserId): MarksRecord -> bool
  {
    (m: MarksRecord) => m.studentId == s
  }

  function StudentRow(classMarks: seq<MarksRecord>, s: UserId): (row: StudentResult)
    ensures row.studentId == s && row.assessmentCount == Count(classMarks, OfStudent(s))
    ensures row.totalObtained == Sum(MarksOf(Filter(classMarks, OfStudent(s))))
    ensures row.totalPossible == Sum(TotalsOf(Filter(classMarks, OfStudent(s))))
    ensures row.assessmentCount > 0 ==>
      row.averagePercentage == Round2(Mean(PercentagesOf(Filter(classMarks, OfStudent(s)))))
    ensures row.grade == Some(GradeFromPercentage(row.averagePercentage))
    ensures row.assessmentCount == 0 ==> row.averagePercentage == 0.0
  {
    var mine := Filter(classMarks, OfStudent(s));
    var avg := if |mine| > 0 then Round2(Mean(PercentagesOf(mine))) else 0.0;
    StudentResult(s, Sum(MarksOf(mine)), Sum(TotalsOf(mine)), avg, |mine|, Some(GradeFromPercentage(avg)))
  }

  /** Ranked by average percentage, highest first. */
  predicate SortedByAverage(xs: seq<StudentResult>)
  {
    forall i, j :: 0 <= i < j < |xs| ==> xs[i].averagePercentage >= xs[j].averagePercentage
  }

  /** Insert `x` ahead of the first row whose average does not exceed its own. */
  function InsertByAverage(x: StudentResult, xs: seq<StudentResult>): (r: seq<StudentResult>)
    ensures |r| == |xs| + 1
  {
    if |xs| == 0 then [x]
    else if xs[0].averagePercentage <= x.averagePercentage then [x] + xs
    else [xs[0]] + InsertByAverage(x, xs[1..])
  }

  /**
   * The `sort` by `b.averagePercentage - a.averagePercentage`: highest average first,
   * rows with equal averages kept in roster order, as the stable sort keeps them.
   */
  function SortByAverage(xs: seq<StudentResult>): (r: seq<StudentResult>)
    ensures |r| == |xs|
  {
    if |xs| == 0 then [] else InsertByAverage(xs[0], SortByAverage(xs[1..]))
  }

  lemma {:induction false} InsertPermutes(x: StudentResult, xs: seq<StudentResult>)
    ensures multiset(InsertByAverage(x, xs)) == multiset(xs) + multiset{x}
  {
    if |xs| > 0 && xs[0].averagePercentage > x.averagePercentage {
      InsertPermutes(x, xs[1..]);
      assert xs == [xs[0]] + xs[1..];
    }
  }

  lemma {:induction false} InsertKeepsSorted(x: StudentResult, xs: seq<StudentResult>)
    requires SortedByAverage(xs)
    ensures SortedByAverage(InsertByAverage(x, xs))
  {
    if |xs| > 0 && xs[0].averagePercentage > x.averagePercentage {
      var rest := InsertByAverage(x, xs[1..]);
      InsertKeepsSorted(x, xs[1..]);
      InsertPermutes(x, xs[1..]);
      forall j | 0 <= j < |rest| ensures xs[0].averagePercentage >= rest[j].averagePercentage {
        assert rest[j] in multiset(rest);
        if rest[j] != x {
          assert rest[j] in multiset(xs[1..]);
          var k :| 0 <= k < |xs[1..]| && xs[1..][k] == rest[j];
          assert xs[k + 1] == rest[j];
        }
      }
    }
  }

  /** The ranking is a permutation of the rows. */
  lemma {:induction false} SortPermutes(xs: seq<StudentResult>)
    ensures multiset(SortByAverage(xs)) == multiset(xs)
  {
    if |xs| > 0 {
      SortPermutes(xs[1..]);
      InsertPermutes(xs[0], SortByAverage(xs[1..]));
      assert xs == [xs[0]] + xs[1..];
    }
  }

  /** The ranking is in non-increasing order of average. */
  lemma {:induction false} SortSorts(xs: seq<StudentResult>)
    ensures SortedByAverage(SortByAverage(xs))
  {
    if |xs| > 0 {
      SortSorts(xs[1..]);
      InsertKeepsSorted(xs[0], SortByAverage(xs[1..]));
    }
  }

  /** Rows already in ranking order are left exactly where they are. */
  lemma {:induction false} SortKeepsRankedRows(xs: seq<StudentResult>)
    requires SortedByAverage(xs)
    ensures SortByAverage(xs) == xs
  {
    if |xs| > 0 {
      assert SortedByAverage(xs[1..]);
      SortKeepsRankedRows(xs[1..]);
      assert xs == [xs[0]] + xs[1..];
    }
  }

  /** Whether a row has average `v`. */
  function WithAverage(v: real): StudentResult -> bool
  {
    (x: StudentResult) => x.averagePercentage == v
  }

  /** Inserting a row keeps the rows of every average in their order, the new row ahead of its equals. */
  lemma {:induction false} InsertStable(x: StudentResult, xs: seq<StudentResult>, v: real)
    ensures Filter(InsertByAverage(x, xs), WithAverage(v)) == Filter([x], WithAverage(v)) + Filter(xs, WithAverage(v))
  {
    var p := WithAverage(v);
    assert [x][..0] == [];
    if |xs| == 0 {
    } else if xs[0].averagePercentage <= x.averagePercentage {
      FilterAppend([x], xs, p);
    } else {
      assert [xs[0]][..0] == [];
      InsertStable(x, xs[1..], v);
      FilterAppend([xs[0]], InsertByAverage(x, xs[1..]), p);
      FilterAppend([xs[0]], xs[1..], p);
      assert xs == [xs[0]] + xs[1..];
    }
  }

  /**
   * The ranking is stable: the rows with any one average keep the relative order
   * they had in the input.
   */
  lemma {:induction false} SortStable(xs: seq<StudentResult>, v: real)
    ensures Filter(SortByAverage(xs), WithAverage(v)) == Filter(xs, WithAverage(v))
  {
    if |xs| > 0 {
      SortStable(xs[1..], v);
      InsertStable(xs[0], SortByAverage(xs[1..]), v);
      FilterAppend([xs[0]], xs[1..], WithAverage(v));
      assert xs == [xs[0]] + xs[1..];
    }
  }

  datatype ClassStats =
    | NoStudents
    | NoMarks(totalStudents: nat)
    | FullStats(totalStudents: nat, totalMarkEntries: nat, highestPercentage: real, lowestPercentage: real,
                averagePercentage: real, variance: real)

  datatype ClassResults = ClassResults(classId: ClassId, stats: ClassStats, students: seq<StudentResult>)

  function OfClassId(c: ClassId): MarksRecord -> bool
  {
    (m: MarksRecord) => m.classId == c
  }

  /** The row of a student of a class without marks: zero, with no letter. */
  function ZeroRow(s: UserId): StudentResult
  {
    StudentResult(s, 0.0, 0.0, 0.0, 0, None)
  }

  /** The rows of a class without marks: one zero row per roster student, in roster order. */
  function ZeroRows(roster: seq<UserId>): (rows: seq<StudentResult>)
    ensures |rows| == |roster|
    ensures forall i :: 0 <= i < |roster| ==> rows[i] == ZeroRow(roster[i])
  {
    seq(|roster|, i requires 0 <= i < |roster| => ZeroRow(roster[i]))
  }

  /** The statistics over the marks of a class with students and marks. */
  function MarkStats(students: nat, classMarks: seq<MarksRecord>): (st: ClassStats)
    requires |classMarks| > 0
    ensures st.FullStats? && st.totalStudents == students && st.totalMarkEntries == |classMarks|
    ensures st.highestPercentage == Max(PercentagesOf(classMarks)) && st.lowestPercentage == Min(PercentagesOf(classMarks))
    ensures st.averagePercentage == Round2(Mean(PercentagesOf(classMarks)))
    ensures st.variance == Variance(PercentagesOf(classMarks))
  {
    var ps := PercentagesOf(classMarks);
    FullStats(students, |classMarks|, Max(ps), Min(ps), Round2(Mean(ps)), Variance(ps))
  }

  /** One row per roster student, in roster order. */
  function Rows(classMarks: seq<MarksRecord>, roster: seq<UserId>): (rows: seq<StudentResult>)
    ensures |rows| == |roster|
    ensures forall i :: 0 <= i < |roster| ==> rows[i] == StudentRow(classMarks, roster[i])
  {
    seq(|roster|, i requires 0 <= i < |roster| => StudentRow(classMarks, roster[i]))
  }

  /**
   * `getClassResults` over the stored marks `rs`: 404 for a missing class; no
   * statistics for an empty roster; zero rows in roster order when the class has no
   * marks; otherwise the statistics of every mark of the class and one row per
   * roster student, ranked by average.
   */
  function GetClassResults(db: Db, rs: seq<MarksRecord>, c: ClassId): (r: Response<ClassResults>)
    ensures r.Ok? <==> c in db.classes
    ensures r.Err? ==> r == Err(404, "Class not found")
    ensures r.Ok? ==> r.value.classId == c && |r.value.students| == |LiveRoster(db, c)|
    ensures r.Ok? ==> (r.value.stats.NoStudents? <==> |LiveRoster(db, c)| == 0)
    ensures r.Ok? ==> (r.value.stats.NoMarks? <==> |LiveRoster(db, c)| > 0 && Count(rs, OfClassId(c)) == 0)
    ensures r.Ok? && r.value.stats.NoMarks? ==>
      r.value.stats.totalStudents == |LiveRoster(db, c)| && r.value.students == ZeroRows(LiveRoster(db, c))
    ensures r.Ok? && r.value.stats.FullStats? ==>
      && |Filter(rs, OfClassId(c))| > 0
      && r.value.stats == MarkStats(|LiveRoster(db, c)|, Filter(rs, OfClassId(c)))
      && r.value.students == SortByAverage(Rows(Filter(rs, OfClassId(c)), LiveRoster(db, c)))
  {
    if c !in db.classes then Err(404, "Class not found")
    else
      var roster := LiveRoster(db, c);
      var classMarks := Filter(rs, OfClassId(c));
      if |roster| == 0 then Ok(ClassResults(c, NoStudents, []))
      else if |classMarks| == 0 then Ok(ClassResults(c, NoMarks(|roster|), ZeroRows(roster)))
      else Ok(ClassResults(c, MarkStats(|roster|, classMarks), SortByAverage(Rows(classMarks, roster))))
  }

  /**
   * The ranked list is in non-increasing order of average and holds exactly the
   * roster's rows, each once.
   */
  lemma ClassResultsRanked(db: Db, rs: seq<MarksRecord>, c: ClassId)
    requires GetClassResults(db, rs, c).Ok?
    requires GetClassResults(db, rs, c).value.stats.FullStats?
    ensures SortedByAverage(GetClassResults(db, rs, c).value.students)
    ensures multiset(GetClassResults(db, rs, c).value.students) == multiset(Rows(Filter(rs, OfClassId(c)), LiveRoster(db, c)))
  {
    var rows := Rows(Filter(rs, OfClassId(c)), LiveRoster(db, c));
    SortSorts(rows);
    SortPermutes(rows);
  }

  /** Every listed student carries the letter of their own average, whatever their place in the ranking. */
  lemma ClassResultsGradesOwnAverage(db: Db, rs: seq<MarksRecord>, c: ClassId)
    requires GetClassResults(db, rs, c).Ok?
    requires GetClassResults(db, rs, c).value.stats.FullStats?
    ensures var xs := GetClassResults(db, rs, c).value.students;
      forall i :: 0 <= i < |xs| ==> xs[i].grade == Some(GradeFromPercentage(xs[i].averagePercentage))
  {
    var rows := Rows(Filter(rs, OfClassId(c)), LiveRoster(db, c));
    var xs := GetClassResults(db, rs, c).value.students;
    SortPermutes(rows);
    forall i | 0 <= i < |xs| ensures xs[i].grade == Some(GradeFromPercentage(xs[i].averagePercentage)) {
      assert xs[i] in multiset(rows);
    }
  }

  /** The class statistics bracket the mean between the extremes and have a non-negative variance. */
  lemma ClassResultsStatsOrdered(db: Db, rs: seq<MarksRecord>, c: ClassId)
    requires GetClassResults(db, rs, c).Ok?
    requires GetClassResults(db, rs, c).value.stats.FullStats?
    ensures var st := GetClassResults(db, rs, c).value.stats;
      && Round2(st.lowestPercentage) <= st.averagePercentage <= Round2(st.highestPercentage)
      && st.variance >= 0.0
      && st.totalMarkEntries == Count(rs, OfClassId(c))
  {
    var ps := PercentagesOf(Filter(rs, OfClassId(c)));
    MinMeanMax(ps);
    Round2Monotone(Min(ps), Mean(ps));
    Round2Monotone(Mean(ps), Max(ps));
    VarianceNonNegative(ps);
  }

  // ----- getDashboard -----

  /** The total number of submissions over a list of quizzes. */
  function QuizSubmissions(qs: seq<Quizzes.Quiz>): nat
  {
    if |qs| == 0 then 0 else QuizSubmissions(qs[..|qs| - 1]) + |qs[|qs| - 1].submissions|
  }

  /** The total number of submissions over a list of assignments. */
  function AssignmentSubmissions(as_: seq<Assignments.Assignment>): nat
  {
    if |as_| == 0 then 0 else AssignmentSubmissions(as_[..|as_| - 1]) + |as_[|as_| - 1].submissions|
  }

  lemma {:induction false} QuizSubmissionsBound(qs: seq<Quizzes.Quiz>, k: nat)
    requires forall i :: 0 <= i < |qs| ==> |qs[i].submissions| <= k
    ensures QuizSubmissions(qs) <= |qs| * k
    decreases |qs|
  {
    if |qs| > 0 {
      QuizSubmissionsBound(qs[..|qs| - 1], k);
    }
  }

  lemma {:induction false} AssignmentSubmissionsBound(as_: seq<Assignments.Assignment>, k: nat)
    requires forall i :: 0 <= i < |as_| ==> |as_[i].submissions| <= k
    ensures AssignmentSubmissions(as_) <= |as_| * k
    decreases |as_|
  {
    if |as_| > 0 {
      AssignmentSubmissionsBound(as_[..|as_| - 1], k);
    }
  }

  /** One class's entry of `progressData`. */
  datatype ClassProgress = ClassProgress(
    classId: ClassId,
    studentCount: nat,
    quizCount: nat,
    assignmentCount: nat,
    submissions: nat,
    completionRate: real)

  function QuizOfClass(c: ClassId): Quizzes.Quiz -> bool
  {
    (q: Quizzes.Quiz) => q.classId == c
  }

  function AssignmentOfClass(c: ClassId): Assignments.Assignment -> bool
  {
    (a: Assignments.Assignment) => a.classId == c
  }

  function QuizzesOf(qs: seq<Quizzes.Quiz>, c: ClassId): seq<Quizzes.Quiz>
  {
    Filter(qs, QuizOfClass(c))
  }

  function AssignmentsOf(as_: seq<Assignments.Assignment>, c: ClassId): seq<Assignments.Assignment>
  {
    Filter(as_, AssignmentOfClass(c))
  }

  /**
   * The completion rate of class `c` with the populated roster of `cd`: submissions
   * over assessments times students, as a percentage; 0 when nothing is expected.
   */
  function ProgressOfClass(users: map<UserId, Users.User>, c: ClassId, cd: ClassDoc, qs: seq<Quizzes.Quiz>,
                           as_: seq<Assignments.Assignment>): (p: ClassProgress)
    ensures p.quizCount == |QuizzesOf(qs, c)| && p.assignmentCount == |AssignmentsOf(as_, c)|
    ensures p.studentCount == |LiveStudents(users, cd)|
    ensures p.submissions == QuizSubmissions(QuizzesOf(qs, c)) + AssignmentSubmissions(AssignmentsOf(as_, c))
    ensures (p.quizCount + p.assignmentCount) * p.studentCount == 0 ==> p.completionRate == 0.0
    ensures (p.quizCount + p.assignmentCount) * p.studentCount > 0 ==>
      p.completionRate == Helpers.CalculatePercentage(p.submissions as real, ((p.quizCount + p.assignmentCount) * p.studentCount) as real)
  {
    var cq := QuizzesOf(qs, c);
    var ca := AssignmentsOf(as_, c);
    var total := QuizSubmissions(cq) + AssignmentSubmissions(ca);
    var n := |LiveStudents(users, cd)|;
    var expected := (|cq| + |ca|) * n;
    ClassProgress(c, n, |cq|, |ca|, total,
      if expected > 0 then Helpers.CalculatePercentage(total as real, expected as real) else 0.0)
  }

  /**
   * When no assessment of the class has more submissions than the class has
   * students, the completion rate is a percentage.
   */
  lemma CompletionRateInRange(users: map<UserId, Users.User>, c: ClassId, cd: ClassDoc, qs: seq<Quizzes.Quiz>,
                              as_: seq<Assignments.Assignment>)
    requires forall i :: 0 <= i < |qs| && qs[i].classId == c ==> |qs[i].submissions| <= |LiveStudents(users, cd)|
    requires forall i :: 0 <= i < |as_| && as_[i].classId == c ==> |as_[i].submissions| <= |LiveStudents(users, cd)|
    ensures 0.0 <= ProgressOfClass(users, c, cd, qs, as_).completionRate <= 100.0
  {
    var cq := QuizzesOf(qs, c);
    var ca := AssignmentsOf(as_, c);
    var k := |LiveStudents(users, cd)|;
    QuizSubmissionsBound(cq, k);
    AssignmentSubmissionsBound(ca, k);
    assert |cq| * k + |ca| * k == (|cq| + |ca|) * k;
  }

  /**
   * Submissions are not checked against the current roster: a class whose only
   * student left after two submissions to its one quiz reports 200 percent.
   */
  lemma CompletionCanExceedHundred(users: map<UserId, Users.User>, c: ClassId, cd: ClassDoc, q: Quizzes.Quiz)
    requires q.classId == c && |q.submissions| == 2 && |LiveStudents(users, cd)| == 1
    ensures ProgressOfClass(users, c, cd, [q], []).completionRate == 200.0
  {
    assert QuizzesOf([q], c) == [q] by {
      assert [q][..0] == [];
      assert QuizOfClass(c)(q);
    }
    assert AssignmentsOf([], c) == [];
    assert QuizSubmissions([q]) == 2 by {
      assert [q][..0] == [];
    }
    assert Round2(200.0) == 200.0;
  }

  datatype DashboardStats = DashboardStats(
    totalClasses: nat,
    totalStudents: nat,
    totalTeachers: nat,
    totalQuizzes: nat,
    totalAssignments: nat,
    averageProgress: real)

  datatype Dashboard = Dashboard(stats: DashboardStats, progress: seq<ClassProgress>)

  function Rates(ps: seq<ClassProgress>): (xs: seq<real>)
    ensures |xs| == |ps| && forall i :: 0 <= i < |ps| ==> xs[i] == ps[i].completionRate
  {
    seq(|ps|, i requires 0 <= i < |ps| => ps[i].completionRate)
  }

  /** The summed sizes of the populated rosters of `classes`. */
  function RosterSizes(users: map<UserId, Users.User>, classes: seq<(ClassId, ClassDoc)>): nat
  {
    if |classes| == 0 then 0
    else RosterSizes(users, classes[..|classes| - 1]) + |LiveStudents(users, classes[|classes| - 1].1)|
  }

  /** The ids of the teacher accounts. */
  function TeacherIds(users: map<UserId, Users.User>): set<UserId>
  {
    set u | u in users && Users.IsTeacher(users[u])
  }

  /** The classes with `isActive` set, in stored order. */
  function ActiveClasses(classes: seq<(ClassId, ClassDoc)>): (active: seq<(ClassId, ClassDoc)>)
    ensures forall i :: 0 <= i < |active| ==> active[i].1.isActive && active[i] in classes
    ensures forall i :: 0 <= i < |classes| && classes[i].1.isActive ==> classes[i] in active
  {
    Filter(classes, (p: (ClassId, ClassDoc)) => p.1.isActive)
  }

  /** One progress entry per class, in the classes' order. */
  function ClassProgresses(users: map<UserId, Users.User>, classes: seq<(ClassId, ClassDoc)>, qs: seq<Quizzes.Quiz>,
                           as_: seq<Assignments.Assignment>): (ps: seq<ClassProgress>)
    ensures |ps| == |classes|
    ensures forall i :: 0 <= i < |classes| ==> ps[i] == ProgressOfClass(users, classes[i].0, classes[i].1, qs, as_)
  {
    seq(|classes|, i requires 0 <= i < |classes| => ProgressOfClass(users, classes[i].0, classes[i].1, qs, as_))
  }

  /** The ids of a list of classes, in order. */
  function ClassIdsOf(classes: seq<(ClassId, ClassDoc)>): (ids: seq<ClassId>)
    ensures |ids| == |classes| && forall i :: 0 <= i < |classes| ==> ids[i] == classes[i].0
  {
    seq(|classes|, i requires 0 <= i < |classes| => classes[i].0)
  }

  function QuizInClasses(ids: seq<ClassId>): Quizzes.Quiz -> bool
  {
    (q: Quizzes.Quiz) => q.classId in ids
  }

  function AssignmentInClasses(ids: seq<ClassId>): Assignments.Assignment -> bool
  {
    (a: Assignments.Assignment) => a.classId in ids
  }

  /** The `$in` query on quizzes: those whose class is one of `ids`, in stored order. */
  function QuizzesIn(qs: seq<Quizzes.Quiz>, ids: seq<ClassId>): (r: seq<Quizzes.Quiz>)
    ensures forall q :: q in r <==> q in qs && q.classId in ids
  {
    Filter(qs, QuizInClasses(ids))
  }

  /** The `$in` query on assignments: those whose class is one of `ids`, in stored order. */
  function AssignmentsIn(as_: seq<Assignments.Assignment>, ids: seq<ClassId>): (r: seq<Assignments.Assignment>)
    ensures forall a :: a in r <==> a in as_ && a.classId in ids
  {
    Filter(as_, AssignmentInClasses(ids))
  }

  /**
   * `getDashboard` over the classes in stored order and the quiz and assignment
   * collections: only active classes count, and with none of them every figure is 0,
   * the teacher count included.
   */
  function GetDashboard(db: Db, classes: seq<(ClassId, ClassDoc)>, qs: seq<Quizzes.Quiz>, as_: seq<Assignments.Assignment>): (d: Dashboard)
    ensures d.stats.totalClasses == |ActiveClasses(classes)|
    ensures d.progress == ClassProgresses(db.users, ActiveClasses(classes), qs, as_)
    ensures |ActiveClasses(classes)| == 0 ==> d.stats == DashboardStats(0, 0, 0, 0, 0, 0.0)
    ensures |ActiveClasses(classes)| > 0 ==> d.stats.totalTeachers == |TeacherIds(db.users)|
    ensures |ActiveClasses(classes)| > 0 ==> d.stats.totalStudents == RosterSizes(db.users, ActiveClasses(classes))
    ensures |ActiveClasses(classes)| > 0 ==>
      && d.stats.totalQuizzes == |QuizzesIn(qs, ClassIdsOf(ActiveClasses(classes)))|
      && d.stats.totalAssignments == |AssignmentsIn(as_, ClassIdsOf(ActiveClasses(classes)))|
    ensures |ActiveClasses(classes)| > 0 ==> d.stats.averageProgress == Round2(Mean(Rates(d.progress)))
  {
    var active := ActiveClasses(classes);
    if |active| == 0 then Dashboard(DashboardStats(0, 0, 0, 0, 0, 0.0), [])
    else
      var ids := ClassIdsOf(active);
      var progress := ClassProgresses(db.users, active, qs, as_);
      var rates := Rates(progress);
      Dashboard(DashboardStats(|active|, RosterSizes(db.users, active), |TeacherIds(db.users)|,
        |QuizzesIn(qs, ids)|, |AssignmentsIn(as_, ids)|, Round2(Sum(rates) / |rates| as real)), progress)
  }

  /** The sums over the progress rows of their student, quiz and assignment counts. */
  function StudentCounts(ps: seq<ClassProgress>): nat
  {
    if |ps| == 0 then 0 else StudentCounts(ps[..|ps| - 1]) + ps[|ps| - 1].studentCount
  }

  function QuizCounts(ps: seq<ClassProgress>): nat
  {
    if |ps| == 0 then 0 else QuizCounts(ps[..|ps| - 1]) + ps[|ps| - 1].quizCount
  }

  function AssignmentCounts(ps: seq<ClassProgress>): nat
  {
    if |ps| == 0 then 0 else AssignmentCounts(ps[..|ps| - 1]) + ps[|ps| - 1].assignmentCount
  }

  /** No class appears twice, as in the result of a query. */
  predicate DistinctIds(classes: seq<(ClassId, ClassDoc)>)
  {
    forall i, j :: 0 <= i < j < |classes| ==> classes[i].0 != classes[j].0
  }

  lemma {:induction false} StudentTotalsAddUp(users: map<UserId, Users.User>, classes: seq<(ClassId, ClassDoc)>,
                                              qs: seq<Quizzes.Quiz>, as_: seq<Assignments.Assignment>)
    ensures RosterSizes(users, classes) == StudentCounts(ClassProgresses(users, classes, qs, as_))
    decreases |classes|
  {
    if |classes| > 0 {
      var n := |classes| - 1;
      StudentTotalsAddUp(users, classes[..n], qs, as_);
      assert ClassProgresses(users, classes, qs, as_)[..n] == ClassProgresses(users, classes[..n], qs, as_);
    }
  }

  /** Adding a class not yet listed adds that class's quizzes to the `$in` query. */
  lemma QuizzesInSnoc(qs: seq<Quizzes.Quiz>, ids: seq<ClassId>, c: ClassId)
    requires c !in ids
    ensures |QuizzesIn(qs, ids + [c])| == |QuizzesIn(qs, ids)| + |QuizzesOf(qs, c)|
  {
    forall q ensures !(QuizInClasses(ids)(q) && QuizOfClass(c)(q)) {
    }
    forall q ensures QuizInClasses(ids + [c])(q) == (QuizInClasses(ids)(q) || QuizOfClass(c)(q)) {
    }
    CountDisjoint(qs, QuizInClasses(ids), QuizOfClass(c), QuizInClasses(ids + [c]));
  }

  /** Adding a class not yet listed adds that class's assignments to the `$in` query. */
  lemma AssignmentsInSnoc(as_: seq<Assignments.Assignment>, ids: seq<ClassId>, c: ClassId)
    requires c !in ids
    ensures |AssignmentsIn(as_, ids + [c])| == |AssignmentsIn(as_, ids)| + |AssignmentsOf(as_, c)|
  {
    forall a ensures !(AssignmentInClasses(ids)(a) && AssignmentOfClass(c)(a)) {
    }
    forall a ensures AssignmentInClasses(ids + [c])(a) == (AssignmentInClasses(ids)(a) || AssignmentOfClass(c)(a)) {
    }
    CountDisjoint(as_, AssignmentInClasses(ids), AssignmentOfClass(c), AssignmentInClasses(ids + [c]));
  }

  /** The last class of a non-empty list, split off from the ids and the progress rows. */
  lemma ProgressSnoc(users: map<UserId, Users.User>, classes: seq<(ClassId, ClassDoc)>,
                     qs: seq<Quizzes.Quiz>, as_: seq<Assignments.Assignment>)
    requires |classes| > 0
    ensures var n := |classes| - 1;
      && ClassIdsOf(classes) == ClassIdsOf(classes[..n]) + [classes[n].0]
      && ClassProgresses(users, classes, qs, as_)[..n] == ClassProgresses(users, classes[..n], qs, as_)
  {
  }

  lemma {:induction false} QuizTotalsAddUp(users: map<UserId, Users.User>, classes: seq<(ClassId, ClassDoc)>,
                                           qs: seq<Quizzes.Quiz>, as_: seq<Assignments.Assignment>)
    requires DistinctIds(classes)
    ensures |QuizzesIn(qs, ClassIdsOf(classes))| == QuizCounts(ClassProgresses(users, classes, qs, as_))
    decreases |classes|
  {
    if |classes| == 0 {
      FilterNone(qs, QuizInClasses(ClassIdsOf(classes)));
    } else {
      var n := |classes| - 1;
      var c := classes[n].0;
      var init := ClassIdsOf(classes[..n]);
      QuizTotalsAddUp(users, classes[..n], qs, as_);
      ProgressSnoc(users, classes, qs, as_);
      assert c !in init;
      QuizzesInSnoc(qs, init, c);
    }
  }

  lemma {:induction false} AssignmentTotalsAddUp(users: map<UserId, Users.User>, classes: seq<(ClassId, ClassDoc)>,
                                                 qs: seq<Quizzes.Quiz>, as_: seq<Assignments.Assignment>)
    requires DistinctIds(classes)
    ensures |AssignmentsIn(as_, ClassIdsOf(classes))| == AssignmentCounts(ClassProgresses(users, classes, qs, as_))
    decreases |classes|
  {
    if |classes| == 0 {
      FilterNone(as_, AssignmentInClasses(ClassIdsOf(classes)));
    } else {
      var n := |classes| - 1;
      var c := classes[n].0;
      var init := ClassIdsOf(classes[..n]);
      AssignmentTotalsAddUp(users, classes[..n], qs, as_);
      ProgressSnoc(users, classes, qs, as_);
      assert c !in init;
      AssignmentsInSnoc(as_, init, c);
    }
  }

  /**
   * The dashboard's totals are the sums of its per-class rows: students, quizzes
   * and assignments (each class listed once, as the query returns it).
   */
  lemma DashboardTotalsAddUp(db: Db, classes: seq<(ClassId, ClassDoc)>, qs: seq<Quizzes.Quiz>, as_: seq<Assignments.Assignment>)
    requires DistinctIds(ActiveClasses(classes))
    ensures var d := GetDashboard(db, classes, qs, as_);
      && d.stats.totalStudents == StudentCounts(d.progress)
      && d.stats.totalQuizzes == QuizCounts(d.progress)
      && d.stats.totalAssignments == AssignmentCounts(d.progress)
  {
    var active := ActiveClasses(classes);
    StudentTotalsAddUp(db.users, active, qs, as_);
    QuizTotalsAddUp(db.users, active, qs, as_);
    AssignmentTotalsAddUp(db.users, active, qs, as_);
  }

  /** When every class's completion rate is a percentage, so is the average progress. */
  lemma AverageProgressInRange(db: Db, classes: seq<(ClassId, ClassDoc)>, qs: seq<Quizzes.Quiz>, as_: seq<Assignments.Assignment>)
    requires forall i :: 0 <= i < |GetDashboard(db, classes, qs, as_).progress| ==>
      0.0 <= GetDashboard(db, classes, qs, as_).progress[i].completionRate <= 100.0
    ensures 0.0 <= GetDashboard(db, classes, qs, as_).stats.averageProgress <= 100.0
  {
    var d := GetDashboard(db, classes, qs, as_);
    if |d.progress| > 0 {
      var rates := Rates(d.progress);
      MeanBounds(rates, 0.0, 100.0);
    }
  }
}
