/**
 * The head's progress graphs: the marks a query selects, grouped per student in
 * the order they were recorded, with each student's mean, extremes and trend
 * (`getProgressGraph`), and one student's statistics and trend (`getStudentGraph`).
 */
module Progress {
  import opened Wrappers
  import opened Ids
  import opened Seqs
  import opened Numeric
  import opened Trends
  import opened Marks
  import opened Store

  // ----- per-student extremes -----

  /** `highestMark`: starts at 0 and is raised to every larger percentage in turn. */
  function HighestMark(ps: seq<real>): (h: real)
    ensures h >= 0.0
    ensures forall i :: 0 <= i < |ps| ==> ps[i] <= h
    ensures h == 0.0 || h in ps
  {
    if |ps| == 0 then 0.0
    else
      var h0 := HighestMark(ps[..|ps| - 1]);
      if ps[|ps| - 1] > h0 then ps[|ps| - 1] else h0
  }

  /** `lowestMark`: starts at 100 and is lowered to every smaller percentage in turn. */
  function LowestMark(ps: seq<real>): (l: real)
    ensures l <= 100.0
    ensures forall i :: 0 <= i < |ps| ==> l <= ps[i]
    ensures l == 100.0 || l in ps
  {
    if |ps| == 0 then 100.0
    else
      var l0 := LowestMark(ps[..|ps| - 1]);
      if ps[|ps| - 1] < l0 then ps[|ps| - 1] else l0
  }

  /** With no negative percentage, the running highest is the plain maximum. */
  lemma HighestIsMax(ps: seq<real>)
    requires |ps| > 0
    requires forall i :: 0 <= i < |ps| ==> ps[i] >= 0.0
    ensures HighestMark(ps) == Max(ps)
  {
    var h := HighestMark(ps);
    if h !in ps {
      assert ps[0] <= Max(ps);
    }
  }

  /** With no percentage above 100, the running lowest is the plain minimum. */
  lemma LowestIsMin(ps: seq<real>)
    requires |ps| > 0
    requires forall i :: 0 <= i < |ps| ==> ps[i] <= 100.0
    ensures LowestMark(ps) == Min(ps)
  {
    var l := LowestMark(ps);
    if l !in ps {
      assert Min(ps) <= ps[0];
    }
  }

  /** A student whose every percentage is above 100 still reports a lowest mark of 100, which none of them is. */
  lemma LowestCapsAtHundred()
    ensures LowestMark([120.0]) == 100.0 && Min([120.0]) == 120.0
  {
  }

  // ----- getProgressGraph -----

  /** The optional query parameters: a student, a class, and an inclusive date range on `createdAt`. */
  datatype GraphQuery = GraphQuery(
    studentId: Option<UserId>,
    classId: Option<ClassId>,
    startDate: Option<Time>,
    endDate: Option<Time>)

  /** The filter the query builds: every given parameter restricts, and the others do not. */
  predicate Selected(q: GraphQuery, m: MarksRecord)
  {
    && (q.studentId.Some? ==> m.studentId == q.studentId.value)
    && (q.classId.Some? ==> m.classId == q.classId.value)
    && (q.startDate.Some? ==> m.createdAt >= q.startDate.value)
    && (q.endDate.Some? ==> m.createdAt <= q.endDate.value)
  }

  function SelectedBy(q: GraphQuery): MarksRecord -> bool
  {
    (m: MarksRecord) => Selected(q, m)
  }

  /** The index of the first record of student `s`, or `|rs|` when there is none. */
  function FirstRecord(rs: seq<MarksRecord>, s: UserId): (i: nat)
    ensures i <= |rs|
    ensures i < |rs| ==> rs[i].studentId == s
    ensures forall j :: 0 <= j < i ==> rs[j].studentId != s
  {
    if |rs| == 0 then 0 else if rs[0].studentId == s then 0 else 1 + FirstRecord(rs[1..], s)
  }

  /** A student first recorded within a prefix is first recorded at the same place in the whole. */
  lemma FirstRecordPrefix(rs: seq<MarksRecord>, n: nat, s: UserId)
    requires n <= |rs| && FirstRecord(rs[..n], s) < n
    ensures FirstRecord(rs, s) == FirstRecord(rs[..n], s)
  {
    var a := FirstRecord(rs[..n], s);
    assert rs[a].studentId == s;
  }

  /**
   * The students of `rs`, each once, in the order of their first record: the keys
   * of the grouping object in insertion order (`StudentsInFirstRecordOrder`).
   */
  function StudentsInOrder(rs: seq<MarksRecord>): (ids: seq<UserId>)
    ensures NoDuplicates(ids)
    ensures forall i :: 0 <= i < |rs| ==> rs[i].studentId in ids
    ensures forall k :: 0 <= k < |ids| ==> exists i :: 0 <= i < |rs| && rs[i].studentId == ids[k]
  {
    if |rs| == 0 then []
    else
      var init := StudentsInOrder(rs[..|rs| - 1]);
      var s := rs[|rs| - 1].studentId;
      assert forall k :: 0 <= k < |init| ==> exists i :: 0 <= i < |rs| && rs[i].studentId == init[k] by {
        forall k | 0 <= k < |init| ensures exists i :: 0 <= i < |rs| && rs[i].studentId == init[k] {
          var i :| 0 <= i < |rs| - 1 && rs[..|rs| - 1][i].studentId == init[k];
          assert rs[i].studentId == init[k];
        }
      }
      assert forall i :: 0 <= i < |rs| - 1 ==> rs[i].studentId in init by {
        forall i | 0 <= i < |rs| - 1 ensures rs[i].studentId in init {
          assert rs[..|rs| - 1][i] == rs[i];
        }
      }
      if s in init then init else init + [s]
  }

  /** `ids` lists students in strictly increasing order of their first record in `rs`. */
  predicate InFirstRecordOrder(rs: seq<MarksRecord>, ids: seq<UserId>)
  {
    forall j, k :: 0 <= j < k < |ids| ==> FirstRecord(rs, ids[j]) < FirstRecord(rs, ids[k]) < |rs|
  }

  /**
   * The students are listed in the order of their first records: the key order a
   * JavaScript object gives to keys inserted one record at a time.
   */
  lemma {:induction false} StudentsInFirstRecordOrder(rs: seq<MarksRecord>)
    ensures InFirstRecordOrder(rs, StudentsInOrder(rs))
  {
    if |rs| > 0 {
      var pre := rs[..|rs| - 1];
      var init := StudentsInOrder(pre);
      StudentsInFirstRecordOrder(pre);
      FirstRecordsKept(rs, pre, init);
      KeptOrder(rs, pre, init);
      if rs[|rs| - 1].studentId !in init {
        NewStudentLast(rs, pre, init);
        AppendedOrder(rs, pre, init);
      }
    }
  }

  /** Students already recorded before the last record keep their relative order. */
  lemma KeptOrder(rs: seq<MarksRecord>, pre: seq<MarksRecord>, init: seq<UserId>)
    requires |rs| > 0 && pre == rs[..|rs| - 1]
    requires forall k :: 0 <= k < |init| ==> FirstRecord(rs, init[k]) == FirstRecord(pre, init[k]) < |pre|
    requires InFirstRecordOrder(pre, init)
    ensures InFirstRecordOrder(rs, init)
  {
  }

  /** Students already recorded before the last record keep their first record. */
  lemma FirstRecordsKept(rs: seq<MarksRecord>, pre: seq<MarksRecord>, init: seq<UserId>)
    requires |rs| > 0 && pre == rs[..|rs| - 1]
    requires forall k :: 0 <= k < |init| ==> exists i :: 0 <= i < |pre| && pre[i].studentId == init[k]
    ensures forall k :: 0 <= k < |init| ==> FirstRecord(rs, init[k]) == FirstRecord(pre, init[k]) < |pre|
  {
    forall k | 0 <= k < |init| ensures FirstRecord(rs, init[k]) == FirstRecord(pre, init[k]) < |pre| {
      var i :| 0 <= i < |pre| && pre[i].studentId == init[k];
      FirstRecordPrefix(rs, |pre|, init[k]);
    }
  }

  /** A student first met in the last record is first recorded there. */
  lemma NewStudentLast(rs: seq<MarksRecord>, pre: seq<MarksRecord>, init: seq<UserId>)
    requires |rs| > 0 && pre == rs[..|rs| - 1]
    requires forall i :: 0 <= i < |pre| ==> pre[i].studentId in init
    requires rs[|rs| - 1].studentId !in init
    ensures FirstRecord(rs, rs[|rs| - 1].studentId) == |pre|
  {
    forall i | 0 <= i < |pre| ensures rs[i].studentId != rs[|rs| - 1].studentId {
      assert pre[i] == rs[i];
    }
  }

  /** Appending the student of the last record, first recorded there, keeps the order. */
  lemma AppendedOrder(rs: seq<MarksRecord>, pre: seq<MarksRecord>, init: seq<UserId>)
    requires |rs| > 0 && pre == rs[..|rs| - 1]
    requires InFirstRecordOrder(rs, init)
    requires forall k :: 0 <= k < |init| ==> FirstRecord(rs, init[k]) < |pre|
    requires FirstRecord(rs, rs[|rs| - 1].studentId) == |pre|
    ensures InFirstRecordOrder(rs, init + [rs[|rs| - 1].studentId])
  {
    var ids := init + [rs[|rs| - 1].studentId];
    forall j, k | 0 <= j < k < |ids| ensures FirstRecord(rs, ids[j]) < FirstRecord(rs, ids[k]) < |rs| {
      AppendedPair(rs, pre, init, ids, j, k);
    }
  }

  lemma AppendedPair(rs: seq<MarksRecord>, pre: seq<MarksRecord>, init: seq<UserId>, ids: seq<UserId>, j: nat, k: nat)
    requires |rs| > 0 && |pre| == |rs| - 1 && ids == init + [rs[|rs| - 1].studentId] && j < k < |ids|
    requires InFirstRecordOrder(rs, init)
    requires forall k :: 0 <= k < |init| ==> FirstRecord(rs, init[k]) < |pre|
    requires FirstRecord(rs, rs[|rs| - 1].studentId) == |pre|
    ensures FirstRecord(rs, ids[j]) < FirstRecord(rs, ids[k]) < |rs|
  {
    assert ids[j] == init[j];
    if k < |init| {
      assert ids[k] == init[k];
    } else {
      assert ids[k] == rs[|rs| - 1].studentId;
    }
  }

  function ByStudent(s: UserId): MarksRecord -> bool
  {
    (m: MarksRecord) => m.studentId == s
  }

  /** The records of student `s`, in order. */
  function GroupOf(rs: seq<MarksRecord>, s: UserId): (g: seq<MarksRecord>)
    ensures forall i :: 0 <= i < |g| ==> g[i].studentId == s && g[i] in rs
    ensures forall i :: 0 <= i < |rs| && rs[i].studentId == s ==> rs[i] in g
    ensures (exists i :: 0 <= i < |rs| && rs[i].studentId == s) ==> |g| > 0
  {
    Filter(rs, ByStudent(s))
  }

  /** One entry of `studentDetails`. `totalMarks` is the sum of the percentages, as the source accumulates it. */
  datatype StudentProgress = StudentProgress(
    studentId: UserId,
    records: seq<MarksRecord>,
    totalMarks: real,
    averageMarks: real,
    highestMark: real,
    lowestMark: real,
    trend: Trend,
    trendPercentage: Option<JsNumber>)

  /** The entry of a student with records `mine`: the trend percentage is only set from two records on. */
  function ProgressOf(s: UserId, mine: seq<MarksRecord>): (p: StudentProgress)
    requires |mine| > 0
    ensures p.studentId == s && p.records == mine
    ensures p.totalMarks == Sum(PercentagesOf(mine))
    ensures p.averageMarks == Round2(Mean(PercentagesOf(mine)))
    ensures p.highestMark == HighestMark(PercentagesOf(mine)) && p.lowestMark == LowestMark(PercentagesOf(mine))
    ensures p.trend == AbsoluteTrend(PercentagesOf(mine))
    ensures p.trendPercentage.Some? <==> |mine| >= 2
    ensures |mine| >= 2 ==> p.trendPercentage == Some(TrendPercentage(PercentagesOf(mine)))
    ensures Round2(Min(PercentagesOf(mine))) <= p.averageMarks <= Round2(Max(PercentagesOf(mine)))
  {
    var ps := PercentagesOf(mine);
    MinMeanMax(ps);
    Round2Monotone(Min(ps), Mean(ps));
    Round2Monotone(Mean(ps), Max(ps));
    StudentProgress(s, mine, Sum(ps), Round2(Mean(ps)), HighestMark(ps), LowestMark(ps),
      AbsoluteTrend(ps), if |ps| >= 2 then Some(TrendPercentage(ps)) else None)
  }

  datatype OverallStats = OverallStats(
    totalStudents: nat,
    classAverage: real,
    highestOverall: real,
    lowestOverall: real,
    studentsImproving: nat,
    studentsDeclining: nat,
    studentsStable: nat)

  function Averages(g: seq<StudentProgress>): (xs: seq<real>)
    ensures |xs| == |g| && forall i :: 0 <= i < |g| ==> xs[i] == g[i].averageMarks
  {
    seq(|g|, i requires 0 <= i < |g| => g[i].averageMarks)
  }

  function Highests(g: seq<StudentProgress>): (xs: seq<real>)
    ensures |xs| == |g| && forall i :: 0 <= i < |g| ==> xs[i] == g[i].highestMark
  {
    seq(|g|, i requires 0 <= i < |g| => g[i].highestMark)
  }

  function Lowests(g: seq<StudentProgress>): (xs: seq<real>)
    ensures |xs| == |g| && forall i :: 0 <= i < |g| ==> xs[i] == g[i].lowestMark
  {
    seq(|g|, i requires 0 <= i < |g| => g[i].lowestMark)
  }

  function WithTrend(t: Trend): StudentProgress -> bool
  {
    (p: StudentProgress) => p.trend == t
  }

  /** `overallStats`: the mean of the student averages, the extreme extremes, and the students per trend. */
  function OverallOf(g: seq<StudentProgress>): (o: OverallStats)
    requires |g| > 0
    ensures o.totalStudents == |g|
    ensures o.classAverage == Round2(Mean(Averages(g)))
    ensures o.highestOverall == Max(Highests(g)) && o.lowestOverall == Min(Lowests(g))
    ensures o.studentsImproving == Count(g, WithTrend(Improving))
    ensures o.studentsDeclining == Count(g, WithTrend(Declining))
    ensures o.studentsStable == Count(g, WithTrend(Stable))
    ensures forall i :: 0 <= i < |g| ==> o.lowestOverall <= g[i].lowestMark && g[i].highestMark <= o.highestOverall
  {
    OverallStats(|g|, Round2(Mean(Averages(g))), Max(Highests(g)), Min(Lowests(g)),
      Count(g, WithTrend(Improving)), Count(g, WithTrend(Declining)), Count(g, WithTrend(Stable)))
  }

  /** Every student is counted under exactly one trend. */
  lemma TrendCountsPartition(g: seq<StudentProgress>)
    requires |g| > 0
    ensures OverallOf(g).studentsImproving + OverallOf(g).studentsDeclining + OverallOf(g).studentsStable == |g|
  {
    var moving := (p: StudentProgress) => p.trend != Stable;
    CountDisjoint(g, WithTrend(Improving), WithTrend(Declining), moving);
    CountComplement(g, moving, WithTrend(Stable));
  }

  datatype ProgressGraph = ProgressGraph(overall: OverallStats, students: seq<StudentProgress>)

  /** One entry per selected student, in the order of their first selected record. */
  function Entries(matched: seq<MarksRecord>): (g: seq<StudentProgress>)
    ensures |g| == |StudentsInOrder(matched)|
    ensures forall k :: 0 <= k < |g| ==>
      g[k] == ProgressOf(StudentsInOrder(matched)[k], GroupOf(matched, StudentsInOrder(matched)[k]))
  {
    var ids := StudentsInOrder(matched);
    seq(|ids|, k requires 0 <= k < |ids| => ProgressOf(ids[k], GroupOf(matched, ids[k])))
  }

  /** The records the query selects, in stored order. */
  function Matched(rs: seq<MarksRecord>, q: GraphQuery): (m: seq<MarksRecord>)
    ensures forall i :: 0 <= i < |m| ==> Selected(q, m[i]) && m[i] in rs
    ensures forall i :: 0 <= i < |rs| && Selected(q, rs[i]) ==> rs[i] in m
  {
    Filter(rs, SelectedBy(q))
  }

  predicate StudentsExist(db: Db, ms: seq<MarksRecord>)
  {
    forall i :: 0 <= i < |ms| ==> ms[i].studentId in db.users
  }

  /**
   * `getProgressGraph` over the stored marks `rs` (in `createdAt` order): 404 for a
   * missing class or an empty selection; a selected record whose student no longer
   * exists makes the handler fail on the missing populated document, which it answers with 500.
   */
  function GetProgressGraph(db: Db, rs: seq<MarksRecord>, q: GraphQuery): (r: Response<ProgressGraph>)
    ensures q.classId.Some? && q.classId.value !in db.classes ==> r == Err(404, "Class not found")
    ensures r.Ok? <==>
      && (q.classId.Some? ==> q.classId.value in db.classes)
      && |Matched(rs, q)| > 0
      && StudentsExist(db, Matched(rs, q))
    ensures r.Ok? ==> r.value.students == Entries(Matched(rs, q)) && r.value.overall == OverallOf(r.value.students)
  {
    if q.classId.Some? && q.classId.value !in db.classes then Err(404, "Class not found")
    else
      var matched := Matched(rs, q);
      if |matched| == 0 then
        Err(404, "No marks data found")
      else if !StudentsExist(db, matched) then
        Err(500, "Server error")
      else
        var g := Entries(matched);
        assert |g| > 0 by {
          assert matched[0].studentId in StudentsInOrder(matched);
        }
        Ok(ProgressGraph(OverallOf(g), g))
  }

  /** The selection is empty exactly when no stored record satisfies the query. */
  lemma MatchedEmpty(rs: seq<MarksRecord>, q: GraphQuery)
    ensures |Matched(rs, q)| == 0 <==> forall i :: 0 <= i < |rs| ==> !Selected(q, rs[i])
  {
    if |Matched(rs, q)| > 0 {
      var m := Matched(rs, q);
      assert m[0] in rs;
    }
  }

  /** The entries name every student of the selection at most once. */
  lemma EntriesDistinct(matched: seq<MarksRecord>)
    ensures forall j, k :: 0 <= j < k < |Entries(matched)| ==> Entries(matched)[j].studentId != Entries(matched)[k].studentId
  {
    var ids := StudentsInOrder(matched);
    var g := Entries(matched);
    forall j, k | 0 <= j < k < |g| ensures g[j].studentId != g[k].studentId {
      assert g[j].studentId == ids[j] && g[k].studentId == ids[k];
    }
  }

  /** Each entry holds exactly its student's records, in order. */
  lemma EntriesRecords(matched: seq<MarksRecord>)
    ensures forall k :: 0 <= k < |Entries(matched)| ==>
      Entries(matched)[k].records == GroupOf(matched, Entries(matched)[k].studentId)
  {
    var ids := StudentsInOrder(matched);
    var g := Entries(matched);
    forall k | 0 <= k < |g| ensures g[k].records == GroupOf(matched, g[k].studentId) {
      assert g[k] == ProgressOf(ids[k], GroupOf(matched, ids[k]));
    }
  }

  /** The query's filter with the student restricted to `s`. */
  function SelectedFor(q: GraphQuery, s: UserId): MarksRecord -> bool
  {
    (m: MarksRecord) => Selected(q, m) && m.studentId == s
  }

  lemma EntryOf(matched: seq<MarksRecord>, j: nat)
    requires j < |matched|
    ensures exists k :: 0 <= k < |Entries(matched)| && Entries(matched)[k].studentId == matched[j].studentId
  {
    var ids := StudentsInOrder(matched);
    var k :| 0 <= k < |ids| && ids[k] == matched[j].studentId;
    assert Entries(matched)[k].studentId == ids[k];
  }

  lemma EntriesCoverSelection(rs: seq<MarksRecord>, q: GraphQuery)
    ensures var g := Entries(Matched(rs, q));
      forall i :: 0 <= i < |rs| && Selected(q, rs[i]) ==> exists k :: 0 <= k < |g| && g[k].studentId == rs[i].studentId
  {
    var matched := Matched(rs, q);
    forall i | 0 <= i < |rs| && Selected(q, rs[i])
      ensures exists k :: 0 <= k < |Entries(matched)| && Entries(matched)[k].studentId == rs[i].studentId
    {
      assert rs[i] in matched;
      var j :| 0 <= j < |matched| && matched[j] == rs[i];
      EntryOf(matched, j);
    }
  }

  /** Grouping the selection by student is selecting by the query and the student together. */
  lemma GroupOfMatched(rs: seq<MarksRecord>, q: GraphQuery, s: UserId)
    ensures GroupOf(Matched(rs, q), s) == Filter(rs, SelectedFor(q, s))
  {
    FilterFilter(rs, SelectedBy(q), ByStudent(s));
    CountCongruent(rs, (m: MarksRecord) => SelectedBy(q)(m) && ByStudent(s)(m), SelectedFor(q, s));
  }

  /** Every selected record's student has an entry in the graph. */
  lemma ProgressGraphCoversSelection(db: Db, rs: seq<MarksRecord>, q: GraphQuery)
    requires GetProgressGraph(db, rs, q).Ok?
    ensures var g := GetProgressGraph(db, rs, q).value.students;
      forall i :: 0 <= i < |rs| && Selected(q, rs[i]) ==> exists k :: 0 <= k < |g| && g[k].studentId == rs[i].studentId
  {
    assert GetProgressGraph(db, rs, q).value.students == Entries(Matched(rs, q));
    EntriesCoverSelection(rs, q);
  }

  /** Each entry of the graph holds exactly its student's selected records, in stored order. */
  lemma ProgressGraphGroups(db: Db, rs: seq<MarksRecord>, q: GraphQuery)
    requires GetProgressGraph(db, rs, q).Ok?
    ensures var g := GetProgressGraph(db, rs, q).value.students;
      forall k :: 0 <= k < |g| ==> g[k].records == Filter(rs, SelectedFor(q, g[k].studentId))
  {
    var matched := Matched(rs, q);
    var g := Entries(matched);
    assert GetProgressGraph(db, rs, q).value.students == g;
    EntriesRecords(matched);
    forall k | 0 <= k < |g|
      ensures g[k].records == Filter(rs, SelectedFor(q, g[k].studentId))
    {
      GroupOfMatched(rs, q, g[k].studentId);
    }
  }

  /** Every selected student is counted under exactly one trend in the overall statistics. */
  lemma ProgressGraphTrendsPartition(db: Db, rs: seq<MarksRecord>, q: GraphQuery)
    requires GetProgressGraph(db, rs, q).Ok?
    ensures var o := GetProgressGraph(db, rs, q).value.overall;
      o.studentsImproving + o.studentsDeclining + o.studentsStable == o.totalStudents
  {
    var g := GetProgressGraph(db, rs, q).value.students;
    TrendCountsPartition(g);
  }

  // ----- getStudentGraph -----

  datatype StudentStats = StudentStats(
    totalEntries: nat,
    averagePercentage: real,
    highestPercentage: real,
    lowestPercentage: real,
    variance: real)

  datatype StudentGraph = StudentGraph(stats: StudentStats, trend: Trend, trendPercentage: JsNumber, records: seq<MarksRecord>)

  /**
   * `getStudentGraph`: 404 for an unknown user or a user without marks; otherwise
   * the statistics of the student's percentages and their relative trend, with a
   * trend percentage of 0 below two records.
   */
  function GetStudentGraph(db: Db, rs: seq<MarksRecord>, s: UserId): (r: Response<StudentGraph>)
    ensures s !in db.users ==> r == Err(404, "Student not found")
    ensures r.Ok? <==> s in db.users && exists i :: 0 <= i < |rs| && rs[i].studentId == s
    ensures r.Ok? ==> r.value.records == GroupOf(rs, s)
    ensures r.Ok? ==> r.value.trend == RelativeTrend(PercentagesOf(GroupOf(rs, s)))
    ensures r.Ok? ==> r.value.stats.totalEntries == |GroupOf(rs, s)| > 0
    ensures r.Ok? ==> var ps := PercentagesOf(GroupOf(rs, s));
      r.value.stats == StudentStats(|ps|, Round2(Mean(ps)), Max(ps), Min(ps), Variance(ps))
    ensures r.Ok? && |GroupOf(rs, s)| >= 2 ==> r.value.trendPercentage == TrendPercentage(PercentagesOf(GroupOf(rs, s)))
    ensures r.Ok? && |GroupOf(rs, s)| < 2 ==> r.value.trendPercentage == Finite(0.0)
  {
    if s !in db.users then Err(404, "Student not found")
    else
      var mine := GroupOf(rs, s);
      if |mine| == 0 then
        Err(404, "No marks found")
      else
        var ps := PercentagesOf(mine);
        var stats := StudentStats(|mine|, Round2(Mean(ps)), Max(ps), Min(ps), Variance(ps));
        Ok(StudentGraph(stats, RelativeTrend(ps), if |ps| >= 2 then TrendPercentage(ps) else Finite(0.0), mine))
  }

  /**
   * The reported average lies between the rounded extremes, the lowest percentage
   * is at most the highest, and the variance is never negative.
   */
  lemma StudentGraphStatsOrdered(db: Db, rs: seq<MarksRecord>, s: UserId)
    requires GetStudentGraph(db, rs, s).Ok?
    ensures var st := GetStudentGraph(db, rs, s).value.stats;
      && st.lowestPercentage <= st.highestPercentage
      && Round2(st.lowestPercentage) <= st.averagePercentage <= Round2(st.highestPercentage)
      && st.variance >= 0.0
  {
    var ps := PercentagesOf(GroupOf(rs, s));
    MinMeanMax(ps);
    Round2Monotone(Min(ps), Mean(ps));
    Round2Monotone(Mean(ps), Max(ps));
    VarianceNonNegative(ps);
  }

  /** A student whose later marks are all the same as the earlier ones is reported stable by both graphs. */
  lemma FlatStudentStable(db: Db, rs: seq<MarksRecord>, s: UserId, c: real)
    requires GetStudentGraph(db, rs, s).Ok?
    requires forall i :: 0 <= i < |rs| && rs[i].studentId == s ==> rs[i].percentage == c
    ensures GetStudentGraph(db, rs, s).value.trend == Stable
    ensures AbsoluteTrend(PercentagesOf(GroupOf(rs, s))) == Stable
  {
    var mine := GroupOf(rs, s);
    var ps := PercentagesOf(mine);
    forall i | 0 <= i < |ps| ensures ps[i] == c {
      assert mine[i] in rs;
    }
    FlatSeriesStable(ps, c);
  }
}
