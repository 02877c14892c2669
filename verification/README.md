# A Dafny model of the LMS backend core

This project models the core of a role-based learning-management backend. The backend is an Express/Mongoose service with four roles: admin, head, teacher and student. Teachers run classes, quizzes, assignments and marks. Students attempt quizzes and submit assignments. The head reads results and progress trends. The admin manages users, classes and rosters.

The model is written in Dafny; its contracts and lemmas state the properties listed below. Each Mongoose collection becomes a `map` from ids to immutable datatypes, gathered in the `Store.Db` record. Each request handler becomes a pure function from a database and a request to an `Outcome`. An `Outcome` is either `Ok` or `Err(status, message)`, together with the database after the request. The error statuses and messages are the handler's own. Things the handlers reach outside themselves become parameters:

- the clock (`now`);
- JWT signing and verification;
- bcrypt password comparison;
- the multer upload record.

Modules follow the program's structure:

- `Helpers`, `Text`, `Numeric`: the helper utilities, JavaScript string case and trimming, and `toFixed(2)` / `$round` rounding.
- `Quizzes`, `Assignments`, `Classes`, `Marks`, `Users`, `Store`: the Mongoose models, their validators, defaults, virtuals and save hooks.
- `Grading`, `StudentOps`: quiz grading and the student handlers.
- `TeacherOps`, `AdminOps`: the teacher and admin handlers.
- `HeadOps`, `Progress`, `Trends`: the head's dashboards and progress graphs.
- `Roles`, `Auth`, `Session`: the role guards, bearer-token authentication, and the login/refresh/logout session handlers.

Terms used below:

- `Linked(db)` is the two-way consistency between class rosters and user `assignedClasses`. A student is on a roster iff the class is in the student's list. A class's teacher is the teacher iff the class is in that teacher's list.
- `RostersFit(db)` says that no roster exceeds its class's `maxStudents`.

## Model

| member | source | states |
|---|---|---|
| Helpers.GetPagination | backend/utils/helpers.js:43-53 | The page is clamped to at least 1. The limit defaults to 10 and is clamped to [1, 100]. `skip = (page-1)*limit`, and it is never negative. |
| Helpers.GetPaginationMeta | backend/utils/helpers.js:56-67 | `totalPages` is the ceiling of total/limit, stated by its two defining inequalities. A next page exists iff `page*limit < total`. A previous page exists iff `page > 1`. The inputs are echoed back. |
| Helpers.NextPageExists | backend/utils/helpers.js:57-64 | For the ceiling computed above, `page < totalPages` holds iff `page*limit < total`. This ties `hasNextPage` to the records actually left. |
| Helpers.CalculatePercentage | backend/utils/helpers.js:70-73 | Returns 0 when the total is 0. Otherwise returns `value/total*100` rounded to two places. The result lies in [0,100] when 0 ≤ value ≤ total. A full score gives exactly 100. |
| Helpers.CalculateGrade | backend/utils/helpers.js:76-88 | The letter returned is one whose threshold the percentage meets. No higher-ranked letter's threshold is met. So the letter is the cascade's first match. |
| Helpers.GradeMonotone | backend/utils/helpers.js:76-88 | A higher percentage never gets a lower-ranked letter. |
| Helpers.LetterNameInjective | backend/utils/helpers.js:76-88 | The eleven grade strings are pairwise distinct, so a grade string identifies its band. |
| Numeric.Round2 | backend/utils/helpers.js:72 | `parseFloat(x.toFixed(2))` is a multiple of 0.01 within half a hundredth of x: above x only at a positive half, below x only at a negative half (halves go away from zero). It keeps the sign and maps [0,100] into [0,100]. |
| Numeric.Round2Nearest | backend/utils/helpers.js:72 | No multiple of 0.01 is closer to x than `toFixed(2)`'s result. |
| Numeric.Round2Unique | backend/utils/helpers.js:72 | Any multiple of 0.01 within half a hundredth of x, with halves taken away from zero, is `toFixed(2)`'s result: the contract of `Round2` determines it. |
| Numeric.Round2Monotone | backend/utils/helpers.js:72 | Rounding to two places preserves order. |
| Numeric.RoundHalfEven2 | backend/models/Marks.js:135-138 | MongoDB's `$round` to two places gives a multiple of 0.01 within half a hundredth; at an exact half it picks the even hundredth. It maps [0,100] into [0,100]. |
| Numeric.RoundHalfEven2Nearest | backend/models/Marks.js:135-138 | No multiple of 0.01 is closer to x than `$round`'s result. |
| Numeric.RoundHalfEven2Unique | backend/models/Marks.js:135-138 | Any multiple of 0.01 within half a hundredth of x, even at an exact half, is `$round`'s result. |
| Numeric.RoundingsAgreeOffTies | backend/models/Marks.js:135-138 | `$round` and `toFixed(2)` agree except at an exact half hundredth. |
| Numeric.MinMeanMax | backend/controllers/headController.js:158-160 | For a non-empty list, minimum ≤ mean ≤ maximum. |
| Numeric.VarianceNonNegative | backend/utils/helpers.js:91-100 | The population variance, whose square root `calculateStandardDeviation` reports, is never negative. It is 0 on the empty list. |
| Numeric.VarianceOfConstant | backend/utils/helpers.js:91-100 | Identical values have variance 0, so their standard deviation is 0. |
| Text.Lower | backend/utils/helpers.js:132 | `toLowerCase` keeps the length. It maps each character to its lower-case form and leaves no upper-case ASCII letter. |
| Text.Trim | backend/utils/helpers.js:133 | `trim` returns the longest infix that neither starts nor ends with whitespace. Everything cut off on either side is whitespace. |
| Text.TrimIdempotent | backend/utils/helpers.js:133 | Trimming twice equals trimming once. |
| Text.LowerTrimCommute | backend/controllers/studentController.js:245 | Lower-casing and trimming commute, so the order of the two calls in quiz marking does not matter. |
| Text.TrimIgnoresPadding | backend/controllers/studentController.js:245 | Whitespace added on either side does not change the trimmed string. |
| Helpers.KeepSlugChars | backend/utils/helpers.js:134 | Only word characters, whitespace and `-` survive the first replacement, each taken from the input. A string made only of those characters is left unchanged. |
| Helpers.CollapseSeparators | backend/utils/helpers.js:135 | Runs of whitespace, `_` and `-` are replaced by `-`. The output is empty iff the input is, and starts with `-` iff the input starts with a separator. A string without separators is left unchanged. |
| Helpers.CollapseShape | backend/utils/helpers.js:135 | After collapsing, every character is `-` or a kept non-separator, and no two `-` are adjacent. |
| Helpers.StripHyphens | backend/utils/helpers.js:136 | The result is the input with its leading and trailing hyphens removed. It neither starts nor ends with `-`. |
| Helpers.Slugify | backend/utils/helpers.js:130-137 | The slug has only lower-case word characters and `-`. It has no whitespace or `_`, no `--`, and no leading or trailing `-`. |
| Helpers.SlugIsFixedPoint | backend/utils/helpers.js:130-137 | Any string already of slug shape is its own slug. |
| Helpers.SlugifyIdempotent | backend/utils/helpers.js:130-137 | Slugifying a slug changes nothing. |
| Helpers.FilterObject | backend/utils/helpers.js:156-168 | Keeps exactly the keys whose value is defined and non-null and, when a list is given, is in `allowedFields`. Values are unchanged. |
| Helpers.FilterObjectIdempotent | backend/utils/helpers.js:156-168 | Filtering a filtered object changes nothing. |
| Helpers.FilterObjectUnrestricted | backend/utils/helpers.js:156-168 | Without an allow-list, kept keys plus null/undefined keys account for every key of the input. |
| Quizzes.NewQuestion | backend/models/Quiz.js:3-22 | Question text is trimmed. Points default to 1. Options and answer are stored as given. |
| Quizzes.QuestionValid | backend/models/Quiz.js:3-22 | The question schema: required trimmed text, required answer, required option strings, points not negative. |
| Quizzes.NewQuestionValid | backend/models/Quiz.js:3-22 | A built question passes the schema iff its trimmed text, its answer and every option are non-empty and its points, when given, are not negative. |
| Quizzes.NewQuiz | backend/models/Quiz.js:64-126 | The schema defaults: description `''`, `timeLimit` 30, unpublished, no retake, results shown, not shuffled, start now, no end date, no submissions, title trimmed. |
| Quizzes.QuizValid | backend/models/Quiz.js:64-95 | The quiz schema: a required trimmed title of at most 200 characters, a description of at most 1000, at least one question, each valid, and a time limit of at least 1 minute. |
| Quizzes.NewQuizValid | backend/models/Quiz.js:64-95 | A new quiz passes the schema iff its trimmed title has 1 to 200 characters and it has at least one question, every one valid. |
| Quizzes.EffectivePoints | backend/models/Quiz.js:141 | `q.points \|\| 1` counts 0 points as 1 and keeps any other value. A non-negative point value always contributes something positive. |
| Quizzes.TotalPoints | backend/models/Quiz.js:139-142 | The `totalPoints` virtual is positive for a non-empty quiz with non-negative points. It is at least the number of questions when each point value is 0 or at least 1. |
| Quizzes.GetStudentSubmission | backend/models/Quiz.js:160-164 | Returns the first submission by the student, or nothing when the student has none. |
| Quizzes.SubmittedIffFound | backend/models/Quiz.js:153-164 | `hasStudentSubmitted` holds iff `getStudentSubmission` finds something. |
| Assignments.NewSubmission | backend/models/Assignment.js:3-44 | Submission defaults: file name `submission`, no marks, `maxMarks` 100, no feedback, status `pending`. `isLate` is set only when asked. |
| Assignments.NewAssignment | backend/models/Assignment.js:46-106 | Assignment defaults: total marks 100, published, late submission allowed with a 10% penalty, no submissions, title trimmed. Within the length limits the result passes the schema validators. |
| Assignments.GradedPendingBound | backend/models/Assignment.js:119-128 | `gradedCount + pendingCount ≤ submissionCount`. Equality holds iff no submission is `late` or `resubmitted`. |
| Assignments.IsOverdue | backend/models/Assignment.js:131-133 | `isOverdue`: the current time is strictly past the due date. |
| Assignments.OverdueStays | backend/models/Assignment.js:131-133 | An assignment is not overdue at its due date, and once overdue it stays overdue at every later time. |
| Assignments.StudentSubmissionIndex | backend/controllers/teacherController.js:495-497 | `findIndex` gives the first index holding the student's submission. It is absent iff the student has not submitted. |
| Assignments.GetStudentSubmission | backend/models/Assignment.js:146-150 | The submission found is the student's first on the assignment: no earlier submission is theirs. Nothing is found iff no submission is the student's. |
| Assignments.SubmittedIffFound | backend/models/Assignment.js:139-150 | `hasStudentSubmitted` holds iff `getStudentSubmission` finds something. |
| Classes.NewClass | backend/models/Class.js:3-67 | Class defaults: no teacher, empty roster, no head, active, `maxStudents` 50, trimmed name. |
| Classes.SaveClass | backend/models/Class.js:85-92 | A save succeeds iff the field validators pass and the roster fits `maxStudents`, and it stores the class unchanged. It fails with 400 when only the roster is too large, and with a 500 validation error otherwise. |
| Marks.ParseMarksType | backend/models/Marks.js:14-18 | A type string is accepted iff it is one of the seven enum values, and it parses back to the value it names. |
| Marks.ParseMarksTypeRoundTrip | backend/models/Marks.js:14-18 | Every enum value's name parses back to that value. |
| Marks.HookPercentage | backend/models/Marks.js:82-84 | The pre-save percentage is 0 when `totalMarks ≤ 0`. Otherwise it is `calculatePercentage(marks, totalMarks)`. |
| Marks.HookGrade | backend/models/Marks.js:86-97 | The pre-save grade cascade is the same function as `calculateGrade`. |
| Marks.PreSave | backend/models/Marks.js:80-100 | After the hook, percentage and grade are the values derived from marks and total. Every other field is untouched. |
| Marks.PreSaveIdempotent | backend/models/Marks.js:80-100 | Running the hook on a saved record changes nothing. |
| Marks.Save | backend/models/Marks.js:24-100 | A save succeeds iff the schema accepts the record: marks ≥ 0, `totalMarks` ≥ 1, a non-empty title, feedback of at most 500 characters. A saved record carries its derived percentage and grade. |
| Marks.SavedPercentageInRange | backend/models/Marks.js:82-84 | A saved record with marks ≤ totalMarks has a percentage in [0,100]. |
| Marks.SumDominated | backend/models/Marks.js:114-115 | When each record's marks lie within its total, Σmarks lies within Σtotals. |
| Marks.SummaryRow | backend/models/Marks.js:111-139 | One class group gives its class name, the summed marks, the summed totals (at least the count) and the record count. The overall percentage is `$round` of marks over totals × 100, and the average percentage is `$round` of the mean record percentage; both lie in [0,100] when the records are valid. |
| Marks.GroupBounds | backend/models/Marks.js:133-139 | A stored group's total possible is at least its record count. The overall ratio and the mean percentage both stay in [0,100]. |
| Marks.GetStudentSummary | backend/models/Marks.js:103-143 | There is one row per class that has matching records and an existing class document; the lookup/unwind drops the others. An optional class id restricts the rows to that class. Each row is the summary of exactly that class's records of the student, under the stored class name. |
| Marks.StudentSummaryGroup | backend/models/Marks.js:104-118 | Every record grouped under a class is the student's and that class's. With a class filter, only that class can have a group. |
| Marks.OverallAndAverageDiffer | backend/models/Marks.js:133-139 | On 1/1 and 0/3, the overall percentage is 25 while the average of row percentages is 50. |
| Marks.GetClassSummary | backend/models/Marks.js:146-160 | Nothing is returned iff the class has no records. Otherwise `averageMarks` and `averagePercentage` are the unrounded means (`$avg`) of the class's marks and percentages. Lowest ≤ average ≤ highest, highest and lowest are attained by records of the class, every record lies between them, and `totalEntries` is the class's record count. |
| Grading.SelectedAnswer | backend/controllers/studentController.js:244 | The answer at the question's position, or `''` when it is missing. |
| Grading.Normalize | backend/controllers/studentController.js:245 | The comparison form of an answer is the lower-cased and trimmed string, in either order. |
| Grading.GradeAnswers | backend/controllers/studentController.js:243-254 | There is one graded answer per question, in order. An answer is correct iff its normalised selected answer equals the normalised key. |
| Grading.EarnedPoints | backend/controllers/studentController.js:257-259 | Earned points lie in [0, total]. They equal the total when all answers are correct and 0 when none is; `Grading.EarnedPointsShare` fixes each question's share. |
| Grading.EarnedPointsShare | backend/controllers/studentController.js:257-259 | Whatever the other answers, answering question i correctly rather than not adds exactly that question's effective points (its points, or 1 for a 0-point question) to the earned points. |
| Grading.Grade | backend/controllers/studentController.js:242-261 | The report carries the graded answers and `totalQuestions` = the question count. The marks are the earned points of the graded answers. `correctAnswers` counts the correct graded answers, so it is at most `totalQuestions`. `totalPoints` is the quiz total. `percentage = calculatePercentage(marks, totalPoints)`. With non-negative points, `0 ≤ marks ≤ totalPoints` and, for a non-empty quiz, the percentage is in [0,100]. When each point value is 0 or at least 1, the total is at least the question count. |
| Grading.AllCorrectScoresFull | backend/controllers/studentController.js:256-261 | Answering every question correctly scores full marks, 100%, and every question correct. |
| Grading.EmptyAttemptScoresZero | backend/controllers/studentController.js:244-261 | Submitting no answers scores 0 marks, 0% and no correct answers, unless a key is itself blank. |
| Grading.NormalizeIgnoresCaseAndPadding | backend/controllers/studentController.js:245 | Surrounding whitespace and letter case do not affect correctness. |
| StudentOps.WithoutStudent | backend/controllers/studentController.js:274-278 | The retake filter keeps exactly the other students' submissions. |
| StudentOps.RecordAttempt | backend/controllers/studentController.js:273-280 | The new submission is appended last. Without retake, the old list is kept in front of it. |
| StudentOps.AttemptQuiz | backend/controllers/studentController.js:210-295 | 404 for a missing quiz, 400 when unpublished, 400 on a repeat attempt without retake, refusal unless enrolled. On success: the report is `Grade(questions, answers)`; the student has exactly one submission; the others' submissions are unchanged; at most one submission per student is preserved. |
| StudentOps.RecordAttemptLeavesOne | backend/controllers/studentController.js:273-280 | After a permitted attempt the student has exactly one submission. |
| StudentOps.RecordAttemptKeepsOthers | backend/controllers/studentController.js:275-277 | Other students' submissions are unchanged, in order. |
| StudentOps.RecordAttemptOnePerStudent | backend/controllers/studentController.js:273-280 | At most one submission per student is preserved by every permitted attempt. |
| StudentOps.SecondAttemptRefused | backend/controllers/studentController.js:231-233 | After a successful attempt on a quiz without retake, the next attempt is refused with 400 `Quiz already attempted`. |
| StudentOps.SubmitAssignment | backend/controllers/studentController.js:337-392 | 400 without a file, 404 without the assignment, 403 when not enrolled, 400 when already submitted. Success iff none of these apply and the submission is on time or late submission is allowed. Success appends exactly one `pending` submission and changes nothing else about the assignment. The submission has the upload's URL and original name and no marks, and `isLate` holds iff now is past the due date. |
| StudentOps.SecondSubmissionRefused | backend/controllers/studentController.js:363-366 | After a successful submission, a second one is refused with 400 `Already submitted`. |
| StudentOps.SubmitPreservesOnePerStudent | backend/controllers/studentController.js:362-383 | A successful submission keeps at most one submission per student. |
| TeacherOps.RequestedRecord | backend/controllers/teacherController.js:383-392 | The record created from the request carries its fields. Title is trimmed. Feedback is null when empty. It is graded by the teacher now, and published. |
| TeacherOps.AddMarks | backend/controllers/teacherController.js:360-400 | 400 on missing fields, 400 when marks are outside [0, totalMarks]. Success iff the teacher owns the class, the student is on its roster, the type is a known kind and the record passes the schema. Then only the new, hook-processed record is added. Failures change nothing. |
| TeacherOps.AddMarksStores | backend/controllers/teacherController.js:383-392 | The created record passes the schema iff total ≥ 1, the title is non-empty and feedback is short enough. The stored record has derived percentage and grade, with the percentage in [0,100]. |
| TeacherOps.UpdateMarks | backend/controllers/teacherController.js:407-444 | 404 for a missing record. 400 for marks outside [0, stored totalMarks]. On success only this record changes: marks when given, feedback when given, `gradedBy`, `gradedAt`, and the re-derived percentage and grade. Failures change nothing. |
| TeacherOps.UpdateMarksSucceedsOnValid | backend/controllers/teacherController.js:422-436 | An in-range update of a valid record always succeeds. |
| TeacherOps.UpdateSameMarksKeepsGrade | backend/controllers/teacherController.js:422-436 | Re-submitting the same marks leaves percentage and grade as they were. |
| TeacherOps.DeleteMarks | backend/controllers/teacherController.js:451-473 | Succeeds iff the record exists, and removes exactly that record. Otherwise 404 with no change. |
| TeacherOps.AddThenDeleteMarks | backend/controllers/teacherController.js:360-473 | Deleting a record just added restores the database. |
| TeacherOps.GradeAssignment | backend/controllers/teacherController.js:480-521 | 400 without marks, 404 without the assignment or without the student's submission. Success requires marks in [0, totalMarks]. On success only the student's first submission changes: marks set, feedback set (null when empty), status `graded`; the other submissions and fields are unchanged. Failures change nothing. |
| TeacherOps.GradeAssignmentSucceedsOnValid | backend/controllers/teacherController.js:485-509 | Grading an existing submission of a valid assignment with in-range marks succeeds. |
| TeacherOps.GradeAssignmentIdempotent | backend/controllers/teacherController.js:507-511 | Grading twice with the same marks and feedback leaves the database as after the first time. |
| TeacherOps.GradeAssignmentCounts | backend/controllers/teacherController.js:507-509 | The submission count is unchanged. The graded count rises by one unless the submission was already graded. At most one submission per student is preserved. |
| TeacherOps.TotalsFor | backend/controllers/teacherController.js:545-556 | A student's row counts their records in the class and sums marks and totals. The percentage is `calculatePercentage` of the two sums. |
| TeacherOps.GetClassStudents | backend/controllers/teacherController.js:528-565 | 404 unless the teacher owns the class. Otherwise there is one totals row per populated roster entry (roster entries whose user still exists), in roster order, each the totals of that student's marks in the class. |
| TeacherOps.NoMarksGiveZero | backend/controllers/teacherController.js:545-556 | A student without marks has count 0, total possible 0 and percentage 0. |
| TeacherOps.TotalsPercentageInRange | backend/controllers/teacherController.js:547-555 | For stored records the row percentage is in [0,100], and the total possible is at least the count. |
| TeacherOps.RequestedQuiz | backend/controllers/teacherController.js:90-102 | The created quiz is published, with `timeLimit \|\| 30`, description `\|\| ''`, start date defaulting to now, question texts trimmed, and the request's retake/shuffle flags. |
| TeacherOps.AddQuiz | backend/controllers/teacherController.js:76-110 | 400 when class, title or a non-empty question list is missing. Success iff the teacher owns the class and the quiz passes validation. Then only the new quiz is added. |
| TeacherOps.AddQuizStoresFreshQuiz | backend/controllers/teacherController.js:90-102 | A created quiz is published, has a time limit ≥ 1, positive total points and no submissions. Its total is at least the question count when each point value is 0 or at least 1. |
| HeadOps.GradeFromPercentageAgrees | backend/controllers/headController.js:601-613 | `getGradeFromPercentage` agrees with `calculateGrade` on every input. |
| HeadOps.AllResultsStats | backend/controllers/headController.js:530-545 | All zeros for no marks. Otherwise the highest and lowest are the maximum and minimum percentage, the average is the rounded mean, and the pass rate is the rounded share of percentages at least 50, × 100. |
| HeadOps.GetAllResults | backend/controllers/headController.js:521-560 | There is one row per record, graded with the letter of its own percentage, plus the statistics of all percentages. |
| HeadOps.BucketsPartition | backend/controllers/headController.js:540-544 | The five grade buckets sum to the number of marks. |
| HeadOps.PassRateRange | backend/controllers/headController.js:537-539 | The pass rate lies in [0,100]. It is 100 when every mark passes and 0 when none does. |
| HeadOps.PassIsCMinusOrBetter | backend/controllers/headController.js:537-538 | A percentage passes (≥ 50) iff its letter grade ranks C- or better. |
| HeadOps.BucketsAreNotLetters | backend/controllers/headController.js:540-551 | 85% is letter A but falls in bucket B. |
| HeadOps.StudentRow | backend/controllers/headController.js:166-183 | A student's row counts their marks in the class. Its obtained and possible totals are the sums of their marks and totals there. With marks, its average is the rounded mean of their percentages, else 0. Its grade is the letter of that average. |
| HeadOps.MarkStats | backend/controllers/headController.js:154-162 | The class statistics: the student and entry counts, the maximum and minimum percentage, the rounded mean and the variance of the class's percentages. |
| HeadOps.SortByAverage | backend/controllers/headController.js:192 | Sorting keeps the number of rows; `SortPermutes` and `SortSorts` state the rest. |
| HeadOps.SortPermutes | backend/controllers/headController.js:192 | Sorting is a permutation of the rows. |
| HeadOps.SortSorts | backend/controllers/headController.js:192 | The sorted rows are in non-increasing average order. |
| HeadOps.SortKeepsRankedRows | backend/controllers/headController.js:192 | Rows already in order are left as they are. |
| HeadOps.SortStable | backend/controllers/headController.js:192 | The sort is stable: rows with equal averages keep their relative order. |
| Store.LiveRoster | backend/controllers/headController.js:110-118 | `populate('students')` keeps exactly the roster entries whose user still exists, in roster order; with no deleted users it is the whole roster. |
| Store.LiveStudents | backend/controllers/headController.js:14-15 | The populated roster of a class document: exactly its entries that are stored users, never longer than the roster, and the roster itself when every entry is stored. |
| HeadOps.Rows | backend/controllers/headController.js:165-185 | There is one summary row per populated student, in roster order. |
| HeadOps.GetClassResults | backend/controllers/headController.js:102-199 | Success iff the class exists, else 404. "No students" iff the populated roster is empty. "No marks" iff it is not and the class has no marks; then the total is the populated roster size and every student gets a zero row. Otherwise the statistics are those of the class's marks (count, maximum, minimum, rounded mean, variance) and the rows are the per-student rows sorted by average. |
| HeadOps.ClassResultsRanked | backend/controllers/headController.js:187-192 | The students come in non-increasing average order and are a permutation of the per-student rows. |
| HeadOps.ClassResultsGradesOwnAverage | backend/controllers/headController.js:170-182 | Every student's grade is the letter of that student's own average. |
| HeadOps.ClassResultsStatsOrdered | backend/controllers/headController.js:154-162 | The rounded class average lies between the rounded lowest and highest. The variance is non-negative. The entry count is the class's marks count. |
| HeadOps.ProgressOfClass | backend/controllers/headController.js:49-72 | The student count is the size of the populated roster. The completion rate is 0 when no submissions are expected. Otherwise it is `calculatePercentage(submissions, assessments × students)`, with the counts taken from the class's quizzes and assignments. |
| HeadOps.CompletionRateInRange | backend/controllers/headController.js:53-61 | When no assessment has more submissions than the populated roster has students, the completion rate lies in [0,100]. |
| HeadOps.CompletionCanExceedHundred | backend/controllers/headController.js:53-61 | Two quiz submissions against a one-student populated roster give 200%. |
| HeadOps.ActiveClasses | backend/controllers/headController.js:13 | Exactly the active classes are kept. |
| HeadOps.ClassProgresses | backend/controllers/headController.js:49-72 | There is one progress row per active class, in order. |
| HeadOps.GetDashboard | backend/controllers/headController.js:10-95 | Every statistic is 0 without active classes. Otherwise it counts the active classes and the teachers, sums the populated roster sizes, counts the quizzes and assignments of the active classes, lists a progress row per active class, and reports the rounded mean completion rate as the average progress. |
| HeadOps.DashboardTotalsAddUp | backend/controllers/headController.js:44-72 | With distinct class ids (as `_id`s are), the dashboard's student, quiz and assignment totals are the sums of the per-class progress rows' counts. |
| HeadOps.AverageProgressInRange | backend/controllers/headController.js:74-76 | When every class rate is in [0,100], so is the average progress. |
| Progress.HighestMark | backend/controllers/headController.js:276-297 | The running maximum starts at 0. It is at least every percentage and is 0 or one of them. |
| Progress.LowestMark | backend/controllers/headController.js:277-300 | The running minimum starts at 100. It is at most every percentage and is 100 or one of them. |
| Progress.HighestIsMax | backend/controllers/headController.js:295-297 | For non-negative percentages the running maximum is the true maximum. |
| Progress.LowestIsMin | backend/controllers/headController.js:298-300 | For percentages ≤ 100 the running minimum is the true minimum. |
| Progress.LowestCapsAtHundred | backend/controllers/headController.js:277-300 | A single 120% mark reports a lowest mark of 100. |
| Progress.StudentsInOrder | backend/controllers/headController.js:263-280 | The list of students has no duplicates and covers exactly the students with records. |
| Progress.StudentsInFirstRecordOrder | backend/controllers/headController.js:263-280 | The students are listed in strictly increasing order of their first record: the key order of an object filled one record at a time. |
| Progress.GroupOf | backend/controllers/headController.js:265-291 | A student's group holds exactly that student's records, and is non-empty when any exist. |
| Progress.ProgressOf | backend/controllers/headController.js:304-326 | The total is the sum and the average the rounded mean of the student's percentages. The highest is the running maximum from 0 and the lowest the running minimum from 100. The trend compares half-means by absolute difference. From two points on the trend percentage is `Trends.TrendPercentage` of the percentages; below that there is none. |
| Progress.OverallOf | backend/controllers/headController.js:354-362 | The student count; the class average is the rounded mean of the student averages; the highest and lowest overall are the maximum of the highests and the minimum of the lowests, so they bound every student's own; and the trend counts are the students with each trend. |
| Progress.TrendCountsPartition | backend/controllers/headController.js:359-361 | Improving, declining and stable counts sum to the number of students. |
| Progress.Matched | backend/controllers/headController.js:233-256 | The query's student, class and date filters select exactly the matching records. |
| Progress.GetProgressGraph | backend/controllers/headController.js:229-380 | 404 for an unknown class filter. Success iff some record matches and its students exist. The entries are the per-student groups and the overall statistics are taken from them. |
| Progress.MatchedEmpty | backend/controllers/headController.js:258-260 | `No marks data found` happens exactly when no record matches the query. |
| Progress.EntriesDistinct | backend/controllers/headController.js:263-280 | No student appears twice in the graph. |
| Progress.ProgressGraphCoversSelection | backend/controllers/headController.js:265-280 | Every selected record's student has an entry. |
| Progress.ProgressGraphGroups | backend/controllers/headController.js:265-291 | Each entry's records are exactly that student's selected records, in order. |
| Progress.ProgressGraphTrendsPartition | backend/controllers/headController.js:354-362 | The three trend counts sum to `totalStudents`. |
| Progress.GetStudentGraph | backend/controllers/headController.js:387-477 | 404 for an unknown student. Success iff the student has records. The statistics are the record count, the rounded mean, the maximum and minimum, and the variance of their percentages. The trend is the relative-change trend, and the trend percentage is `Trends.TrendPercentage` of the percentages from two records on, else 0. |
| Progress.StudentGraphStatsOrdered | backend/controllers/headController.js:415-422 | lowest ≤ highest. The rounded average lies between them. The variance is non-negative. |
| Progress.FlatStudentStable | backend/controllers/headController.js:424-437 | A student whose percentages are all equal is stable under both trend rules. |
| Trends.HalvesSplit | backend/controllers/headController.js:308-311 | The first half is the earliest ⌊n/2⌋ points and the second half the rest. Together they give the series. The second half is the same length or one longer. |
| Trends.Divide | backend/controllers/headController.js:430-433 | JavaScript division: finite for a non-zero divisor. Otherwise ±Infinity or NaN according to the dividend's sign. |
| Trends.Classify | backend/controllers/headController.js:435-437 | `improving` iff above 5, `declining` iff below -5. NaN and the band between are stable. |
| Trends.RelativeChange | backend/controllers/headController.js:433 | For a non-zero first half the change is `(second-first)/first*100`, rounded. For a zero first half it is not finite. |
| Trends.TrendPercentage | backend/controllers/headController.js:322 | The relative change between the first- and second-half means: `(second-first)/first*100` rounded to two places when the first-half mean is non-zero, and not finite when it is zero. |
| Trends.AbsoluteTrend | backend/controllers/headController.js:308-320 | Stable below two points. Otherwise improving iff the half-mean difference exceeds 5, and declining iff it is below -5. |
| Trends.RelativeTrend | backend/controllers/headController.js:428-437 | Stable below two points. Otherwise improving or declining iff the relative change passes ±5. |
| Trends.AbsoluteTrendShiftInvariant | backend/controllers/headController.js:316-320 | Adding a constant to every percentage does not change the absolute trend. |
| Trends.RelativeTrendScaleInvariant | backend/controllers/headController.js:433-437 | Scaling every percentage by a positive factor does not change the relative trend. |
| Trends.TrendPercentageScaleInvariant | backend/controllers/headController.js:433 | For two or more points, scaling every percentage by a positive factor leaves the trend percentage unchanged. |
| Trends.FlatSeriesStable | backend/controllers/headController.js:308-320 | A constant series is stable under both rules. |
| Trends.AbsoluteImprovingIsRelativeImproving | backend/controllers/headController.js:428-437 | For percentages in [0,100], absolute improvement implies relative improvement. |
| Trends.RelativeMissesDecline | backend/controllers/headController.js:428-437 | 100 then 94.999 is declining by absolute difference but stable by rounded relative change. |
| Trends.AbsoluteMissesSmallScores | backend/controllers/headController.js:316-320 | 1 then 2 is stable by absolute difference but improving by relative change. |
| Trends.ZeroStartIsInfiniteRise | backend/controllers/headController.js:430-437 | For the series 0 then 3, the trend percentage is +Infinity. The relative rule calls it improving, while the absolute rule calls it stable. |
| Users.NewUser | backend/controllers/adminController.js:83-90 | A new account is active, has no classes and no refresh token, and carries the given name, email, password and role. |
| Store.Pull | backend/controllers/adminController.js:236-239 | `$pull` removes every occurrence of the value and keeps the rest. |
| Store.AddToSet | backend/controllers/adminController.js:393-396 | `$addToSet` adds the value once and leaves a list that already has it unchanged. |
| Store.AddAllToSet | backend/controllers/adminController.js:458-461 | `$addToSet` with `$each` keeps the old list as a prefix and adds exactly the missing values. |
| Store.AddAllKeepsNoDuplicates | backend/controllers/adminController.js:458-461 | A duplicate-free list stays duplicate-free. |
| AdminOps.AddUser | backend/controllers/adminController.js:68-105 | 400 when name, email or password is missing. Success iff no stored email equals the lower-cased one. Then only the new user is added: active, no classes, email lower-cased, empty phone or address stored as null. |
| AdminOps.AddTeacher | backend/controllers/adminController.js:68-105 | `AddUser` with the teacher role; the created user is a teacher. |
| AdminOps.AddStudent | backend/controllers/adminController.js:112-149 | `AddUser` with the student role; the created user is a student. |
| AdminOps.AddUserKeepsEmailsUnique | backend/controllers/adminController.js:76-90 | Stored emails stay unique once lower-cased, and an email that exists in any case is refused. |
| AdminOps.AddUserKeepsLinks | backend/controllers/adminController.js:83-90 | Adding a user keeps rosters and class lists consistent. |
| AdminOps.DeleteTeacher | backend/controllers/adminController.js:185-214 | 404 unless the id is a teacher. On success the teacher is removed and unset on every class they taught. Nothing else changes. |
| AdminOps.DeleteTeacherKeepsLinks | backend/controllers/adminController.js:199-206 | Deleting a teacher keeps rosters and class lists consistent. |
| AdminOps.DeleteStudent | backend/controllers/adminController.js:221-250 | 404 unless the id is a student. On success the student is removed and pulled from every roster. Nothing else changes. |
| AdminOps.DeleteStudentKeepsLinks | backend/controllers/adminController.js:235-242 | Deleting a student keeps rosters and class lists consistent. |
| AdminOps.RemoveStudentFromClass | backend/controllers/adminController.js:489-515 | Always answers success. The student is off the roster and the class is off the student's list. Every other class and user is unchanged. |
| AdminOps.RemoveStudentKeepsLinks | backend/controllers/adminController.js:497-507 | Consistency is kept unless the id is the class's teacher. |
| AdminOps.ClassFromRequest | backend/controllers/adminController.js:164-170 | The created class: trimmed name, description `\|\| ''`, `maxStudents \|\| 50`, no teacher, empty roster. |
| AdminOps.AddClass | backend/controllers/adminController.js:156-178 | 400 without a name. Success iff the class saves. Then only the new class is added, and it satisfies the field and capacity checks. |
| AdminOps.AddClassSavesWhen | backend/controllers/adminController.js:164-170 | The new class saves iff its trimmed name has 2–100 characters, the description has at most 500, and `maxStudents` is non-negative. |
| AdminOps.AddClassKeepsLinks | backend/controllers/adminController.js:164-170 | Adding a class keeps rosters and class lists consistent. |
| AdminOps.Unlink | backend/controllers/adminController.js:271-285 | The class leaves the class map. The class is pulled from its teacher's and students' lists. |
| AdminOps.DropClassDocuments | backend/controllers/adminController.js:288-293 | Exactly the class's quizzes, assignments, materials and marks are deleted, and the rest are kept unchanged. |
| AdminOps.DeleteClass | backend/controllers/adminController.js:257-304 | 404 for a missing class. Otherwise it detaches the class from its teacher and students and then deletes its documents. |
| AdminOps.DeleteClassCascades | backend/controllers/adminController.js:271-296 | No quiz, assignment, material or marks record of the deleted class remains. Others survive unchanged. No former member lists the class. |
| AdminOps.DeleteClassKeepsLinks | backend/controllers/adminController.js:271-296 | Deleting a class keeps rosters and class lists consistent. |
| AdminOps.Patched | backend/controllers/adminController.js:327-335 | Only the fields present in the body change. A present class name is trimmed. |
| AdminOps.UpdateClass | backend/controllers/adminController.js:311-351 | 404 for a missing class. Success iff the patch passes validation. Then only that class becomes its patched form. |
| AdminOps.EmptyUpdateChangesNothing | backend/controllers/adminController.js:327-341 | An empty body leaves the database unchanged. |
| AdminOps.UpdateClassCanBreakLinks | backend/controllers/adminController.js:330-331 | Setting `students` directly succeeds but leaves the roster and the students' lists inconsistent. |
| AdminOps.ReleaseTeacher | backend/controllers/adminController.js:380-386 | The class is pulled from its previous teacher's list, and no one else changes. |
| AdminOps.InstallTeacher | backend/controllers/adminController.js:388-396 | The class gets the new teacher, and the class is added once to that teacher's list. |
| AdminOps.AssignTeacher | backend/controllers/adminController.js:358-408 | 404 for a missing class or a non-teacher. Success iff the class still saves. Then the database is the release followed by the install. A failed save keeps the release. |
| AdminOps.AssignTeacherKeepsLinks | backend/controllers/adminController.js:380-396 | A successful reassignment keeps rosters and class lists consistent. |
| AdminOps.AssignTeacherFailureOrphansClass | backend/controllers/adminController.js:380-390 | When the save fails on an over-full roster, the old teacher has already lost the class, so consistency breaks. |
| AdminOps.RequestedStudents | backend/controllers/adminController.js:420-428 | `studentIds` when it is a non-empty array, else `[studentId]`, else nothing. |
| AdminOps.ValidStudents | backend/controllers/adminController.js:446-449 | Exactly the requested ids that are stored students. |
| AdminOps.Enroll | backend/controllers/adminController.js:457-467 | Adds the ids to the roster with set semantics and adds the class to each id's list. Nothing else changes. |
| AdminOps.AssignStudents | backend/controllers/adminController.js:415-482 | 400 when no ids are given. Success iff the class exists and some requested id is a student (404 otherwise). Then the valid students are enrolled. Failures change nothing. |
| AdminOps.AssignStudentsEnrollsRequested | backend/controllers/adminController.js:457-467 | The old roster is a prefix of the new one. Every requested student is on the roster and has the class. |
| AdminOps.AssignStudentsKeepsLinks | backend/controllers/adminController.js:457-467 | Enrolment keeps rosters and class lists consistent, both as written and corrected. |
| AdminOps.AssignStudentsOverfills | backend/controllers/adminController.js:457-461 | As written, a one-place class that already has its student accepts a second student and exceeds `maxStudents`. The corrected version refuses. |
| AdminOps.AssignStudentsChecked | backend/models/Class.js:85-92 | Corrected `assignStudents`: the as-written outcome, except that it is refused when the resulting roster would exceed `maxStudents`. |
| AdminOps.AssignStudentsCheckedKeepsFit | backend/models/Class.js:85-92 | The corrected version keeps every roster within `maxStudents`. |
| Roles.Role | backend/middlewares/role.js:7-28 | 401 without a user. Passes iff some allowed role equals the user's role, ignoring case. Otherwise 403. |
| Roles.Exact | backend/middlewares/role.js:31-47 | The fixed-guard shape: 401 without a user, pass iff the stored role is one of the listed roles exactly, else 403 with the guard's message. |
| Roles.IsAdmin | backend/middlewares/role.js:31-47 | Passes iff there is a user whose role is exactly `admin`. |
| Roles.IsTeacher | backend/middlewares/role.js:50-66 | Passes iff there is a user whose role is exactly `teacher`. |
| Roles.IsStudent | backend/middlewares/role.js:69-85 | Passes iff there is a user whose role is exactly `student`. |
| Roles.IsHead | backend/middlewares/role.js:88-104 | Passes iff there is a user whose role is exactly `head`. |
| Roles.IsTeacherOrAdmin | backend/middlewares/role.js:107-123 | Passes iff the role is exactly `teacher` or `admin`. |
| Roles.IsHeadOrAdmin | backend/middlewares/role.js:126-142 | Passes iff the role is exactly `head` or `admin`. |
| Roles.NoUserIsUnauthenticated | backend/middlewares/role.js:9-14 | Every guard answers a request without a user with the same 401. |
| Roles.CombinedGuardsAreUnions | backend/middlewares/role.js:107-142 | The combined guards admit exactly the union of the single-role guards. |
| Roles.ExactGuardImpliesRole | backend/middlewares/role.js:16-17 | Whatever a fixed guard admits, `role(...)` with the same name admits. |
| Roles.RoleAgreesOnLowerCaseRoles | backend/middlewares/role.js:16-17 | For lower-case role names, the case-insensitive and exact guards agree. |
| Roles.CapitalisedRoleSplitsGuards | backend/middlewares/role.js:16-47 | A stored role `Admin` passes `role('admin')` but is refused by `isAdmin`. |
| Roles.EmptyRoleListAdmitsNobody | backend/middlewares/role.js:17-24 | `role()` with no allowed roles admits nobody. |
| Auth.Split | backend/middlewares/auth.js:20 | `split(' ')` yields at least one field, and no field contains a space. |
| Auth.JoinSplit | backend/middlewares/auth.js:20 | Joining the fields with single spaces gives back the header. |
| Auth.SplitJoin | backend/middlewares/auth.js:20 | Space-free fields survive joining and splitting. |
| Auth.SecondField | backend/middlewares/auth.js:20 | `split(' ')[1]` is present iff there are at least two fields. |
| Auth.BearerToken | backend/middlewares/auth.js:13-27 | A token is taken only from a header starting with `Bearer `, and it is non-empty and space-free. |
| Auth.Authenticate | backend/middlewares/auth.js:8-77 | No header or no `Bearer ` prefix: 401. An empty token: 401. A malformed token: 401. An expired token: 401. Other verify errors: 500. An unknown user: 401. A deactivated user: 401. Otherwise the stored user, id and role are attached. |
| Auth.OptionalAuthenticate | backend/middlewares/auth.js:83-111 | Attaches only an active stored user named by a valid token. |
| Auth.OptionalAgreesWithStrict | backend/middlewares/auth.js:83-111 | The optional check attaches exactly what the strict check admits, and nothing when the strict check rejects. |
| Auth.AdmittedUsersAreActive | backend/middlewares/auth.js:33-52 | Whoever passes is a stored, active user with their stored role. |
| Auth.TokenOfWellFormedHeader | backend/middlewares/auth.js:20 | `Bearer <t>`, optionally followed by more fields, yields `t`. |
| Auth.DoubleSpaceIsBadFormat | backend/middlewares/auth.js:20-27 | `Bearer  x` (two spaces) has an empty second field and is refused as badly formatted. |
| Auth.LowerCaseSchemeIsNoToken | backend/middlewares/auth.js:13-18 | A lower-case `bearer` scheme counts as no token at all. |
| Session.FindByEmail | backend/controllers/authController.js:19 | Finds an account with exactly this email, or reports that none has it. |
| Session.Login | backend/controllers/authController.js:10-60 | 400 on a missing email or password. Success iff the account exists, is active and the password matches; failures change nothing. On success the stored refresh token is replaced by the issued one and both tokens are returned. |
| Session.UnknownEmailLooksLikeWrongPassword | backend/controllers/authController.js:21-34 | An unknown email and a wrong password get the same 401 `Invalid credentials`. |
| Session.DeactivatedIgnoresPassword | backend/controllers/authController.js:25-27 | A deactivated account is refused the same way whatever password is given. |
| Session.Logout | backend/controllers/authController.js:67-81 | Always succeeds. Only the current user's refresh token is cleared. |
| Session.Refresh | backend/controllers/authController.js:113-144 | 400 without a token. Otherwise it succeeds iff the token verifies, has type `refresh`, names a stored user and equals that user's stored refresh token. Success issues that user's access token; every failure is 401. |
| Session.LoginThenRefresh | backend/controllers/authController.js:37-42 | The refresh token returned by a login refreshes successfully. |
| Session.RefreshFailsAfterLogout | backend/controllers/authController.js:70-73 | After logout no token of that user refreshes. |
| Session.RefreshFailsAfterNewLogin | backend/controllers/authController.js:41 | A new login revokes every older refresh token of that user. |
| Session.AccessTokenCannotRefresh | backend/controllers/authController.js:124-126 | A token without the refresh type is refused. |
| Session.ChangePassword | backend/controllers/authController.js:197-228 | 400 when either password is missing. 400 when the new one is shorter than 8. Success iff the current password matches. Then only the password changes. |
| Session.PasswordChangeKeepsSessions | backend/controllers/authController.js:218-220 | Changing the password does not revoke refresh tokens. |
| Session.ApplyProfile | backend/controllers/authController.js:171-176 | Only non-empty name, phone and address overwrite the stored values. |
| Session.UpdateProfile | backend/controllers/authController.js:169-190 | Only the current user changes. A missing account gets a null user. |
| Session.EmptyProfileUpdateIsNoOp | backend/controllers/authController.js:171-176 | An update with no fields changes nothing. |
| Session.ProfileUpdateIdempotent | backend/controllers/authController.js:171-182 | Applying the same update twice equals applying it once. |
| Session.ProfileUpdateKeepsPrivileges | backend/controllers/authController.js:171-176 | A profile update never changes role, password, activity, refresh token, email or classes. |

## Left out

- The frontend, the route tables, file-upload storage, `validate.js` and the `token.js` signing code are not modelled. Token signing and verification appear only as parameters (`Auth.Verification`, `Session.Tokens`).
- `User.js` is not part of this model. Passwords are compared through a `matches` parameter that stands for bcrypt. The login lookup is an exact email match. The pre-save lower-casing of the User schema is not modelled.
- `mongoose.Types.ObjectId.isValid` checks and the `CastError`s they avoid are not modelled. Ids are plain naturals, so the 400 `Invalid … ID` answers never arise.
- Errors thrown by the database or driver (the `catch` branches answering 500) are modelled only where a save hook or validator fails. Ids of new documents are parameters the caller guarantees are fresh.
- Numbers are exact reals. Binary floating-point rounding of `/` and `*` is not modelled. `toFixed(2)` is modelled as rounding half away from zero and MongoDB's `$round` as half to even.
- `calculateStandardDeviation` is modelled by its variance. The square root and its final rounding are not modelled, because square roots of reals are not available. `Numeric.VarianceNonNegative` and `Numeric.VarianceOfConstant` state the facts that carry over.
- `getPagination` takes integers. `parseInt` on non-numeric strings, which gives `NaN`, is not modelled.
- String lengths count characters. JavaScript's UTF-16 code units differ for characters outside the Basic Multilingual Plane. `toLowerCase` is modelled on ASCII letters only.
- `lastLogin`, `createdAt`/`updatedAt` timestamps and the `populate` of display fields (names, emails, class names) are not modelled, except where a missing document changes the result. `Store.LiveStudents` and `Store.LiveRoster` model the populated roster, which drops deleted users; `HeadOps.GetClassResults`, `HeadOps.ProgressOfClass`, `HeadOps.GetDashboard` and `TeacherOps.GetClassStudents` use it. `Marks.GetStudentSummary` drops the groups whose class document is missing.
- Query sort orders other than the ones a property depends on are not modelled. `Progress` assumes the records arrive sorted by `createdAt`. `HeadOps.GetClassResults` sorts by average.
- Chart construction (labels, colours, datasets) in the progress graphs is presentation only and is left out.
- Messages built by interpolation are modelled only as their status. Examples are `Marks must be between 0 and N`, `Class cannot have more than N students` and the role guard's `Required role(s)` text.
- Read-only handlers are not modelled:
  - `getProfile`, `validateToken`;
  - the `getAll*` listings, `getClassById`, `getMyClasses`;
  - `getMaterials`, `getMaterialById`, `getAllMaterials`, `viewQuizzes`, `getQuizzes`, `getQuizById`;
  - `getResults`, `getQuizResult`;
  - `viewAssignmentsWithSubmissions`, `viewQuizzesWithSubmissions`, `getAssignmentSubmission`;
  - the admin and teacher dashboards.
  They only filter and project stored documents.
- Handlers with no state rule beyond create/delete by id are not modelled: `deleteQuiz`, `addAssignment`, `addMaterial`, `deleteMaterial`.
- The `auth` middleware does not check the token's `type` claim, so a refresh token is accepted as an access token. `Auth.Authenticate` models this as written. It is not listed as a finding because the intent cannot be confirmed.
- Session.Login: the email lookup is exact, because the case handling of the User schema lives in `User.js`, which is not part of this model.
- HeadOps.PassRateRange: states the range and the two extremes only. The exact rounded share is stated by `HeadOps.AllResultsStats`.
- HeadOps.CompletionRateInRange: requires that no assessment has more submissions than the populated roster has students. Students who leave a class, and deleted students, keep their submissions, so the rate can exceed 100 (`HeadOps.CompletionCanExceedHundred`).
- The `studentCount`, `submissionCount` and `totalQuestions` virtuals are the list lengths by definition (`Classes.StudentCount`, `Quizzes.SubmissionCount`, `Assignments.SubmissionCount`, `Quizzes.TotalQuestions`). They have no separate contract.

## Findings

| source | as written | input that shows it | evidently intended | confidence | as-written member | corrected member |
|---|---|---|---|---|---|---|
| backend/controllers/adminController.js:457-461 | `assignStudents` adds students with `Class.updateOne` and `$addToSet`, which skips the Class pre-save hook at backend/models/Class.js:85-92. | A class with `maxStudents` 1 that already has student 1; assigning student 2 succeeds and leaves two students on the roster. | The roster-capacity rule of the save hook should also hold for rosters grown by `assignStudents`. | not executed; medium (the hook exists to enforce the limit) | AdminOps.AssignStudentsOverfills | AdminOps.AssignStudentsCheckedKeepsFit |
