/**
 * The database as maps from ids to documents, the array operators the
 * controllers use on id lists (`$addToSet`, `$pull`), and the invariants
 * that tie class rosters and teachers to each user's `assignedClasses`.
 */
module Store {
  import opened Wrappers
  import opened Ids
  import opened Seqs
  import opened Users
  import opened Classes
  import opened Quizzes
  import opened Assignments
  import opened Marks

  /** A teaching material; only its class matters here. */
  datatype Material = Material(classId: ClassId, title: string)

  datatype Db = Db(
    users: map<UserId, User>,
    classes: map<ClassId, ClassDoc>,
    quizzes: map<QuizId, Quiz>,
    assignments: map<AssignmentId, Assignment>,
    materials: map<MaterialId, Material>,
    marks: map<MarksId, MarksRecord>)

  /** What a write operation answers, and the database after it (which may differ even on an error). */
  datatype Outcome = Outcome(response: Response<()>, db: Db)

  function Done(db: Db): Outcome
  {
    Outcome(Ok(()), db)
  }

  function Fail(status: nat, message: string, db: Db): Outcome
  {
    Outcome(Err(status, message), db)
  }

  // ----- populated rosters -----

  /**
   * A roster as `populate('students')` returns it: ids with no user document are
   * dropped and the rest kept in roster order.
   */
  function LiveStudents(users: map<UserId, User>, cd: ClassDoc): (roster: seq<UserId>)
    ensures forall s :: s in roster <==> s in cd.students && s in users
    ensures |roster| <= |cd.students|
    ensures (forall i :: 0 <= i < |cd.students| ==> cd.students[i] in users) ==> roster == cd.students
  {
    if forall i :: 0 <= i < |cd.students| ==> cd.students[i] in users then
      FilterAll(cd.students, (s: UserId) => s in users);
      Filter(cd.students, (s: UserId) => s in users)
    else
      Filter(cd.students, (s: UserId) => s in users)
  }

  /** The populated roster of class `c`. */
  function LiveRoster(db: Db, c: ClassId): (roster: seq<UserId>)
    requires c in db.classes
    ensures forall s :: s in roster <==> s in db.classes[c].students && s in db.users
    ensures |roster| <= |db.classes[c].students|
    ensures (forall i :: 0 <= i < |db.classes[c].students| ==> db.classes[c].students[i] in db.users) ==>
      roster == db.classes[c].students
  {
    LiveStudents(db.users, db.classes[c])
  }

  // ----- $addToSet and $pull on id lists -----

  /** `$pull`: every occurrence of `x` removed, the rest kept in order. */
  function Pull(xs: seq<nat>, x: nat): (r: seq<nat>)
    ensures forall y :: y in r <==> y in xs && y != x
    ensures |r| <= |xs|
  {
    if |xs| == 0 then [] else (if xs[0] == x then [] else [xs[0]]) + Pull(xs[1..], x)
  }

  /** `$addToSet`: `x` appended unless already present. */
  function AddToSet(xs: seq<nat>, x: nat): (r: seq<nat>)
    ensures forall y :: y in r <==> y in xs || y == x
    ensures x in xs ==> r == xs
    ensures |r| <= |xs| + 1
  {
    if x in xs then xs else xs + [x]
  }

  /** `$addToSet` with `$each`: every id of `ys` added, in order, with set semantics. */
  function AddAllToSet(xs: seq<nat>, ys: seq<nat>): (r: seq<nat>)
    ensures forall y :: y in r <==> y in xs || y in ys
    ensures |r| >= |xs| && r[..|xs|] == xs
    decreases |ys|
  {
    if |ys| == 0 then xs else AddAllToSet(AddToSet(xs, ys[0]), ys[1..])
  }

  /** A list without repetitions, as `$addToSet` keeps it. */
  predicate NoDuplicates(xs: seq<nat>)
  {
    forall i, j :: 0 <= i < j < |xs| ==> xs[i] != xs[j]
  }

  lemma {:induction false} AddAllKeepsNoDuplicates(xs: seq<nat>, ys: seq<nat>)
    requires NoDuplicates(xs)
    ensures NoDuplicates(AddAllToSet(xs, ys))
    decreases |ys|
  {
    if |ys| > 0 {
      AddAllKeepsNoDuplicates(AddToSet(xs, ys[0]), ys[1..]);
    }
  }

  // ----- the enrollment invariants -----

  /** Every roster entry is a student who lists the class. */
  predicate RosterForward(db: Db)
  {
    forall c, u :: c in db.classes && u in db.classes[c].students ==>
      u in db.users && IsStudent(db.users[u]) && c in db.users[u].assignedClasses
  }

  /** Every student lists only classes whose roster has them. */
  predicate RosterBackward(db: Db)
  {
    forall u, c :: u in db.users && IsStudent(db.users[u]) && c in db.users[u].assignedClasses ==>
      c in db.classes && u in db.classes[c].students
  }

  /** Every class's teacher is a teacher who lists the class. */
  predicate TeacherForward(db: Db)
  {
    forall c :: c in db.classes && db.classes[c].teacher.Some? ==>
      && db.classes[c].teacher.value in db.users
      && IsTeacher(db.users[db.classes[c].teacher.value])
      && c in db.users[db.classes[c].teacher.value].assignedClasses
  }

  /** Every teacher lists only the classes they teach. */
  predicate TeacherBackward(db: Db)
  {
    forall u, c :: u in db.users && IsTeacher(db.users[u]) && c in db.users[u].assignedClasses ==>
      c in db.classes && db.classes[c].teacher == Some(u)
  }

  /** The enrollment links: rosters and class teachers agree with every user's `assignedClasses`, both ways. */
  predicate Linked(db: Db)
  {
    RosterForward(db) && RosterBackward(db) && TeacherForward(db) && TeacherBackward(db)
  }

  /** No roster is longer than its class allows. */
  predicate RostersFit(db: Db)
  {
    forall c :: c in db.classes ==> WithinCapacity(db.classes[c])
  }

  /** The links depend only on the users and the classes. */
  lemma LinkedOnPeople(a: Db, b: Db)
    requires a.users == b.users && a.classes == b.classes
    ensures Linked(a) <==> Linked(b)
  {
  }
}
