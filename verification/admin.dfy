/**
 * The administrator's write operations: accounts, classes, and the enrollment
 * links between class rosters, class teachers and each user's `assignedClasses`.
 */
module AdminOps {
  import opened Wrappers
  import opened Ids
  import opened Text
  import opened Seqs
  import opened Users
  import opened Classes
  import opened Store

  // ----- accounts -----

  /** Some account already uses this address. */
  predicate EmailTaken(db: Db, email: string)
  {
    exists u :: u in db.users && db.users[u].email == email
  }

  /**
   * `addTeacher` and `addStudent`: name, email and password are required; the
   * email is stored lower-cased and refused when an account already has it.
   * `id` is the id the database assigns to the new document.
   */
  function AddUser(db: Db, role: string, id: UserId, name: string, email: string, password: string,
                   phone: Option<string>, address: Option<string>): (o: Outcome)
    requires id !in db.users
    ensures name == "" || email == "" || password == "" ==> o == Fail(400, "Name, email, and password are required", db)
    ensures o.response.Ok? <==> name != "" && email != "" && password != "" && !EmailTaken(db, Lower(email))
    ensures o.response.Err? ==> o.db == db
    ensures o.response.Ok? ==>
      && id in o.db.users
      && o.db == db.(users := db.users[id := o.db.users[id]])
      && o.db.users[id] == NewUser(name, Lower(email), password, role, OrNull(phone), OrNull(address))
  {
    if name == "" || email == "" || password == "" then Fail(400, "Name, email, and password are required", db)
    else if EmailTaken(db, Lower(email)) then Fail(400, "Email already exists", db)
    else Done(db.(users := db.users[id := NewUser(name, Lower(email), password, role, OrNull(phone), OrNull(address))]))
  }

  function AddTeacher(db: Db, id: UserId, name: string, email: string, password: string,
                      phone: Option<string>, address: Option<string>): (o: Outcome)
    requires id !in db.users
    ensures o == AddUser(db, TeacherRole, id, name, email, password, phone, address)
    ensures o.response.Ok? ==> IsTeacher(o.db.users[id])
  {
    AddUser(db, TeacherRole, id, name, email, password, phone, address)
  }

  function AddStudent(db: Db, id: UserId, name: string, email: string, password: string,
                      phone: Option<string>, address: Option<string>): (o: Outcome)
    requires id !in db.users
    ensures o == AddUser(db, StudentRole, id, name, email, password, phone, address)
    ensures o.response.Ok? ==> IsStudent(o.db.users[id])
  {
    AddUser(db, StudentRole, id, name, email, password, phone, address)
  }

  /** Stored addresses are lower-case and no two accounts share one. */
  predicate EmailsUnique(db: Db)
  {
    && (forall u :: u in db.users ==> Lower(db.users[u].email) == db.users[u].email)
    && (forall u, v :: u in db.users && v in db.users && u != v ==> db.users[u].email != db.users[v].email)
  }

  /**
   * Adding an account keeps addresses unique, and no longer differ only by case:
   * an address that matches a stored one after lower-casing is refused.
   */
  lemma AddUserKeepsEmailsUnique(db: Db, role: string, id: UserId, name: string, email: string, password: string,
                                 phone: Option<string>, address: Option<string>)
    requires id !in db.users && EmailsUnique(db)
    ensures AddUser(db, role, id, name, email, password, phone, address).response.Ok? ==>
              EmailsUnique(AddUser(db, role, id, name, email, password, phone, address).db)
    ensures (exists u :: u in db.users && Lower(db.users[u].email) == Lower(email)) ==>
              AddUser(db, role, id, name, email, password, phone, address).response.Err?
  {
    var o := AddUser(db, role, id, name, email, password, phone, address);
    LowerIdempotent(email);
    if exists u :: u in db.users && Lower(db.users[u].email) == Lower(email) {
      var u :| u in db.users && Lower(db.users[u].email) == Lower(email);
      assert db.users[u].email == Lower(email);
      assert EmailTaken(db, Lower(email));
    }
    if o.response.Ok? {
      var d := o.db;
      assert !EmailTaken(db, Lower(email));
      forall u | u in d.users ensures Lower(d.users[u].email) == d.users[u].email {
        if u != id { assert d.users[u] == db.users[u]; }
      }
      forall u, v | u in d.users && v in d.users && u != v ensures d.users[u].email != d.users[v].email {
        if u != id && v != id {
          assert d.users[u] == db.users[u] && d.users[v] == db.users[v];
        } else if u == id {
          assert d.users[v] == db.users[v];
        } else {
          assert d.users[u] == db.users[u];
        }
      }
    }
  }

  /** A new account belongs to no class, so adding one keeps the enrollment links. */
  lemma AddUserKeepsLinks(db: Db, role: string, id: UserId, name: string, email: string, password: string,
                          phone: Option<string>, address: Option<string>)
    requires id !in db.users && Linked(db)
    ensures Linked(AddUser(db, role, id, name, email, password, phone, address).db)
  {
    var o := AddUser(db, role, id, name, email, password, phone, address);
    if o.response.Ok? {
      AddFreshUserKeepsLinks(db, id, o.db.users[id]);
    }
  }

  /** A user with no classes can join the users map without touching any link. */
  lemma AddFreshUserKeepsLinks(db: Db, id: UserId, nu: User)
    requires id !in db.users && Linked(db) && nu.assignedClasses == []
    ensures Linked(db.(users := db.users[id := nu]))
  {
    var d := db.(users := db.users[id := nu]);
    forall c, u | c in d.classes && u in d.classes[c].students
      ensures u in d.users && IsStudent(d.users[u]) && c in d.users[u].assignedClasses
    {
      assert u in db.users && u != id;
    }
    forall u, c | u in d.users && IsStudent(d.users[u]) && c in d.users[u].assignedClasses
      ensures c in d.classes && u in d.classes[c].students
    {
      assert u != id;
    }
    forall c | c in d.classes && d.classes[c].teacher.Some?
      ensures d.classes[c].teacher.value in d.users
      ensures IsTeacher(d.users[d.classes[c].teacher.value])
      ensures c in d.users[d.classes[c].teacher.value].assignedClasses
    {
      assert d.classes[c].teacher.value in db.users;
    }
    forall u, c | u in d.users && IsTeacher(d.users[u]) && c in d.users[u].assignedClasses
      ensures c in d.classes && d.classes[c].teacher == Some(u)
    {
      assert u != id;
    }
  }

  // ----- deletions -----

  /**
   * `deleteTeacher`: the user must exist with the teacher role; every class they
   * teach loses its teacher, and the account is removed.
   */
  function DeleteTeacher(db: Db, t: UserId): (o: Outcome)
    ensures o.response.Ok? <==> t in db.users && IsTeacher(db.users[t])
    ensures o.response.Err? ==> o == Fail(404, "Teacher not found", db)
    ensures o.response.Ok? ==>
      && o.db.users == db.users - {t}
      && o.db.classes.Keys == db.classes.Keys
      && (forall c :: c in db.classes ==>
            o.db.classes[c] == (if db.classes[c].teacher == Some(t) then db.classes[c].(teacher := None) else db.classes[c]))
      && o.db.(users := db.users, classes := db.classes) == db
  {
    if t !in db.users || !IsTeacher(db.users[t]) then Fail(404, "Teacher not found", db)
    else
      var classes := map c | c in db.classes ::
        if db.classes[c].teacher == Some(t) then db.classes[c].(teacher := None) else db.classes[c];
      Done(db.(users := db.users - {t}, classes := classes))
  }

  /**
   * `deleteStudent`: the user must exist with the student role; they are pulled
   * from every roster, and the account is removed.
   */
  function DeleteStudent(db: Db, s: UserId): (o: Outcome)
    ensures o.response.Ok? <==> s in db.users && IsStudent(db.users[s])
    ensures o.response.Err? ==> o == Fail(404, "Student not found", db)
    ensures o.response.Ok? ==>
      && o.db.users == db.users - {s}
      && o.db.classes.Keys == db.classes.Keys
      && (forall c :: c in db.classes ==> o.db.classes[c] == db.classes[c].(students := Pull(db.classes[c].students, s)))
      && o.db.(users := db.users, classes := db.classes) == db
  {
    if s !in db.users || !IsStudent(db.users[s]) then Fail(404, "Student not found", db)
    else
      var classes := map c | c in db.classes :: db.classes[c].(students := Pull(db.classes[c].students, s));
      Done(db.(users := db.users - {s}, classes := classes))
  }

  /** Deleting a teacher keeps the enrollment links. */
  lemma DeleteTeacherKeepsLinks(db: Db, t: UserId)
    requires Linked(db)
    ensures Linked(DeleteTeacher(db, t).db)
  {
    if DeleteTeacher(db, t).response.Ok? {
      DeleteTeacherRosters(db, t);
      DeleteTeacherTeachers(db, t);
    }
  }

  lemma DeleteTeacherRosters(db: Db, t: UserId)
    requires Linked(db) && DeleteTeacher(db, t).response.Ok?
    ensures RosterForward(DeleteTeacher(db, t).db) && RosterBackward(DeleteTeacher(db, t).db)
  {
    var d := DeleteTeacher(db, t).db;
    forall c, u | c in d.classes && u in d.classes[c].students
      ensures u in d.users && IsStudent(d.users[u]) && c in d.users[u].assignedClasses
    {
      assert u in db.classes[c].students;
    }
    forall u, c | u in d.users && IsStudent(d.users[u]) && c in d.users[u].assignedClasses
      ensures c in d.classes && u in d.classes[c].students
    {
      assert d.users[u] == db.users[u];
    }
  }

  lemma DeleteTeacherTeachers(db: Db, t: UserId)
    requires Linked(db) && DeleteTeacher(db, t).response.Ok?
    ensures TeacherForward(DeleteTeacher(db, t).db) && TeacherBackward(DeleteTeacher(db, t).db)
  {
    var d := DeleteTeacher(db, t).db;
    forall c | c in d.classes && d.classes[c].teacher.Some?
      ensures d.classes[c].teacher.value in d.users && IsTeacher(d.users[d.classes[c].teacher.value])
      ensures c in d.users[d.classes[c].teacher.value].assignedClasses
    {
      assert d.classes[c] == db.classes[c];
    }
    forall u, c | u in d.users && IsTeacher(d.users[u]) && c in d.users[u].assignedClasses
      ensures c in d.classes && d.classes[c].teacher == Some(u)
    {
      assert d.users[u] == db.users[u];
    }
  }

  /** Deleting a student keeps the enrollment links. */
  lemma DeleteStudentKeepsLinks(db: Db, s: UserId)
    requires Linked(db)
    ensures Linked(DeleteStudent(db, s).db)
  {
    if DeleteStudent(db, s).response.Ok? {
      DeleteStudentRosterForward(db, s);
      DeleteStudentRosterBackward(db, s);
      DeleteStudentTeachers(db, s);
    }
  }

  lemma DeleteStudentRosterForward(db: Db, s: UserId)
    requires Linked(db) && DeleteStudent(db, s).response.Ok?
    ensures RosterForward(DeleteStudent(db, s).db)
  {
    var d := DeleteStudent(db, s).db;
    assert forall c, u :: c in d.classes && u in d.classes[c].students ==> u in db.classes[c].students && u != s;
    forall c, u | c in d.classes && u in d.classes[c].students
      ensures u in d.users && IsStudent(d.users[u]) && c in d.users[u].assignedClasses
    {
      assert d.users[u] == db.users[u];
    }
  }

  lemma DeleteStudentRosterBackward(db: Db, s: UserId)
    requires Linked(db) && DeleteStudent(db, s).response.Ok?
    ensures RosterBackward(DeleteStudent(db, s).db)
  {
    var d := DeleteStudent(db, s).db;
    forall u, c | u in d.users && IsStudent(d.users[u]) && c in d.users[u].assignedClasses
      ensures c in d.classes && u in d.classes[c].students
    {
      assert d.users[u] == db.users[u];
    }
  }

  lemma DeleteStudentTeachers(db: Db, s: UserId)
    requires Linked(db) && DeleteStudent(db, s).response.Ok?
    ensures TeacherForward(DeleteStudent(db, s).db) && TeacherBackward(DeleteStudent(db, s).db)
  {
    var d := DeleteStudent(db, s).db;
    forall c | c in d.classes && d.classes[c].teacher.Some?
      ensures d.classes[c].teacher.value in d.users && IsTeacher(d.users[d.classes[c].teacher.value])
      ensures c in d.users[d.classes[c].teacher.value].assignedClasses
    {
      assert d.classes[c].teacher == db.classes[c].teacher;
    }
    forall u, c | u in d.users && IsTeacher(d.users[u]) && c in d.users[u].assignedClasses
      ensures c in d.classes && d.classes[c].teacher == Some(u)
    {
      assert d.users[u] == db.users[u];
    }
  }

  /**
   * `removeStudentFromClass`: pulls the student from the roster and the class
   * from the user's list. Neither id is checked, so it always answers success.
   */
  function RemoveStudentFromClass(db: Db, c: ClassId, s: UserId): (o: Outcome)
    ensures o.response.Ok?
    ensures o.db.classes.Keys == db.classes.Keys && o.db.users.Keys == db.users.Keys
    ensures c in db.classes ==> s !in o.db.classes[c].students
    ensures s in db.users ==> c !in o.db.users[s].assignedClasses
    ensures forall d :: d in db.classes && d != c ==> o.db.classes[d] == db.classes[d]
    ensures forall u :: u in db.users && u != s ==> o.db.users[u] == db.users[u]
  {
    var classes := if c in db.classes then db.classes[c := db.classes[c].(students := Pull(db.classes[c].students, s))] else db.classes;
    var users := if s in db.users then db.users[s := db.users[s].(assignedClasses := Pull(db.users[s].assignedClasses, c))] else db.users;
    Done(db.(classes := classes, users := users))
  }

  /**
   * Removing a student keeps the links, unless the id given is the class's own
   * teacher: then the class stays with its teacher while the teacher's list loses it.
   */
  lemma RemoveStudentKeepsLinks(db: Db, c: ClassId, s: UserId)
    requires Linked(db)
    requires !(c in db.classes && db.classes[c].teacher == Some(s))
    ensures Linked(RemoveStudentFromClass(db, c, s).db)
  {
    RemoveStudentRosterForward(db, c, s);
    RemoveStudentRosterBackward(db, c, s);
    RemoveStudentTeacherForward(db, c, s);
    RemoveStudentTeacherBackward(db, c, s);
  }

  lemma RemoveStudentRosterForward(db: Db, c: ClassId, s: UserId)
    requires Linked(db)
    ensures RosterForward(RemoveStudentFromClass(db, c, s).db)
  {
    var d := RemoveStudentFromClass(db, c, s).db;
    forall e, u | e in d.classes && u in d.classes[e].students
      ensures u in d.users && IsStudent(d.users[u]) && e in d.users[u].assignedClasses
    {
      RemoveStudentRosterForwardAt(db, c, s, e, u);
    }
  }

  lemma RemoveStudentRosterForwardAt(db: Db, c: ClassId, s: UserId, e: ClassId, u: UserId)
    requires RosterForward(db)
    requires e in RemoveStudentFromClass(db, c, s).db.classes
    requires u in RemoveStudentFromClass(db, c, s).db.classes[e].students
    ensures u in RemoveStudentFromClass(db, c, s).db.users
    ensures IsStudent(RemoveStudentFromClass(db, c, s).db.users[u])
    ensures e in RemoveStudentFromClass(db, c, s).db.users[u].assignedClasses
  {
    var d := RemoveStudentFromClass(db, c, s).db;
    if e == c {
      assert d.classes[e].students == Pull(db.classes[c].students, s);
    } else {
      assert d.classes[e] == db.classes[e];
    }
    assert u in db.classes[e].students;
    if u == s {
      assert e != c;
      assert d.users[u] == db.users[u].(assignedClasses := Pull(db.users[u].assignedClasses, c));
    } else {
      assert d.users[u] == db.users[u];
    }
  }

  lemma RemoveStudentRosterBackward(db: Db, c: ClassId, s: UserId)
    requires Linked(db)
    ensures RosterBackward(RemoveStudentFromClass(db, c, s).db)
  {
    var d := RemoveStudentFromClass(db, c, s).db;
    forall u, e | u in d.users && IsStudent(d.users[u]) && e in d.users[u].assignedClasses
      ensures e in d.classes && u in d.classes[e].students
    {
      RemoveStudentRosterBackwardAt(db, c, s, u, e);
    }
  }

  lemma RemoveStudentRosterBackwardAt(db: Db, c: ClassId, s: UserId, u: UserId, e: ClassId)
    requires RosterBackward(db)
    requires u in RemoveStudentFromClass(db, c, s).db.users
    requires IsStudent(RemoveStudentFromClass(db, c, s).db.users[u])
    requires e in RemoveStudentFromClass(db, c, s).db.users[u].assignedClasses
    ensures e in RemoveStudentFromClass(db, c, s).db.classes
    ensures u in RemoveStudentFromClass(db, c, s).db.classes[e].students
  {
    var d := RemoveStudentFromClass(db, c, s).db;
    if u == s {
      assert d.users[u] == db.users[u].(assignedClasses := Pull(db.users[u].assignedClasses, c));
    } else {
      assert d.users[u] == db.users[u];
    }
    assert IsStudent(db.users[u]) && e in db.users[u].assignedClasses;
    assert u == s ==> e != c;
  }

  lemma RemoveStudentTeacherForward(db: Db, c: ClassId, s: UserId)
    requires Linked(db)
    requires !(c in db.classes && db.classes[c].teacher == Some(s))
    ensures TeacherForward(RemoveStudentFromClass(db, c, s).db)
  {
    var d := RemoveStudentFromClass(db, c, s).db;
    forall e | e in d.classes && d.classes[e].teacher.Some?
      ensures d.classes[e].teacher.value in d.users && IsTeacher(d.users[d.classes[e].teacher.value])
      ensures e in d.users[d.classes[e].teacher.value].assignedClasses
    {
      assert d.classes[e].teacher == db.classes[e].teacher;
    }
  }

  lemma RemoveStudentTeacherBackward(db: Db, c: ClassId, s: UserId)
    requires Linked(db)
    ensures TeacherBackward(RemoveStudentFromClass(db, c, s).db)
  {
    var d := RemoveStudentFromClass(db, c, s).db;
    forall u, e | u in d.users && IsTeacher(d.users[u]) && e in d.users[u].assignedClasses
      ensures e in d.classes && d.classes[e].teacher == Some(u)
    {
      RemoveStudentTeacherBackwardAt(db, c, s, u, e);
    }
  }

  lemma RemoveStudentTeacherBackwardAt(db: Db, c: ClassId, s: UserId, u: UserId, e: ClassId)
    requires TeacherBackward(db)
    requires u in RemoveStudentFromClass(db, c, s).db.users
    requires IsTeacher(RemoveStudentFromClass(db, c, s).db.users[u])
    requires e in RemoveStudentFromClass(db, c, s).db.users[u].assignedClasses
    ensures e in RemoveStudentFromClass(db, c, s).db.classes
    ensures RemoveStudentFromClass(db, c, s).db.classes[e].teacher == Some(u)
  {
    var d := RemoveStudentFromClass(db, c, s).db;
    if u == s {
      assert d.users[u] == db.users[u].(assignedClasses := Pull(db.users[u].assignedClasses, c));
    } else {
      assert d.users[u] == db.users[u];
    }
    assert IsTeacher(db.users[u]) && e in db.users[u].assignedClasses;
  }

  // ----- classes -----

  /**
   * The class `addClass` asks `Class.create` for: description defaults to "",
   * capacity to 50 (also for 0), semester to none and the academic year to the current one.
   */
  function ClassFromRequest(classname: string, description: Option<string>, maxStudents: Option<int>,
                            semester: Option<string>, academicYear: Option<string>, currentYear: string): (c: ClassDoc)
    ensures c.students == [] && c.teacher.None?
    ensures c.maxStudents == (if maxStudents.None? || maxStudents == Some(0) then 50 else maxStudents.value)
    ensures description.None? ==> c.description == ""
    ensures c.classname == Trim(classname)
  {
    NewClass(classname, if description.Some? then description.value else "",
             if maxStudents.None? || maxStudents == Some(0) then None else maxStudents,
             OrNull(semester), if OrNull(academicYear).Some? then academicYear.value else currentYear)
  }

  /**
   * `addClass`: a class name is required; the class is built with the defaults
   * above and saved, and any failure of `save()` is answered with 500.
   */
  function AddClass(db: Db, id: ClassId, classname: string, description: Option<string>, maxStudents: Option<int>,
                    semester: Option<string>, academicYear: Option<string>, currentYear: string): (o: Outcome)
    requires id !in db.classes
    ensures classname == "" ==> o == Fail(400, "Class name is required", db)
    ensures o.response.Err? ==> o.db == db
    ensures o.response.Ok? <==>
      (classname != "" && SaveClass(ClassFromRequest(classname, description, maxStudents, semester, academicYear, currentYear)).Ok?)
    ensures o.response.Ok? ==>
      && o.db == db.(classes := db.classes[id := ClassFromRequest(classname, description, maxStudents, semester, academicYear, currentYear)])
      && FieldsValid(o.db.classes[id]) && WithinCapacity(o.db.classes[id])
  {
    if classname == "" then Fail(400, "Class name is required", db)
    else
      var cls := ClassFromRequest(classname, description, maxStudents, semester, academicYear, currentYear);
      match SaveClass(cls)
      case Err(_, msg) => Fail(500, msg, db)
      case Ok(saved) => Done(db.(classes := db.classes[id := saved]))
  }

  /** The class `addClass` builds saves exactly when its name trims to 2..100 characters, its description fits, and its capacity is not negative. */
  lemma AddClassSavesWhen(classname: string, description: Option<string>, maxStudents: Option<int>,
                          semester: Option<string>, academicYear: Option<string>, currentYear: string)
    ensures SaveClass(ClassFromRequest(classname, description, maxStudents, semester, academicYear, currentYear)).Ok?
            <==> (&& 2 <= |Trim(classname)| <= 100
                  && (description.Some? ==> |description.value| <= 500)
                  && (maxStudents.Some? ==> maxStudents.value >= 0))
  {
    TrimIdempotent(classname);
  }

  /** A new class has neither teacher nor students, so adding one keeps the links. */
  lemma AddClassKeepsLinks(db: Db, id: ClassId, classname: string, description: Option<string>, maxStudents: Option<int>,
                           semester: Option<string>, academicYear: Option<string>, currentYear: string)
    requires id !in db.classes && Linked(db)
    ensures Linked(AddClass(db, id, classname, description, maxStudents, semester, academicYear, currentYear).db)
  {
    var o := AddClass(db, id, classname, description, maxStudents, semester, academicYear, currentYear);
    if o.response.Ok? {
      AddEmptyClassKeepsLinks(db, id, ClassFromRequest(classname, description, maxStudents, semester, academicYear, currentYear));
    }
  }

  lemma AddEmptyClassKeepsLinks(db: Db, id: ClassId, cls: ClassDoc)
    requires id !in db.classes && Linked(db)
    requires cls.teacher.None? && cls.students == []
    ensures Linked(db.(classes := db.classes[id := cls]))
  {
    var d := db.(classes := db.classes[id := cls]);
    forall u, c | u in d.users && IsTeacher(d.users[u]) && c in d.users[u].assignedClasses
      ensures c in d.classes && d.classes[c].teacher == Some(u)
    {
      assert c in db.classes && db.classes[c].teacher == Some(u);
    }
    forall u, c | u in d.users && IsStudent(d.users[u]) && c in d.users[u].assignedClasses
      ensures c in d.classes && u in d.classes[c].students
    {
      assert c in db.classes && u in db.classes[c].students;
    }
  }

  /** `$pull` of class `c` from the lists of its teacher and of every student on its roster. */
  function LeaveClass(users: map<UserId, User>, c: ClassId, cd: ClassDoc): (r: map<UserId, User>)
    ensures r.Keys == users.Keys
    ensures forall u :: u in users ==>
      r[u] == if cd.teacher == Some(u) || u in cd.students
              then users[u].(assignedClasses := Pull(users[u].assignedClasses, c)) else users[u]
  {
    map u | u in users ::
      if cd.teacher == Some(u) || u in cd.students
      then users[u].(assignedClasses := Pull(users[u].assignedClasses, c)) else users[u]
  }

  /** The first writes of `deleteClass`: the class's people lose it, and the class goes. */
  function Unlink(db: Db, c: ClassId): (d: Db)
    requires c in db.classes
    ensures d.classes == db.classes - {c}
    ensures d.users == LeaveClass(db.users, c, db.classes[c])
    ensures d.quizzes == db.quizzes && d.assignments == db.assignments
    ensures d.materials == db.materials && d.marks == db.marks
  {
    db.(users := LeaveClass(db.users, c, db.classes[c]), classes := db.classes - {c})
  }

  /** The cascade of `deleteClass`: every quiz, assignment, material and marks record of class `c` is deleted. */
  function DropClassDocuments(db: Db, c: ClassId): (d: Db)
    ensures d.users == db.users && d.classes == db.classes
    ensures forall q :: q in d.quizzes <==> q in db.quizzes && db.quizzes[q].classId != c
    ensures forall a :: a in d.assignments <==> a in db.assignments && db.assignments[a].classId != c
    ensures forall m :: m in d.materials <==> m in db.materials && db.materials[m].classId != c
    ensures forall k :: k in d.marks <==> k in db.marks && db.marks[k].classId != c
    ensures forall q :: q in d.quizzes ==> d.quizzes[q] == db.quizzes[q]
    ensures forall a :: a in d.assignments ==> d.assignments[a] == db.assignments[a]
    ensures forall m :: m in d.materials ==> d.materials[m] == db.materials[m]
    ensures forall k :: k in d.marks ==> d.marks[k] == db.marks[k]
  {
    db.(quizzes := map q | q in db.quizzes && db.quizzes[q].classId != c :: db.quizzes[q],
        assignments := map a | a in db.assignments && db.assignments[a].classId != c :: db.assignments[a],
        materials := map m | m in db.materials && db.materials[m].classId != c :: db.materials[m],
        marks := map k | k in db.marks && db.marks[k].classId != c :: db.marks[k])
  }

  /**
   * `deleteClass`: the class must exist; its teacher and its students lose it from
   * their lists, and its quizzes, assignments, materials and marks are deleted with it.
   */
  function DeleteClass(db: Db, c: ClassId): (o: Outcome)
    ensures o.response.Ok? <==> c in db.classes
    ensures o.response.Err? ==> o == Fail(404, "Class not found", db)
    ensures o.response.Ok? ==> o.db == DropClassDocuments(Unlink(db, c), c)
  {
    if c !in db.classes then Fail(404, "Class not found", db)
    else Done(DropClassDocuments(Unlink(db, c), c))
  }

  /** Every document of the deleted class is gone, and nothing of another class is touched. */
  lemma DeleteClassCascades(db: Db, c: ClassId)
    requires c in db.classes
    ensures var d := DeleteClass(db, c).db;
      && c !in d.classes
      && (forall q :: q in d.quizzes ==> d.quizzes[q].classId != c)
      && (forall a :: a in d.assignments ==> d.assignments[a].classId != c)
      && (forall m :: m in d.materials ==> d.materials[m].classId != c)
      && (forall k :: k in d.marks ==> d.marks[k].classId != c)
      && (forall q :: q in db.quizzes && db.quizzes[q].classId != c ==> q in d.quizzes && d.quizzes[q] == db.quizzes[q])
      && (forall k :: k in db.marks && db.marks[k].classId != c ==> k in d.marks && d.marks[k] == db.marks[k])
      && (forall u :: u in d.users ==> c !in d.users[u].assignedClasses || !(db.classes[c].teacher == Some(u) || u in db.classes[c].students))
  {
  }

  /** Deleting a class keeps the enrollment links: everyone who listed it was on its roster or taught it. */
  lemma DeleteClassKeepsLinks(db: Db, c: ClassId)
    requires Linked(db)
    ensures Linked(DeleteClass(db, c).db)
  {
    if c in db.classes {
      UnlinkRosterForward(db, c);
      UnlinkRosterBackward(db, c);
      UnlinkTeacherForward(db, c);
      UnlinkTeacherBackward(db, c);
      LinkedOnPeople(Unlink(db, c), DeleteClass(db, c).db);
    }
  }

  lemma UnlinkRosterForward(db: Db, c: ClassId)
    requires Linked(db) && c in db.classes
    ensures RosterForward(Unlink(db, c))
  {
    var d := Unlink(db, c);
    forall e, u | e in d.classes && u in d.classes[e].students
      ensures u in d.users && IsStudent(d.users[u]) && e in d.users[u].assignedClasses
    {
      UnlinkAt(db, c, u, e);
    }
  }

  lemma UnlinkRosterBackward(db: Db, c: ClassId)
    requires Linked(db) && c in db.classes
    ensures RosterBackward(Unlink(db, c))
  {
    var d := Unlink(db, c);
    forall u, e | u in d.users && IsStudent(d.users[u]) && e in d.users[u].assignedClasses
      ensures e in d.classes && u in d.classes[e].students
    {
      UnlinkListedAt(db, c, u, e);
    }
  }

  lemma UnlinkTeacherForward(db: Db, c: ClassId)
    requires Linked(db) && c in db.classes
    ensures TeacherForward(Unlink(db, c))
  {
    var d := Unlink(db, c);
    forall e | e in d.classes && d.classes[e].teacher.Some?
      ensures d.classes[e].teacher.value in d.users && IsTeacher(d.users[d.classes[e].teacher.value])
      ensures e in d.users[d.classes[e].teacher.value].assignedClasses
    {
      UnlinkAt(db, c, d.classes[e].teacher.value, e);
    }
  }

  lemma UnlinkTeacherBackward(db: Db, c: ClassId)
    requires Linked(db) && c in db.classes
    ensures TeacherBackward(Unlink(db, c))
  {
    var d := Unlink(db, c);
    forall u, e | u in d.users && IsTeacher(d.users[u]) && e in d.users[u].assignedClasses
      ensures e in d.classes && d.classes[e].teacher == Some(u)
    {
      UnlinkListedAt(db, c, u, e);
    }
  }

  /** A student or teacher who still lists a class after unlinking listed it before, and it is unchanged. */
  lemma UnlinkListedAt(db: Db, c: ClassId, u: UserId, e: ClassId)
    requires Linked(db) && c in db.classes
    requires u in Unlink(db, c).users && e in Unlink(db, c).users[u].assignedClasses
    requires IsStudent(Unlink(db, c).users[u]) || IsTeacher(Unlink(db, c).users[u])
    ensures e in Unlink(db, c).classes && Unlink(db, c).classes[e] == db.classes[e]
    ensures IsStudent(Unlink(db, c).users[u]) ==> u in db.classes[e].students
    ensures IsTeacher(Unlink(db, c).users[u]) ==> db.classes[e].teacher == Some(u)
  {
    UnlinkAt(db, c, u, e);
    assert e in db.users[u].assignedClasses;
  }

  /** For one user and one remaining class, unlinking changes nothing between them. */
  lemma UnlinkAt(db: Db, c: ClassId, u: UserId, e: ClassId)
    requires Linked(db) && c in db.classes
    ensures u in db.users ==>
      var d := Unlink(db, c);
      && u in d.users && d.users[u].role == db.users[u].role
      && (e != c ==> (e in d.users[u].assignedClasses <==> e in db.users[u].assignedClasses))
      && (IsStudent(db.users[u]) || IsTeacher(db.users[u]) ==> c !in d.users[u].assignedClasses)
    ensures e in Unlink(db, c).classes <==> e in db.classes && e != c
    ensures e in Unlink(db, c).classes ==> Unlink(db, c).classes[e] == db.classes[e]
  {
    if u in db.users {
      var d := Unlink(db, c);
      if !(db.classes[c].teacher == Some(u) || u in db.classes[c].students) {
        assert d.users[u].assignedClasses == db.users[u].assignedClasses;
      }
    }
  }

  /** The fields a class update may carry; absent ones keep their value. */
  datatype ClassPatch = ClassPatch(
    classname: Patch<string>,
    description: Patch<string>,
    teacher: Patch<Option<UserId>>,
    students: Patch<seq<UserId>>,
    maxStudents: Patch<int>,
    semester: Patch<Option<string>>,
    academicYear: Patch<string>,
    isActive: Patch<bool>)

  /** The class with the patch applied; a new class name is trimmed as the schema does. */
  function Patched(cd: ClassDoc, p: ClassPatch): (r: ClassDoc)
    ensures r.classname == (if p.classname.Set? then Trim(p.classname.value) else cd.classname)
    ensures r.students == ApplyPatch(p.students, cd.students) && r.teacher == ApplyPatch(p.teacher, cd.teacher)
    ensures r.description == ApplyPatch(p.description, cd.description)
    ensures r.maxStudents == ApplyPatch(p.maxStudents, cd.maxStudents)
    ensures r.head == cd.head
  {
    ClassDoc(if p.classname.Set? then Trim(p.classname.value) else cd.classname,
             ApplyPatch(p.description, cd.description),
             ApplyPatch(p.teacher, cd.teacher),
             ApplyPatch(p.students, cd.students),
             cd.head,
             ApplyPatch(p.semester, cd.semester),
             ApplyPatch(p.academicYear, cd.academicYear),
             ApplyPatch(p.isActive, cd.isActive),
             ApplyPatch(p.maxStudents, cd.maxStudents))
  }

  /** The validators an update runs: only those of the fields it sets. */
  predicate PatchValid(p: ClassPatch)
  {
    && (p.classname.Set? ==> 2 <= |Trim(p.classname.value)| <= 100)
    && (p.description.Set? ==> |p.description.value| <= 500)
  }

  /**
   * `updateClass`: the class must exist; the fields present are written as given,
   * with their validators run but not the save hook, and no user record is touched.
   */
  function UpdateClass(db: Db, c: ClassId, p: ClassPatch): (o: Outcome)
    ensures c !in db.classes ==> o == Fail(404, "Class not found", db)
    ensures o.response.Ok? <==> c in db.classes && PatchValid(p)
    ensures o.response.Err? ==> o.db == db
    ensures o.response.Ok? ==> o.db == db.(classes := db.classes[c := Patched(db.classes[c], p)])
  {
    if c !in db.classes then Fail(404, "Class not found", db)
    else if !PatchValid(p) then Fail(500, "Validation failed", db)
    else Done(db.(classes := db.classes[c := Patched(db.classes[c], p)]))
  }

  /** An update with no fields leaves the database as it was. */
  lemma EmptyUpdateChangesNothing(db: Db, c: ClassId)
    requires c in db.classes
    ensures UpdateClass(db, c, ClassPatch(Keep, Keep, Keep, Keep, Keep, Keep, Keep, Keep)).db == db
  {
    var cd := db.classes[c];
    var r := Patched(cd, ClassPatch(Keep, Keep, Keep, Keep, Keep, Keep, Keep, Keep));
    assert r == cd;
    assert db.classes[c := cd] == db.classes;
  }

  /**
   * Because `updateClass` writes the roster directly, it can put a student on a roster
   * without the class appearing in that student's list: links that held are broken.
   */
  lemma UpdateClassCanBreakLinks()
    ensures var db := Db(map[1 := NewUser("s", "s@x", "p", StudentRole, None, None)],
                         map[0 := ClassDoc("math", "", None, [], None, None, "", true, 50)],
                         map[], map[], map[], map[]);
            && Linked(db)
            && UpdateClass(db, 0, ClassPatch(Keep, Keep, Keep, Set([1]), Keep, Keep, Keep, Keep)).response.Ok?
            && !Linked(UpdateClass(db, 0, ClassPatch(Keep, Keep, Keep, Set([1]), Keep, Keep, Keep, Keep)).db)
  {
    var db := Db(map[1 := NewUser("s", "s@x", "p", StudentRole, None, None)],
                 map[0 := ClassDoc("math", "", None, [], None, None, "", true, 50)],
                 map[], map[], map[], map[]);
    var d := UpdateClass(db, 0, ClassPatch(Keep, Keep, Keep, Set([1]), Keep, Keep, Keep, Keep)).db;
    assert 1 in d.classes[0].students;
    assert d.users[1].assignedClasses == [];
  }

  // ----- assigning a teacher -----

  /** `$pull` of class `c` from user `u`'s list, a no-op when there is no such user. */
  function PullClass(users: map<UserId, User>, u: UserId, c: ClassId): (r: map<UserId, User>)
    ensures r.Keys == users.Keys
    ensures u in users ==> r[u] == users[u].(assignedClasses := Pull(users[u].assignedClasses, c))
    ensures forall v :: v in users && v != u ==> r[v] == users[v]
  {
    if u in users then users[u := users[u].(assignedClasses := Pull(users[u].assignedClasses, c))] else users
  }

  /** The first write of `assignTeacher`: the class's current teacher, if any, loses it. */
  function ReleaseTeacher(db: Db, c: ClassId): (d: Db)
    requires c in db.classes
    ensures d.classes == db.classes && d.users.Keys == db.users.Keys
    ensures forall u :: u in db.users && db.classes[c].teacher != Some(u) ==> d.users[u] == db.users[u]
    ensures db.classes[c].teacher.Some? && db.classes[c].teacher.value in db.users ==>
      var p := db.classes[c].teacher.value;
      d.users[p] == db.users[p].(assignedClasses := Pull(db.users[p].assignedClasses, c))
  {
    if db.classes[c].teacher.Some? then db.(users := PullClass(db.users, db.classes[c].teacher.value, c)) else db
  }

  /** The remaining writes once the save succeeds: the class names `t` and `t` gains the class. */
  function InstallTeacher(db: Db, c: ClassId, t: UserId): (d: Db)
    requires c in db.classes && t in db.users
    ensures d.classes == db.classes[c := db.classes[c].(teacher := Some(t))]
    ensures d.users == db.users[t := db.users[t].(assignedClasses := AddToSet(db.users[t].assignedClasses, c))]
  {
    db.(classes := db.classes[c := db.classes[c].(teacher := Some(t))],
        users := db.users[t := db.users[t].(assignedClasses := AddToSet(db.users[t].assignedClasses, c))])
  }

  /**
   * `assignTeacher`: the class must exist and the id must be a teacher's. The previous
   * teacher loses the class first; then the class is saved with the new teacher, and
   * only if that save succeeds does the new teacher gain the class. A failing save is
   * answered with 500, after the previous teacher's list has already been changed.
   */
  function AssignTeacher(db: Db, c: ClassId, t: UserId): (o: Outcome)
    ensures c !in db.classes ==> o == Fail(404, "Class not found", db)
    ensures c in db.classes && !(t in db.users && IsTeacher(db.users[t])) ==> o == Fail(404, "Teacher not found", db)
    ensures o.response.Ok? <==>
      && c in db.classes && t in db.users && IsTeacher(db.users[t])
      && FieldsValid(db.classes[c]) && WithinCapacity(db.classes[c])
    ensures o.response.Ok? ==> o.db == InstallTeacher(ReleaseTeacher(db, c), c, t)
    ensures o.response.Err? && o.response.status == 500 ==> c in db.classes && o.db == ReleaseTeacher(db, c)
  {
    if c !in db.classes then Fail(404, "Class not found", db)
    else if !(t in db.users && IsTeacher(db.users[t])) then Fail(404, "Teacher not found", db)
    else
      var released := ReleaseTeacher(db, c);
      match SaveClass(db.classes[c].(teacher := Some(t)))
      case Err(_, _) => Fail(500, "Server error", released)
      case Ok(_) => Done(InstallTeacher(released, c, t))
  }

  /** Releasing the previous teacher and installing a new one keeps the enrollment links. */
  lemma AssignTeacherKeepsLinks(db: Db, c: ClassId, t: UserId)
    requires Linked(db)
    ensures AssignTeacher(db, c, t).response.Ok? ==> Linked(AssignTeacher(db, c, t).db)
  {
    if AssignTeacher(db, c, t).response.Ok? {
      ReassignKeepsRosters(db, c, t);
      ReassignKeepsTeacherForward(db, c, t);
      ReassignKeepsTeacherBackward(db, c, t);
    }
  }

  /** For one user and one class, what releasing and installing changed between them. */
  lemma ReassignAt(db: Db, c: ClassId, t: UserId, u: UserId, e: ClassId)
    requires c in db.classes && t in db.users
    ensures u in db.users ==>
      var d := InstallTeacher(ReleaseTeacher(db, c), c, t);
      && d.users[u].role == db.users[u].role
      && (e != c ==> (e in d.users[u].assignedClasses <==> e in db.users[u].assignedClasses))
      && (e == c ==> (e in d.users[u].assignedClasses <==> u == t || (e in db.users[u].assignedClasses && db.classes[c].teacher != Some(u))))
  {
    if u in db.users {
      var r := ReleaseTeacher(db, c);
      if db.classes[c].teacher != Some(u) {
        assert r.users[u] == db.users[u];
      }
    }
  }

  lemma ReassignKeepsRosters(db: Db, c: ClassId, t: UserId)
    requires Linked(db) && c in db.classes && t in db.users && IsTeacher(db.users[t])
    ensures RosterForward(InstallTeacher(ReleaseTeacher(db, c), c, t))
    ensures RosterBackward(InstallTeacher(ReleaseTeacher(db, c), c, t))
  {
    var d := InstallTeacher(ReleaseTeacher(db, c), c, t);
    forall e, u | e in d.classes && u in d.classes[e].students
      ensures u in d.users && IsStudent(d.users[u]) && e in d.users[u].assignedClasses
    {
      ReassignAt(db, c, t, u, e);
      if e == c {
        RolesExclusive(db.users[u]);
      }
    }
    forall u, e | u in d.users && IsStudent(d.users[u]) && e in d.users[u].assignedClasses
      ensures e in d.classes && u in d.classes[e].students
    {
      ReassignAt(db, c, t, u, e);
      RolesExclusive(db.users[u]);
    }
  }

  lemma ReassignKeepsTeacherForward(db: Db, c: ClassId, t: UserId)
    requires Linked(db) && c in db.classes && t in db.users && IsTeacher(db.users[t])
    ensures TeacherForward(InstallTeacher(ReleaseTeacher(db, c), c, t))
  {
    var d := InstallTeacher(ReleaseTeacher(db, c), c, t);
    forall e | e in d.classes && d.classes[e].teacher.Some?
      ensures d.classes[e].teacher.value in d.users && IsTeacher(d.users[d.classes[e].teacher.value])
      ensures e in d.users[d.classes[e].teacher.value].assignedClasses
    {
      ReassignAt(db, c, t, d.classes[e].teacher.value, e);
    }
  }

  lemma ReassignKeepsTeacherBackward(db: Db, c: ClassId, t: UserId)
    requires Linked(db) && c in db.classes && t in db.users && IsTeacher(db.users[t])
    ensures TeacherBackward(InstallTeacher(ReleaseTeacher(db, c), c, t))
  {
    var d := InstallTeacher(ReleaseTeacher(db, c), c, t);
    forall u, e | u in d.users && IsTeacher(d.users[u]) && e in d.users[u].assignedClasses
      ensures e in d.classes && d.classes[e].teacher == Some(u)
    {
      ReassignAt(db, c, t, u, e);
      if e != c {
        assert e in db.users[u].assignedClasses;
      }
    }
  }

  /**
   * When the class's roster already exceeds its capacity, the save fails after the
   * previous teacher has lost the class: the class still names that teacher, who no
   * longer lists it, so the links no longer hold.
   */
  lemma AssignTeacherFailureOrphansClass(db: Db, c: ClassId, t: UserId)
    requires Linked(db) && c in db.classes && t in db.users && IsTeacher(db.users[t])
    requires db.classes[c].teacher.Some? && FieldsValid(db.classes[c]) && !WithinCapacity(db.classes[c])
    ensures AssignTeacher(db, c, t).response == Err(500, "Server error")
    ensures !TeacherForward(AssignTeacher(db, c, t).db)
  {
    var d := AssignTeacher(db, c, t).db;
    assert d.classes[c].teacher == db.classes[c].teacher;
  }

  // ----- assigning students -----

  /** The ids an `assignStudents` request names: the non-empty list if given, else the single id. */
  function RequestedStudents(studentId: Option<UserId>, studentIds: seq<UserId>): (r: Option<seq<UserId>>)
    ensures r.None? <==> |studentIds| == 0 && studentId.None?
    ensures r.Some? ==> |r.value| > 0
    ensures r.Some? ==> forall u :: u in r.value <==> (if |studentIds| > 0 then u in studentIds else Some(u) == studentId)
  {
    if |studentIds| > 0 then Some(studentIds)
    else if studentId.Some? then Some([studentId.value])
    else None
  }

  /** Whether an id names a student account. */
  function StudentIn(db: Db): UserId -> bool
  {
    u => u in db.users && IsStudent(db.users[u])
  }

  /** The requested ids that name students, in request order. */
  function ValidStudents(db: Db, ids: seq<UserId>): (r: seq<UserId>)
    ensures forall u :: u in r <==> u in ids && u in db.users && IsStudent(db.users[u])
  {
    var r := Filter(ids, StudentIn(db));
    assert forall u :: u in r ==> StudentIn(db)(u);
    r
  }

  /**
   * The two writes of `assignStudents`, both `updateOne`/`updateMany`, so no save hook
   * runs: the ids join the roster and every one of those users gains the class.
   */
  function Enroll(db: Db, c: ClassId, ids: seq<UserId>): (d: Db)
    requires c in db.classes
    ensures d.classes.Keys == db.classes.Keys && d.users.Keys == db.users.Keys
    ensures d.classes[c] == db.classes[c].(students := AddAllToSet(db.classes[c].students, ids))
    ensures forall e :: e in db.classes && e != c ==> d.classes[e] == db.classes[e]
    ensures forall u :: u in db.users ==>
      d.users[u] == if u in ids then db.users[u].(assignedClasses := AddToSet(db.users[u].assignedClasses, c)) else db.users[u]
    ensures d.quizzes == db.quizzes && d.assignments == db.assignments
    ensures d.materials == db.materials && d.marks == db.marks
  {
    var cd := db.classes[c];
    db.(classes := db.classes[c := cd.(students := AddAllToSet(cd.students, ids))],
        users := JoinClass(db.users, ids, c))
  }

  /** `updateMany` with `$addToSet`: every listed user gains class `c`. */
  function JoinClass(users: map<UserId, User>, ids: seq<UserId>, c: ClassId): (r: map<UserId, User>)
    ensures r.Keys == users.Keys
    ensures forall u :: u in users ==>
      r[u] == if u in ids then users[u].(assignedClasses := AddToSet(users[u].assignedClasses, c)) else users[u]
  {
    map u | u in users :: if u in ids then users[u].(assignedClasses := AddToSet(users[u].assignedClasses, c)) else users[u]
  }

  /**
   * `assignStudents` as written: after normalising the request (400 when it names no id)
   * and finding the class (404), the ids that name students are enrolled, with a 404
   * when none does. The roster grows without any check against `maxStudents`.
   */
  function AssignStudents(db: Db, c: ClassId, studentId: Option<UserId>, studentIds: seq<UserId>): (o: Outcome)
    ensures RequestedStudents(studentId, studentIds).None? ==> o == Fail(400, "Provide studentId or studentIds", db)
    ensures o.response.Err? ==> o.db == db
    ensures o.response.Ok? <==>
      && RequestedStudents(studentId, studentIds).Some? && c in db.classes
      && exists u :: u in RequestedStudents(studentId, studentIds).value && u in db.users && IsStudent(db.users[u])
    ensures o.response.Ok? ==>
      o.db == Enroll(db, c, ValidStudents(db, RequestedStudents(studentId, studentIds).value))
  {
    match RequestedStudents(studentId, studentIds)
    case None => Fail(400, "Provide studentId or studentIds", db)
    case Some(ids) =>
      if c !in db.classes then Fail(404, "Class not found", db)
      else
        var valid := ValidStudents(db, ids);
        if |valid| == 0 then Fail(404, "No valid students found", db)
        else Done(Enroll(db, c, valid))
  }

  /**
   * `assignStudents` with the capacity the class's save hook enforces elsewhere:
   * a roster that would exceed `maxStudents` is refused with 400 and nothing written.
   */
  function AssignStudentsChecked(db: Db, c: ClassId, studentId: Option<UserId>, studentIds: seq<UserId>): (o: Outcome)
    ensures RequestedStudents(studentId, studentIds).None? ==> o == Fail(400, "Provide studentId or studentIds", db)
    ensures o.response.Err? ==> o.db == db
    ensures o.response.Ok? <==>
      && AssignStudents(db, c, studentId, studentIds).response.Ok?
      && WithinCapacity(AssignStudents(db, c, studentId, studentIds).db.classes[c])
    ensures o.response.Ok? ==> o.db == AssignStudents(db, c, studentId, studentIds).db
  {
    match RequestedStudents(studentId, studentIds)
    case None => Fail(400, "Provide studentId or studentIds", db)
    case Some(ids) =>
      if c !in db.classes then Fail(404, "Class not found", db)
      else
        var valid := ValidStudents(db, ids);
        if |valid| == 0 then Fail(404, "No valid students found", db)
        else
          var d := Enroll(db, c, valid);
          if !WithinCapacity(d.classes[c]) then Fail(400, "Class is full", db)
          else Done(d)
  }

  /** Every requested student ends up on the roster and lists the class; nobody already there is dropped. */
  lemma AssignStudentsEnrollsRequested(db: Db, c: ClassId, studentId: Option<UserId>, studentIds: seq<UserId>)
    requires AssignStudents(db, c, studentId, studentIds).response.Ok?
    ensures var d := AssignStudents(db, c, studentId, studentIds).db;
      && |d.classes[c].students| >= |db.classes[c].students|
      && d.classes[c].students[..|db.classes[c].students|] == db.classes[c].students
      && forall u :: u in RequestedStudents(studentId, studentIds).value && u in db.users && IsStudent(db.users[u]) ==>
           u in d.classes[c].students && c in d.users[u].assignedClasses
  {
  }

  /** Enrolling students keeps the enrollment links. */
  lemma EnrollKeepsLinks(db: Db, c: ClassId, ids: seq<UserId>)
    requires Linked(db) && c in db.classes
    requires forall u :: u in ids ==> u in db.users && IsStudent(db.users[u])
    ensures Linked(Enroll(db, c, ids))
  {
    EnrollKeepsRosters(db, c, ids);
    EnrollKeepsTeachers(db, c, ids);
  }

  lemma EnrollKeepsRosters(db: Db, c: ClassId, ids: seq<UserId>)
    requires Linked(db) && c in db.classes
    requires forall u :: u in ids ==> u in db.users && IsStudent(db.users[u])
    ensures RosterForward(Enroll(db, c, ids)) && RosterBackward(Enroll(db, c, ids))
  {
    var d := Enroll(db, c, ids);
    forall e, u | e in d.classes && u in d.classes[e].students
      ensures u in d.users && IsStudent(d.users[u]) && e in d.users[u].assignedClasses
    {
      EnrollAt(db, c, ids, u, e);
    }
    forall u, e | u in d.users && IsStudent(d.users[u]) && e in d.users[u].assignedClasses
      ensures e in d.classes && u in d.classes[e].students
    {
      EnrollAt(db, c, ids, u, e);
    }
  }

  lemma EnrollKeepsTeachers(db: Db, c: ClassId, ids: seq<UserId>)
    requires Linked(db) && c in db.classes
    requires forall u :: u in ids ==> u in db.users && IsStudent(db.users[u])
    ensures TeacherForward(Enroll(db, c, ids)) && TeacherBackward(Enroll(db, c, ids))
  {
    EnrollKeepsTeacherForward(db, c, ids);
    var d := Enroll(db, c, ids);
    forall u, e | u in d.users && IsTeacher(d.users[u]) && e in d.users[u].assignedClasses
      ensures e in d.classes && d.classes[e].teacher == Some(u)
    {
      EnrollTeacherBackwardAt(db, c, ids, u, e);
    }
  }

  lemma EnrollKeepsTeacherForward(db: Db, c: ClassId, ids: seq<UserId>)
    requires Linked(db) && c in db.classes
    ensures TeacherForward(Enroll(db, c, ids))
  {
    var d := Enroll(db, c, ids);
    forall e | e in d.classes && d.classes[e].teacher.Some?
      ensures d.classes[e].teacher.value in d.users && IsTeacher(d.users[d.classes[e].teacher.value])
      ensures e in d.users[d.classes[e].teacher.value].assignedClasses
    {
      EnrollAt(db, c, ids, d.classes[e].teacher.value, e);
    }
  }

  lemma EnrollTeacherBackwardAt(db: Db, c: ClassId, ids: seq<UserId>, u: UserId, e: ClassId)
    requires Linked(db) && c in db.classes
    requires forall v :: v in ids ==> v in db.users && IsStudent(db.users[v])
    requires u in db.users && IsTeacher(db.users[u]) && e in Enroll(db, c, ids).users[u].assignedClasses
    ensures e in Enroll(db, c, ids).classes && Enroll(db, c, ids).classes[e].teacher == Some(u)
  {
    EnrollAt(db, c, ids, u, e);
    RolesExclusive(db.users[u]);
    assert u !in ids;
  }

  /** For one user and one class, what enrolling changed between them. */
  lemma EnrollAt(db: Db, c: ClassId, ids: seq<UserId>, u: UserId, e: ClassId)
    requires c in db.classes
    ensures u in db.users ==>
      var d := Enroll(db, c, ids);
      && d.users[u].role == db.users[u].role
      && (e != c ==> (e in d.users[u].assignedClasses <==> e in db.users[u].assignedClasses))
      && (e == c ==> (e in d.users[u].assignedClasses <==> e in db.users[u].assignedClasses || u in ids))
    ensures e in db.classes ==>
      var d := Enroll(db, c, ids);
      && d.classes[e].teacher == db.classes[e].teacher
      && (u in d.classes[e].students <==> u in db.classes[e].students || (e == c && u in ids))
  {
  }

  /** Both versions keep the enrollment links. */
  lemma AssignStudentsKeepsLinks(db: Db, c: ClassId, studentId: Option<UserId>, studentIds: seq<UserId>)
    requires Linked(db)
    ensures Linked(AssignStudents(db, c, studentId, studentIds).db)
    ensures Linked(AssignStudentsChecked(db, c, studentId, studentIds).db)
  {
    if AssignStudents(db, c, studentId, studentIds).response.Ok? {
      EnrollKeepsLinks(db, c, ValidStudents(db, RequestedStudents(studentId, studentIds).value));
    }
  }

  /** The corrected version never lets a roster outgrow its class. */
  lemma AssignStudentsCheckedKeepsFit(db: Db, c: ClassId, studentId: Option<UserId>, studentIds: seq<UserId>)
    requires RostersFit(db)
    ensures RostersFit(AssignStudentsChecked(db, c, studentId, studentIds).db)
  {
    var o := AssignStudentsChecked(db, c, studentId, studentIds);
    if o.response.Ok? {
      forall e | e in o.db.classes ensures WithinCapacity(o.db.classes[e]) {
        if e != c {
          assert o.db.classes[e] == db.classes[e];
        }
      }
    }
  }

  /** A one-place class holding its one student, and a second student outside it. */
  function FullClassDb(): Db
  {
    Db(map[1 := NewUser("a", "a", "", StudentRole, None, None).(assignedClasses := [0]),
           2 := NewUser("b", "b", "", StudentRole, None, None)],
       map[0 := ClassDoc("math", "", None, [1], None, None, "", true, 1)],
       map[], map[], map[], map[])
  }

  lemma FullClassDbLinked()
    ensures Linked(FullClassDb()) && RostersFit(FullClassDb())
  {
  }

  /**
   * As written, `assignStudents` fills a one-place class that already has its student
   * with a second one: the request succeeds and the roster exceeds `maxStudents`;
   * the corrected version refuses the same request.
   */
  lemma AssignStudentsOverfills()
    ensures Linked(FullClassDb()) && RostersFit(FullClassDb())
    ensures AssignStudents(FullClassDb(), 0, Some(2), []).response.Ok?
    ensures !RostersFit(AssignStudents(FullClassDb(), 0, Some(2), []).db)
    ensures AssignStudentsChecked(FullClassDb(), 0, Some(2), []).response.Err?
  {
    var db := FullClassDb();
    FullClassDbLinked();
    assert ValidStudents(db, [2]) == [2] by {
      assert StudentIn(db)(2);
      assert [2][..0] == [];
    }
    var d := AssignStudents(db, 0, Some(2), []).db;
    assert d.classes[0].students == [1, 2];
  }
}
