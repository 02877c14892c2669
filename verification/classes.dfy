/** The class document: roster, teacher, field constraints, defaults and the roster-capacity save hook. */
module Classes {
  import opened Wrappers
  import opened Ids
  import opened Text

  datatype ClassDoc = ClassDoc(
    classname: string,
    description: string,
    teacher: Option<UserId>,
    students: seq<UserId>,
    head: Option<UserId>,
    semester: Option<string>,
    academicYear: string,
    isActive: bool,
    maxStudents: int)

  /** The `studentCount` virtual. */
  function StudentCount(c: ClassDoc): nat
  {
    |c.students|
  }

  /** The field validators: a trimmed class name of 2 to 100 characters and a description of at most 500. */
  predicate FieldsValid(c: ClassDoc)
  {
    && c.classname == Trim(c.classname)
    && 2 <= |c.classname| <= 100
    && |c.description| <= 500
  }

  /** The roster fits the class: what the save hook enforces. */
  predicate WithinCapacity(c: ClassDoc)
  {
    StudentCount(c) <= c.maxStudents
  }

  /**
   * A class as `Class.create` builds it from the given fields: the name trimmed,
   * no teacher, no students, no head, active, and 50 places unless given.
   */
  function NewClass(classname: string, description: string, maxStudents: Option<int>,
                    semester: Option<string>, academicYear: string): (c: ClassDoc)
    ensures c.teacher.None? && c.students == [] && c.head.None? && c.isActive
    ensures maxStudents.None? ==> c.maxStudents == 50
    ensures maxStudents.Some? ==> c.maxStudents == maxStudents.value
    ensures c.classname == Trim(classname) && c.description == description
  {
    ClassDoc(Trim(classname), description, None, [], None, semester, academicYear, true,
             if maxStudents.Some? then maxStudents.value else 50)
  }

  /**
   * `save()` on a class: the field validators run first (their failure is answered
   * with 500 and the validator's message), then the pre-save hook refuses a roster
   * longer than `maxStudents` with a 400-coded error.
   */
  function SaveClass(c: ClassDoc): (r: Response<ClassDoc>)
    ensures r.Ok? <==> FieldsValid(c) && WithinCapacity(c)
    ensures r.Ok? ==> r.value == c
    ensures FieldsValid(c) && !WithinCapacity(c) ==> r.Err? && r.status == 400
    ensures !FieldsValid(c) ==> r.Err? && r.status == 500
  {
    if !FieldsValid(c) then Err(500, "Validation failed")
    else if |c.students| > c.maxStudents then Err(400, "Class cannot have more than maxStudents students")
    else Ok(c)
  }
}
