/**
 * The user record as the controllers read and write it. The user schema itself
 * is not part of this model: its fields are the ones the controllers use, and
 * its password hashing is abstracted by the callers.
 */
module Users {
  import opened Wrappers
  import opened Ids

  const StudentRole: string := "student"
  const TeacherRole: string := "teacher"
  const AdminRole: string := "admin"
  const HeadRole: string := "head"

  datatype User = User(
    name: string,
    email: string,
    password: string,
    role: string,
    phone: Option<string>,
    address: Option<string>,
    assignedClasses: seq<ClassId>,
    isActive: bool,
    refreshToken: Option<string>)

  /** A fresh account: no classes, active, no session. */
  function NewUser(name: string, email: string, password: string, role: string,
                   phone: Option<string>, address: Option<string>): (u: User)
    ensures u.assignedClasses == [] && u.isActive && u.refreshToken.None?
    ensures u.name == name && u.email == email && u.password == password && u.role == role
  {
    User(name, email, password, role, phone, address, [], true, None)
  }

  predicate IsStudent(u: User)
  {
    u.role == StudentRole
  }

  predicate IsTeacher(u: User)
  {
    u.role == TeacherRole
  }

  /** No account is both a student and a teacher. */
  lemma RolesExclusive(u: User)
    ensures !(IsStudent(u) && IsTeacher(u))
  {
    assert StudentRole[0] != TeacherRole[0];
  }
}
