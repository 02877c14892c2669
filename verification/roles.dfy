/**
 * The role guards that sit in front of every protected route: the configurable
 * `role(...allowed)` guard, which ignores case, and the six fixed guards, which
 * compare the stored role exactly.
 */
module Roles {
  import opened Wrappers
  import opened Text
  import opened Users

  /** What a guard does with a request: hand it to the next handler, or answer it. */
  datatype Decision = Next | Deny(status: nat, message: string)

  const AuthenticationRequired: string := "Authentication required."

  /** `Array.prototype.join` with the separator `", "`. */
  function JoinComma(xs: seq<string>): (r: string)
    ensures |xs| == 1 ==> r == xs[0]
    ensures |xs| == 0 ==> r == ""
  {
    if |xs| == 0 then ""
    else if |xs| == 1 then xs[0]
    else xs[0] + ", " + JoinComma(xs[1..])
  }

  /** Some allowed role equals `role` once both are lower-cased. */
  predicate MatchesIgnoringCase(allowed: seq<string>, role: string)
  {
    exists i :: 0 <= i < |allowed| && Lower(allowed[i]) == Lower(role)
  }

  /** `role(...allowed)`: the case-insensitive guard. */
  function Role(allowed: seq<string>, user: Option<User>): (d: Decision)
    ensures user.None? ==> d == Deny(401, AuthenticationRequired)
    ensures user.Some? ==> (d == Next <==> MatchesIgnoringCase(allowed, user.value.role))
    ensures user.Some? && d.Deny? ==> d.status == 403
  {
    match user
    case None => Deny(401, AuthenticationRequired)
    case Some(u) =>
      var userRole := Lower(u.role);
      if MatchesIgnoringCase(allowed, u.role) then Next
      else Deny(403, "Access denied. Required role(s): " + JoinComma(allowed) + ". Your role: " + userRole)
  }

  /** The shape shared by the fixed guards: the stored role must be one of `roles`, exactly. */
  function Exact(roles: seq<string>, message: string, user: Option<User>): (d: Decision)
    ensures user.None? ==> d == Deny(401, AuthenticationRequired)
    ensures user.Some? ==> (d == Next <==> user.value.role in roles)
    ensures user.Some? && d.Deny? ==> d == Deny(403, message)
  {
    match user
    case None => Deny(401, AuthenticationRequired)
    case Some(u) => if u.role in roles then Next else Deny(403, message)
  }

  function IsAdmin(user: Option<User>): (d: Decision)
    ensures d == Next <==> user.Some? && user.value.role == AdminRole
  {
    Exact([AdminRole], "Access denied. Admin access required.", user)
  }

  function IsTeacher(user: Option<User>): (d: Decision)
    ensures d == Next <==> user.Some? && user.value.role == TeacherRole
  {
    Exact([TeacherRole], "Access denied. Teacher access required.", user)
  }

  function IsStudent(user: Option<User>): (d: Decision)
    ensures d == Next <==> user.Some? && user.value.role == StudentRole
  {
    Exact([StudentRole], "Access denied. Student access required.", user)
  }

  function IsHead(user: Option<User>): (d: Decision)
    ensures d == Next <==> user.Some? && user.value.role == HeadRole
  {
    Exact([HeadRole], "Access denied. Head access required.", user)
  }

  function IsTeacherOrAdmin(user: Option<User>): (d: Decision)
    ensures d == Next <==> user.Some? && (user.value.role == TeacherRole || user.value.role == AdminRole)
  {
    Exact([TeacherRole, AdminRole], "Access denied. Teacher or Admin access required.", user)
  }

  function IsHeadOrAdmin(user: Option<User>): (d: Decision)
    ensures d == Next <==> user.Some? && (user.value.role == HeadRole || user.value.role == AdminRole)
  {
    Exact([HeadRole, AdminRole], "Access denied. Head or Admin access required.", user)
  }

  /** Every guard, fixed or configurable, turns away a request that carries no user with the same 401. */
  lemma NoUserIsUnauthenticated(allowed: seq<string>)
    ensures Role(allowed, None) == Deny(401, AuthenticationRequired)
    ensures IsAdmin(None) == IsTeacher(None) == IsStudent(None) == IsHead(None) == Deny(401, AuthenticationRequired)
    ensures IsTeacherOrAdmin(None) == IsHeadOrAdmin(None) == Deny(401, AuthenticationRequired)
  {
  }

  /** The combined guards admit exactly the union of the single-role guards. */
  lemma CombinedGuardsAreUnions(user: Option<User>)
    ensures IsTeacherOrAdmin(user) == Next <==> IsTeacher(user) == Next || IsAdmin(user) == Next
    ensures IsHeadOrAdmin(user) == Next <==> IsHead(user) == Next || IsAdmin(user) == Next
  {
  }

  /** A string with no upper-case ASCII letter is its own lower-case form. */
  lemma {:induction false} LowerOfLower(s: string)
    requires forall i :: 0 <= i < |s| ==> !IsUpperAscii(s[i])
    ensures Lower(s) == s
    decreases |s|
  {
    if |s| > 0 {
      LowerOfLower(s[1..]);
    }
  }

  /** The admin role name is already lower-case. */
  lemma AdminRoleIsLowerCase()
    ensures Lower(AdminRole) == AdminRole
  {
    LowerOfLower(AdminRole);
  }

  /**
   * The configurable guard is at least as permissive as the exact one: whatever
   * `isAdmin` admits, `role('admin')` admits, and likewise for any other role.
   */
  lemma ExactGuardImpliesRole(r: string, user: Option<User>)
    requires Exact([r], "", user) == Next
    ensures Role([r], user) == Next
  {
    assert Lower([r][0]) == Lower(user.value.role);
  }

  /**
   * For a lower-case role name and a role stored in lower case the two guards
   * agree; the only requests on which they differ carry a role with upper-case letters.
   */
  lemma RoleAgreesOnLowerCaseRoles(r: string, user: Option<User>)
    requires Lower(r) == r
    requires user.Some? ==> Lower(user.value.role) == user.value.role
    ensures Role([r], user) == Next <==> Exact([r], "", user) == Next
  {
    if Role([r], user) == Next {
      assert Lower([r][0]) == Lower(user.value.role);
    }
  }

  /** A user whose stored role is "Admin" passes `role('admin')` but is refused by `isAdmin`. */
  lemma CapitalisedRoleSplitsGuards(u: User)
    requires u.role == "Admin"
    ensures Role([AdminRole], Some(u)) == Next
    ensures IsAdmin(Some(u)) == Deny(403, "Access denied. Admin access required.")
  {
    AdminRoleIsLowerCase();
    assert Lower(u.role) == [LowerChar('A')] + Lower("dmin");
    LowerOfLower("dmin");
    assert Lower([AdminRole][0]) == Lower(u.role);
    assert u.role[0] != AdminRole[0];
  }

  /** With no allowed roles the configurable guard admits nobody. */
  lemma EmptyRoleListAdmitsNobody(user: Option<User>)
    ensures Role([], user) != Next
  {
  }
}
