/**
 * The account endpoints as a state machine over the stored users: logging in
 * stores the issued refresh token on the account, logging out clears it, and a
 * refresh request is honoured only for the token currently stored. Password
 * hashing and comparison, token signing and token verification are parameters.
 */
module Session {
  import opened Wrappers
  import opened Ids
  import opened Users
  import opened Auth

  /** The token pair issued at login. */
  datatype Tokens = Tokens(access: string, refresh: string)

  /** The account summary a successful login answers with. */
  datatype LoginView = LoginView(
    token: string,
    refreshToken: string,
    id: UserId,
    name: string,
    email: string,
    role: string,
    assignedClasses: seq<ClassId>)

  /** An answer together with the stored users after the request. */
  datatype Step<T> = Step(response: Response<T>, users: map<UserId, User>)

  const RefreshKind: string := "refresh"
  const InvalidRefresh: string := "Invalid refresh token"

  /** `findOne({ email })`: the account with exactly this email, if any. */
  ghost function FindByEmail(users: map<UserId, User>, email: string): (r: Option<UserId>)
    ensures r.Some? ==> r.value in users && users[r.value].email == email
    ensures r.None? <==> forall u :: u in users ==> users[u].email != email
  {
    if exists u :: u in users && users[u].email == email then
      var u :| u in users && users[u].email == email; Some(u)
    else None
  }

  /**
   * `login`: `matches(candidate, stored)` is the password comparison and
   * `issue` the token pair signed for an account. Empty strings stand for the
   * missing fields the handler tests with `!`.
   */
  ghost function Login(users: map<UserId, User>, email: string, password: string,
                       matches: (string, string) -> bool, issue: UserId -> Tokens): (s: Step<LoginView>)
    ensures email == "" || password == "" ==> s == Step(Err(400, "Email and password are required"), users)
    ensures s.response.Err? ==> s.users == users
    ensures s.response.Ok? <==>
      email != "" && password != "" && FindByEmail(users, email).Some?
      && users[FindByEmail(users, email).value].isActive
      && matches(password, users[FindByEmail(users, email).value].password)
    ensures s.response.Ok? ==>
      var id := s.response.value.id;
      id in users && users[id].email == email
      && s.users == users[id := users[id].(refreshToken := Some(issue(id).refresh))]
      && s.response.value.token == issue(id).access
      && s.response.value.refreshToken == issue(id).refresh
      && s.response.value.role == users[id].role
  {
    if email == "" || password == "" then Step(Err(400, "Email and password are required"), users)
    else match FindByEmail(users, email)
      case None => Step(Err(401, "Invalid credentials"), users)
      case Some(id) =>
        var user := users[id];
        if !user.isActive then Step(Err(401, "Account is deactivated. Please contact admin."), users)
        else if !matches(password, user.password) then Step(Err(401, "Invalid credentials"), users)
        else
          var tokens := issue(id);
          Step(Ok(LoginView(tokens.access, tokens.refresh, id, user.name, user.email, user.role, user.assignedClasses)),
               users[id := user.(refreshToken := Some(tokens.refresh))])
  }

  /** An unknown email and a wrong password are indistinguishable to the caller. */
  lemma UnknownEmailLooksLikeWrongPassword(users: map<UserId, User>, email: string, password: string,
                                           matches: (string, string) -> bool, issue: UserId -> Tokens)
    requires email != "" && password != ""
    requires FindByEmail(users, email).None?
             || (users[FindByEmail(users, email).value].isActive
                 && !matches(password, users[FindByEmail(users, email).value].password))
    ensures Login(users, email, password, matches, issue).response == Err(401, "Invalid credentials")
  {
  }

  /** A deactivated account is refused before its password is looked at: the answer does not depend on it. */
  lemma DeactivatedIgnoresPassword(users: map<UserId, User>, email: string, p1: string, p2: string,
                                   matches: (string, string) -> bool, issue: UserId -> Tokens)
    requires email != "" && p1 != "" && p2 != ""
    requires FindByEmail(users, email).Some? && !users[FindByEmail(users, email).value].isActive
    ensures Login(users, email, p1, matches, issue) == Login(users, email, p2, matches, issue)
    ensures Login(users, email, p1, matches, issue).response == Err(401, "Account is deactivated. Please contact admin.")
  {
  }

  /** `logout`: the signed-in account's stored refresh token is cleared. */
  function Logout(users: map<UserId, User>, current: Option<UserId>): (s: Step<()>)
    ensures s.response == Ok(())
    ensures forall u :: u in users <==> u in s.users
    ensures current.Some? && current.value in users ==> s.users[current.value].refreshToken.None?
    ensures forall u :: u in users && Some(u) != current ==> s.users[u] == users[u]
    ensures forall u :: u in users ==> s.users[u] == users[u].(refreshToken := s.users[u].refreshToken)
  {
    match current
    case Some(id) =>
      if id in users then Step(Ok(()), users[id := users[id].(refreshToken := None)]) else Step(Ok(()), users)
    case None => Step(Ok(()), users)
  }

  /**
   * `refreshAccessToken`: verification failures, a token that is not a refresh
   * token, an unknown account and a token other than the stored one all get the
   * same 401; `issueAccess` signs the new access token.
   */
  function Refresh(users: map<UserId, User>, token: string, verify: string -> Verification,
                   issueAccess: UserId -> string): (r: Response<string>)
    ensures token == "" ==> r == Err(400, "Refresh token is required")
    ensures token != "" && r.Err? ==> r == Err(401, InvalidRefresh)
    ensures r.Ok? <==>
      token != "" && verify(token).Valid? && verify(token).claims.kind == Some(RefreshKind)
      && verify(token).claims.id.Some? && verify(token).claims.id.value in users
      && users[verify(token).claims.id.value].refreshToken == Some(token)
    ensures r.Ok? ==> r.value == issueAccess(verify(token).claims.id.value)
  {
    if token == "" then Err(400, "Refresh token is required")
    else match verify(token)
      case Valid(claims) =>
        if claims.kind != Some(RefreshKind) then Err(401, InvalidRefresh)
        else if claims.id.None? || claims.id.value !in users then Err(401, InvalidRefresh)
        else if users[claims.id.value].refreshToken != Some(token) then Err(401, InvalidRefresh)
        else Ok(issueAccess(claims.id.value))
      case _ => Err(401, InvalidRefresh)
  }

  /** The refresh token a login hands out is honoured, provided it verifies as that account's refresh token. */
  lemma LoginThenRefresh(users: map<UserId, User>, email: string, password: string,
                         matches: (string, string) -> bool, issue: UserId -> Tokens,
                         verify: string -> Verification, issueAccess: UserId -> string)
    requires Login(users, email, password, matches, issue).response.Ok?
    requires var id := Login(users, email, password, matches, issue).response.value.id;
      issue(id).refresh != "" && verify(issue(id).refresh) == Valid(Claims(Some(id), Some(RefreshKind)))
    ensures var s := Login(users, email, password, matches, issue);
      Refresh(s.users, s.response.value.refreshToken, verify, issueAccess) == Ok(issueAccess(s.response.value.id))
  {
  }

  /** After logout no token naming the account can be refreshed. */
  lemma RefreshFailsAfterLogout(users: map<UserId, User>, id: UserId, token: string,
                                verify: string -> Verification, issueAccess: UserId -> string)
    requires verify(token).Valid? && verify(token).claims.id == Some(id)
    ensures Refresh(Logout(users, Some(id)).users, token, verify, issueAccess).Err?
  {
  }

  /** A later login that issues a different refresh token makes the earlier one worthless. */
  lemma RefreshFailsAfterNewLogin(users: map<UserId, User>, email: string, password: string,
                                  matches: (string, string) -> bool, issue: UserId -> Tokens,
                                  token: string, verify: string -> Verification, issueAccess: UserId -> string)
    requires Login(users, email, password, matches, issue).response.Ok?
    requires var id := Login(users, email, password, matches, issue).response.value.id;
      verify(token).Valid? && verify(token).claims.id == Some(id) && issue(id).refresh != token
    ensures Refresh(Login(users, email, password, matches, issue).users, token, verify, issueAccess).Err?
  {
  }

  /** An access token is not a refresh token: without the `type` claim it is refused. */
  lemma AccessTokenCannotRefresh(users: map<UserId, User>, token: string,
                                 verify: string -> Verification, issueAccess: UserId -> string)
    requires verify(token).Valid? && verify(token).claims.kind.None?
    ensures Refresh(users, token, verify, issueAccess).Err?
  {
  }

  /**
   * `changePassword` for the signed-in account `current`. A stored account
   * that has vanished makes the handler dereference `null`, which it answers
   * with 500.
   */
  function ChangePassword(users: map<UserId, User>, current: UserId, currentPassword: string, newPassword: string,
                          matches: (string, string) -> bool): (s: Step<()>)
    ensures currentPassword == "" || newPassword == "" ==> s == Step(Err(400, "Current and new passwords are required"), users)
    ensures currentPassword != "" && newPassword != "" && |newPassword| < 8 ==>
      s == Step(Err(400, "New password must be at least 8 characters"), users)
    ensures s.response.Err? ==> s.users == users
    ensures s.response.Ok? <==>
      currentPassword != "" && |newPassword| >= 8 && current in users && matches(currentPassword, users[current].password)
    ensures s.response.Ok? ==> s.users == users[current := users[current].(password := newPassword)]
  {
    if currentPassword == "" || newPassword == "" then Step(Err(400, "Current and new passwords are required"), users)
    else if |newPassword| < 8 then Step(Err(400, "New password must be at least 8 characters"), users)
    else if current !in users then Step(Err(500, "Server error"), users)
    else if !matches(currentPassword, users[current].password) then Step(Err(401, "Current password is incorrect"), users)
    else Step(Ok(()), users[current := users[current].(password := newPassword)])
  }

  /**
   * Changing the password leaves the stored refresh token in place: a session
   * opened before the change can still be refreshed afterwards.
   */
  lemma PasswordChangeKeepsSessions(users: map<UserId, User>, current: UserId, currentPassword: string, newPassword: string,
                                    matches: (string, string) -> bool, token: string,
                                    verify: string -> Verification, issueAccess: UserId -> string)
    requires ChangePassword(users, current, currentPassword, newPassword, matches).response.Ok?
    ensures Refresh(ChangePassword(users, current, currentPassword, newPassword, matches).users, token, verify, issueAccess)
         == Refresh(users, token, verify, issueAccess)
  {
    var after := ChangePassword(users, current, currentPassword, newPassword, matches).users;
    forall u | u in users ensures u in after && after[u].refreshToken == users[u].refreshToken {
    }
  }

  /** The profile fields a request may carry; an empty string is a field left out. */
  datatype ProfileUpdate = ProfileUpdate(name: string, phone: string, address: string)

  /** `updates.name = name` and friends: only the non-empty fields are written. */
  function ApplyProfile(u: User, p: ProfileUpdate): (r: User)
    ensures r.name == (if p.name != "" then p.name else u.name)
    ensures r.phone == (if p.phone != "" then Some(p.phone) else u.phone)
    ensures r.address == (if p.address != "" then Some(p.address) else u.address)
    ensures r == u.(name := r.name, phone := r.phone, address := r.address)
  {
    var u1 := if p.name != "" then u.(name := p.name) else u;
    var u2 := if p.phone != "" then u1.(phone := Some(p.phone)) else u1;
    if p.address != "" then u2.(address := Some(p.address)) else u2
  }

  /** `updateProfile`: the updated account, or none when the signed-in account no longer exists. */
  function UpdateProfile(users: map<UserId, User>, current: UserId, p: ProfileUpdate): (s: Step<Option<User>>)
    ensures s.response.Ok?
    ensures current !in users ==> s == Step(Ok(None), users)
    ensures forall u :: u in users <==> u in s.users
    ensures current in users ==> s.response.value == Some(s.users[current])
    ensures forall u :: u in users && u != current ==> s.users[u] == users[u]
  {
    if current !in users then Step(Ok(None), users)
    else
      var updated := ApplyProfile(users[current], p);
      Step(Ok(Some(updated)), users[current := updated])
  }

  /** An empty request changes nothing. */
  lemma EmptyProfileUpdateIsNoOp(users: map<UserId, User>, current: UserId)
    ensures UpdateProfile(users, current, ProfileUpdate("", "", "")).users == users
  {
    if current in users {
      assert ApplyProfile(users[current], ProfileUpdate("", "", "")) == users[current];
    }
  }

  /** Sending the same profile update twice is the same as sending it once. */
  lemma ProfileUpdateIdempotent(users: map<UserId, User>, current: UserId, p: ProfileUpdate)
    ensures var once := UpdateProfile(users, current, p);
      UpdateProfile(once.users, current, p) == once
  {
    if current in users {
      var u := ApplyProfile(users[current], p);
      assert ApplyProfile(u, p) == u;
    }
  }

  /** A profile update never touches the role, the password, the activation flag or the session. */
  lemma ProfileUpdateKeepsPrivileges(users: map<UserId, User>, current: UserId, p: ProfileUpdate)
    requires current in users
    ensures var after := UpdateProfile(users, current, p).users[current];
      after.role == users[current].role && after.password == users[current].password
      && after.isActive == users[current].isActive && after.refreshToken == users[current].refreshToken
      && after.email == users[current].email && after.assignedClasses == users[current].assignedClasses
  {
  }
}
