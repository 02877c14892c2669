/**
 * Bearer-token authentication in front of the protected routes: the header form of
 * section 2.1 of RFC 6750, with the scheme compared case-sensitively, a token taken
 * as the second space-separated field, and the outcome of signature verification
 * and the user lookup mapped onto HTTP answers. Signature verification itself is a
 * parameter: only its four possible outcomes matter here.
 */
module Auth {
  import opened Wrappers
  import opened Ids
  import opened Users

  /** The payload of a verified token: the user it names, and its `type` claim (set only on refresh tokens). */
  datatype Claims = Claims(id: Option<UserId>, kind: Option<string>)

  /** What `jwt.verify` does with a token: a payload, or the error it throws, by name. */
  datatype Verification =
    | Valid(claims: Claims)
    | Malformed      // JsonWebTokenError
    | Expired        // TokenExpiredError
    | OtherFailure   // any other error, e.g. NotBeforeError

  /** What a successful check attaches to the request before calling the next handler once. */
  datatype Principal = Principal(user: User, userId: UserId, userRole: string)

  const Scheme: string := "Bearer "
  const NoToken: string := "Access denied. No token provided."
  const BadFormat: string := "Access denied. Invalid token format."
  const BadToken: string := "Invalid token."
  const ExpiredToken: string := "Token has expired. Please login again."
  const UnknownUser: string := "User not found. Token invalid."
  const Deactivated: string := "User account is deactivated."
  const AuthFailure: string := "Authentication error."

  // ----- String.prototype.split(' ') -----

  predicate NoSpace(s: string)
  {
    forall i :: 0 <= i < |s| ==> s[i] != ' '
  }

  /** `split(' ')`: the fields between single spaces, empty fields included. */
  function Split(s: string): (r: seq<string>)
    ensures |r| >= 1
    ensures forall i :: 0 <= i < |r| ==> NoSpace(r[i])
    decreases |s|
  {
    if |s| == 0 then [""]
    else
      var rest := Split(s[1..]);
      if s[0] == ' ' then [""] + rest
      else [[s[0]] + rest[0]] + rest[1..]
  }

  /** `join(' ')`. */
  function Join(fields: seq<string>): (r: string)
    requires |fields| >= 1
    decreases |fields|
  {
    if |fields| == 1 then fields[0] else fields[0] + " " + Join(fields[1..])
  }

  /** Splitting loses nothing: joining the fields back gives the original string. */
  lemma {:induction false} JoinSplit(s: string)
    ensures Join(Split(s)) == s
    decreases |s|
  {
    if |s| > 0 {
      var rest := Split(s[1..]);
      JoinSplit(s[1..]);
      if s[0] == ' ' {
        assert ([""] + rest)[1..] == rest;
      } else {
        var r := [[s[0]] + rest[0]] + rest[1..];
        if |rest| == 1 {
          assert r == [[s[0]] + rest[0]];
        } else {
          assert r[1..] == rest[1..];
          assert Join(rest) == rest[0] + " " + Join(rest[1..]);
        }
      }
    }
  }

  /** A word without spaces followed by a space splits off as the first field. */
  lemma {:induction false} SplitWord(w: string, rest: string)
    requires NoSpace(w)
    ensures Split(w + " " + rest) == [w] + Split(rest)
    decreases |w|
  {
    var s := w + " " + rest;
    if |w| == 0 {
      assert s == " " + rest;
      assert s[1..] == rest;
    } else {
      assert s[1..] == w[1..] + " " + rest;
      SplitWord(w[1..], rest);
      assert [w[0]] + w[1..] == w;
    }
  }

  /** A word without spaces is a single field. */
  lemma {:induction false} SplitNoSpace(w: string)
    requires NoSpace(w)
    ensures Split(w) == [w]
    decreases |w|
  {
    if |w| > 0 {
      SplitNoSpace(w[1..]);
      assert [w[0]] + w[1..] == w;
    }
  }

  /** Fields without spaces survive joining and splitting again. */
  lemma {:induction false} SplitJoin(fields: seq<string>)
    requires |fields| >= 1
    requires forall i :: 0 <= i < |fields| ==> NoSpace(fields[i])
    ensures Split(Join(fields)) == fields
    decreases |fields|
  {
    if |fields| == 1 {
      SplitNoSpace(fields[0]);
    } else {
      SplitJoin(fields[1..]);
      SplitWord(fields[0], Join(fields[1..]));
      assert [fields[0]] + fields[1..] == fields;
    }
  }

  // ----- the header -----

  predicate StartsWith(s: string, prefix: string)
  {
    |prefix| <= |s| && s[..|prefix|] == prefix
  }

  /** `authHeader.split(' ')[1]`: the second field, or `undefined` when there is none. */
  function SecondField(header: string): (r: Option<string>)
    ensures r.Some? <==> |Split(header)| >= 2
    ensures r.Some? ==> r.value == Split(header)[1]
  {
    var fields := Split(header);
    if |fields| >= 2 then Some(fields[1]) else None
  }

  /** The header's token when it has the scheme and a non-empty second field. */
  function BearerToken(header: Option<string>): (r: Option<string>)
    ensures r.Some? ==> r.value != "" && NoSpace(r.value)
    ensures r.Some? ==> header.Some? && StartsWith(header.value, Scheme)
  {
    if header.None? || !StartsWith(header.value, Scheme) then None
    else match SecondField(header.value)
      case None => None
      case Some(t) => if t == "" then None else Some(t)
  }

  /** `auth`: reject, or attach the user the token names. */
  function Authenticate(header: Option<string>, verify: string -> Verification, users: map<UserId, User>): (r: Response<Principal>)
    ensures header.None? || !StartsWith(header.value, Scheme) ==> r == Err(401, NoToken)
    ensures header.Some? && StartsWith(header.value, Scheme) && BearerToken(header).None? ==> r == Err(401, BadFormat)
    ensures BearerToken(header).Some? ==>
      match verify(BearerToken(header).value)
      case Malformed => r == Err(401, BadToken)
      case Expired => r == Err(401, ExpiredToken)
      case OtherFailure => r == Err(500, AuthFailure)
      case Valid(claims) =>
        if claims.id.None? || claims.id.value !in users then r == Err(401, UnknownUser)
        else if !users[claims.id.value].isActive then r == Err(401, Deactivated)
        else r == Ok(Principal(users[claims.id.value], claims.id.value, users[claims.id.value].role))
  {
    if header.None? || !StartsWith(header.value, Scheme) then Err(401, NoToken)
    else match BearerToken(header)
      case None => Err(401, BadFormat)
      case Some(token) =>
        match verify(token)
        case Malformed => Err(401, BadToken)
        case Expired => Err(401, ExpiredToken)
        case OtherFailure => Err(500, AuthFailure)
        case Valid(claims) =>
          if claims.id.None? || claims.id.value !in users then Err(401, UnknownUser)
          else
            var user := users[claims.id.value];
            if !user.isActive then Err(401, Deactivated)
            else Ok(Principal(user, claims.id.value, user.role))
  }

  /** `optionalAuth`: never answers; attaches a user only when `auth` would have. */
  function OptionalAuthenticate(header: Option<string>, verify: string -> Verification, users: map<UserId, User>): (r: Option<Principal>)
    ensures r.Some? ==> BearerToken(header).Some? && verify(BearerToken(header).value).Valid?
    ensures r.Some? ==> r.value.userId in users && r.value.user == users[r.value.userId] && r.value.user.isActive
  {
    match BearerToken(header)
    case None => None
    case Some(token) =>
      match verify(token)
      case Valid(claims) =>
        if claims.id.Some? && claims.id.value in users && users[claims.id.value].isActive then
          var user := users[claims.id.value];
          Some(Principal(user, claims.id.value, user.role))
        else None
      case _ => None
  }

  /** The optional check attaches exactly the principal the strict check admits, and nothing when it rejects. */
  lemma OptionalAgreesWithStrict(header: Option<string>, verify: string -> Verification, users: map<UserId, User>)
    ensures Authenticate(header, verify, users).Ok? ==> OptionalAuthenticate(header, verify, users) == Some(Authenticate(header, verify, users).value)
    ensures Authenticate(header, verify, users).Err? ==> OptionalAuthenticate(header, verify, users).None?
  {
  }

  /** Whoever gets through is a stored, active user, and the attached role is the stored role. */
  lemma AdmittedUsersAreActive(header: Option<string>, verify: string -> Verification, users: map<UserId, User>)
    requires Authenticate(header, verify, users).Ok?
    ensures var p := Authenticate(header, verify, users).value;
      p.userId in users && p.user == users[p.userId] && p.user.isActive && p.userRole == p.user.role
  {
  }

  /** A well-formed header carries its token: `Bearer <t>`, optionally followed by more fields. */
  lemma {:induction false} TokenOfWellFormedHeader(t: string, more: Option<string>)
    requires t != "" && NoSpace(t)
    ensures BearerToken(Some(Scheme + t + (if more.Some? then " " + more.value else ""))) == Some(t)
  {
    var tail := if more.Some? then " " + more.value else "";
    var h := Scheme + t + tail;
    assert h == "Bearer" + " " + (t + tail);
    assert h[..|Scheme|] == Scheme;
    SplitWord("Bearer", t + tail);
    if more.Some? {
      assert t + tail == t + " " + more.value;
      SplitWord(t, more.value);
    } else {
      assert t + tail == t;
      SplitNoSpace(t);
    }
  }

  /** Two spaces after the scheme leave an empty second field, which is refused as malformed. */
  lemma {:induction false} DoubleSpaceIsBadFormat(rest: string, verify: string -> Verification, users: map<UserId, User>)
    ensures Authenticate(Some(Scheme + " " + rest), verify, users) == Err(401, BadFormat)
  {
    var h := Scheme + " " + rest;
    assert h == "Bearer" + " " + ("" + " " + rest);
    assert h[..|Scheme|] == Scheme;
    SplitWord("Bearer", "" + " " + rest);
    SplitWord("", rest);
  }

  /** The scheme is case-sensitive: a lower-case `bearer` counts as no token at all. */
  lemma LowerCaseSchemeIsNoToken(rest: string, verify: string -> Verification, users: map<UserId, User>)
    ensures Authenticate(Some("bearer " + rest), verify, users) == Err(401, NoToken)
  {
    assert ("bearer " + rest)[0] != Scheme[0];
  }
}
