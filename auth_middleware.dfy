/** middleware/authMiddleware.js: the `protect` and `admin` gates in front of the private
    routes. Token verification (`jwt.verify`) is a parameter: it yields the id the token
    carries, or nothing when it throws. */
module AuthMiddleware {
  import opened Util
  import opened Strings
  import opened Db

  /** The fields of the user row that `protect` selects and passes on as `req.user`. */
  datatype SessionUser = SessionUser(id: Id, name: string, email: string, role: Role, status: Status)

  function Session(u: UserRow): SessionUser {
    SessionUser(u.id, u.name, u.email, u.role, u.status)
  }

  /** What a gate does with a request: call `next` with this user, or answer with an error. */
  datatype Gate = Next(user: SessionUser) | Deny(status: nat, message: string)

  const NoToken := "Not authorized, no token"
  const TokenFailed := "Not authorized, token failed"
  const UserNotFound := "Not authorized, user not found"
  const AccountBlocked := "Account is blocked"
  const NotAdmin := "Not authorized as admin"

  /** `authorization.split(' ')[1]`: the second space-separated field, undefined when the
      header has no space. */
  function BearerToken(header: string): Option<string> {
    var fields := Split(header, ' ');
    if |fields| >= 2 then Some(fields[1]) else None
  }

  /** protect. A header that is missing, empty or does not start with "Bearer" never
      reaches the `try`, leaves the token undefined and gets the "no token" answer.
      Otherwise everything that throws inside the `try` gets "token failed": `jwt.verify`
      refuses an undefined or empty token before looking at the signature, and `verify`
      stands for its answer on any other token. */
  function Protect(authorization: Option<string>, verify: string -> Option<Id>, users: seq<UserRow>): Gate {
    if !Present(authorization) || !StartsWith(authorization.value, "Bearer") then Deny(401, NoToken)
    else match BearerToken(authorization.value)
      case None => Deny(401, TokenFailed)
      case Some(token) =>
        if token == "" then Deny(401, TokenFailed)
        else match verify(token)
          case None => Deny(401, TokenFailed)
          case Some(id) =>
            match UserById(users, id)
            case None => Deny(401, UserNotFound)
            case Some(j) =>
              if users[j].status == Blocked then Deny(403, AccountBlocked) else Next(Session(users[j]))
  }

  /** admin: only a present user whose role is ADMIN passes. */
  function AdminGate(user: Option<SessionUser>): Gate {
    if user.Some? && user.value.role == Admin then Next(user.value) else Deny(403, NotAdmin)
  }

  /** "no token" is the answer exactly when the header is missing, empty or does not start
      with "Bearer". */
  lemma ProtectNoToken(authorization: Option<string>, verify: string -> Option<Id>, users: seq<UserRow>)
    ensures Protect(authorization, verify, users) == Deny(401, NoToken)
            <==> !Present(authorization) || !StartsWith(authorization.value, "Bearer")
  {
  }

  /** The token is the second space-separated field of the header; a header without a
      space has none. */
  lemma {:induction false} BearerTokenIsSecondField(fields: seq<string>)
    requires |fields| >= 2
    requires forall i :: 0 <= i < |fields| ==> ' ' !in fields[i]
    ensures BearerToken(Join(fields, ' ')) == Some(fields[1])
  {
    SplitJoin(fields, ' ');
  }

  lemma {:induction false} BearerTokenNeedsSpace(header: string)
    requires ' ' !in header
    ensures BearerToken(header) == None
  {
    SplitFree(header, ' ');
  }

  /** "Bearer" glued to its token, or with nothing after it, passes the prefix test and then
      fails in `jwt.verify`. */
  lemma GluedBearerFails(rest: string, verify: string -> Option<Id>, users: seq<UserRow>)
    requires ' ' !in rest
    ensures Protect(Some("Bearer" + rest), verify, users) == Deny(401, TokenFailed)
  {
    var h := "Bearer" + rest;
    assert h[..6] == "Bearer";
    assert forall c :: c in h ==> c in "Bearer" || c in rest;
    BearerTokenNeedsSpace(h);
  }

  /** For the header "Bearer <token>", the whole chain: an unverifiable token gets 401
      "token failed", a verified token naming no user 401 "user not found", a blocked user
      403, and any other user is passed on, with the selected fields. */
  lemma ProtectBearer(token: string, verify: string -> Option<Id>, users: seq<UserRow>)
    requires token != "" && ' ' !in token
    requires forall i, j :: 0 <= i < j < |users| ==> users[i].id != users[j].id
    ensures var g := Protect(Some("Bearer " + token), verify, users);
            && (verify(token).None? ==> g == Deny(401, TokenFailed))
            && (verify(token).Some? && (forall v :: v in users ==> v.id != verify(token).value) ==>
                  g == Deny(401, UserNotFound))
            && (forall v :: v in users && Some(v.id) == verify(token) ==>
                  g == if v.status == Blocked then Deny(403, AccountBlocked) else Next(Session(v)))
  {
    var h := "Bearer " + token;
    assert h == Join(["Bearer", token], ' ');
    BearerTokenIsSecondField(["Bearer", token]);
    assert h[..6] == "Bearer";
    if verify(token).Some? {
      var id := verify(token).value;
      FindIndexFirst(users, (u: UserRow) => u.id == id);
      forall v | v in users && v.id == id
        ensures Protect(Some(h), verify, users) == if v.status == Blocked then Deny(403, AccountBlocked) else Next(Session(v))
      {
        var k :| 0 <= k < |users| && users[k] == v;
        assert UserById(users, id) == Some(k);
      }
    }
  }

  /** `next` is only ever called for a user of the table who is not blocked, behind a
      "Bearer" header whose token verified to that user's id. */
  lemma ProtectNext(authorization: Option<string>, verify: string -> Option<Id>, users: seq<UserRow>)
    requires Protect(authorization, verify, users).Next?
    ensures Present(authorization) && StartsWith(authorization.value, "Bearer")
    ensures var t := BearerToken(authorization.value);
            t.Some? && t.value != "" && verify(t.value).Some?
            && exists v :: v in users && v.status != Blocked && v.id == verify(t.value).value
                           && Protect(authorization, verify, users) == Next(Session(v))
  {
    var t := BearerToken(authorization.value).value;
    var j := UserById(users, verify(t).value).value;
    assert users[j] in users;
  }

  /** admin passes exactly a present ADMIN user, unchanged, and answers 403 otherwise. */
  lemma AdminOnly(user: Option<SessionUser>)
    ensures AdminGate(user).Next? <==> user.Some? && user.value.role == Admin
    ensures AdminGate(user).Next? ==> AdminGate(user).user == user.value
    ensures AdminGate(user).Deny? ==> AdminGate(user) == Deny(403, NotAdmin)
  {
  }
}
