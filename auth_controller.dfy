/** controllers/authController.js: registration (validation, referrer resolution, the user
    row and its three wallets) and the login decision. Password hashing, its comparison and
    token signing are outside the model: the hash is an input and the comparison a
    parameter. */
module AuthController {
  import opened Util
  import opened Db
  import GenerateToken

  /** The currencies every new user gets a wallet in. */
  const StarterCurrencies: seq<Currency> := ["USDT", "BTC", "ETH"]

  /** The request body of a registration. */
  datatype Registration = Registration(
    name: Option<string>, email: Option<string>, password: Option<string>, referralCode: Option<string>)

  /** `referred_by` of the new user: the submitted code when it is truthy and some user holds
      it, otherwise null. */
  function ReferredBy(users: seq<UserRow>, code: Option<string>): Option<string> {
    if Present(code) && UserByReferralCode(users, code.value).Some? then code else None
  }

  /** The three zero-balance wallets created for user `id`. */
  function StarterWallets(w: map<WalletKey, real>, id: Id): map<WalletKey, real> {
    w[WalletKey(id, "USDT") := 0.0][WalletKey(id, "BTC") := 0.0][WalletKey(id, "ETH") := 0.0]
  }

  /** One of the three wallets of user `id` exists already. */
  predicate StarterWalletTaken(w: map<WalletKey, real>, id: Id) {
    WalletKey(id, "USDT") in w || WalletKey(id, "BTC") in w || WalletKey(id, "ETH") in w
  }

  /** registerUser, as a function of the database. `hash` is the bcrypt hash of the
      password and `u` the draw of `Math.random()` for the new referral code. */
  function Register(s: State, req: Registration, hash: string, u: real, fault: Fault): (State, Reply)
    requires 0.0 <= u < 1.0
  {
    if !Present(req.name) || !Present(req.email) || !Present(req.password) then
      (s, Failure(400, "Please fill all fields"))
    else if UserByEmail(s.users, req.email.value).Some? then (s, Failure(400, "User already exists"))
    else
      var code := GenerateToken.GenerateReferralCode(req.name.value, u);
      CreateAccount(s, UserRow(s.nextId, req.name.value, req.email.value, hash, User, Active, code,
                               ReferredBy(s.users, req.referralCode)), fault)
  }

  /** The two writes of registerUser, which are not in a transaction: the user row, then its
      three wallets. A referral code already taken makes the first one fail and a wallet
      already present the second, as the schema's unique constraints do. */
  function CreateAccount(s: State, row: UserRow, fault: Fault): (State, Reply) {
    if UserByReferralCode(s.users, row.referralCode).Some? || fault == FailAt(0) then (s, Failure(500, ServerError))
    else
      var created := s.(users := s.users + [row], nextId := s.nextId + 1);
      if fault == FailAt(1) || StarterWalletTaken(s.wallets, row.id) then (created, Failure(500, ServerError))
      else (created.(wallets := StarterWallets(s.wallets, row.id)), Success(201))
  }

  /** registerUser: check the fields and the email, resolve the referrer, create the user,
      then its wallets. */
  method RegisterUser(db: Store, req: Registration, hash: string, u: real, fault: Fault) returns (r: Reply)
    requires 0.0 <= u < 1.0
    modifies db
    ensures (db.Snapshot(), r) == Register(old(db.Snapshot()), req, hash, u, fault)
  {
    if req.name.None? || req.name.value == "" || req.email.None? || req.email.value == ""
       || req.password.None? || req.password.value == "" {
      return Failure(400, "Please fill all fields");
    }
    var userExists := UserByEmail(db.users, req.email.value);
    if userExists.Some? {
      return Failure(400, "User already exists");
    }
    var newReferralCode := GenerateToken.GenerateReferralCode(req.name.value, u);
    var referredBy: Option<string> := None;
    if req.referralCode.Some? && req.referralCode.value != "" {
      var referrer := UserByReferralCode(db.users, req.referralCode.value);
      if referrer.Some? {
        referredBy := req.referralCode;
      }
    }
    assert referredBy == ReferredBy(db.users, req.referralCode);
    r := CreateAccountWrites(db, UserRow(db.nextId, req.name.value, req.email.value, hash, User, Active, newReferralCode,
                                         referredBy), fault);
  }

  /** `user.create`, then the three `wallet.create`s. */
  method CreateAccountWrites(db: Store, row: UserRow, fault: Fault) returns (r: Reply)
    modifies db
    ensures (db.Snapshot(), r) == CreateAccount(old(db.Snapshot()), row, fault)
  {
    if UserByReferralCode(db.users, row.referralCode).Some? || fault == FailAt(0) {
      return Failure(500, ServerError);
    }
    var id := row.id;
    db.users := db.users + [row];
    db.nextId := db.nextId + 1;
    if fault == FailAt(1) || WalletKey(id, "USDT") in db.wallets || WalletKey(id, "BTC") in db.wallets
       || WalletKey(id, "ETH") in db.wallets {
      return Failure(500, ServerError);
    }
    db.wallets := db.wallets[WalletKey(id, "USDT") := 0.0][WalletKey(id, "BTC") := 0.0][WalletKey(id, "ETH") := 0.0];
    r := Success(201);
  }

  /** Missing fields, then a used email, are refused before anything is written. */
  lemma RegisterChecksFirst(s: State, req: Registration, hash: string, u: real, fault: Fault)
    requires 0.0 <= u < 1.0
    ensures !Present(req.name) || !Present(req.email) || !Present(req.password) ==>
              Register(s, req, hash, u, fault) == (s, Failure(400, "Please fill all fields"))
    ensures Present(req.name) && Present(req.email) && Present(req.password)
            && (exists v :: v in s.users && v.email == req.email.value) ==>
              Register(s, req, hash, u, fault) == (s, Failure(400, "User already exists"))
  {
    if Present(req.email) {
      FindIndexFirst(s.users, (v: UserRow) => v.email == req.email.value);
    }
  }

  /** The new user is referred by the submitted code exactly when the code is truthy and some
      user holds it; otherwise `referred_by` is null. */
  lemma ReferredByResolves(users: seq<UserRow>, code: Option<string>)
    ensures ReferredBy(users, code).Some? <==> Present(code) && exists v :: v in users && v.referralCode == code.value
    ensures ReferredBy(users, code).Some? ==> ReferredBy(users, code) == code
  {
    if Present(code) {
      FindIndexFirst(users, (v: UserRow) => v.referralCode == code.value);
      if UserByReferralCode(users, code.value).Some? {
        assert users[UserByReferralCode(users, code.value).value] in users;
      }
    }
  }

  /** A successful registration appends one ACTIVE user with the fresh id, the hash, the new
      referral code and the resolved `referred_by`, and gives it exactly three wallets, USDT,
      BTC and ETH, at balance 0; every other wallet and table is unchanged. */
  lemma RegisterEffect(s: State, req: Registration, hash: string, u: real, fault: Fault)
    requires 0.0 <= u < 1.0
    requires Register(s, req, hash, u, fault).1.Success?
    ensures var s' := Register(s, req, hash, u, fault).0;
            var id := s.nextId;
            && s'.users == s.users + [UserRow(id, req.name.value, req.email.value, hash, User, Active,
                                              GenerateToken.GenerateReferralCode(req.name.value, u),
                                              ReferredBy(s.users, req.referralCode))]
            && s'.wallets.Keys == s.wallets.Keys + {WalletKey(id, "USDT"), WalletKey(id, "BTC"), WalletKey(id, "ETH")}
            && (forall c :: c in StarterCurrencies ==> WalletKey(id, c) !in s.wallets && s'.wallets[WalletKey(id, c)] == 0.0)
            && (forall k :: k in s.wallets ==> s'.wallets[k] == s.wallets[k])
            && s' == s.(users := s'.users, wallets := s'.wallets, nextId := s.nextId + 1)
  {
  }

  /** Registration is not atomic: when the wallets cannot be created, the request fails but
      the user row stays, without wallets. */
  lemma RegisterWithoutWallets(s: State, req: Registration, hash: string, u: real)
    requires 0.0 <= u < 1.0
    requires Present(req.name) && Present(req.email) && Present(req.password)
    requires UserByEmail(s.users, req.email.value).None?
    requires UserByReferralCode(s.users, GenerateToken.GenerateReferralCode(req.name.value, u)).None?
    ensures var (s', r) := Register(s, req, hash, u, FailAt(1));
            && r == Failure(500, ServerError)
            && |s'.users| == |s.users| + 1
            && s'.wallets == s.wallets
  {
  }

  /** A user row with the fresh id, an unused email and an unused referral code keeps the
      constraints. */
  lemma AppendUserValid(s: State, row: UserRow)
    requires Valid(s)
    requires row.id == s.nextId
    requires forall i :: 0 <= i < |s.users| ==> s.users[i].email != row.email && s.users[i].referralCode != row.referralCode
    ensures Valid(s.(users := s.users + [row], nextId := s.nextId + 1))
  {
    var users := s.users + [row];
    assert forall i :: 0 <= i < |s.users| ==> users[i] == s.users[i];
  }

  /** Registration keeps the schema's unique constraints (ids, emails, referral codes) and the
      id counter fresh. */
  lemma RegisterPreservesValid(s: State, req: Registration, hash: string, u: real, fault: Fault)
    requires 0.0 <= u < 1.0
    requires Valid(s)
    ensures Valid(Register(s, req, hash, u, fault).0)
  {
    if Present(req.name) && Present(req.email) && Present(req.password)
       && UserByEmail(s.users, req.email.value).None? {
      var code := GenerateToken.GenerateReferralCode(req.name.value, u);
      FindIndexFirst(s.users, (v: UserRow) => v.email == req.email.value);
      CreateAccountPreservesValid(s, UserRow(s.nextId, req.name.value, req.email.value, hash, User, Active, code,
                                             ReferredBy(s.users, req.referralCode)), fault);
    }
  }

  /** Creating an account for the fresh id with an unused email keeps the constraints,
      whichever write fails. */
  lemma CreateAccountPreservesValid(s: State, row: UserRow, fault: Fault)
    requires Valid(s)
    requires row.id == s.nextId
    requires forall i :: 0 <= i < |s.users| ==> s.users[i].email != row.email
    ensures Valid(CreateAccount(s, row, fault).0)
  {
    if UserByReferralCode(s.users, row.referralCode).None? && fault != FailAt(0) {
      FindIndexFirst(s.users, (v: UserRow) => v.referralCode == row.referralCode);
      AppendUserValid(s, row);
      StarterWalletsValid(s.(users := s.users + [row], nextId := s.nextId + 1), row.id);
    }
  }

  /** Wallets for a user id below the counter keep the constraints. */
  lemma StarterWalletsValid(s: State, id: Id)
    requires Valid(s) && id < s.nextId
    ensures Valid(s.(wallets := StarterWallets(s.wallets, id)))
  {
  }

  /** The outcome of loginUser: tokens for the user, or a refusal. */
  datatype LoginOutcome = Tokens(user: Id, role: Role) | Refused(status: nat, message: string)

  /** The 500 answer of loginUser's catch, whose text begins with this prefix. */
  const LoginServerError := "Server Error Full: "

  /** loginUser's decision. `matches(password, hash)` is bcrypt's comparison. A missing
      email makes the store lookup throw; a missing password makes the comparison throw, but
      only once a user was found. Both are answered 500. */
  function Login(users: seq<UserRow>, email: Option<string>, password: Option<string>,
                 matches: (string, string) -> bool): LoginOutcome
  {
    match email
    case None => Refused(500, LoginServerError)
    case Some(e) =>
      match UserByEmail(users, e)
      case None => Refused(401, "Invalid email or password")
      case Some(j) =>
        if password.None? then Refused(500, LoginServerError)
        else if !matches(password.value, users[j].password) then Refused(401, "Invalid email or password")
        else if users[j].status == Blocked then Refused(403, "Account is blocked")
        else Tokens(users[j].id, users[j].role)
  }

  /** With unique emails: tokens are issued exactly to the user with that email when the
      password matches and the account is not blocked; a blocked account with the right
      password gets 403 and no tokens; an unknown email or a wrong password gets 401; a
      missing email, or a missing password for a known email, gets 500. */
  lemma LoginDecision(users: seq<UserRow>, email: Option<string>, password: Option<string>,
                      matches: (string, string) -> bool)
    requires forall i, j :: 0 <= i < j < |users| ==> users[i].email != users[j].email
    ensures email.None? ==> Login(users, email, password, matches) == Refused(500, LoginServerError)
    ensures email.Some? ==>
              forall v :: v in users && v.email == email.value ==>
                Login(users, email, password, matches)
                  == if password.None? then Refused(500, LoginServerError)
                     else if !matches(password.value, v.password) then Refused(401, "Invalid email or password")
                     else if v.status == Blocked then Refused(403, "Account is blocked")
                     else Tokens(v.id, v.role)
    ensures email.Some? && (forall v :: v in users ==> v.email != email.value) ==>
              Login(users, email, password, matches) == Refused(401, "Invalid email or password")
  {
    if email.Some? {
      var e := email.value;
      FindIndexFirst(users, (v: UserRow) => v.email == e);
      match UserByEmail(users, e)
      case None =>
      case Some(j) =>
        assert users[j] in users;
        forall v | v in users && v.email == e ensures v == users[j] {
          var k :| 0 <= k < |users| && users[k] == v;
          assert k == j;
        }
    }
  }
}
