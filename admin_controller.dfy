/** controllers/adminController.js: listing pending deposits, approving a deposit (with the
    one-level referral commission), deleting a pending deposit, and changing a user's status. */
module AdminController {
  import opened Util
  import opened Db

  /** The referral commission rate paid on an approved deposit (5%). */
  const CommissionRate: real := 0.05

  /** getPendingDeposits: the deposits whose status is PENDING, in table order. */
  function PendingDeposits(deposits: seq<DepositRow>): (r: seq<DepositRow>)
    ensures forall d :: d in r <==> d in deposits && d.status == Pending
  {
    Filter(deposits, (d: DepositRow) => d.status == Pending)
  }

  /** The account that referred `depositor`: its `referred_by` is truthy and is some
      user's referral code. */
  function ReferrerOf(users: seq<UserRow>, depositor: UserRow): (r: Option<UserRow>)
    ensures r.Some? ==> r.value in users && Some(r.value.referralCode) == depositor.referredBy
  {
    if !Present(depositor.referredBy) then None
    else match UserByReferralCode(users, depositor.referredBy.value)
      case None => None
      case Some(j) => Some(users[j])
  }

  /** A referrer is found exactly when `referred_by` is truthy and some user holds that code. */
  lemma ReferrerFound(users: seq<UserRow>, depositor: UserRow)
    ensures ReferrerOf(users, depositor).Some? <==>
              Present(depositor.referredBy)
              && exists u :: u in users && u.referralCode == depositor.referredBy.value
  {
    if Present(depositor.referredBy) {
      var code := depositor.referredBy.value;
      FindIndexFirst(users, (u: UserRow) => u.referralCode == code);
      if u :| u in users && u.referralCode == code {
        var k :| 0 <= k < |users| && users[k] == u;
        assert users[k].referralCode == code;
      }
    }
  }

  /** How many store writes an approval performs: deposit status, owner wallet, DEPOSIT row,
      and with a referrer, referrer wallet, commission record, COMMISSION row. */
  function ApprovalWrites(referrer: Option<UserRow>): nat {
    if referrer.Some? then 6 else 3
  }

  /** The TypeError raised when `deposit.user` is null. */
  const NullUserError := "Cannot read properties of null (reading 'referred_by')"

  /** The first three writes of an approval: deposit `i` becomes ACTIVE, its owner's wallet
      is credited with the amount and a DEPOSIT row is appended. */
  function CreditDeposit(s: State, i: nat, now: int): State
    requires i < |s.deposits|
  {
    var d := s.deposits[i];
    s.(deposits := s.deposits[i := d.(status := Active)],
       wallets := Credit(s.wallets, WalletKey(d.user, d.currency), d.amount),
       ledger := s.ledger + [LedgerRow(s.nextId, d.user, Deposit, d.currency, d.amount, DepositRef(d.id), now)],
       nextId := s.nextId + 1)
  }

  /** The referral writes for deposit `d`: the referrer's wallet gains 5% of the amount, and
      a commission record and a COMMISSION row are appended. */
  function PayCommission(s: State, d: DepositRow, referrer: UserRow, now: int): State
  {
    var c := d.amount * CommissionRate;
    s.(wallets := Credit(s.wallets, WalletKey(referrer.id, d.currency), c),
       commissions := s.commissions + [CommissionRow(referrer.id, d.user, c, d.currency, "DEPOSIT")],
       ledger := s.ledger + [LedgerRow(s.nextId, referrer.id, Commission, d.currency, c, DepositRef(d.id), now)],
       nextId := s.nextId + 1)
  }

  /** All the writes of a committed approval of deposit `i`. */
  function Settle(s: State, i: nat, referrer: Option<UserRow>, now: int): State
    requires i < |s.deposits|
  {
    match referrer
    case None => CreditDeposit(s, i, now)
    case Some(ref) => PayCommission(CreditDeposit(s, i, now), s.deposits[i], ref, now)
  }

  /** approveDeposit, as a function of the database: the new database and the reply. */
  function Approve(s: State, id: Id, now: int, fault: Fault): (State, Reply)
  {
    match DepositById(s.deposits, id)
    case None => (s, Failure(404, "Deposit not found"))
    case Some(i) =>
      if s.deposits[i].status != Pending then (s, Failure(400, "Deposit already processed"))
      else Transact(s, i, now, fault)
  }

  /** The transaction of approveDeposit on the pending deposit `i`: it either commits all
      of its writes or none. */
  function Transact(s: State, i: nat, now: int, fault: Fault): (State, Reply)
    requires i < |s.deposits|
  {
    if Hits(fault, 3) then (s, Failure(500, StoreError))
    else match UserById(s.users, s.deposits[i].user)
      case None => (s, Failure(500, NullUserError))
      case Some(j) =>
        var referrer := ReferrerOf(s.users, s.users[j]);
        if Hits(fault, ApprovalWrites(referrer)) then (s, Failure(500, StoreError))
        else (Settle(s, i, referrer, now), Success(200))
  }

  /** The wallet lookup followed by `balance: { increment: x }` on the wallet found, or by
      creating the wallet with balance `x`. */
  method UpsertBalance(wallets: map<WalletKey, real>, key: WalletKey, x: real) returns (w: map<WalletKey, real>)
    ensures w == Credit(wallets, key, x)
  {
    if key in wallets {
      w := wallets[key := wallets[key] + x];
    } else {
      w := wallets[key := x];
    }
  }

  /** approveDeposit: look the deposit up and refuse unless PENDING, then run the transaction. */
  method ApproveDeposit(db: Store, id: Id, now: int, fault: Fault) returns (r: Reply)
    modifies db
    ensures (db.Snapshot(), r) == Approve(old(db.Snapshot()), id, now, fault)
  {
    var found := DepositById(db.deposits, id);
    if found.None? {
      return Failure(404, "Deposit not found");
    }
    var i := found.value;
    if db.deposits[i].status != Pending {
      return Failure(400, "Deposit already processed");
    }
    r := RunTransaction(db, i, now, fault);
  }

  /** The body of the `prisma.$transaction`: the writes go to a working copy `t` of the
      tables, committed only when every write succeeded. */
  method RunTransaction(db: Store, i: nat, now: int, fault: Fault) returns (r: Reply)
    requires i < |db.deposits|
    modifies db
    ensures (db.Snapshot(), r) == Transact(old(db.Snapshot()), i, now, fault)
  {
    var deposit := db.deposits[i];
    var failed, t := CreditDepositWrites(db.Snapshot(), i, now, fault);
    if failed { return Failure(500, StoreError); }

    var owner := UserById(db.users, deposit.user);
    if owner.None? {
      return Failure(500, NullUserError);
    }
    var referrer := FindReferrer(db.users, db.users[owner.value]);
    if referrer.Some? {
      failed, t := PayCommissionWrites(t, deposit, referrer.value, now, fault);
      if failed { return Failure(500, StoreError); }
    }
    assert Transact(old(db.Snapshot()), i, now, fault) == (t, Success(200));

    // commit
    db.deposits, db.wallets, db.ledger, db.commissions, db.nextId := t.deposits, t.wallets, t.ledger, t.commissions, t.nextId;
    r := Success(200);
  }

  /** The transaction's writes 0, 1 and 2 on the working copy `t`. */
  method CreditDepositWrites(t: State, i: nat, now: int, fault: Fault) returns (failed: bool, t': State)
    requires i < |t.deposits|
    ensures failed == Hits(fault, 3)
    ensures !failed ==> t' == CreditDeposit(t, i, now)
  {
    var deposit := t.deposits[i];
    t' := t;
    if fault == FailAt(0) { return true, t'; }
    t' := t'.(deposits := t'.deposits[i := deposit.(status := Active)]);

    if fault == FailAt(1) { return true, t'; }
    var wallets := UpsertBalance(t'.wallets, WalletKey(deposit.user, deposit.currency), deposit.amount);
    t' := t'.(wallets := wallets);

    if fault == FailAt(2) { return true, t'; }
    t' := t'.(ledger := t'.ledger + [LedgerRow(t'.nextId, deposit.user, Deposit, deposit.currency, deposit.amount, DepositRef(deposit.id), now)],
              nextId := t'.nextId + 1);
    failed := false;
  }

  /** `if (deposit.user.referred_by)` followed by the lookup of the referral code. */
  method FindReferrer(users: seq<UserRow>, depositor: UserRow) returns (r: Option<UserRow>)
    ensures r == ReferrerOf(users, depositor)
  {
    r := None;
    var referredBy := depositor.referredBy;
    if referredBy.Some? && referredBy.value != "" {
      var byCode := UserByReferralCode(users, referredBy.value);
      if byCode.Some? {
        r := Some(users[byCode.value]);
      }
    }
  }

  /** The referral writes (the transaction's writes 3, 4 and 5) on the working copy `t`. */
  method PayCommissionWrites(t: State, deposit: DepositRow, referrer: UserRow, now: int, fault: Fault)
    returns (failed: bool, t': State)
    ensures failed == (fault.FailAt? && 3 <= fault.write < 6)
    ensures !failed ==> t' == PayCommission(t, deposit, referrer, now)
  {
    var commission := deposit.amount * CommissionRate;
    t' := t;
    if fault == FailAt(3) { return true, t'; }
    var wallets := UpsertBalance(t'.wallets, WalletKey(referrer.id, deposit.currency), commission);
    t' := t'.(wallets := wallets);

    if fault == FailAt(4) { return true, t'; }
    t' := t'.(commissions := t'.commissions + [CommissionRow(referrer.id, deposit.user, commission, deposit.currency, "DEPOSIT")]);

    if fault == FailAt(5) { return true, t'; }
    t' := t'.(ledger := t'.ledger + [LedgerRow(t'.nextId, referrer.id, Commission, deposit.currency, commission, DepositRef(deposit.id), now)],
              nextId := t'.nextId + 1);
    failed := false;
  }

  /** A missing deposit is reported as not found and nothing changes. */
  lemma ApproveMissing(s: State, id: Id, now: int, fault: Fault)
    requires forall d :: d in s.deposits ==> d.id != id
    ensures Approve(s, id, now, fault) == (s, Failure(404, "Deposit not found"))
  {
    assert DepositById(s.deposits, id).None?;
  }

  /** Every refusal or failure leaves the whole database as it was. */
  lemma ApproveFailureChangesNothing(s: State, id: Id, now: int, fault: Fault)
    ensures Approve(s, id, now, fault).1.Failure? ==> Approve(s, id, now, fault).0 == s
  {
  }

  /** A store failure at any write of the transaction (the first three writes always
      happen) rolls everything back. */
  lemma ApproveAtomic(s: State, id: Id, now: int, k: nat)
    requires k < 3
    ensures Approve(s, id, now, FailAt(k)).0 == s
    ensures Approve(s, id, now, FailAt(k)).1.Failure?
  {
  }

  /** A deposit is credited at most once: once approved, approving the same id again is
      refused as already processed, whatever the time or the store does. */
  lemma {:induction false} ApproveTwice(s: State, id: Id, now: int, fault: Fault, now': int, fault': Fault)
    requires Approve(s, id, now, fault).1.Success?
    ensures var s' := Approve(s, id, now, fault).0;
            Approve(s', id, now', fault') == (s', Failure(400, "Deposit already processed"))
  {
    var i := DepositById(s.deposits, id).value;
    var j := UserById(s.users, s.deposits[i].user).value;
    var referrer := ReferrerOf(s.users, s.users[j]);
    var s' := Settle(s, i, referrer, now);
    FindIndexAfterUpdate(s.deposits, (d: DepositRow) => d.id == id, i, s.deposits[i].(status := Active));
    assert s'.deposits == s.deposits[i := s.deposits[i].(status := Active)];
    assert DepositById(s'.deposits, id) == Some(i);
  }

  /** The records a successful approval writes: the deposit becomes ACTIVE, one DEPOSIT row
      for the owner and, with a referrer, one COMMISSION row and one commission record are
      appended; users, withdrawals, trades and KYC are untouched. */
  lemma ApproveEffect(s: State, id: Id, now: int, fault: Fault)
    requires Approve(s, id, now, fault).1.Success?
    ensures var s' := Approve(s, id, now, fault).0;
            var i := DepositById(s.deposits, id).value;
            var d := s.deposits[i];
            var referrer := ReferrerOf(s.users, s.users[UserById(s.users, d.user).value]);
            var c := d.amount * CommissionRate;
            && d.id == id && d.status == Pending
            && s'.deposits == s.deposits[i := d.(status := Active)]
            && s'.ledger == s.ledger + [LedgerRow(s.nextId, d.user, Deposit, d.currency, d.amount, DepositRef(id), now)]
                 + (if referrer.Some?
                    then [LedgerRow(s.nextId + 1, referrer.value.id, Commission, d.currency, c, DepositRef(id), now)]
                    else [])
            && s'.commissions == s.commissions
                 + (if referrer.Some? then [CommissionRow(referrer.value.id, d.user, c, d.currency, "DEPOSIT")] else [])
            && s'.users == s.users && s'.withdrawals == s.withdrawals
            && s'.trades == s.trades && s'.kyc == s.kyc
  {
    ApproveSettles(s, id, now, fault);
  }

  /** A successful approval is the settlement of the deposit found, with the referrer of
      its owner. */
  lemma ApproveSettles(s: State, id: Id, now: int, fault: Fault)
    requires Approve(s, id, now, fault).1.Success?
    ensures DepositById(s.deposits, id).Some?
    ensures var i := DepositById(s.deposits, id).value;
            && UserById(s.users, s.deposits[i].user).Some?
            && Approve(s, id, now, fault).0
                 == Settle(s, i, ReferrerOf(s.users, s.users[UserById(s.users, s.deposits[i].user).value]), now)
  {
  }

  /** The balances after a successful approval: the owner's wallet (made if missing) gains
      exactly the amount and the referrer's, when there is one, 5% of it; no other wallet
      changes. The owner and the referrer may be the same account. */
  lemma ApproveBalances(s: State, id: Id, now: int, fault: Fault)
    requires Approve(s, id, now, fault).1.Success?
    ensures var s' := Approve(s, id, now, fault).0;
            var d := s.deposits[DepositById(s.deposits, id).value];
            var referrer := ReferrerOf(s.users, s.users[UserById(s.users, d.user).value]);
            && s'.wallets.Keys == s.wallets.Keys + {WalletKey(d.user, d.currency)}
                 + (if referrer.Some? then {WalletKey(referrer.value.id, d.currency)} else {})
            && (forall k :: k in s'.wallets ==>
                  s'.wallets[k] == Balance(s.wallets, k)
                    + (if k == WalletKey(d.user, d.currency) then d.amount else 0.0)
                    + (if referrer.Some? && k == WalletKey(referrer.value.id, d.currency)
                       then d.amount * CommissionRate else 0.0))
  {
    ApproveSettles(s, id, now, fault);
    var i := DepositById(s.deposits, id).value;
    SettleBalances(s, i, ReferrerOf(s.users, s.users[UserById(s.users, s.deposits[i].user).value]), now);
  }

  /** The settlement credits the owner's wallet with the amount and the referrer's, if any,
      with 5% of it. */
  lemma SettleBalances(s: State, i: nat, referrer: Option<UserRow>, now: int)
    requires i < |s.deposits|
    ensures var w := Settle(s, i, referrer, now).wallets;
            var d := s.deposits[i];
            && w.Keys == s.wallets.Keys + {WalletKey(d.user, d.currency)}
                 + (if referrer.Some? then {WalletKey(referrer.value.id, d.currency)} else {})
            && (forall k :: k in w ==>
                  w[k] == Balance(s.wallets, k)
                    + (if k == WalletKey(d.user, d.currency) then d.amount else 0.0)
                    + (if referrer.Some? && k == WalletKey(referrer.value.id, d.currency)
                       then d.amount * CommissionRate else 0.0))
  {
    var d := s.deposits[i];
    var k1 := WalletKey(d.user, d.currency);
    if referrer.Some? {
      CreditTwice(s.wallets, k1, d.amount, WalletKey(referrer.value.id, d.currency), d.amount * CommissionRate);
    } else {
      CreditEffect(s.wallets, k1, d.amount);
    }
  }

  /** The owner's credit keeps the schema's unique constraints and the id counter fresh. */
  lemma CreditDepositValid(s: State, i: nat, now: int)
    requires Valid(s) && i < |s.deposits|
    ensures Valid(CreditDeposit(s, i, now))
  {
    var s' := CreditDeposit(s, i, now);
    assert forall k :: 0 <= k < |s'.deposits| ==>
      s'.deposits[k].id == s.deposits[k].id && s'.deposits[k].txid == s.deposits[k].txid
      && s'.deposits[k].user == s.deposits[k].user;
    CreditEffect(s.wallets, WalletKey(s.deposits[i].user, s.deposits[i].currency), s.deposits[i].amount);
  }

  /** The referral payment keeps the constraints, the referrer being a registered user. */
  lemma PayCommissionValid(s: State, d: DepositRow, referrer: UserRow, now: int)
    requires Valid(s) && referrer in s.users
    ensures Valid(PayCommission(s, d, referrer, now))
  {
    CreditEffect(s.wallets, WalletKey(referrer.id, d.currency), d.amount * CommissionRate);
  }

  /** An approval keeps the schema's unique constraints and the id counter fresh. */
  lemma ApprovePreservesValid(s: State, id: Id, now: int, fault: Fault)
    requires Valid(s)
    ensures Valid(Approve(s, id, now, fault).0)
  {
    if Approve(s, id, now, fault).1.Success? {
      var i := DepositById(s.deposits, id).value;
      var owner := s.users[UserById(s.users, s.deposits[i].user).value];
      CreditDepositValid(s, i, now);
      var referrer := ReferrerOf(s.users, owner);
      if referrer.Some? {
        PayCommissionValid(CreditDeposit(s, i, now), s.deposits[i], referrer.value, now);
      }
    }
  }

  /** deleteDeposit, as a function of the database. The one write is the deletion; a store
      failure there is answered 500. */
  function Delete(s: State, id: Id, fault: Fault): (State, Reply)
  {
    match DepositById(s.deposits, id)
    case None => (s, Failure(404, "Deposit not found"))
    case Some(i) =>
      if s.deposits[i].status != Pending then (s, Failure(400, "Cannot delete processed deposit"))
      else if Hits(fault, 1) then (s, Failure(500, ServerError))
      else (s.(deposits := s.deposits[..i] + s.deposits[i + 1..]), Success(200))
  }

  /** deleteDeposit: remove the deposit only while it is PENDING. */
  method DeleteDeposit(db: Store, id: Id, fault: Fault) returns (r: Reply)
    modifies db
    ensures (db.Snapshot(), r) == Delete(old(db.Snapshot()), id, fault)
  {
    var found := DepositById(db.deposits, id);
    if found.None? {
      return Failure(404, "Deposit not found");
    }
    var i := found.value;
    if db.deposits[i].status != Pending {
      return Failure(400, "Cannot delete processed deposit");
    }
    if fault == FailAt(0) {
      return Failure(500, ServerError);
    }
    db.deposits := db.deposits[..i] + db.deposits[i + 1..];
    r := Success(200);
  }

  /** Removing row `i` of a table with unique ids: no row with its id remains, every
      other row stays. */
  lemma {:induction false} RemoveAt(ds: seq<DepositRow>, i: nat)
    requires i < |ds|
    requires forall a, b :: 0 <= a < b < |ds| ==> ds[a].id != ds[b].id
    ensures var rest := ds[..i] + ds[i + 1..];
            && |rest| == |ds| - 1
            && (forall d :: d in rest ==> d.id != ds[i].id)
            && (forall d :: d in ds && d.id != ds[i].id ==> d in rest)
  {
    var rest := ds[..i] + ds[i + 1..];
    assert forall k :: 0 <= k < |rest| ==> rest[k] == if k < i then ds[k] else ds[k + 1];
    forall d | d in rest ensures d.id != ds[i].id {
      var k :| 0 <= k < |rest| && rest[k] == d;
    }
    forall d | d in ds && d.id != ds[i].id ensures d in rest {
      var k :| 0 <= k < |ds| && ds[k] == d;
      if k < i { assert rest[k] == d; } else { assert rest[k - 1] == d; }
    }
  }

  /** Deletion succeeds (the store permitting) exactly on a PENDING deposit, ids being
      unique; a processed or missing one is refused, and every failure changes nothing. */
  lemma DeleteOnlyPending(s: State, id: Id, fault: Fault)
    requires Valid(s)
    ensures var (s', r) := Delete(s, id, fault);
            && (r.Success? <==> (exists d :: d in s.deposits && d.id == id && d.status == Pending) && !Hits(fault, 1))
            && (r.Failure? ==> s' == s)
  {
    var ds := s.deposits;
    FindIndexFirst(ds, (d: DepositRow) => d.id == id);
    match DepositById(ds, id)
    case None =>
    case Some(i) =>
      if ds[i].status == Pending {
        assert ds[i] in ds;
      } else {
        forall d | d in ds && d.id == id ensures d.status != Pending {
          var k :| 0 <= k < |ds| && ds[k] == d;
          assert k == i;
        }
      }
  }

  /** A successful deletion removes that one row: no row with the id remains, every other
      deposit is kept, and every other table is untouched. */
  lemma DeleteEffect(s: State, id: Id, fault: Fault)
    requires Valid(s)
    requires Delete(s, id, fault).1.Success?
    ensures var s' := Delete(s, id, fault).0;
            && (forall d :: d in s'.deposits ==> d.id != id)
            && (forall d :: d in s.deposits && d.id != id ==> d in s'.deposits)
            && |s'.deposits| == |s.deposits| - 1
            && s' == s.(deposits := s'.deposits)
  {
    RemoveAt(s.deposits, DepositById(s.deposits, id).value);
  }

  /** A deletion keeps the unique constraints and the id counter fresh. */
  lemma DeletePreservesValid(s: State, id: Id, fault: Fault)
    requires Valid(s)
    ensures Valid(Delete(s, id, fault).0)
  {
    var (s', r) := Delete(s, id, fault);
    if r.Success? {
      RemoveAtKeepsRows(s.deposits, DepositById(s.deposits, id).value);
    }
  }

  /** The rows left by a removal are the rows before it, shifted past the removed one. */
  lemma RemoveAtKeepsRows(ds: seq<DepositRow>, i: nat)
    requires i < |ds|
    ensures var rest := ds[..i] + ds[i + 1..];
            |rest| == |ds| - 1 && forall k :: 0 <= k < |rest| ==> rest[k] == if k < i then ds[k] else ds[k + 1]
  {
  }

  /** The status text accepted by updateUserStatus. */
  function ParseStatus(status: string): Option<Status> {
    if status == "ACTIVE" then Some(Active)
    else if status == "BLOCKED" then Some(Blocked)
    else None
  }

  /** updateUserStatus, as a function of the database. The one write is the update; a store
      failure there is answered 500. */
  function SetUserStatus(s: State, id: Id, status: string, fault: Fault): (State, Reply)
  {
    match ParseStatus(status)
    case None => (s, Failure(400, "Invalid status"))
    case Some(st) =>
      match UserById(s.users, id)
      case None => (s, Failure(404, "User not found"))
      case Some(j) =>
        if s.users[j].role == Admin then (s, Failure(403, "Cannot change status of an admin user"))
        else if Hits(fault, 1) then (s, Failure(500, ServerError))
        else (s.(users := s.users[j := s.users[j].(status := st)]), Success(200))
  }

  /** updateUserStatus: validate the status, find the user, protect admins, update. */
  method UpdateUserStatus(db: Store, id: Id, status: string, fault: Fault) returns (r: Reply)
    modifies db
    ensures (db.Snapshot(), r) == SetUserStatus(old(db.Snapshot()), id, status, fault)
  {
    if status != "ACTIVE" && status != "BLOCKED" {
      return Failure(400, "Invalid status");
    }
    var found := UserById(db.users, id);
    if found.None? {
      return Failure(404, "User not found");
    }
    var j := found.value;
    if db.users[j].role == Admin {
      return Failure(403, "Cannot change status of an admin user");
    }
    if fault == FailAt(0) {
      return Failure(500, ServerError);
    }
    db.users := db.users[j := db.users[j].(status := if status == "ACTIVE" then Active else Blocked)];
    r := Success(200);
  }

  /** A status change succeeds (the store permitting) exactly for "ACTIVE"/"BLOCKED" on an
      existing non-admin user, ids being unique; it then changes that user's status and
      nothing else. Every failure changes nothing, and an admin's row is never changed. */
  lemma {:induction false} SetUserStatusEffect(s: State, id: Id, status: string, fault: Fault)
    requires Valid(s)
    ensures var (s', r) := SetUserStatus(s, id, status, fault);
            && (r.Success? <==> (status == "ACTIVE" || status == "BLOCKED")
                                && (exists u :: u in s.users && u.id == id && u.role != Admin)
                                && !Hits(fault, 1))
            && (r.Success? ==>
                  var j := UserById(s.users, id).value;
                  && s.users[j].id == id
                  && s'.users[j].status == (if status == "ACTIVE" then Active else Blocked)
                  && s'.users[j] == s.users[j].(status := s'.users[j].status)
                  && |s'.users| == |s.users|
                  && (forall k :: 0 <= k < |s.users| && k != j ==> s'.users[k] == s.users[k])
                  && s' == s.(users := s'.users))
            && (r.Failure? ==> s' == s)
            && (forall k :: 0 <= k < |s.users| && s.users[k].role == Admin ==> s'.users[k] == s.users[k])
  {
    if ParseStatus(status).Some? {
      FindIndexFirst(s.users, (u: UserRow) => u.id == id);
      match UserById(s.users, id)
      case None =>
      case Some(j) =>
        assert s.users[j] in s.users;
        forall u | u in s.users && u.id == id ensures u == s.users[j] {
          var k :| 0 <= k < |s.users| && s.users[k] == u;
          assert k == j;
        }
    }
  }

  /** A status change keeps the unique constraints: ids, emails and referral codes are
      untouched. */
  lemma SetUserStatusPreservesValid(s: State, id: Id, status: string, fault: Fault)
    requires Valid(s)
    ensures Valid(SetUserStatus(s, id, status, fault).0)
  {
  }
}
