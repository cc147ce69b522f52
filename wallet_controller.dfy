/** controllers/walletController.js: a deposit request, a withdrawal request, and the
    transaction history that merges pending requests with the ledger. */
module WalletController {
  import opened Util
  import opened Db

  /** depositRequest, as a function of the database, for the signed-in user `user`. The one
      write is the creation of the deposit; a store failure there is answered 500. */
  function RequestDeposit(s: State, user: Id, amount: Option<real>, currency: Option<string>, txid: Option<string>,
                          now: int, fault: Fault): (State, Reply)
  {
    if !PresentAmount(amount) || !Present(currency) || !Present(txid) then (s, Failure(400, "Please fill all fields"))
    else if DepositByTxid(s.deposits, txid.value).Some? then (s, Failure(400, "Transaction ID already submitted"))
    else if Hits(fault, 1) then (s, Failure(500, ServerError))
    else
      (s.(deposits := s.deposits + [DepositRow(s.nextId, user, amount.value, currency.value, txid.value, Pending, now)],
          nextId := s.nextId + 1),
       Success(201))
  }

  /** depositRequest: check the fields, refuse a known txid, create a PENDING deposit. */
  method DepositRequest(db: Store, user: Id, amount: Option<real>, currency: Option<string>, txid: Option<string>,
                        now: int, fault: Fault) returns (r: Reply)
    modifies db
    ensures (db.Snapshot(), r) == RequestDeposit(old(db.Snapshot()), user, amount, currency, txid, now, fault)
  {
    if amount.None? || amount.value == 0.0 || currency.None? || currency.value == ""
       || txid.None? || txid.value == "" {
      return Failure(400, "Please fill all fields");
    }
    var txExists := DepositByTxid(db.deposits, txid.value);
    if txExists.Some? {
      return Failure(400, "Transaction ID already submitted");
    }
    if fault == FailAt(0) {
      return Failure(500, ServerError);
    }
    db.deposits := db.deposits + [DepositRow(db.nextId, user, amount.value, currency.value, txid.value, Pending, now)];
    db.nextId := db.nextId + 1;
    r := Success(201);
  }

  /** A deposit request succeeds (the store permitting) exactly when all three fields are
      truthy and no deposit carries the txid; it then appends exactly one PENDING deposit
      with the caller's id, amount, currency and txid, and changes nothing else. */
  lemma DepositRequestEffect(s: State, user: Id, amount: Option<real>, currency: Option<string>, txid: Option<string>,
                             now: int)
    ensures var (s', r) := RequestDeposit(s, user, amount, currency, txid, now, NoFault);
            && (r.Success? <==> PresentAmount(amount) && Present(currency) && Present(txid)
                                && forall d :: d in s.deposits ==> d.txid != txid.value)
            && (r.Success? ==> s' == s.(deposits := s.deposits + [DepositRow(s.nextId, user, amount.value, currency.value,
                                                                             txid.value, Pending, now)],
                                        nextId := s.nextId + 1))
            && (r.Failure? ==> s' == s)
  {
    if Present(txid) {
      FindIndexFirst(s.deposits, (d: DepositRow) => d.txid == txid.value);
      if DepositByTxid(s.deposits, txid.value).Some? {
        assert s.deposits[DepositByTxid(s.deposits, txid.value).value] in s.deposits;
      }
    }
  }

  /** Deposit requests keep txids (and ids) unique: the schema invariant is preserved when the
      caller is a registered user. */
  lemma DepositRequestPreservesValid(s: State, user: Id, amount: Option<real>, currency: Option<string>,
                                     txid: Option<string>, now: int, fault: Fault)
    requires Valid(s)
    requires exists j :: 0 <= j < |s.users| && s.users[j].id == user
    ensures Valid(RequestDeposit(s, user, amount, currency, txid, now, fault).0)
  {
    var (s', r) := RequestDeposit(s, user, amount, currency, txid, now, fault);
    if r.Success? {
      FindIndexFirst(s.deposits, (d: DepositRow) => d.txid == txid.value);
      assert forall i :: 0 <= i < |s.deposits| ==> s'.deposits[i] == s.deposits[i];
      assert s'.deposits[|s.deposits|].txid == txid.value;
    }
  }

  /** withdrawRequest, as a function of the database. Its two writes are not in a
      transaction: when the second fails, the balance stays debited. */
  function Withdraw(s: State, user: Id, amount: Option<real>, currency: Option<string>, address: Option<string>,
                    now: int, fault: Fault): (State, Reply)
  {
    if !PresentAmount(amount) || !Present(currency) || !Present(address) then (s, Failure(400, "Please fill all fields"))
    else
      var key := WalletKey(user, currency.value);
      if key !in s.wallets || s.wallets[key] < amount.value then (s, Failure(400, "Insufficient balance"))
      else if fault == FailAt(0) then (s, Failure(500, ServerError))
      else
        var debited := s.(wallets := Credit(s.wallets, key, -amount.value));
        if fault == FailAt(1) then (debited, Failure(500, ServerError))
        else
          (debited.(withdrawals := s.withdrawals + [WithdrawalRow(s.nextId, user, amount.value, currency.value,
                                                                  address.value, Pending, now)],
                    nextId := s.nextId + 1),
           Success(201))
  }

  /** withdrawRequest: check the fields and the balance, debit the wallet at once, then
      create the PENDING withdrawal. */
  method WithdrawRequest(db: Store, user: Id, amount: Option<real>, currency: Option<string>, address: Option<string>,
                         now: int, fault: Fault) returns (r: Reply)
    modifies db
    ensures (db.Snapshot(), r) == Withdraw(old(db.Snapshot()), user, amount, currency, address, now, fault)
  {
    if amount.None? || amount.value == 0.0 || currency.None? || currency.value == ""
       || address.None? || address.value == "" {
      return Failure(400, "Please fill all fields");
    }
    var key := WalletKey(user, currency.value);
    if key !in db.wallets || db.wallets[key] < amount.value {
      return Failure(400, "Insufficient balance");
    }
    if fault == FailAt(0) {
      return Failure(500, ServerError);
    }
    db.wallets := db.wallets[key := db.wallets[key] - amount.value];
    if fault == FailAt(1) {
      return Failure(500, ServerError);
    }
    db.withdrawals := db.withdrawals + [WithdrawalRow(db.nextId, user, amount.value, currency.value, address.value, Pending, now)];
    db.nextId := db.nextId + 1;
    r := Success(201);
  }

  /** A withdrawal the store completes succeeds exactly when all fields are truthy, the wallet
      exists and its balance covers the amount (equality is enough). */
  lemma WithdrawSucceedsIff(s: State, user: Id, amount: Option<real>, currency: Option<string>, address: Option<string>,
                            now: int)
    ensures Withdraw(s, user, amount, currency, address, now, NoFault).1.Success?
            <==> PresentAmount(amount) && Present(currency) && Present(address)
                 && WalletKey(user, currency.value) in s.wallets
                 && s.wallets[WalletKey(user, currency.value)] >= amount.value
  {
  }

  /** The refusals come first and in this order, each answered 400 with its message: a falsy
      field, then a missing wallet or a balance below the amount. Every 400 answer, and
      every failure before the first write, leaves the database unchanged. */
  lemma WithdrawRefusals(s: State, user: Id, amount: Option<real>, currency: Option<string>, address: Option<string>,
                         now: int, fault: Fault)
    ensures var (s', r) := Withdraw(s, user, amount, currency, address, now, fault);
            && (!PresentAmount(amount) || !Present(currency) || !Present(address) ==>
                  r == Failure(400, "Please fill all fields"))
            && (PresentAmount(amount) && Present(currency) && Present(address)
                && (WalletKey(user, currency.value) !in s.wallets
                    || s.wallets[WalletKey(user, currency.value)] < amount.value) ==>
                  r == Failure(400, "Insufficient balance"))
            && (r.Failure? && r.status == 400 ==> s' == s)
            && (fault == FailAt(0) ==> s' == s)
  {
  }

  /** What a successful withdrawal does: that one wallet goes down by exactly the amount, one
      PENDING withdrawal carrying the address is appended, and nothing else changes; in
      particular no ledger row is written. */
  lemma WithdrawEffect(s: State, user: Id, amount: Option<real>, currency: Option<string>, address: Option<string>,
                       now: int, fault: Fault)
    requires Withdraw(s, user, amount, currency, address, now, fault).1.Success?
    ensures var s' := Withdraw(s, user, amount, currency, address, now, fault).0;
            var key := WalletKey(user, currency.value);
            && key in s.wallets
            && s'.wallets == s.wallets[key := s.wallets[key] - amount.value]
            && s'.withdrawals == s.withdrawals + [WithdrawalRow(s.nextId, user, amount.value, currency.value,
                                                                address.value, Pending, now)]
            && s'.ledger == s.ledger
            && s' == s.(wallets := s'.wallets, withdrawals := s'.withdrawals, nextId := s.nextId + 1)
  {
  }

  /** Withdrawing the whole balance succeeds and leaves the wallet at exactly 0. */
  lemma WithdrawAll(s: State, user: Id, currency: string, address: string, now: int)
    requires currency != "" && address != ""
    requires WalletKey(user, currency) in s.wallets && s.wallets[WalletKey(user, currency)] != 0.0
    ensures var amount := s.wallets[WalletKey(user, currency)];
            var (s', r) := Withdraw(s, user, Some(amount), Some(currency), Some(address), now, NoFault);
            r.Success? && s'.wallets[WalletKey(user, currency)] == 0.0
  {
  }

  /** The two writes are not atomic: when the withdrawal record cannot be created, the
      request fails but the balance has already been debited and no record exists. */
  lemma WithdrawNotAtomic(s: State, user: Id, amount: real, currency: string, address: string, now: int)
    requires amount != 0.0 && currency != "" && address != ""
    requires WalletKey(user, currency) in s.wallets && s.wallets[WalletKey(user, currency)] >= amount
    ensures var (s', r) := Withdraw(s, user, Some(amount), Some(currency), Some(address), now, FailAt(1));
            && r == Failure(500, ServerError)
            && s'.wallets[WalletKey(user, currency)] == s.wallets[WalletKey(user, currency)] - amount
            && s'.withdrawals == s.withdrawals
  {
  }

  /** Only a zero amount is refused: a negative amount passes the balance check and the
      "debit" raises the balance. */
  lemma NegativeWithdrawalCredits(s: State, user: Id, amount: real, currency: string, address: string, now: int)
    requires amount < 0.0 && currency != "" && address != ""
    requires WalletKey(user, currency) in s.wallets && s.wallets[WalletKey(user, currency)] >= 0.0
    ensures var (s', r) := Withdraw(s, user, Some(amount), Some(currency), Some(address), now, NoFault);
            r.Success? && s'.wallets[WalletKey(user, currency)] > s.wallets[WalletKey(user, currency)]
  {
  }

  /** Withdrawals keep the schema invariant when the caller is a registered user. */
  lemma WithdrawPreservesValid(s: State, user: Id, amount: Option<real>, currency: Option<string>,
                               address: Option<string>, now: int, fault: Fault)
    requires Valid(s)
    ensures Valid(Withdraw(s, user, amount, currency, address, now, fault).0)
  {
    var (s', r) := Withdraw(s, user, amount, currency, address, now, fault);
    if s' != s {
      CreditEffect(s.wallets, WalletKey(user, currency.value), -amount.value);
    }
  }

  /** `type` of a history entry: a ledger row's own type, or one of the two pending labels. */
  datatype HistoryKind = Posted(LedgerType) | DepositPending | WithdrawalPending

  /** One entry of the merged history, shaped like a ledger row. */
  datatype HistoryItem = HistoryItem(
    id: Id, user: Id, kind: HistoryKind, currency: Currency, amount: real,
    reference: Reference, createdAt: int)

  /** A pending deposit as a history entry: the amount as is, the txid as reference. */
  function DepositItem(d: DepositRow): HistoryItem {
    HistoryItem(d.id, d.user, DepositPending, d.currency, d.amount, TextRef(d.txid), d.createdAt)
  }

  /** A pending withdrawal as a history entry: the amount negated, the address as reference. */
  function WithdrawalItem(w: WithdrawalRow): HistoryItem {
    HistoryItem(w.id, w.user, WithdrawalPending, w.currency, -w.amount, TextRef(w.address), w.createdAt)
  }

  /** A ledger row as a history entry, unchanged. */
  function LedgerItem(e: LedgerRow): HistoryItem {
    HistoryItem(e.id, e.user, Posted(e.kind), e.currency, e.amount, e.reference, e.createdAt)
  }

  /** The user's PENDING deposits, as entries, in table order. */
  function PendingDepositItems(deposits: seq<DepositRow>, user: Id): (r: seq<HistoryItem>)
    ensures forall x :: x in r <==> exists d :: d in deposits && d.user == user && d.status == Pending && x == DepositItem(d)
  {
    if deposits == [] then []
    else
      assert deposits == [deposits[0]] + deposits[1..];
      (if deposits[0].user == user && deposits[0].status == Pending then [DepositItem(deposits[0])] else [])
        + PendingDepositItems(deposits[1..], user)
  }

  /** The user's PENDING withdrawals, as entries, in table order. */
  function PendingWithdrawalItems(withdrawals: seq<WithdrawalRow>, user: Id): (r: seq<HistoryItem>)
    ensures forall x :: x in r <==> exists w :: w in withdrawals && w.user == user && w.status == Pending && x == WithdrawalItem(w)
  {
    if withdrawals == [] then []
    else
      assert withdrawals == [withdrawals[0]] + withdrawals[1..];
      (if withdrawals[0].user == user && withdrawals[0].status == Pending then [WithdrawalItem(withdrawals[0])] else [])
        + PendingWithdrawalItems(withdrawals[1..], user)
  }

  /** The user's ledger rows, as entries, in table order. */
  function LedgerItems(ledger: seq<LedgerRow>, user: Id): (r: seq<HistoryItem>)
    ensures forall x :: x in r <==> exists e :: e in ledger && e.user == user && x == LedgerItem(e)
  {
    if ledger == [] then []
    else
      assert ledger == [ledger[0]] + ledger[1..];
      (if ledger[0].user == user then [LedgerItem(ledger[0])] else []) + LedgerItems(ledger[1..], user)
  }

  /** Newest first: no entry is followed by a newer one. */
  ghost predicate NewestFirstOrder(s: seq<HistoryItem>) {
    forall i, j :: 0 <= i < j < |s| ==> s[i].createdAt >= s[j].createdAt
  }

  /** Puts `x` into a newest-first sequence, before every entry that is not newer. */
  function Insert(x: HistoryItem, s: seq<HistoryItem>): (r: seq<HistoryItem>)
    requires NewestFirstOrder(s)
    ensures NewestFirstOrder(r)
    ensures |r| == |s| + 1
    ensures r[0] == x || (s != [] && r[0] == s[0])
  {
    if s == [] || s[0].createdAt <= x.createdAt then
      ConsNewestFirst(x, s);
      [x] + s
    else
      assert NewestFirstOrder(s[1..]) by {
        forall i, j | 0 <= i < j < |s| - 1 ensures s[1..][i].createdAt >= s[1..][j].createdAt {
          assert s[1..][i] == s[i + 1] && s[1..][j] == s[j + 1];
        }
      }
      var rest := Insert(x, s[1..]);
      assert s == [s[0]] + s[1..];
      ConsNewestFirst(s[0], rest);
      [s[0]] + rest
  }

  /** Insertion adds `x` and loses nothing. */
  lemma {:induction false} InsertMultiset(x: HistoryItem, s: seq<HistoryItem>)
    requires NewestFirstOrder(s)
    ensures multiset(Insert(x, s)) == multiset(s) + multiset{x}
  {
    if s != [] && x.createdAt < s[0].createdAt {
      assert NewestFirstOrder(s[1..]) by {
        forall i, j | 0 <= i < j < |s| - 1 ensures s[1..][i].createdAt >= s[1..][j].createdAt {
          assert s[1..][i] == s[i + 1] && s[1..][j] == s[j + 1];
        }
      }
      InsertMultiset(x, s[1..]);
      assert s == [s[0]] + s[1..];
    }
  }

  /** An entry no older than the head of a newest-first sequence can go in front of it. */
  lemma ConsNewestFirst(y: HistoryItem, s: seq<HistoryItem>)
    requires NewestFirstOrder(s)
    requires s != [] ==> s[0].createdAt <= y.createdAt
    ensures NewestFirstOrder([y] + s)
  {
    var r := [y] + s;
    forall i, j | 0 <= i < j < |r| ensures r[i].createdAt >= r[j].createdAt {
      if i == 0 {
        assert r[j] == s[j - 1];
        assert s[0].createdAt >= s[j - 1].createdAt;
      } else {
        assert r[i] == s[i - 1] && r[j] == s[j - 1];
      }
    }
  }

  /** `sort((a, b) => b.created_at - a.created_at)`: a stable sort, newest first. It is also
      what `orderBy: { created_at: 'desc' }` returns. */
  function NewestFirst(s: seq<HistoryItem>): (r: seq<HistoryItem>)
    ensures NewestFirstOrder(r)
    ensures multiset(r) == multiset(s)
  {
    if s == [] then []
    else
      assert s == [s[0]] + s[1..];
      InsertMultiset(s[0], NewestFirst(s[1..]));
      Insert(s[0], NewestFirst(s[1..]))
  }

  /** getTransactions: the user's pending deposits, pending withdrawals and ledger rows, each
      fetched newest first, concatenated in that order and sorted newest first. */
  function Transactions(s: State, user: Id): seq<HistoryItem> {
    NewestFirst(NewestFirst(PendingDepositItems(s.deposits, user))
                + NewestFirst(PendingWithdrawalItems(s.withdrawals, user))
                + NewestFirst(LedgerItems(s.ledger, user)))
  }

  /** The history is newest first and holds exactly the pending deposits, the pending
      withdrawals and the ledger rows of the user, each once. */
  lemma TransactionsContents(s: State, user: Id)
    ensures NewestFirstOrder(Transactions(s, user))
    ensures multiset(Transactions(s, user))
            == multiset(PendingDepositItems(s.deposits, user))
               + multiset(PendingWithdrawalItems(s.withdrawals, user))
               + multiset(LedgerItems(s.ledger, user))
  {
  }

  /** Every pending deposit of the user shows with its amount and its txid; every pending
      withdrawal with its amount negated and its address; every ledger row as it is; and the
      history shows nothing else. */
  lemma TransactionsMembers(s: State, user: Id, x: HistoryItem)
    ensures x in Transactions(s, user) <==>
              (exists d :: d in s.deposits && d.user == user && d.status == Pending && x == DepositItem(d))
              || (exists w :: w in s.withdrawals && w.user == user && w.status == Pending && x == WithdrawalItem(w))
              || (exists e :: e in s.ledger && e.user == user && x == LedgerItem(e))
  {
    TransactionsContents(s, user);
    var ds := PendingDepositItems(s.deposits, user);
    var ws := PendingWithdrawalItems(s.withdrawals, user);
    var ls := LedgerItems(s.ledger, user);
    assert x in Transactions(s, user) <==> x in multiset(Transactions(s, user));
    assert x in multiset(ds) + multiset(ws) + multiset(ls) <==> x in ds || x in ws || x in ls;
  }
}
