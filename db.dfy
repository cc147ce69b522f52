/** The database the controllers reach through Prisma. Each table is a sequence of rows
    (or a map where the schema has a compound or per-user unique key), the whole database
    is one value of type State, and a Store object holds the tables as fields that the
    controller methods update. Record ids come from a counter, standing in for the
    store's generated ids. */
module Db {
  import opened Util
  import opened Strings

  type Id = nat
  type Currency = string

  /** `role` of a user ('USER' | 'ADMIN'). */
  datatype Role = User | Admin

  /** The status vocabulary shared by users ('ACTIVE' | 'BLOCKED'), deposits
      ('PENDING' | 'ACTIVE'), withdrawals and KYC records ('PENDING'). */
  datatype Status = Pending | Active | Blocked

  datatype UserRow = UserRow(
    id: Id, name: string, email: string,
    password: string,  // the bcrypt hash, never the plain password
    role: Role, status: Status,
    referralCode: string, referredBy: Option<string>)

  /** The unique key `user_id_currency` of the wallet table. */
  datatype WalletKey = WalletKey(user: Id, currency: Currency)

  datatype DepositRow = DepositRow(
    id: Id, user: Id, amount: real, currency: Currency, txid: string,
    status: Status, createdAt: int)

  datatype WithdrawalRow = WithdrawalRow(
    id: Id, user: Id, amount: real, currency: Currency, address: string,
    status: Status, createdAt: int)

  /** `type` of a transaction-ledger row. */
  datatype LedgerType = Deposit | Commission | TradeBuy | TradeSell

  /** `reference_id` of a ledger row: a deposit id, or free text such as "TRADE". */
  datatype Reference = DepositRef(deposit: Id) | TextRef(text: string)

  datatype LedgerRow = LedgerRow(
    id: Id, user: Id, kind: LedgerType, currency: Currency, amount: real,
    reference: Reference, createdAt: int)

  datatype CommissionRow = CommissionRow(
    referrer: Id, user: Id, amount: real, currency: Currency, source: string)

  datatype TradeRow = TradeRow(
    user: Id, pair: string, side: string, price: real, amount: real, fee: real, total: real)

  datatype KycRow = KycRow(documentUrl: string, documentType: string, status: Status, submittedAt: int)

  /** The whole database. Wallet balances are keyed by `user_id_currency`; KYC records
      by their unique `user_id`. */
  datatype State = State(
    users: seq<UserRow>,
    wallets: map<WalletKey, real>,
    deposits: seq<DepositRow>,
    withdrawals: seq<WithdrawalRow>,
    ledger: seq<LedgerRow>,
    commissions: seq<CommissionRow>,
    trades: seq<TradeRow>,
    kyc: map<Id, KycRow>,
    nextId: nat)

  const EmptyState := State([], map[], [], [], [], [], [], map[], 0)

  /** The HTTP answer of a handler: a success status, or an error status with its message. */
  datatype Reply = Success(status: nat) | Failure(status: nat, message: string)

  /** A store failure to inject: none, or the write with this index (0 = first) throws. */
  datatype Fault = NoFault | FailAt(write: nat)

  /** The fault strikes an operation that performs `writes` writes. */
  predicate Hits(fault: Fault, writes: nat) {
    fault.FailAt? && fault.write < writes
  }

  /** The text of an exception raised by the store. */
  const StoreError := "store error"

  /** The text of the exception raised by the handlers' generic catch. */
  const ServerError := "Server Error"

  /** The decimal text of an id, as it appears inside strings. */
  function IdText(id: Id): string {
    Decimal(id)
  }

  /** A wallet's balance, 0 when there is no wallet. */
  function Balance(w: map<WalletKey, real>, k: WalletKey): real {
    if k in w then w[k] else 0.0
  }

  /** `balance: { increment: x }` on an existing wallet, or a new wallet with balance `x`. */
  function Credit(w: map<WalletKey, real>, k: WalletKey, x: real): (r: map<WalletKey, real>)
    ensures k in r && r[k] == Balance(w, k) + x
  {
    w[k := Balance(w, k) + x]
  }

  /** A credit raises one balance, creating the wallet if needed, and leaves the others. */
  lemma CreditEffect(w: map<WalletKey, real>, k: WalletKey, x: real)
    ensures Credit(w, k, x).Keys == w.Keys + {k}
    ensures forall k' :: k' in Credit(w, k, x) ==> Credit(w, k, x)[k'] == Balance(w, k') + (if k' == k then x else 0.0)
  {
  }

  /** Two credits, on wallets that may be missing and may be the same, add up per wallet. */
  lemma CreditTwice(w: map<WalletKey, real>, k1: WalletKey, x1: real, k2: WalletKey, x2: real)
    ensures Credit(Credit(w, k1, x1), k2, x2).Keys == w.Keys + {k1, k2}
    ensures forall k :: k in Credit(Credit(w, k1, x1), k2, x2) ==>
              Credit(Credit(w, k1, x1), k2, x2)[k]
                == Balance(w, k) + (if k == k1 then x1 else 0.0) + (if k == k2 then x2 else 0.0)
  {
    var w1 := Credit(w, k1, x1);
    CreditEffect(w, k1, x1);
    CreditEffect(w1, k2, x2);
    assert forall k :: k in w1 ==> Balance(w1, k) == Balance(w, k) + (if k == k1 then x1 else 0.0);
  }

  /** Two credits on existing wallets (possibly the same one) add up per wallet. */
  lemma CreditPair(w: map<WalletKey, real>, k1: WalletKey, x1: real, k2: WalletKey, x2: real)
    requires k1 in w && k2 in w
    ensures Credit(Credit(w, k1, x1), k2, x2).Keys == w.Keys
    ensures forall k :: k in w ==>
              Credit(Credit(w, k1, x1), k2, x2)[k] == w[k] + (if k == k1 then x1 else 0.0) + (if k == k2 then x2 else 0.0)
  {
    CreditEffect(w, k1, x1);
    CreditEffect(Credit(w, k1, x1), k2, x2);
  }

  function UserById(users: seq<UserRow>, id: Id): Option<nat> {
    FindIndex(users, (u: UserRow) => u.id == id)
  }

  function UserByEmail(users: seq<UserRow>, email: string): Option<nat> {
    FindIndex(users, (u: UserRow) => u.email == email)
  }

  function UserByReferralCode(users: seq<UserRow>, code: string): Option<nat> {
    FindIndex(users, (u: UserRow) => u.referralCode == code)
  }

  function DepositById(deposits: seq<DepositRow>, id: Id): Option<nat> {
    FindIndex(deposits, (d: DepositRow) => d.id == id)
  }

  function DepositByTxid(deposits: seq<DepositRow>, txid: string): Option<nat> {
    FindIndex(deposits, (d: DepositRow) => d.txid == txid)
  }

  /** The schema's unique constraints and the id counter's freshness. */
  ghost predicate Valid(s: State) {
    && (forall i, j :: 0 <= i < j < |s.users| ==>
          s.users[i].id != s.users[j].id && s.users[i].email != s.users[j].email
          && s.users[i].referralCode != s.users[j].referralCode)
    && (forall i, j :: 0 <= i < j < |s.deposits| ==>
          s.deposits[i].id != s.deposits[j].id && s.deposits[i].txid != s.deposits[j].txid)
    && (forall i :: 0 <= i < |s.users| ==> s.users[i].id < s.nextId)
    && (forall i :: 0 <= i < |s.deposits| ==> s.deposits[i].id < s.nextId && s.deposits[i].user < s.nextId)
    && (forall i :: 0 <= i < |s.withdrawals| ==> s.withdrawals[i].id < s.nextId)
    && (forall i :: 0 <= i < |s.ledger| ==> s.ledger[i].id < s.nextId)
    && (forall k :: k in s.wallets ==> k.user < s.nextId)
  }

  /** The store's tables, as fields the controller methods update in place. */
  class Store {
    var users: seq<UserRow>
    var wallets: map<WalletKey, real>
    var deposits: seq<DepositRow>
    var withdrawals: seq<WithdrawalRow>
    var ledger: seq<LedgerRow>
    var commissions: seq<CommissionRow>
    var trades: seq<TradeRow>
    var kyc: map<Id, KycRow>
    var nextId: nat

    /** The database as a value. */
    function Snapshot(): State
      reads this
    {
      State(users, wallets, deposits, withdrawals, ledger, commissions, trades, kyc, nextId)
    }

    constructor ()
      ensures Snapshot() == EmptyState && Valid(Snapshot())
    {
      users, wallets, deposits, withdrawals := [], map[], [], [];
      ledger, commissions, trades, kyc, nextId := [], [], [], map[], 0;
    }
  }
}
