# Balance-mutation core of a custodial crypto-exchange backend

This project models the part of a Node/Express + Prisma exchange backend that moves money
and writes the records that go with it. It covers:

- deposit approval, with its one-level 5% referral commission;
- deleting a pending deposit, and an admin changing a user's status;
- trade execution: BUY/SELL of a BASE/QUOTE pair with a 0.2% fee;
- deposit and withdrawal requests;
- the merged transaction history;
- registration, with referrer resolution and three starter wallets, and the login decision;
- the `protect`/`admin` request gates and the referral-code builder;
- the legacy wallet-address migration;
- the KYC upload filter, file name and per-user upsert.

The database is a value `Db.State`. It holds users, wallets keyed by (user, currency),
deposits, withdrawals, ledger rows, referral commissions, trades and KYC records, plus a
counter standing in for generated ids. A `Db.Store` object holds the same tables as fields.

Each handler that writes is modelled twice:

- a function `Spec(s, …): (State, Reply)` describing the new database and the HTTP answer;
- a method on `db: Store` that performs the writes step by step, proved to satisfy
  `(db.Snapshot(), r) == Spec(old(db.Snapshot()), …)`.

The lemmas state what the source promises about those functions.

Store failures are an input. `Fault = NoFault | FailAt(k)` makes the k-th write throw. This
shows which handlers run in one transaction (approval, trade), so that any failure leaves
nothing behind. It also shows which do not (withdrawal, registration), where a late failure
leaves a partial write.

Amounts are exact `real`s. A field is "present" as JavaScript truthiness has it: missing,
empty or zero is falsy. `Db.Valid` is the schema's unique constraints (user id, email,
referral code, deposit id, txid) plus freshness of the id counter. Every operation that
writes to the database keeps it, each by a `…PreservesValid` lemma.

Where the system's stated intent and its code disagree, the model follows the code:

- The code does not keep "balance = sum of ledger rows". A BUY's base credit, a SELL's
  quote credit and withdrawals write no ledger row (`TradeController.BuyEffect`,
  `TradeController.SellEffect`, `WalletController.WithdrawEffect`).
- There is no internal-transfer routing. `withdrawRequest` only debits and records a
  PENDING withdrawal.
- Balances can go negative. Only falsy amounts are refused, so a negative withdrawal
  credits the wallet (`WalletController.NegativeWithdrawalCredits`). A BUY of a negative
  amount overdraws the base wallet (`TradeController.NegativeBuyOverdraws`).
- Not every multi-write operation is all-or-nothing. Withdrawal and registration are not
  transactions (`WalletController.WithdrawNotAtomic`,
  `AuthController.RegisterWithoutWallets`).

## Model

| member | source | states |
|---|---|---|
| Db.Credit | controllers/adminController.js:83-98 | after a credit the wallet exists and holds its old balance (0 if it was missing) plus the credited amount |
| Db.CreditEffect | controllers/adminController.js:83-98 | a credit creates the wallet if it is missing and changes no other wallet |
| Db.CreditTwice | controllers/adminController.js:83-145 | two credits add up per wallet, whether the wallets exist or not and even when they are the same wallet |
| Db.CreditPair | controllers/tradeController.js:71-80 | a debit and a credit on two existing wallets (possibly the same one) add up per wallet and create no wallet |
| Strings.Split | middleware/authMiddleware.js:12 | `split` on one character yields at least one field, and no field contains the separator |
| Strings.JoinSplit | middleware/authMiddleware.js:12 | joining the fields of a split gives back the string |
| Strings.SplitJoin | controllers/tradeController.js:33 | splitting a join of separator-free fields gives back exactly those fields |
| Strings.IncludesIffOccurs | controllers/kycController.js:25-27 | the unanchored scan succeeds exactly when the word occurs at some position |
| Strings.Upper | utils/generateToken.js:17 | upper-casing keeps the length, leaves no ASCII lower-case letter, turns each one into its capital in place and keeps every other character |
| Strings.Lower | controllers/kycController.js:26 | lower-casing keeps the length, leaves no ASCII capital, turns each one into its lower-case letter in place and keeps every other character |
| Strings.LowerUpper | controllers/kycController.js:26 | lower-casing ignores case: `Lower(Upper(s)) == Lower(s)`, so a text and its upper-cased form lower-case alike |
| Strings.UpperLower | utils/generateToken.js:17 | upper-casing ignores case: `Upper(Lower(s)) == Upper(s)` |
| Strings.CaseIdempotent | utils/generateToken.js:17 | upper-casing and lower-casing are each idempotent |
| Strings.Decimal | utils/generateToken.js:17 | the decimal text of a number is a non-empty string of digits with no leading zero, except for 0 itself |
| Strings.DecimalRoundTrip | utils/generateToken.js:17 | the decimal text reads back as the number |
| Strings.DecimalLength | utils/generateToken.js:17 | the decimal text has exactly as many characters as the number has digits |
| Strings.Hex | fixLegacyWallets.js:6 | hex encoding writes two lower-case hex digits per byte |
| Strings.UnhexHex | fixLegacyWallets.js:6 | hex decoding gives back the encoded bytes |
| AdminController.PendingDeposits | controllers/adminController.js:29-40 | the listing holds exactly the deposits whose status is PENDING |
| AdminController.ReferrerOf | controllers/adminController.js:113-119 | the referrer found is a registered user whose referral code is the depositor's `referred_by` |
| AdminController.ReferrerFound | controllers/adminController.js:113-119 | a referrer is found exactly when `referred_by` is truthy and some user holds that code |
| AdminController.UpsertBalance | controllers/adminController.js:74-98 | the find-then-update-or-create step is the credit of the owner's wallet |
| AdminController.ApproveDeposit | controllers/adminController.js:45-178 | the handler's writes and answer are those of the approval function, for every fault |
| AdminController.RunTransaction | controllers/adminController.js:63-170 | the transaction body commits all of the settlement's writes or none of them |
| AdminController.CreditDepositWrites | controllers/adminController.js:66-110 | writes 0-2 fail exactly when the fault hits them; otherwise the deposit is ACTIVE, the owner is credited and the DEPOSIT row is appended |
| AdminController.FindReferrer | controllers/adminController.js:113-119 | the guarded lookup returns the depositor's referrer |
| AdminController.PayCommissionWrites | controllers/adminController.js:119-167 | writes 3-5 fail exactly when the fault hits them; otherwise the referrer's wallet, the commission record and the COMMISSION row are written |
| AdminController.ApproveMissing | controllers/adminController.js:50-57 | approving an unknown id answers 404 "Deposit not found" and changes nothing |
| AdminController.ApproveFailureChangesNothing | controllers/adminController.js:55-177 | every refusal or failure of an approval leaves the whole database unchanged |
| AdminController.ApproveAtomic | controllers/adminController.js:63-170 | a store failure at any of the first three writes fails the approval and rolls everything back |
| AdminController.ApproveTwice | controllers/adminController.js:59-61 | after a successful approval, approving the same id again is refused as already processed and changes nothing, so a deposit is credited at most once |
| AdminController.ApproveEffect | controllers/adminController.js:66-167 | a successful approval makes the deposit ACTIVE; it appends one DEPOSIT ledger row for the owner with +amount and the deposit's id as reference; with a referrer it also appends one COMMISSION row and one DEPOSIT-sourced commission record of 5%; users, withdrawals, trades and KYC are untouched |
| AdminController.ApproveSettles | controllers/adminController.js:63-170 | a successful approval is the settlement of the PENDING deposit found, with its owner's referrer |
| AdminController.ApproveBalances | controllers/adminController.js:73-145 | after a successful approval the owner's wallet (created if missing) has gained exactly the amount; the referrer's wallet, if there is a referrer, has gained exactly 5% of it; no other wallet has changed |
| AdminController.SettleBalances | controllers/adminController.js:73-145 | the settlement credits the owner with the amount and the referrer, if any, with 5%, creating missing wallets and touching no other |
| AdminController.CreditDepositValid | controllers/adminController.js:66-110 | the owner's credit keeps the unique constraints and the id counter fresh |
| AdminController.PayCommissionValid | controllers/adminController.js:119-167 | the referral writes keep the unique constraints and the id counter fresh |
| AdminController.ApprovePreservesValid | controllers/adminController.js:45-178 | every approval outcome keeps the database valid |
| AdminController.DeleteDeposit | controllers/adminController.js:180-205 | the handler's writes and answer are those of the deletion function, for every fault |
| AdminController.RemoveAt | controllers/adminController.js:196-198 | removing one row of a uniquely keyed table removes that id and keeps every other row |
| AdminController.DeleteOnlyPending | controllers/adminController.js:188-204 | a deletion succeeds exactly when a PENDING deposit has the id and the store write does not fail; a missing or processed one is refused and kept; every failure changes nothing |
| AdminController.DeleteEffect | controllers/adminController.js:196-198 | a successful deletion removes exactly that deposit and leaves every other deposit and table as it was |
| AdminController.DeletePreservesValid | controllers/adminController.js:180-205 | every deletion outcome keeps the database valid |
| AdminController.UpdateUserStatus | controllers/adminController.js:207-236 | the handler's writes and answer are those of the status-change function, for every fault |
| AdminController.SetUserStatusEffect | controllers/adminController.js:212-235 | a status change succeeds exactly for "ACTIVE"/"BLOCKED" on an existing non-admin user when the store write does not fail; it changes only that user's status; every failure changes nothing; an admin's row never changes |
| AdminController.SetUserStatusPreservesValid | controllers/adminController.js:207-236 | every status-change outcome keeps the database valid |
| TradeController.ExecuteTrade | controllers/tradeController.js:20-152 | the handler's writes and answer are those of the trade function, for every fault |
| TradeController.RunTrade | controllers/tradeController.js:57-144 | the transaction body commits the four writes of the side together or none of them |
| TradeController.WalletWrites | controllers/tradeController.js:71-114 | the two wallet updates fail exactly when the fault hits them; otherwise they debit and credit the two wallets |
| TradeController.LedgerAndTradeWrites | controllers/tradeController.js:83-141 | the ledger and trade writes fail exactly when the fault hits them; otherwise they append the row and the record |
| TradeController.PairFields | controllers/tradeController.js:33 | "BASE/QUOTE" splits into its base and its quote |
| TradeController.ExecuteChecksFirst | controllers/tradeController.js:29-55 | missing fields, an unpriced base asset and a missing wallet are refused in that order, each with its message and no change |
| TradeController.InvalidSide | controllers/tradeController.js:126-128 | a side other than BUY/SELL throws inside the transaction and nothing changes |
| TradeController.BuySpendFormula | controllers/tradeController.js:62-64 | a BUY debits amount × price × (1 + 0.2%) |
| TradeController.SellReceiveFormula | controllers/tradeController.js:100-102 | a SELL credits amount × price × (1 − 0.2%) |
| TradeController.BuySucceedsIff | controllers/tradeController.js:62-68 | a BUY succeeds exactly when the quote balance is at least the spend; equality succeeds |
| TradeController.SellSucceedsIff | controllers/tradeController.js:96-98 | a SELL succeeds exactly when the base balance is at least the amount; equality succeeds |
| TradeController.TradeAtomic | controllers/tradeController.js:57-150 | a store failure at any of the four writes answers 400 and rolls all of them back |
| TradeController.BuyEffect | controllers/tradeController.js:58-141 | after a successful BUY the quote wallet has lost the spend and the base wallet has gained the amount, and no other wallet has changed; one TRADE_BUY row of −spend on the quote currency with reference "TRADE" is appended, plus a trade record with fee amount × price × 0.2% and total amount × price |
| TradeController.SellEffect | controllers/tradeController.js:93-141 | after a successful SELL the base wallet has lost the amount and the quote wallet has gained amount × price × 0.998, and no other wallet has changed; one TRADE_SELL row of −amount on the base currency is appended, plus the trade record |
| TradeController.NegativeBuyOverdraws | controllers/tradeController.js:29-80 | a BUY of a negative amount passes the checks and leaves the base wallet negative |
| TradeController.ExecutePreservesValid | controllers/tradeController.js:20-152 | every trade outcome keeps the database valid |
| WalletController.DepositRequest | controllers/walletController.js:21-51 | the handler's writes and answer are those of the deposit-request function |
| WalletController.DepositRequestEffect | controllers/walletController.js:25-44 | a request succeeds exactly when all fields are truthy and no deposit has the txid; it then appends exactly one PENDING deposit with the caller's id, amount, currency and txid, and otherwise changes nothing |
| WalletController.DepositRequestPreservesValid | controllers/walletController.js:29-44 | txids stay unique and the database stays valid |
| WalletController.WithdrawRequest | controllers/walletController.js:56-105 | the handler's writes and answer are those of the withdrawal function, for every fault |
| WalletController.WithdrawSucceedsIff | controllers/walletController.js:60-75 | a withdrawal succeeds exactly when all fields are truthy, the wallet exists and its balance covers the amount |
| WalletController.WithdrawRefusals | controllers/walletController.js:60-75 | a falsy field, then a missing wallet or a short balance, is answered 400 with its message; every 400 answer, and a failure of the first write, leaves the database unchanged |
| WalletController.WithdrawEffect | controllers/walletController.js:77-98 | a successful withdrawal lowers only that wallet, by exactly the amount, and appends one PENDING withdrawal carrying the address; no ledger row is written |
| WalletController.WithdrawAll | controllers/walletController.js:73-88 | withdrawing the whole balance succeeds and leaves 0 |
| WalletController.WithdrawNotAtomic | controllers/walletController.js:78-98 | when the withdrawal record cannot be created, the balance stays debited and no record exists |
| WalletController.NegativeWithdrawalCredits | controllers/walletController.js:60-88 | a negative amount passes the checks and raises the balance |
| WalletController.WithdrawPreservesValid | controllers/walletController.js:56-105 | every withdrawal outcome keeps the database valid |
| WalletController.PendingDepositItems | controllers/walletController.js:121-148 | the entries are exactly the user's PENDING deposits, each with its amount and its txid as reference |
| WalletController.PendingWithdrawalItems | controllers/walletController.js:130-159 | the entries are exactly the user's PENDING withdrawals, each with its amount negated and its address as reference |
| WalletController.LedgerItems | controllers/walletController.js:115-118 | the entries are exactly the user's ledger rows |
| WalletController.Insert | controllers/walletController.js:162-164 | inserting into a newest-first list keeps it newest first and adds one entry |
| WalletController.InsertMultiset | controllers/walletController.js:162-164 | insertion adds the entry and loses nothing |
| WalletController.NewestFirst | controllers/walletController.js:162-164 | the sort is newest first and a permutation of its input |
| WalletController.TransactionsContents | controllers/walletController.js:139-164 | the history is newest first and is a permutation of pending deposits ++ pending withdrawals ++ ledger rows |
| WalletController.TransactionsMembers | controllers/walletController.js:139-164 | an entry is in the history exactly when it is a formatted pending deposit, a formatted pending withdrawal or a ledger row of the user |
| AuthController.RegisterUser | controllers/authController.js:10-81 | the handler's writes and answer are those of the registration function, for every fault |
| AuthController.CreateAccountWrites | controllers/authController.js:41-58 | the user row and then the wallets are written as the account-creation function says |
| AuthController.RegisterChecksFirst | controllers/authController.js:15-25 | missing fields, then a used email, are refused with their messages before anything is written |
| AuthController.ReferredByResolves | controllers/authController.js:31-48 | `referred_by` is the submitted code exactly when it is truthy and some user holds it; otherwise it is null |
| AuthController.RegisterEffect | controllers/authController.js:41-58 | a successful registration appends one ACTIVE USER row with the fresh id, the hash, the new code and the resolved `referred_by`; it creates exactly three zero wallets, USDT, BTC and ETH, that did not exist; nothing else changes |
| AuthController.RegisterWithoutWallets | controllers/authController.js:41-58 | when the wallet write fails, the user row stays without wallets |
| AuthController.AppendUserValid | controllers/authController.js:41-49 | a user row with the fresh id, an unused email and an unused code keeps the database valid |
| AuthController.RegisterPreservesValid | controllers/authController.js:10-81 | every registration outcome keeps the database valid |
| AuthController.CreateAccountPreservesValid | controllers/authController.js:41-58 | account creation for an unused email keeps the database valid, whichever write fails |
| AuthController.StarterWalletsValid | controllers/authController.js:52-58 | the three wallets of a registered id keep the database valid |
| AuthController.LoginDecision | controllers/authController.js:86-121 | tokens go exactly to a matching, non-blocked user; a blocked user with the right password gets 403; an unknown email or a wrong password gets 401; a missing email, or a missing password for a known email, gets 500 |
| AuthMiddleware.ProtectNoToken | middleware/authMiddleware.js:7-37 | the answer is 401 "no token" exactly when the header is missing, empty or does not start with "Bearer" |
| AuthMiddleware.BearerTokenIsSecondField | middleware/authMiddleware.js:12 | the token is the second space-separated field of the header |
| AuthMiddleware.BearerTokenNeedsSpace | middleware/authMiddleware.js:12 | a header without a space carries no token |
| AuthMiddleware.GluedBearerFails | middleware/authMiddleware.js:7-32 | "Bearer" glued to its token passes the prefix test and is answered 401 "token failed" |
| AuthMiddleware.ProtectBearer | middleware/authMiddleware.js:11-32 | for "Bearer <token>": an unverifiable token gets 401 "token failed"; a missing user gets 401 "user not found"; a BLOCKED user gets 403; any other user is passed on |
| AuthMiddleware.ProtectNext | middleware/authMiddleware.js:4-38 | `next` is reached only for an existing, non-blocked user whose id the token verified to |
| AuthMiddleware.AdminOnly | middleware/authMiddleware.js:40-46 | `admin` passes exactly a present ADMIN user, unchanged, and answers 403 otherwise |
| GenerateToken.RandomSuffix | utils/generateToken.js:16 | the drawn integer is the floor of u × 10000, so it lies in [0, 9999] |
| GenerateToken.NamePrefix | utils/generateToken.js:17 | the prefix is the first min(3, length of the name) characters of the name |
| GenerateToken.ReferralCodeParts | utils/generateToken.js:15-19 | the code is the upper-cased name prefix followed by digits that read back as the drawn integer |
| GenerateToken.ReferralCodeLength | utils/generateToken.js:16-17 | the suffix is not padded: the code is as long as the prefix plus the integer's digit count, at most prefix + 4 |
| GenerateToken.ReferralCodeDeterminedBy | utils/generateToken.js:15-19 | the code depends only on the name's first three characters and the integer, and different integers give different codes |
| GenerateToken.ReferralCodeIgnoresCase | utils/generateToken.js:15-19 | a name and its lower-cased form give the same referral code for the same draw |
| FixLegacyWallets.AddressPrefix | fixLegacyWallets.js:7-14 | a prefix is at most two characters and has no '-' |
| FixLegacyWallets.AssignAddressesToLegacyWallets | fixLegacyWallets.js:17-46 | the loop rewrites the table in place into its migrated form and counts the legacy wallets |
| FixLegacyWallets.IncludesDash | fixLegacyWallets.js:28 | `includes('-')` holds exactly when the address contains '-' |
| FixLegacyWallets.IsLegacyIff | fixLegacyWallets.js:28 | a wallet is legacy exactly when its address is null, empty, or 36 characters long with a '-' |
| FixLegacyWallets.GeneratedAddressShape | fixLegacyWallets.js:5-15 | a generated address is the currency's prefix followed by 40 lower-case hex digits that decode to the random bytes; it is 40-42 characters long with no '-' |
| FixLegacyWallets.GeneratedNotLegacy | fixLegacyWallets.js:5-28 | a generated address is never legacy |
| FixLegacyWallets.MigratedWallets | fixLegacyWallets.js:25-38 | the migration changes only the address of exactly the legacy wallets, giving each its generated address, and leaves none legacy |
| FixLegacyWallets.NoLegacyNoChange | fixLegacyWallets.js:25-38 | a table without legacy wallets is left unchanged with a count of 0 |
| FixLegacyWallets.MigrationIdempotent | fixLegacyWallets.js:25-38 | a second run, with any random draws, changes nothing and counts 0 |
| FixLegacyWallets.LegacyCountCounts | fixLegacyWallets.js:23-40 | the reported count is the number of legacy positions in the table |
| KycController.UploadKycDocument | controllers/kycController.js:46-98 | the handler's writes and answer are those of the upload function, for every fault and every pair of clock reads (file name, record) |
| KycController.ExtnameShape | controllers/kycController.js:26 | an extension is empty, or a '.' followed by no other '.' and no '/', ending the last path segment |
| KycController.ExtnameOf | controllers/kycController.js:26 | the extension of "stem.ext" is ".ext" |
| KycController.NoExtensionRefused | controllers/kycController.js:24-34 | a name without '.' is refused by the filter whatever its mimetype |
| KycController.MatchesAllowedIff | controllers/kycController.js:25-27 | the unanchored expression matches exactly when jpeg, jpg, png or pdf occurs |
| KycController.FileFilterIff | controllers/kycController.js:24-34 | a file is accepted exactly when an allowed word occurs in its lower-cased extension and one occurs in its mimetype |
| KycController.StoredFilenameOwner | controllers/kycController.js:17-20 | the stored name starts with "<user id>-", and its first '-'-field is the id |
| KycController.StoredFilenameExtension | controllers/kycController.js:17-20 | the stored name is "<user id>-<unique suffix>" followed by the original extension |
| KycController.UploadKycOutcome | controllers/kycController.js:36-96 | an upload succeeds exactly with a file that passes the filter and is at most 5 MiB, a document type, and a store write that does not fail; a missing type is refused; every refusal changes nothing |
| KycController.UploadKycPreservesValid | controllers/kycController.js:69-83 | an upload keeps the database valid |
| KycController.UploadKycEffect | controllers/kycController.js:65-83 | after an upload the user has exactly one KYC record, PENDING, with URL "/uploads/" + the stored name (built from the file name's own clock read), the new type and the later clock read as submission time; a resubmission overwrites the earlier record and a first one creates it; other users' records and the other tables are unchanged |

## Left out

- Password hashing and comparison (bcrypt) and token signing and verification (JWT) are
  foreign libraries. The hash is an input, `matches` and `verify` are parameters, and
  token issuance is only the `Tokens` outcome.
- The price service (a random walk over shared floating-point state) is not modelled.
  Prices are a map given to the trade.
- The clock, `Math.random`, `crypto.randomBytes` and `Math.round(Math.random() * 1E9)` are
  inputs (`now`, `u`, `entropy`, `draw`). The KYC upload reads the clock twice, for the file
  name and for `submitted_at`, so it takes two unrelated inputs (`fileTime`, `now`).
- Welcome emails, console logging, the upload middleware's disk writes, `mkdirSync` and
  `unlinkSync` are side effects with no bearing on the database and are not modelled.
- Concurrency is not modelled. Each request is one sequential step. The trade's balance
  check reads wallets fetched before its transaction, and the model claims no isolation.
- JavaScript float arithmetic and string-typed amounts are not modelled. Amounts are exact
  reals. `parseFloat` of a numeric amount is the amount itself.
- Case mapping covers ASCII letters only.
- GenerateToken.NamePrefix: JavaScript's `substring(0, 3)` counts UTF-16 code units, and a
  Dafny string counts Unicode scalar values. The two agree when the first three characters
  of the name lie in the Basic Multilingual Plane. For a name starting with an astral
  character (an emoji, say) the source keeps fewer characters than the model, and may cut
  one in half. `ReferralCodeParts` and `ReferralCodeLength` inherit this.
- FixLegacyWallets.IsLegacyIff: JavaScript's `length === 36` counts UTF-16 code units, and
  the model counts Unicode scalar values. An address holding astral characters has a
  larger `length` in the source than in the model, so the two can disagree on such an
  address. For addresses made only of Basic Multilingual Plane characters, such as UUIDs
  and generated hex addresses, they agree.
- A read of the store that fails is not modelled; only failing writes are (`Fault`). In
  `protect`, a failing user lookup after a valid token is answered 401 "Not authorized,
  token failed", and in the handlers a failing read is answered 500. The model's reads
  always succeed.
- Wallet addresses are not a column of `Db.State`, because no modelled handler reads them.
  The migration works on its own table of `FixLegacyWallets.WalletRow`.
- AuthController.LoginDecision: the 500 answer's text is the serialized error after the
  "Server Error Full: " prefix; the model keeps only the prefix.
- KycController.StoredFilenameOwner: user ids are modelled as natural numbers, whose text
  has no '-'. An id containing '-' (such as a generated UUID) is not covered: for it the
  first '-'-separated field of the stored name would be only part of the id.
- AuthController.RegisterEffect: the new user's role USER and status ACTIVE are not written
  by the handler. They come from schema defaults, and the schema is not part of this model.
- FixLegacyWallets.AssignAddressesToLegacyWallets: a store error part-way through, which
  ends the loop with the earlier updates kept, is not modelled. Neither is the final
  disconnect.
- AdminController.PendingDeposits: the `include` of the user's name and email is not
  modelled.
- AdminController.ApproveEffect: the 500 answer's message is the thrown error's text.
  The model uses fixed texts (`StoreError`, the null-user TypeError).
- KycController.UploadKycEffect: a newly created record's `submitted_at` comes from a
  schema default. The schema is not part of this model, so it is taken to be the later
  clock read `now`. A new deposit's default status PENDING is taken from the schema in the
  same way.
- KycController.UploadKycOutcome: of the upload middleware's own errors, only the filter
  error and the size limit ("File too large") are modelled. An unexpected field name is
  not.
- KycController.ExtnameShape: `path.extname` follows POSIX semantics. Windows separators
  are not modelled.
- WalletController.NewestFirst: stability of the sort (entries with equal timestamps keep
  their order) is not stated. Only order and permutation are.
- The routes, the server set-up and the other handlers (user listing, wallet listing,
  trade history, profile, contact) are not part of this model. Neither are the one-off
  scripts.
