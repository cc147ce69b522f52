/** controllers/tradeController.js: executeTrade, a BUY or SELL of the base asset of a
    BASE/QUOTE pair at a given price, with a 0.2% fee, run as one store transaction. */
module TradeController {
  import opened Util
  import opened Strings
  import opened Db

  /** The trading fee (0.2%). */
  const FeeRate: real := 0.002

  /** The request body: `pair` ("BTC/USDT"), `type` ("BUY" | "SELL") and `amount`, the
      quantity of the base asset. Each may be missing. */
  datatype TradeRequest = TradeRequest(pair: Option<string>, side: Option<string>, amount: Option<real>)

  /** The first field of `pair.split('/')`. */
  function PairBase(pair: string): string {
    Split(pair, '/')[0]
  }

  /** The second field of `pair.split('/')`, undefined when there is no '/'. */
  function PairQuote(pair: string): Option<string> {
    var fields := Split(pair, '/');
    if |fields| >= 2 then Some(fields[1]) else None
  }

  /** `prices[base]`, undefined for an unknown asset. */
  function PriceOf(prices: map<string, real>, asset: string): Option<real> {
    if asset in prices then Some(prices[asset]) else None
  }

  /** The cost of buying `amount` at `price`, before the fee. */
  function Cost(amount: real, price: real): real {
    amount * price
  }

  /** The fee on a traded value. */
  function Fee(value: real): real {
    value * FeeRate
  }

  /** The quote debited by a BUY: the cost plus its fee. */
  function BuySpend(amount: real, price: real): real {
    Cost(amount, price) + Fee(Cost(amount, price))
  }

  /** The quote credited by a SELL: the value less its fee. */
  function SellReceive(amount: real, price: real): real {
    Cost(amount, price) - Fee(Cost(amount, price))
  }

  /** The trade record written by either side: `total` is amount × price in both cases. */
  function TradeRecord(user: Id, pair: string, side: string, price: real, amount: real): TradeRow {
    TradeRow(user, pair, side, price, amount, Fee(Cost(amount, price)), Cost(amount, price))
  }

  /** The committed writes of a BUY: quote debited, base credited, a TRADE_BUY row on the
      quote currency for the amount spent, and the trade record. */
  function BuyWrites(s: State, user: Id, pair: string, base: Currency, quote: Currency, price: real, amount: real, now: int): State
  {
    var spend := BuySpend(amount, price);
    var debited := Credit(s.wallets, WalletKey(user, quote), -spend);
    s.(wallets := Credit(debited, WalletKey(user, base), amount),
       ledger := s.ledger + [LedgerRow(s.nextId, user, TradeBuy, quote, -spend, TextRef("TRADE"), now)],
       trades := s.trades + [TradeRecord(user, pair, "BUY", price, amount)],
       nextId := s.nextId + 1)
  }

  /** The committed writes of a SELL: base debited, quote credited with the value less the
      fee, a TRADE_SELL row on the base currency for the amount sold, and the trade record. */
  function SellWrites(s: State, user: Id, pair: string, base: Currency, quote: Currency, price: real, amount: real, now: int): State
  {
    var debited := Credit(s.wallets, WalletKey(user, base), -amount);
    s.(wallets := Credit(debited, WalletKey(user, quote), SellReceive(amount, price)),
       ledger := s.ledger + [LedgerRow(s.nextId, user, TradeSell, base, -amount, TextRef("TRADE"), now)],
       trades := s.trades + [TradeRecord(user, pair, "SELL", price, amount)],
       nextId := s.nextId + 1)
  }

  /** The `prisma.$transaction` of executeTrade. Its four writes either all commit or none;
      every error it throws is answered with 400 and the error's message. */
  function TradeTransaction(s: State, user: Id, pair: string, side: string, base: Currency, quote: Currency,
                            price: real, amount: real, now: int, fault: Fault): (State, Reply)
    requires WalletKey(user, base) in s.wallets && WalletKey(user, quote) in s.wallets
  {
    if side == "BUY" then
      if s.wallets[WalletKey(user, quote)] < BuySpend(amount, price) then (s, Failure(400, "Insufficient USDT balance"))
      else if Hits(fault, 4) then (s, Failure(400, StoreError))
      else (BuyWrites(s, user, pair, base, quote, price, amount, now), Success(201))
    else if side == "SELL" then
      if s.wallets[WalletKey(user, base)] < amount then (s, Failure(400, "Insufficient BTC balance"))
      else if Hits(fault, 4) then (s, Failure(400, StoreError))
      else (SellWrites(s, user, pair, base, quote, price, amount, now), Success(201))
    else (s, Failure(400, "Invalid trade type"))
  }

  /** executeTrade, as a function of the database, for user `user` at the quoted `prices`. */
  function Execute(s: State, user: Id, req: TradeRequest, prices: map<string, real>, now: int, fault: Fault): (State, Reply)
  {
    if !Present(req.pair) || !Present(req.side) || !PresentAmount(req.amount) then
      (s, Failure(400, "Please fill all fields"))
    else
      var base := PairBase(req.pair.value);
      var quote := PairQuote(req.pair.value);
      var price := PriceOf(prices, base);
      if !PresentAmount(price) then (s, Failure(400, "Invalid pair"))
      else if WalletKey(user, base) !in s.wallets || quote.None? || WalletKey(user, quote.value) !in s.wallets then
        (s, Failure(400, "Wallets not found"))
      else TradeTransaction(s, user, req.pair.value, req.side.value, base, quote.value, price.value, req.amount.value, now, fault)
  }

  /** executeTrade: validate the body, price the base asset, find both wallets, then run the
      transaction. */
  method ExecuteTrade(db: Store, user: Id, req: TradeRequest, prices: map<string, real>, now: int, fault: Fault)
    returns (r: Reply)
    modifies db
    ensures (db.Snapshot(), r) == Execute(old(db.Snapshot()), user, req, prices, now, fault)
  {
    if req.pair.None? || req.pair.value == "" || req.side.None? || req.side.value == ""
       || req.amount.None? || req.amount.value == 0.0 {
      return Failure(400, "Please fill all fields");
    }
    var fields := Split(req.pair.value, '/');
    var base := fields[0];
    if base !in prices || prices[base] == 0.0 {
      return Failure(400, "Invalid pair");
    }
    var price := prices[base];
    if WalletKey(user, base) !in db.wallets || |fields| < 2 || WalletKey(user, fields[1]) !in db.wallets {
      return Failure(400, "Wallets not found");
    }
    r := RunTrade(db, user, req.pair.value, req.side.value, base, fields[1], price, req.amount.value, now, fault);
  }

  /** The transaction body: check the balance for the side, then write to a working copy
      that is committed only when every write succeeded. */
  method RunTrade(db: Store, user: Id, pair: string, side: string, base: Currency, quote: Currency,
                  price: real, amount: real, now: int, fault: Fault) returns (r: Reply)
    requires WalletKey(user, base) in db.wallets && WalletKey(user, quote) in db.wallets
    modifies db
    ensures (db.Snapshot(), r) == TradeTransaction(old(db.Snapshot()), user, pair, side, base, quote, price, amount, now, fault)
  {
    var baseKey, quoteKey := WalletKey(user, base), WalletKey(user, quote);
    var t := db.Snapshot();
    var failed := false;
    if side == "BUY" {
      var totalCost := amount * price;
      var fee := totalCost * FeeRate;
      var totalSpend := totalCost + fee;
      if db.wallets[quoteKey] < totalSpend {
        return Failure(400, "Insufficient USDT balance");
      }
      failed, t := WalletWrites(t, quoteKey, -totalSpend, baseKey, amount, fault);
      if !failed {
        failed, t := LedgerAndTradeWrites(t, LedgerRow(t.nextId, user, TradeBuy, quote, -totalSpend, TextRef("TRADE"), now),
                                          TradeRow(user, pair, side, price, amount, fee, amount * price), fault);
      }
    } else if side == "SELL" {
      if db.wallets[baseKey] < amount {
        return Failure(400, "Insufficient BTC balance");
      }
      var totalValue := amount * price;
      var fee := totalValue * FeeRate;
      var receiveTotal := totalValue - fee;
      failed, t := WalletWrites(t, baseKey, -amount, quoteKey, receiveTotal, fault);
      if !failed {
        failed, t := LedgerAndTradeWrites(t, LedgerRow(t.nextId, user, TradeSell, base, -amount, TextRef("TRADE"), now),
                                          TradeRow(user, pair, side, price, amount, fee, amount * price), fault);
      }
    } else {
      return Failure(400, "Invalid trade type");
    }
    if failed {
      return Failure(400, StoreError);
    }
    // commit
    db.wallets, db.ledger, db.trades, db.nextId := t.wallets, t.ledger, t.trades, t.nextId;
    r := Success(201);
  }

  /** The transaction's writes 0 and 1: `decrement` then `increment` of a balance. */
  method WalletWrites(t: State, debitKey: WalletKey, debit: real, creditKey: WalletKey, credit: real, fault: Fault)
    returns (failed: bool, t': State)
    requires debitKey in t.wallets
    ensures failed == Hits(fault, 2)
    ensures !failed ==> t' == t.(wallets := Credit(Credit(t.wallets, debitKey, debit), creditKey, credit))
  {
    t' := t;
    if fault == FailAt(0) { return true, t'; }
    var w := t'.wallets[debitKey := t'.wallets[debitKey] + debit];
    t' := t'.(wallets := w);
    if fault == FailAt(1) { return true, t'; }
    w := t'.wallets[creditKey := Balance(t'.wallets, creditKey) + credit];
    t' := t'.(wallets := w);
    failed := false;
  }

  /** The transaction's writes 2 and 3: the ledger row, then the trade record. */
  method LedgerAndTradeWrites(t: State, row: LedgerRow, trade: TradeRow, fault: Fault)
    returns (failed: bool, t': State)
    ensures failed == (fault.FailAt? && 2 <= fault.write < 4)
    ensures !failed ==> t' == t.(ledger := t.ledger + [row], trades := t.trades + [trade], nextId := t.nextId + 1)
  {
    t' := t;
    if fault == FailAt(2) { return true, t'; }
    t' := t'.(ledger := t'.ledger + [row], nextId := t'.nextId + 1);
    if fault == FailAt(3) { return true, t'; }
    t' := t'.(trades := t'.trades + [trade]);
    failed := false;
  }

  /** "BASE/QUOTE" splits into its base and its quote. */
  lemma PairFields(base: Currency, quote: Currency)
    requires '/' !in base && '/' !in quote
    ensures PairBase(base + "/" + quote) == base
    ensures PairQuote(base + "/" + quote) == Some(quote)
  {
    var parts := [base, quote];
    assert Join(parts[1..], '/') == quote;
    assert Join(parts, '/') == base + "/" + quote;
    SplitJoin(parts, '/');
  }

  /** The request passes every check before the transaction: all fields truthy, the base
      asset priced (non-zero) and both of the user's wallets present. */
  ghost predicate Tradable(s: State, user: Id, pair: string, amount: real, prices: map<string, real>,
                           base: Currency, quote: Currency, price: real)
  {
    && pair != "" && amount != 0.0
    && PairBase(pair) == base && PairQuote(pair) == Some(quote)
    && PriceOf(prices, base) == Some(price) && price != 0.0
    && WalletKey(user, base) in s.wallets && WalletKey(user, quote) in s.wallets
  }

  /** The checks come first and in this order; each refusal changes nothing. */
  lemma {:induction false} ExecuteChecksFirst(s: State, user: Id, req: TradeRequest, prices: map<string, real>, now: int, fault: Fault)
    ensures var (s', r) := Execute(s, user, req, prices, now, fault);
            && (!Present(req.pair) || !Present(req.side) || !PresentAmount(req.amount) ==>
                  r == Failure(400, "Please fill all fields"))
            && (Present(req.pair) && Present(req.side) && PresentAmount(req.amount)
                && !PresentAmount(PriceOf(prices, PairBase(req.pair.value))) ==>
                  r == Failure(400, "Invalid pair"))
            && (Present(req.pair) && Present(req.side) && PresentAmount(req.amount)
                && PresentAmount(PriceOf(prices, PairBase(req.pair.value)))
                && (WalletKey(user, PairBase(req.pair.value)) !in s.wallets
                    || PairQuote(req.pair.value).None?
                    || WalletKey(user, PairQuote(req.pair.value).value) !in s.wallets) ==>
                  r == Failure(400, "Wallets not found"))
            && (r.Failure? ==> s' == s)
  {
  }

  /** A side other than BUY or SELL throws inside the transaction: nothing changes. */
  lemma InvalidSide(s: State, user: Id, pair: string, side: string, amount: real, prices: map<string, real>,
                    base: Currency, quote: Currency, price: real, now: int, fault: Fault)
    requires Tradable(s, user, pair, amount, prices, base, quote, price)
    requires side != "" && side != "BUY" && side != "SELL"
    ensures Execute(s, user, TradeRequest(Some(pair), Some(side), Some(amount)), prices, now, fault)
            == (s, Failure(400, "Invalid trade type"))
  {
  }

  /** The amount a BUY debits is amount × price × (1 + 0.2%). */
  lemma BuySpendFormula(amount: real, price: real)
    ensures BuySpend(amount, price) == amount * price * (1.0 + FeeRate)
  {
  }

  /** The amount a SELL credits is amount × price × (1 − 0.2%). */
  lemma SellReceiveFormula(amount: real, price: real)
    ensures SellReceive(amount, price) == amount * price * (1.0 - FeeRate)
  {
  }

  /** A BUY that the store completes succeeds exactly when the quote balance covers
      amount × price × 1.002; a balance equal to it is enough. */
  lemma BuySucceedsIff(s: State, user: Id, pair: string, amount: real, prices: map<string, real>,
                       base: Currency, quote: Currency, price: real, now: int)
    requires Tradable(s, user, pair, amount, prices, base, quote, price)
    ensures Execute(s, user, TradeRequest(Some(pair), Some("BUY"), Some(amount)), prices, now, NoFault).1.Success?
            <==> s.wallets[WalletKey(user, quote)] >= amount * price * (1.0 + FeeRate)
  {
    BuySpendFormula(amount, price);
  }

  /** A SELL that the store completes succeeds exactly when the base balance covers the
      amount; a balance equal to it is enough. */
  lemma SellSucceedsIff(s: State, user: Id, pair: string, amount: real, prices: map<string, real>,
                        base: Currency, quote: Currency, price: real, now: int)
    requires Tradable(s, user, pair, amount, prices, base, quote, price)
    ensures Execute(s, user, TradeRequest(Some(pair), Some("SELL"), Some(amount)), prices, now, NoFault).1.Success?
            <==> s.wallets[WalletKey(user, base)] >= amount
  {
  }

  /** A store failure at any of the four writes of a funded trade rolls all of them back. */
  lemma TradeAtomic(s: State, user: Id, pair: string, side: string, amount: real, prices: map<string, real>,
                    base: Currency, quote: Currency, price: real, now: int, k: nat)
    requires Tradable(s, user, pair, amount, prices, base, quote, price)
    requires side == "BUY" || side == "SELL"
    requires k < 4
    ensures var (s', r) := Execute(s, user, TradeRequest(Some(pair), Some(side), Some(amount)), prices, now, FailAt(k));
            s' == s && r.Failure? && r.status == 400
  {
  }

  /** What a successful BUY does: the quote wallet loses amount × price × 1.002 and the base
      wallet gains the amount (both, on the same wallet, when base and quote coincide); no
      other wallet changes; one TRADE_BUY row of minus the spend on the quote currency and
      one trade record with fee amount × price × 0.2% and total amount × price are appended. */
  lemma BuyEffect(s: State, user: Id, pair: string, amount: real, prices: map<string, real>,
                  base: Currency, quote: Currency, price: real, now: int, fault: Fault)
    requires Tradable(s, user, pair, amount, prices, base, quote, price)
    requires Execute(s, user, TradeRequest(Some(pair), Some("BUY"), Some(amount)), prices, now, fault).1.Success?
    ensures var s' := Execute(s, user, TradeRequest(Some(pair), Some("BUY"), Some(amount)), prices, now, fault).0;
            var spend := amount * price * (1.0 + FeeRate);
            && s'.wallets.Keys == s.wallets.Keys
            && (forall k :: k in s.wallets ==>
                  s'.wallets[k] == s.wallets[k]
                    - (if k == WalletKey(user, quote) then spend else 0.0)
                    + (if k == WalletKey(user, base) then amount else 0.0))
            && s'.ledger == s.ledger + [LedgerRow(s.nextId, user, TradeBuy, quote, -spend, TextRef("TRADE"), now)]
            && s'.trades == s.trades + [TradeRow(user, pair, "BUY", price, amount, amount * price * FeeRate, amount * price)]
            && s'.nextId == s.nextId + 1
            && s'.users == s.users && s'.deposits == s.deposits && s'.withdrawals == s.withdrawals
            && s'.commissions == s.commissions && s'.kyc == s.kyc
  {
    BuySpendFormula(amount, price);
    CreditPair(s.wallets, WalletKey(user, quote), -BuySpend(amount, price), WalletKey(user, base), amount);
  }

  /** What a successful SELL does: the base wallet loses the amount and the quote wallet gains
      amount × price × 0.998; no other wallet changes; one TRADE_SELL row of minus the amount
      on the base currency and one trade record with fee amount × price × 0.2% and total
      amount × price are appended. */
  lemma SellEffect(s: State, user: Id, pair: string, amount: real, prices: map<string, real>,
                   base: Currency, quote: Currency, price: real, now: int, fault: Fault)
    requires Tradable(s, user, pair, amount, prices, base, quote, price)
    requires Execute(s, user, TradeRequest(Some(pair), Some("SELL"), Some(amount)), prices, now, fault).1.Success?
    ensures var s' := Execute(s, user, TradeRequest(Some(pair), Some("SELL"), Some(amount)), prices, now, fault).0;
            var receive := amount * price * (1.0 - FeeRate);
            && s'.wallets.Keys == s.wallets.Keys
            && (forall k :: k in s.wallets ==>
                  s'.wallets[k] == s.wallets[k]
                    - (if k == WalletKey(user, base) then amount else 0.0)
                    + (if k == WalletKey(user, quote) then receive else 0.0))
            && s'.ledger == s.ledger + [LedgerRow(s.nextId, user, TradeSell, base, -amount, TextRef("TRADE"), now)]
            && s'.trades == s.trades + [TradeRow(user, pair, "SELL", price, amount, amount * price * FeeRate, amount * price)]
            && s'.nextId == s.nextId + 1
            && s'.users == s.users && s'.deposits == s.deposits && s'.withdrawals == s.withdrawals
            && s'.commissions == s.commissions && s'.kyc == s.kyc
  {
    SellReceiveFormula(amount, price);
    CreditPair(s.wallets, WalletKey(user, base), -amount, WalletKey(user, quote), SellReceive(amount, price));
  }

  /** Only a zero amount is refused: a BUY of a negative amount passes the balance check
      on any non-negative quote balance and drives the base wallet below zero. */
  lemma NegativeBuyOverdraws(s: State, user: Id, pair: string, amount: real, prices: map<string, real>,
                             base: Currency, quote: Currency, price: real, now: int)
    requires Tradable(s, user, pair, amount, prices, base, quote, price)
    requires amount < 0.0 && price > 0.0 && base != quote
    requires s.wallets[WalletKey(user, quote)] >= 0.0 && s.wallets[WalletKey(user, base)] < -amount
    ensures var (s', r) := Execute(s, user, TradeRequest(Some(pair), Some("BUY"), Some(amount)), prices, now, NoFault);
            r.Success? && s'.wallets[WalletKey(user, base)] < 0.0
  {
    BuySucceedsIff(s, user, pair, amount, prices, base, quote, price, now);
    assert amount * price * (1.0 + FeeRate) < 0.0;
    BuyEffect(s, user, pair, amount, prices, base, quote, price, now, NoFault);
  }

  /** A trade keeps the schema's constraints and the id counter fresh. */
  lemma ExecutePreservesValid(s: State, user: Id, req: TradeRequest, prices: map<string, real>, now: int, fault: Fault)
    requires Valid(s)
    ensures Valid(Execute(s, user, req, prices, now, fault).0)
  {
    var (s', r) := Execute(s, user, req, prices, now, fault);
    if r.Success? {
      var base := PairBase(req.pair.value);
      var quote := PairQuote(req.pair.value).value;
      var q := WalletKey(user, quote);
      var b := WalletKey(user, base);
      if req.side.value == "BUY" {
        CreditPair(s.wallets, q, -BuySpend(req.amount.value, PriceOf(prices, base).value), b, req.amount.value);
      } else {
        CreditPair(s.wallets, b, -req.amount.value, q, SellReceive(req.amount.value, PriceOf(prices, base).value));
      }
    }
  }
}
