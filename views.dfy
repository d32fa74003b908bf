/**
 * The transaction endpoints of one wallet: the filtered history, its CSV
 * export, and the deposit and withdrawal requests with their error mapping.
 */
module Views {
  import opened Results
  import opened Errors
  import FixedPoint
  import Timestamp
  import opened Models
  import opened Serializers

  /** Looking a wallet up by name; an unknown name is "Wallet not found". */
  function ResolveWallet(wallets: map<Name, int>, name: string): (r: Result<Name, ApiError>)
    ensures r.Ok? <==> name in wallets
    ensures r.Ok? ==> r.value == name
    ensures r.Err? ==> r.error == WalletNotFound
  {
    if name in wallets then Ok(name) else Err(WalletNotFound)
  }

  /** The query parameters of a history request: `type`, `date_from`, `date_to`. */
  datatype QueryParams = QueryParams(kind: Option<string>, dateFrom: Option<string>, dateTo: Option<string>)

  /** The base rows for a `type`: income, deposit, withdrawal, or anything else for all. */
  function TypeSelector(kind: Option<string>, w: Name): Selector
  {
    if kind == Some("income") then IncomeOf(w)
    else if kind == Some("deposit") then DepositOf(w)
    else if kind == Some("withdrawal") then PaymentOf(w)
    else Involving(w)
  }

  /** A date parameter that is present, not empty, and not a timestamp. */
  predicate Malformed(param: Option<string>)
  {
    param.Some? && param.value != "" && Timestamp.Parse(param.value).None?
  }

  /** A date parameter as a bound: missing or empty means no bound. */
  function DateBound(param: Option<string>): (r: Result<Option<Timestamp.DateTime>, ApiError>)
    ensures r.Err? <==> Malformed(param)
    ensures r.Err? ==> r.error == WrongDateFormat
    ensures r.Ok? && r.value.Some? ==> param.Some? && Timestamp.Parse(param.value) == r.value
    ensures r.Ok? && r.value.None? ==> param.None? || param.value == ""
  {
    if param.None? || param.value == "" then Ok(None)
    else
      match Timestamp.Parse(param.value)
      case None => Err(WrongDateFormat)
      case Some(d) => Ok(Some(d))
  }

  /**
   * The history of wallet `w` for a request: the wallet is resolved first, then the
   * rows of the requested type are taken, then narrowed by `date_from` (inclusive)
   * and `date_to` (exclusive).
   */
  function Query(wallets: map<Name, int>, h: seq<Transaction>, w: string, q: QueryParams)
    : (r: Result<seq<Transaction>, ApiError>)
    ensures r == Err(WalletNotFound) <==> w !in wallets
    ensures r == Err(WrongDateFormat) <==> w in wallets && (Malformed(q.dateFrom) || Malformed(q.dateTo))
    ensures r.Ok? <==> w in wallets && !Malformed(q.dateFrom) && !Malformed(q.dateTo)
  {
    match ResolveWallet(wallets, w)
    case Err(e) => Err(e)
    case Ok(wallet) =>
      var base := Filter(h, TypeSelector(q.kind, wallet));
      match DateBound(q.dateFrom)
      case Err(e) => Err(e)
      case Ok(lo) =>
        var sinceLo := if lo.Some? then Filter(base, CreatedFrom(lo.value)) else base;
        match DateBound(q.dateTo)
        case Err(e) => Err(e)
        case Ok(hi) => Ok(if hi.Some? then Filter(sinceLo, CreatedBefore(hi.value)) else sinceLo)
  }

  /** Whether the `type` parameter selects `t` for wallet `w`. */
  predicate KindListed(kind: Option<string>, w: Name, t: Transaction)
  {
    if kind == Some("income") then t.walletTo == w
    else if kind == Some("deposit") then t.walletTo == w && t.walletFrom.None?
    else if kind == Some("withdrawal") then t.walletFrom == Some(w)
    else t.walletTo == w || t.walletFrom == Some(w)
  }

  /** Whether `t` passes a `date_from` parameter: created at or after it, if it is a timestamp. */
  predicate SinceListed(param: Option<string>, t: Transaction)
  {
    param.Some? && param.value != "" && Timestamp.Parse(param.value).Some? ==>
      !Timestamp.Before(t.created, Timestamp.Parse(param.value).value)
  }

  /** Whether `t` passes a `date_to` parameter: created strictly before it, if it is a timestamp. */
  predicate UntilListed(param: Option<string>, t: Transaction)
  {
    param.Some? && param.value != "" && Timestamp.Parse(param.value).Some? ==>
      Timestamp.Before(t.created, Timestamp.Parse(param.value).value)
  }

  /**
   * Whether a listing of `w` with parameters `q` shows `t`, stated on the
   * transaction's own fields.
   */
  predicate Listed(q: QueryParams, w: Name, t: Transaction)
  {
    KindListed(q.kind, w, t) && SinceListed(q.dateFrom, t) && UntilListed(q.dateTo, t)
  }

  /** `Listed` is what the three filters of a listing select together. */
  lemma ListedSelected(q: QueryParams, w: Name, t: Transaction)
    requires !Malformed(q.dateFrom) && !Malformed(q.dateTo)
    ensures var lo, hi := DateBound(q.dateFrom).value, DateBound(q.dateTo).value;
      Listed(q, w, t) <==>
        && Holds(TypeSelector(q.kind, w), t)
        && (lo.Some? ==> Holds(CreatedFrom(lo.value), t))
        && (hi.Some? ==> Holds(CreatedBefore(hi.value), t))
  {
  }

  /** A successful listing holds exactly the history rows that `Listed` describes. */
  lemma QueryMembers(wallets: map<Name, int>, h: seq<Transaction>, w: Name, q: QueryParams)
    requires Query(wallets, h, w, q).Ok?
    ensures forall t :: t in Query(wallets, h, w, q).value <==> t in h && Listed(q, w, t)
  {
    var base := Filter(h, TypeSelector(q.kind, w));
    FilterMembers(h, TypeSelector(q.kind, w));
    var lo := DateBound(q.dateFrom).value;
    var sinceLo := if lo.Some? then Filter(base, CreatedFrom(lo.value)) else base;
    if lo.Some? { FilterMembers(base, CreatedFrom(lo.value)); }
    var hi := DateBound(q.dateTo).value;
    if hi.Some? { FilterMembers(sinceLo, CreatedBefore(hi.value)); }
  }

  /**
   * Listings keep history order: one more committed row extends a listing by
   * that row at the end, or not at all.
   */
  lemma QueryAppend(wallets: map<Name, int>, h: seq<Transaction>, t: Transaction, w: Name, q: QueryParams)
    requires Query(wallets, h, w, q).Ok?
    ensures Query(wallets, h + [t], w, q)
         == Ok(Query(wallets, h, w, q).value + (if Listed(q, w, t) then [t] else []))
  {
    var sel := TypeSelector(q.kind, w);
    var lo, hi := DateBound(q.dateFrom).value, DateBound(q.dateTo).value;
    ListedSelected(q, w, t);
    var base := Filter(h, sel);
    FilterAppend(h, t, sel);
    var inBase := Holds(sel, t);
    var sinceLo := if lo.Some? then Filter(base, CreatedFrom(lo.value)) else base;
    var inSince := inBase && (lo.Some? ==> Holds(CreatedFrom(lo.value), t));
    assert (if lo.Some? then Filter(base + (if inBase then [t] else []), CreatedFrom(lo.value))
                       else base + (if inBase then [t] else []))
                      == sinceLo + (if inSince then [t] else []) by {
      if lo.Some? {
        if inBase {
          FilterAppend(base, t, CreatedFrom(lo.value));
        } else {
          assert base + [] == base;
        }
      }
    }
    var inAll := inSince && (hi.Some? ==> Holds(CreatedBefore(hi.value), t));
    assert (if hi.Some? then Filter(sinceLo + (if inSince then [t] else []), CreatedBefore(hi.value))
            else sinceLo + (if inSince then [t] else []))
           == (if hi.Some? then Filter(sinceLo, CreatedBefore(hi.value)) else sinceLo) + (if inAll then [t] else []) by {
      if hi.Some? {
        if inSince {
          FilterAppend(sinceLo, t, CreatedBefore(hi.value));
        } else {
          assert sinceLo + [] == sinceLo;
        }
      }
    }
    assert Query(wallets, h, w, q).value == (if hi.Some? then Filter(sinceLo, CreatedBefore(hi.value)) else sinceLo);
    assert Filter(h + [t], sel) == base + (if inBase then [t] else []);
    assert inAll == Listed(q, w, t);
  }

  /**
   * Without date bounds, the income, withdrawal and unfiltered listings are the
   * wallet's `incomes`, `payments` and `transactions` relations.
   */
  lemma BaseListings(wallets: map<Name, int>, h: seq<Transaction>, w: Name)
    requires w in wallets
    ensures Query(wallets, h, w, QueryParams(Some("income"), None, None)) == Ok(Incomes(h, w))
    ensures Query(wallets, h, w, QueryParams(Some("withdrawal"), None, None)) == Ok(Payments(h, w))
    ensures Query(wallets, h, w, QueryParams(None, None, None)) == Ok(WalletTransactions(h, w))
  {
  }

  /** A deposit listing is the income listing restricted to rows without a sender. */
  lemma DepositsAreIncomes(wallets: map<Name, int>, h: seq<Transaction>, w: Name, t: Transaction)
    requires w in wallets
    ensures var incomes := Query(wallets, h, w, QueryParams(Some("income"), None, None));
            var deposits := Query(wallets, h, w, QueryParams(Some("deposit"), None, None));
            incomes.Ok? && deposits.Ok?
            && (t in deposits.value <==> t in incomes.value && t.walletFrom.None?)
  {
    QueryMembers(wallets, h, w, QueryParams(Some("income"), None, None));
    QueryMembers(wallets, h, w, QueryParams(Some("deposit"), None, None));
  }

  /** The unfiltered listing is the union of the income and withdrawal listings. */
  lemma AllIsIncomesAndWithdrawals(wallets: map<Name, int>, h: seq<Transaction>, w: Name, t: Transaction)
    requires w in wallets
    ensures var all := Query(wallets, h, w, QueryParams(None, None, None));
            var incomes := Query(wallets, h, w, QueryParams(Some("income"), None, None));
            var payments := Query(wallets, h, w, QueryParams(Some("withdrawal"), None, None));
            all.Ok? && incomes.Ok? && payments.Ok?
            && (t in all.value <==> t in incomes.value || t in payments.value)
  {
    QueryMembers(wallets, h, w, QueryParams(None, None, None));
    QueryMembers(wallets, h, w, QueryParams(Some("income"), None, None));
    QueryMembers(wallets, h, w, QueryParams(Some("withdrawal"), None, None));
  }

  /**
   * In a consistent ledger a wallet's balance is the total of its income
   * listing minus the total of its withdrawal listing.
   */
  lemma BalanceFromListings(balances: map<Name, int>, h: seq<Transaction>, w: Name)
    requires Consistent(balances, h) && w in balances
    ensures var incomes := Query(balances, h, w, QueryParams(Some("income"), None, None));
            var payments := Query(balances, h, w, QueryParams(Some("withdrawal"), None, None));
            incomes.Ok? && payments.Ok? && balances[w] == Sum(incomes.value) - Sum(payments.value)
  {
  }

  /** The CSV header of an export. */
  const Header: seq<string> := ["created", "from", "to", "amount"]

  /** One CSV row: the sender cell is empty when the transaction has none. */
  function CsvRow(v: TransactionView): seq<string>
  {
    [v.created, v.walletFrom.GetOr(""), v.walletTo, v.amount]
  }

  /**
   * The export: the header, then one row per listed transaction in listing order;
   * an error of the listing is the error of the export.
   */
  method Export(wallets: map<Name, int>, h: seq<Transaction>, w: string, q: QueryParams)
    returns (r: Result<seq<seq<string>>, ApiError>)
    ensures Query(wallets, h, w, q).Err? ==> r == Err(Query(wallets, h, w, q).error)
    ensures Query(wallets, h, w, q).Ok? ==> r.Ok?
    ensures r.Ok? ==>
      var txs := Query(wallets, h, w, q).value;
      var rows := r.value;
      && |rows| == |txs| + 1 && rows[0] == Header
      && forall i | 0 <= i < |txs| ::
           && rows[i + 1] == CsvRow(ShowTransaction(txs[i]))
           && rows[i + 1][1] == (if txs[i].walletFrom.Some? then txs[i].walletFrom.value else "")
           && rows[i + 1][2] == txs[i].walletTo
           && (Timestamp.Valid(txs[i].created) ==>
                 Timestamp.Parse(rows[i + 1][0]) == Some(Timestamp.WholeSeconds(txs[i].created)))
           && FixedPoint.Canonical(rows[i + 1][3])
           && (FixedPoint.Fits(txs[i].amount) ==> FixedPoint.Parse(rows[i + 1][3]) == Some(txs[i].amount))
  {
    var listing := Query(wallets, h, w, q);
    if listing.Err? {
      return Err(listing.error);
    }
    var txs := listing.value;
    var rows := [Header];
    var i := 0;
    while i < |txs|
      invariant 0 <= i <= |txs|
      invariant |rows| == i + 1 && rows[0] == Header
      invariant forall k | 0 <= k < i :: rows[k + 1] == CsvRow(ShowTransaction(txs[k]))
    {
      rows := rows + [CsvRow(ShowTransaction(txs[i]))];
      i := i + 1;
    }
    return Ok(rows);
  }

  /** Creating a wallet: a new row with balance 0, shown as '0.0000'. */
  method CreateWalletAction(ledger: Ledger, name: Name) returns (view: WalletView)
    requires ledger.Valid() && |name| == NameLength && name !in ledger.balances
    modifies ledger
    ensures ledger.Valid()
    ensures ledger.balances == old(ledger.balances)[name := 0] && ledger.history == old(ledger.history)
    ensures view == WalletView(name, "0.0000")
  {
    ledger.CreateWallet(name);
    ShowNewWallet(name);
    view := ShowWallet(name, ledger.balances[name]);
  }

  /**
   * A deposit request: the amount is validated, then the wallet is resolved, then
   * the deposit runs; a failed balance constraint is reported as "Wrong amount".
   * Only a created reply changes the ledger.
   */
  method DepositAction(ledger: Ledger, walletName: string, amount: Option<string>, now: Timestamp.DateTime)
    returns (reply: Reply)
    requires ledger.Valid() && Timestamp.Valid(now)
    modifies ledger
    ensures ledger.Valid()
    ensures reply != Created ==> ledger.balances == old(ledger.balances) && ledger.history == old(ledger.history)
    ensures ValidateDeposit(amount).Err? ==> reply == Rejected(InvalidFields([Amount]))
    ensures ValidateDeposit(amount).Ok? && walletName !in old(ledger.balances) ==> reply == Rejected(WalletNotFound)
    ensures ValidateDeposit(amount).Ok? && walletName in old(ledger.balances) ==>
      var a := ValidateDeposit(amount).value;
      && (reply == Created <==> old(ledger.balances[walletName]) + a >= 0)
      && (reply != Created ==> reply == Rejected(WrongAmount))
      && (reply == Created ==>
            && ledger.balances == old(ledger.balances)[walletName := old(ledger.balances[walletName]) + a]
            && ledger.history == old(ledger.history) + [Transaction(now, a, None, walletName)])
  {
    var validated := ValidateDeposit(amount);
    if validated.Err? {
      return Rejected(validated.error);
    }
    reply := DepositInto(ledger, walletName, validated.value, now);
  }

  /** The deposit request after validation: resolve the wallet, then run the deposit. */
  method DepositInto(ledger: Ledger, walletName: string, a: int, now: Timestamp.DateTime)
    returns (reply: Reply)
    requires ledger.Valid() && Timestamp.Valid(now)
    modifies ledger
    ensures ledger.Valid()
    ensures reply != Created ==> ledger.balances == old(ledger.balances) && ledger.history == old(ledger.history)
    ensures walletName !in old(ledger.balances) ==> reply == Rejected(WalletNotFound)
    ensures walletName in old(ledger.balances) ==>
      && (reply == Created <==> old(ledger.balances[walletName]) + a >= 0)
      && (reply != Created ==> reply == Rejected(WrongAmount))
      && (reply == Created ==>
            && ledger.balances == old(ledger.balances)[walletName := old(ledger.balances[walletName]) + a]
            && ledger.history == old(ledger.history) + [Transaction(now, a, None, walletName)])
  {
    var wallet := ResolveWallet(ledger.balances, walletName);
    if wallet.Err? {
      return Rejected(wallet.error);
    }
    var outcome := ledger.Deposit(wallet.value, a, now);
    if outcome == IntegrityError {
      return Rejected(WrongAmount);
    }
    return Created;
  }

  /**
   * A withdrawal request: the request is validated, then the destination wallet
   * is resolved, then the sending wallet, then the transfer runs; a failed balance
   * constraint is reported as "Wrong amount". Only a created reply changes the ledger.
   */
  method WithdrawalAction(ledger: Ledger, walletName: string, amount: Option<string>,
                          walletTo: Option<string>, now: Timestamp.DateTime)
    returns (reply: Reply)
    requires ledger.Valid() && Timestamp.Valid(now)
    modifies ledger
    ensures ledger.Valid()
    ensures reply != Created ==> ledger.balances == old(ledger.balances) && ledger.history == old(ledger.history)
    ensures ValidateWithdrawal(amount, walletTo).Err? ==> reply == Rejected(ValidateWithdrawal(amount, walletTo).error)
    ensures ValidateWithdrawal(amount, walletTo).Ok? ==>
      var req := ValidateWithdrawal(amount, walletTo).value;
      && (req.walletTo !in old(ledger.balances) ==> reply == Rejected(WalletNotFound))
      && (req.walletTo in old(ledger.balances) && walletName !in old(ledger.balances) ==> reply == Rejected(WalletNotFound))
      && (req.walletTo in old(ledger.balances) && walletName in old(ledger.balances) ==>
            && (reply == Created <==> old(ledger.balances[walletName]) >= req.amount)
            && (reply != Created ==> reply == Rejected(WrongAmount))
            && (reply == Created ==>
                  && ledger.history == old(ledger.history) + [Transaction(now, req.amount, Some(walletName), req.walletTo)]
                  && ledger.balances.Keys == old(ledger.balances).Keys
                  && (walletName != req.walletTo ==>
                        && ledger.balances[walletName] == old(ledger.balances[walletName]) - req.amount
                        && ledger.balances[req.walletTo] == old(ledger.balances[req.walletTo]) + req.amount)
                  && (forall v | v in ledger.balances && v != walletName && v != req.walletTo ::
                        ledger.balances[v] == old(ledger.balances[v]))
                  && (walletName == req.walletTo ==> ledger.balances == old(ledger.balances))))
  {
    var validated := ValidateWithdrawal(amount, walletTo);
    if validated.Err? {
      return Rejected(validated.error);
    }
    var req := validated.value;
    var receiver := ResolveWallet(ledger.balances, req.walletTo);
    if receiver.Err? {
      return Rejected(receiver.error);
    }
    var sender := ResolveWallet(ledger.balances, walletName);
    if sender.Err? {
      return Rejected(sender.error);
    }
    var outcome := ledger.Withdraw(sender.value, req.amount, receiver.value, now);
    if outcome == IntegrityError {
      return Rejected(WrongAmount);
    }
    return Created;
  }
}
