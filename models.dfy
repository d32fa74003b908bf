/**
 * The ledger engine: wallets with a fixed-point balance, and the append-only
 * history of transactions that moved money into them. The stored rows are the
 * fields of one `Ledger` object; each atomic block of the engine is one method
 * that either commits all its changes or none.
 */
module Models {
  import opened Results
  import Timestamp

  /** Wallets are addressed by their name, a 36-character identifier. */
  type Name = string
  const NameLength: nat := 36

  /**
   * One movement of `amount` ten-thousandths into `walletTo`; `walletFrom` is
   * absent for a deposit and names the sender for a transfer.
   */
  datatype Transaction = Transaction(created: Timestamp.DateTime, amount: int,
                                     walletFrom: Option<Name>, walletTo: Name)

  /** The row filters the engine and the history queries apply. */
  datatype Selector =
    | IncomeOf(w: Name)              // wallet_to is w
    | DepositOf(w: Name)             // wallet_to is w and there is no wallet_from
    | PaymentOf(w: Name)             // wallet_from is w
    | Involving(w: Name)             // wallet_from is w or wallet_to is w
    | CreatedFrom(bound: Timestamp.DateTime)   // created >= bound
    | CreatedBefore(bound: Timestamp.DateTime) // created < bound

  predicate Holds(sel: Selector, t: Transaction)
  {
    match sel
    case IncomeOf(w) => t.walletTo == w
    case DepositOf(w) => t.walletTo == w && t.walletFrom == None
    case PaymentOf(w) => t.walletFrom == Some(w)
    case Involving(w) => t.walletFrom == Some(w) || t.walletTo == w
    case CreatedFrom(b) => !Timestamp.Before(t.created, b)
    case CreatedBefore(b) => Timestamp.Before(t.created, b)
  }

  /** The rows of `h` that `sel` selects, in history order. */
  function Filter(h: seq<Transaction>, sel: Selector): (r: seq<Transaction>)
  {
    if h == [] then []
    else
      var rest := Filter(h[1..], sel);
      if Holds(sel, h[0]) then [h[0]] + rest else rest
  }

  /** A row is in the filtered history exactly when it is in the history and selected. */
  lemma {:induction false} FilterMembers(h: seq<Transaction>, sel: Selector)
    ensures forall t :: t in Filter(h, sel) <==> t in h && Holds(sel, t)
  {
    if h != [] {
      FilterMembers(h[1..], sel);
      assert forall t :: t in h <==> t == h[0] || t in h[1..];
    }
  }

  /** Filtering a history extended by one row extends the result by that row, if selected. */
  lemma {:induction false} FilterAppend(h: seq<Transaction>, t: Transaction, sel: Selector)
    ensures Filter(h + [t], sel) == Filter(h, sel) + (if Holds(sel, t) then [t] else [])
  {
    if h != [] {
      assert (h + [t])[1..] == h[1..] + [t];
      FilterAppend(h[1..], t, sel);
    }
  }

  /** Total of the amounts of some rows. */
  function Sum(h: seq<Transaction>): int
  {
    if h == [] then 0 else h[0].amount + Sum(h[1..])
  }

  lemma {:induction false} SumAppend(h: seq<Transaction>, t: Transaction)
    ensures Sum(h + [t]) == Sum(h) + t.amount
  {
    if h != [] {
      assert (h + [t])[1..] == h[1..] + [t];
      SumAppend(h[1..], t);
    }
  }

  /** `Wallet.incomes`: the rows whose destination is `w`. */
  function Incomes(h: seq<Transaction>, w: Name): seq<Transaction>
  {
    Filter(h, IncomeOf(w))
  }

  /** `Wallet.payments`: the rows whose source is `w`. */
  function Payments(h: seq<Transaction>, w: Name): seq<Transaction>
  {
    Filter(h, PaymentOf(w))
  }

  /** `Wallet.transactions`: the rows where `w` is source or destination. */
  function WalletTransactions(h: seq<Transaction>, w: Name): (r: seq<Transaction>)
    ensures forall t :: t in r <==> t in h && (t.walletFrom == Some(w) || t.walletTo == w)
  {
    FilterMembers(h, Involving(w));
    Filter(h, Involving(w))
  }

  /** A wallet's transactions are exactly its incomes together with its payments. */
  lemma TransactionsAreIncomesAndPayments(h: seq<Transaction>, w: Name, t: Transaction)
    ensures t in WalletTransactions(h, w) <==> t in Incomes(h, w) || t in Payments(h, w)
  {
    FilterMembers(h, IncomeOf(w));
    FilterMembers(h, PaymentOf(w));
  }

  /** What the history says `w` should hold: incoming minus outgoing amounts. */
  function Net(h: seq<Transaction>, w: Name): int
  {
    Sum(Incomes(h, w)) - Sum(Payments(h, w))
  }

  /** The change one more row makes to what the history says a wallet holds. */
  function Effect(t: Transaction, w: Name): int
  {
    (if t.walletTo == w then t.amount else 0) - (if t.walletFrom == Some(w) then t.amount else 0)
  }

  lemma NetAppend(h: seq<Transaction>, t: Transaction, w: Name)
    ensures Net(h + [t], w) == Net(h, w) + Effect(t, w)
  {
    var incomes, payments := Incomes(h, w), Payments(h, w);
    FilterAppend(h, t, IncomeOf(w));
    FilterAppend(h, t, PaymentOf(w));
    if t.walletTo == w { SumAppend(incomes, t); } else { assert incomes + [] == incomes; }
    if t.walletFrom == Some(w) { SumAppend(payments, t); } else { assert payments + [] == payments; }
  }

  /**
   * The ledger's invariant over the rows: names are 36 characters, every
   * transaction refers to existing wallets and was created at a real instant,
   * and each balance is non-negative and equals its incoming minus its outgoing
   * amounts.
   */
  ghost predicate Consistent(balances: map<Name, int>, h: seq<Transaction>)
  {
    && (forall w | w in balances :: |w| == NameLength)
    && (forall t | t in h :: RefersTo(t, balances) && Timestamp.Valid(t.created))
    && (forall w | w in balances :: balances[w] == Net(h, w) && balances[w] >= 0)
  }

  /**
   * Inserting one row that refers to existing wallets, while moving every balance
   * by exactly that row's effect and leaving none negative, keeps the invariant.
   */
  lemma AppendKeepsConsistent(before: map<Name, int>, after: map<Name, int>, h: seq<Transaction>, t: Transaction)
    requires Consistent(before, h) && RefersTo(t, before) && Timestamp.Valid(t.created)
    requires after.Keys == before.Keys
    requires forall w | w in after :: after[w] == before[w] + Effect(t, w) && after[w] >= 0
    ensures Consistent(after, h + [t])
  {
    forall w | w in after ensures after[w] == Net(h + [t], w) {
      NetAppend(h, t, w);
    }
    forall u | u in h + [t] ensures RefersTo(u, after) && Timestamp.Valid(u.created) {
      if u != t { assert RefersTo(u, before); }
    }
  }

  /**
   * Debiting the sender and then crediting the receiver moves every balance by
   * the transfer's effect, and leaves them all as they were when the two coincide.
   */
  lemma TransferMoves(before: map<Name, int>, debited: map<Name, int>, after: map<Name, int>, t: Transaction)
    requires t.walletFrom.Some? && t.walletFrom.value in before && t.walletTo in before
    requires debited == before[t.walletFrom.value := before[t.walletFrom.value] - t.amount]
    requires after == debited[t.walletTo := debited[t.walletTo] + t.amount]
    requires (forall w | w in before :: before[w] >= 0) && debited[t.walletFrom.value] >= 0 && after[t.walletTo] >= 0
    ensures after.Keys == before.Keys
    ensures forall w | w in after :: after[w] == before[w] + Effect(t, w) && after[w] >= 0
    ensures t.walletFrom.value == t.walletTo ==> after == before
  {
    var from, to := t.walletFrom.value, t.walletTo;
    forall w | w in after ensures after[w] == before[w] + Effect(t, w) && after[w] >= 0 {
      if w != from && w != to {
        assert after[w] == before[w];
      }
    }
    if from == to {
      forall w | w in after ensures after[w] == before[w] {
        assert Effect(t, w) == 0;
      }
    }
  }

  /** A history that never mentions `w` says it holds nothing. */
  lemma NetUnmentioned(h: seq<Transaction>, w: Name)
    requires forall t | t in h :: t.walletTo != w && t.walletFrom != Some(w)
    ensures Net(h, w) == 0
  {
    FilterMembers(h, IncomeOf(w));
    FilterMembers(h, PaymentOf(w));

  }

  /** A transaction's wallets all exist (the foreign keys of the row). */
  predicate RefersTo(t: Transaction, wallets: map<Name, int>)
  {
    t.walletTo in wallets && (t.walletFrom.Some? ==> t.walletFrom.value in wallets)
  }

  /** Result of an atomic block: committed, or rolled back by the non-negative check. */
  datatype Commit = Committed | IntegrityError

  /** The wallet and transaction tables. */
  class Ledger {
    /** Each wallet's balance in ten-thousandths, by name. */
    var balances: map<Name, int>
    /** Every transaction ever committed, oldest first. */
    var history: seq<Transaction>

    /** The invariant of the stored rows (see `Consistent`). */
    ghost predicate Valid()
      reads this
    {
      Consistent(balances, history)
    }

    /** The empty store. */
    constructor ()
      ensures Valid()
      ensures balances == map[] && history == []
    {
      balances := map[];
      history := [];
    }

    /** Inserts a wallet row with balance 0 under an unused 36-character name. */
    method CreateWallet(name: Name)
      requires Valid()
      requires |name| == NameLength && name !in balances
      modifies this
      ensures Valid()
      ensures balances == old(balances)[name := 0] && history == old(history)
    {
      NetUnmentioned(history, name);
      var added := balances[name := 0];
      forall t | t in history ensures RefersTo(t, added) && Timestamp.Valid(t.created) {
        assert RefersTo(t, balances);
      }
      balances := added;
    }

    /**
     * One atomic block: insert a transaction without a source, then add `amount`
     * to the wallet. The update is refused if the balance would go below zero,
     * and then the insert is rolled back too.
     */
    method Deposit(w: Name, amount: int, now: Timestamp.DateTime) returns (outcome: Commit)
      requires Valid() && w in balances && Timestamp.Valid(now)
      modifies this
      ensures Valid()
      ensures outcome == Committed <==> old(balances[w]) + amount >= 0
      ensures outcome == Committed ==>
        && balances == old(balances)[w := old(balances[w]) + amount]
        && history == old(history) + [Transaction(now, amount, None, w)]
      ensures outcome == IntegrityError ==> balances == old(balances) && history == old(history)
    {
      var t := Transaction(now, amount, None, w);
      var rows := history + [t];
      var updated := balances[w := balances[w] + amount];
      if updated[w] < 0 {
        return IntegrityError;
      }
      forall v | v in updated ensures updated[v] == balances[v] + Effect(t, v) && updated[v] >= 0 {
      }
      AppendKeepsConsistent(balances, updated, history, t);
      history, balances := rows, updated;
      return Committed;
    }

    /**
     * One atomic block: insert a transaction from `from` to `to`, subtract
     * `amount` from the sender, then add it to the receiver. Each update is
     * checked as it is made; if either would leave a negative balance the whole
     * block is rolled back. A wallet may pay itself.
     */
    method Withdraw(from: Name, amount: int, to: Name, now: Timestamp.DateTime) returns (outcome: Commit)
      requires Valid() && from in balances && to in balances && Timestamp.Valid(now)
      modifies this
      ensures Valid()
      ensures outcome == Committed <==>
        old(balances[from]) - amount >= 0 && (from == to || old(balances[to]) + amount >= 0)
      ensures outcome == Committed ==>
        && history == old(history) + [Transaction(now, amount, Some(from), to)]
        && balances.Keys == old(balances).Keys
        && (from != to ==> balances[from] == old(balances[from]) - amount && balances[to] == old(balances[to]) + amount)
        && (forall v | v in balances && v != from && v != to :: balances[v] == old(balances[v]))
        && (from == to ==> balances == old(balances))
      ensures outcome == IntegrityError ==> balances == old(balances) && history == old(history)
    {
      var t := Transaction(now, amount, Some(from), to);
      var rows := history + [t];
      var debited := balances[from := balances[from] - amount];
      if debited[from] < 0 {
        return IntegrityError;
      }
      var credited := debited[to := debited[to] + amount];
      if credited[to] < 0 {
        return IntegrityError;
      }
      TransferMoves(balances, debited, credited, t);
      AppendKeepsConsistent(balances, credited, history, t);
      history, balances := rows, credited;
      return Committed;
    }
  }
}
