/**
 * The treasury: a balance kept in lockstep with a newest-first list of signed
 * transactions. Each operation prepends exactly one transaction and moves the
 * balance by that transaction's amount.
 */
module Ledger {
  import opened ClubTypes

  /** Sum of the amounts of `txs`. */
  function Sum(txs: seq<Transaction>): int
  {
    if txs == [] then 0 else txs[0].amount + Sum(txs[1..])
  }

  /** The ledger invariant: the stored balance is the sum of all transaction amounts. */
  predicate Consistent(f: Financials)
  {
    f.balance == Sum(f.transactions)
  }

  datatype LedgerError = InsufficientFunds

  /** `r` is `f` with `tx` prepended and the balance moved by `tx.amount`. */
  predicate Posted(f: Financials, r: Financials, tx: Transaction)
  {
    r.transactions == [tx] + f.transactions && r.balance == f.balance + tx.amount
  }

  /** `handleAddFunds`: a deposit of `amount` with its own transaction. */
  function AddFunds(f: Financials, stamp: Stamp, amount: int, description: string): (r: Financials)
    ensures Posted(f, r, Transaction(stamp.id, stamp.at, description, amount))
    ensures Consistent(f) ==> Consistent(r)
  {
    Financials(f.balance + amount,
               [Transaction(stamp.id, stamp.at, description, amount)] + f.transactions)
  }

  /**
   * `handleRemoveFunds`: refused when the balance is below the amount;
   * otherwise a transaction of `-amount` is prepended. An accepted withdrawal
   * never leaves the balance negative.
   */
  function RemoveFunds(f: Financials, stamp: Stamp, amount: int, description: string): (r: Result<Financials, LedgerError>)
    ensures r.Failure? <==> f.balance < amount
    ensures r.Success? ==> Posted(f, r.value, Transaction(stamp.id, stamp.at, description, -amount))
    ensures r.Success? ==> r.value.balance >= 0
    ensures r.Success? && Consistent(f) ==> Consistent(r.value)
  {
    if f.balance < amount then Failure(InsufficientFunds)
    else Success(Financials(f.balance - amount,
                            [Transaction(stamp.id, stamp.at, description, -amount)] + f.transactions))
  }

  /** The ledger operations a session can issue, in order. */
  datatype LedgerOp =
    | Deposit(stamp: Stamp, amount: int, description: string)
    | Withdraw(stamp: Stamp, amount: int, description: string)

  /** One operation; a refused withdrawal leaves the ledger as it was. */
  function Apply(f: Financials, op: LedgerOp): Financials
  {
    match op
    case Deposit(s, a, d) => AddFunds(f, s, a, d)
    case Withdraw(s, a, d) =>
      match RemoveFunds(f, s, a, d)
      case Success(g) => g
      case Failure(_) => f
  }

  function ApplyAll(f: Financials, ops: seq<LedgerOp>): Financials
    decreases |ops|
  {
    if ops == [] then f else ApplyAll(Apply(f, ops[0]), ops[1..])
  }

  /**
   * For every sequence of deposits and withdrawals (payments are withdrawals
   * on this side), a ledger that starts consistent stays consistent.
   */
  lemma {:induction false} LedgerLockstep(f: Financials, ops: seq<LedgerOp>)
    requires Consistent(f)
    ensures Consistent(ApplyAll(f, ops))
    decreases |ops|
  {
    if ops != [] {
      LedgerLockstep(Apply(f, ops[0]), ops[1..]);
    }
  }

  /** `tail` ends `s`. */
  predicate EndsWith(s: seq<Transaction>, tail: seq<Transaction>)
  {
    |s| >= |tail| && s[|s| - |tail|..] == tail
  }

  /** One operation keeps the old history as the tail: it prepends one transaction or none. */
  lemma ApplyPrepends(f: Financials, op: LedgerOp)
    ensures Apply(f, op).transactions == f.transactions ||
            (Apply(f, op).transactions != [] && Apply(f, op).transactions[1..] == f.transactions)
  {
  }

  /** Ending with a sequence that ends with `c` means ending with `c`. */
  lemma EndsWithTransitive(a: seq<Transaction>, b: seq<Transaction>, c: seq<Transaction>)
    requires EndsWith(a, b) && EndsWith(b, c)
    ensures EndsWith(a, c)
  {
    assert a[|a| - |c|..] == a[|a| - |b|..][|b| - |c|..];
  }

  /** A history that is the old one, or the old one with one transaction in front, ends with the old one. */
  lemma PrependEndsWith(t: seq<Transaction>, s: seq<Transaction>)
    requires t == s || (t != [] && t[1..] == s)
    ensures EndsWith(t, s)
  {
    if t == s {
      assert t[0..] == t;
    } else {
      assert t[|t| - |s|..] == t[1..];
    }
  }

  /** The history after any sequence of operations ends with the history before it. */
  lemma {:induction false} HistoryEndsWith(f: Financials, ops: seq<LedgerOp>)
    ensures EndsWith(ApplyAll(f, ops).transactions, f.transactions)
    decreases |ops|
  {
    if ops == [] {
      PrependEndsWith(f.transactions, f.transactions);
    } else {
      var h := Apply(f, ops[0]);
      HistoryEndsWith(h, ops[1..]);
      ApplyPrepends(f, ops[0]);
      PrependEndsWith(h.transactions, f.transactions);
      EndsWithTransitive(ApplyAll(h, ops[1..]).transactions, h.transactions, f.transactions);
    }
  }

  /**
   * Transactions are only ever added: the history after any sequence of
   * operations ends with the history before it.
   */
  lemma {:induction false} HistoryAppendOnly(f: Financials, ops: seq<LedgerOp>)
    ensures var g := ApplyAll(f, ops);
      |g.transactions| >= |f.transactions| &&
      g.transactions[|g.transactions| - |f.transactions|..] == f.transactions
  {
    HistoryEndsWith(f, ops);
  }

  /** A fresh ledger: zero balance, no transactions. */
  function Empty(): (f: Financials)
    ensures Consistent(f) && f.balance == 0
  {
    Financials(0, [])
  }

  /**
   * Fresh ledger, deposit 5000 for a fundraiser, then an attempted withdrawal
   * of 6000 for rent: the withdrawal is refused and the balance stays 5000.
   */
  lemma FundraiserThenRent(s1: Stamp, s2: Stamp)
    ensures var f := AddFunds(Empty(), s1, 5000, "fundraiser");
      f.balance == 5000 && |f.transactions| == 1 && f.transactions[0].amount == 5000 &&
      RemoveFunds(f, s2, 6000, "rent") == Failure(InsufficientFunds)
  {
  }
}
