/**
 * The processing loop of src/main.rs: transactions are applied one at a time
 * in input order, each to the account of the client it names (created with
 * zero balances the first time the client appears), against one history
 * shared by every client. A refused transaction is ignored; a row that does
 * not decode ends the run with that row's error.
 */
module Ledger {
  import opened Wrappers
  import opened Money
  import opened Transaction
  import opened TxHistory
  import opened Account

  /** The loop's state: the `HashMap<Client, Account>` and the shared `TxHistory`. */
  datatype Ledger = Ledger(accounts: map<Client, Account>, history: TxHistory)

  /** Before the first row: no accounts, empty history. */
  const START: Ledger := Ledger(map[], EMPTY)

  /** `entry(client).or_insert_with(|| Account::new(client))`, read without inserting. */
  function AccountFor(l: Ledger, c: Client): Account {
    if c in l.accounts then l.accounts[c] else New(c)
  }

  /** The transaction does not reach an `i64` overflow, which would abort the run. */
  predicate CanApply(l: Ledger, tx: Transaction) {
    NoOverflow(AccountFor(l, tx.client), tx, l.history)
  }

  /**
   * One turn of the loop: the client's account is created if missing, then
   * `process_transaction` runs on it and the shared history; its result is
   * dropped with `.ok()`, so a refusal leaves only the (possibly new) account.
   */
  function Apply(l: Ledger, tx: Transaction): (r: Ledger)
    requires CanApply(l, tx)
    ensures r.accounts.Keys == l.accounts.Keys + {tx.client}
    ensures forall c | c in l.accounts && c != tx.client :: r.accounts[c] == l.accounts[c]
    ensures r.accounts[tx.client].client == AccountFor(l, tx.client).client
    ensures l.history.Keys <= r.history.Keys
    ensures var p := ProcessTransaction(AccountFor(l, tx.client), tx, l.history);
            r.accounts[tx.client] == p.account && r.history == p.history
  {
    var p := ProcessTransaction(AccountFor(l, tx.client), tx, l.history);
    Ledger(l.accounts[tx.client := p.account], p.history)
  }

  /** The clients a sequence of transactions names. */
  function Clients(txs: seq<Transaction>): set<Client> {
    if txs == [] then {} else {txs[0].client} + Clients(txs[1..])
  }

  /** Every transaction of the sequence, applied in order, stays clear of overflow. */
  predicate CanReplay(l: Ledger, txs: seq<Transaction>)
    decreases |txs|
  {
    txs == [] || (CanApply(l, txs[0]) && CanReplay(Apply(l, txs[0]), txs[1..]))
  }

  /**
   * The `for tx in ...` loop over transactions that all decoded: each is
   * applied in input order. Exactly the clients named get accounts, other
   * accounts are untouched, and no history record is ever removed.
   */
  function Replay(l: Ledger, txs: seq<Transaction>): (r: Ledger)
    requires CanReplay(l, txs)
    ensures r.accounts.Keys == l.accounts.Keys + Clients(txs)
    ensures forall c | c in l.accounts && c !in Clients(txs) :: r.accounts[c] == l.accounts[c]
    ensures l.history.Keys <= r.history.Keys
    decreases |txs|
  {
    if txs == [] then l else Replay(Apply(l, txs[0]), txs[1..])
  }

  /** The transactions of rows that all decoded. */
  function Values<E>(rows: seq<Result<Transaction, E>>): (txs: seq<Transaction>)
    requires forall i | 0 <= i < |rows| :: rows[i].Success?
    ensures |txs| == |rows|
    ensures forall i | 0 <= i < |rows| :: txs[i] == rows[i].value
  {
    if rows == [] then [] else [rows[0].value] + Values(rows[1..])
  }

  /** The decoded transactions before the first row that failed to decode stay clear of overflow. */
  predicate CanRun<E>(l: Ledger, rows: seq<Result<Transaction, E>>)
    decreases |rows|
  {
    rows == [] || rows[0].Failure? || (CanApply(l, rows[0].value) && CanRun(Apply(l, rows[0].value), rows[1..]))
  }

  /**
   * The whole loop over the decoded rows, `let tx: Transaction = tx?;`
   * included: the run succeeds exactly when every row decodes; otherwise it
   * ends with the error of a row that did not decode, and no accounts are
   * reported.
   */
  function Run<E>(l: Ledger, rows: seq<Result<Transaction, E>>): (r: Result<Ledger, E>)
    requires CanRun(l, rows)
    ensures r.Success? <==> forall i | 0 <= i < |rows| :: rows[i].Success?
    ensures r.Failure? ==> Failure(r.error) in rows
    decreases |rows|
  {
    if rows == [] then Success(l)
    else match rows[0]
      case Failure(e) => Failure(e)
      case Success(tx) =>
        var r := Run(Apply(l, tx), rows[1..]);
        assert r.Failure? ==> Failure(r.error) in rows[1..];
        r
  }

  /** When every row decodes, the run is the replay of the decoded transactions in input order. */
  lemma {:induction false} RunAllDecoded<E>(l: Ledger, rows: seq<Result<Transaction, E>>)
    requires CanRun(l, rows)
    requires forall i | 0 <= i < |rows| :: rows[i].Success?
    ensures CanReplay(l, Values(rows))
    ensures Run(l, rows) == Success(Replay(l, Values(rows)))
    decreases |rows|
  {
    if rows != [] {
      var tx := rows[0].value;
      assert Values(rows) == [tx] + Values(rows[1..]);
      RunAllDecoded(Apply(l, tx), rows[1..]);
    }
  }

  /** The run stops at the first row that does not decode and reports that row's error. */
  lemma {:induction false} RunStopsAtFirstError<E>(l: Ledger, rows: seq<Result<Transaction, E>>, i: nat)
    requires CanRun(l, rows)
    requires i < |rows| && rows[i].Failure?
    requires forall j | 0 <= j < i :: rows[j].Success?
    ensures Run(l, rows) == Failure(rows[i].error)
    decreases i
  {
    if i > 0 {
      RunStopsAtFirstError(Apply(l, rows[0].value), rows[1..], i - 1);
    }
  }

  /** Replaying a concatenation is replaying the first part, then the second from where it left off. */
  lemma {:induction false} ReplayAppend(l: Ledger, a: seq<Transaction>, b: seq<Transaction>)
    ensures CanReplay(l, a + b) <==> CanReplay(l, a) && CanReplay(Replay(l, a), b)
    ensures CanReplay(l, a + b) ==> Replay(l, a + b) == Replay(Replay(l, a), b)
    decreases |a|
  {
    if a == [] {
      assert a + b == b;
    } else {
      assert (a + b)[0] == a[0];
      assert (a + b)[1..] == a[1..] + b;
      if CanApply(l, a[0]) {
        ReplayAppend(Apply(l, a[0]), a[1..], b);
      }
    }
  }

  /** The loop is a left fold: the last transaction is applied to what the earlier ones left. */
  lemma ReplayLast(l: Ledger, txs: seq<Transaction>, tx: Transaction)
    requires CanReplay(l, txs)
    requires CanApply(Replay(l, txs), tx)
    ensures CanReplay(l, txs + [tx])
    ensures Replay(l, txs + [tx]) == Apply(Replay(l, txs), tx)
  {
    ReplayAppend(l, txs, [tx]);
  }

  /**
   * A refused transaction is ignored: at most it leaves a fresh account with
   * zero balances behind for a client seen for the first time.
   */
  lemma RefusedLeavesOnlyAccount(l: Ledger, tx: Transaction)
    requires CanApply(l, tx)
    requires ProcessTransaction(AccountFor(l, tx.client), tx, l.history).outcome.Failure?
    ensures Apply(l, tx).history == l.history
    ensures tx.client in l.accounts ==> Apply(l, tx) == l
    ensures tx.client !in l.accounts ==> Apply(l, tx).accounts == l.accounts[tx.client := New(tx.client)]
  {
  }

  /** A transaction only ever reaches the account of the client it names. */
  lemma OnlyOwnAccount(l: Ledger, tx: Transaction, c: Client)
    requires CanApply(l, tx) && c != tx.client
    ensures c in Apply(l, tx).accounts <==> c in l.accounts
    ensures c in l.accounts ==> Apply(l, tx).accounts[c] == l.accounts[c]
  {
  }
}
