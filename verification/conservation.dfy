/**
 * What the processing loop keeps true of all accounts together. Summed over
 * every account, the held funds equal the amounts of the history records in
 * dispute, and the funds (available plus held) equal the deposits less the
 * withdrawals and the amounts charged back. The source never checks that a
 * dispute, resolve or chargeback comes from the client of the deposit it
 * names, so a single account's held funds can go negative; the sums cannot.
 */
module Conservation {
  import opened Money
  import opened Transaction
  import opened TxHistory
  import opened Account
  import opened Ledger

  // ---------------------------------------------------------------------------
  // Sums over maps
  // ---------------------------------------------------------------------------

  /** The sum of `f` over the values of `m`. */
  ghost function Sum<K, V>(m: map<K, V>, f: V -> int): int
    decreases |m|
  {
    if m == map[] then 0
    else
      var k :| k in m;
      f(m[k]) + Sum(m - {k}, f)
  }

  /** Any entry can be taken out of a sum first. */
  lemma {:induction false} SumRemove<K, V>(m: map<K, V>, k: K, f: V -> int)
    requires k in m
    ensures Sum(m, f) == f(m[k]) + Sum(m - {k}, f)
    decreases |m|
  {
    var j :| j in m && Sum(m, f) == f(m[j]) + Sum(m - {j}, f);
    if j != k {
      SumRemove(m - {j}, k, f);
      SumRemove(m - {k}, j, f);
      assert m - {j} - {k} == m - {k} - {j};
    }
  }

  /** Setting one entry changes a sum by the difference of that entry alone. */
  lemma SumUpdate<K, V>(m: map<K, V>, k: K, v: V, f: V -> int)
    ensures Sum(m[k := v], f) == Sum(m, f) - (if k in m then f(m[k]) else 0) + f(v)
  {
    SumRemove(m[k := v], k, f);
    if k in m {
      SumRemove(m, k, f);
      assert m[k := v] - {k} == m - {k};
    } else {
      assert m[k := v] - {k} == m;
    }
  }

  /** A sum of terms that are never negative is not negative. */
  lemma {:induction false} SumNonNegative<K, V>(m: map<K, V>, f: V -> int)
    requires forall k | k in m :: f(m[k]) >= 0
    ensures Sum(m, f) >= 0
    decreases |m|
  {
    if m != map[] {
      var k :| k in m;
      SumRemove(m, k, f);
      SumNonNegative(m - {k}, f);
    }
  }

  /** The sum over a map with one key is that key's term. */
  lemma SumSingle<K, V>(m: map<K, V>, k: K, f: V -> int)
    requires m.Keys == {k}
    ensures Sum(m, f) == f(m[k])
  {
    SumRemove(m, k, f);
    assert m - {k} == map[];
  }

  // ---------------------------------------------------------------------------
  // The quantities summed
  // ---------------------------------------------------------------------------

  function Held(a: Account): int {
    a.held.units
  }

  /** A record's amount if it is in dispute, otherwise nothing. */
  function DisputedAmount(t: CompletedTx): int {
    if t.disputed then t.amount.units else 0
  }

  /** A record's effect on the funds: a deposit adds its amount, a withdrawal takes it away. */
  function SignedAmount(t: CompletedTx): int {
    if t.kind == Deposited then t.amount.units else -(t.amount.units as int)
  }

  /** What each record of the shared history keeps true. */
  predicate RecordsSound(h: TxHistory) {
    && (forall id | id in h :: !IsNegative(h[id].amount))
    && (forall id | id in h :: h[id].disputed ==> h[id].kind == Deposited)
  }

  /** The ledger's invariant. */
  ghost predicate Consistent(l: Ledger) {
    && (forall c | c in l.accounts :: l.accounts[c].client == c)
    && RecordsSound(l.history)
    && Sum(l.accounts, Held) == Sum(l.history, DisputedAmount)
    && Sum(l.accounts, Funds) == Sum(l.history, SignedAmount)
  }

  // ---------------------------------------------------------------------------
  // One transaction on one account
  // ---------------------------------------------------------------------------

  /**
   * What one transaction does to the account and to the history balances
   * exactly: the held funds change as much as the disputed amounts do, and
   * the funds as much as the signed amounts do; the records stay sound.
   */
  ghost predicate Balanced(a: Account, h: TxHistory, r: Processed) {
    && RecordsSound(r.history)
    && Held(r.account) - Held(a) == Sum(r.history, DisputedAmount) - Sum(h, DisputedAmount)
    && Funds(r.account) - Funds(a) == Sum(r.history, SignedAmount) - Sum(h, SignedAmount)
  }

  lemma DepositBalanced(a: Account, id: TxId, m: Money, h: TxHistory)
    requires RecordsSound(h) && !IsNegative(m)
    requires !a.locked && id !in h ==> InI64(a.available.units + m.units)
    ensures Balanced(a, h, ProcessDeposit(a, id, m, h))
  {
    var r := ProcessDeposit(a, id, m, h);
    if r.outcome.Success? {
      var t := CompletedTx(Deposited, m, false);
      assert r.history == h[id := t];
      SumUpdate(h, id, t, DisputedAmount);
      SumUpdate(h, id, t, SignedAmount);
    }
  }

  lemma WithdrawalBalanced(a: Account, id: TxId, m: Money, h: TxHistory)
    requires RecordsSound(h) && !IsNegative(m)
    requires !a.locked ==> InI64(a.available.units - m.units)
    ensures Balanced(a, h, ProcessWithdrawal(a, id, m, h))
  {
    var r := ProcessWithdrawal(a, id, m, h);
    if r.outcome.Success? {
      var t := CompletedTx(Withdrawn, m, false);
      assert r.history == h[id := t];
      SumUpdate(h, id, t, DisputedAmount);
      SumUpdate(h, id, t, SignedAmount);
    }
  }

  lemma DisputeBalanced(a: Account, id: TxId, h: TxHistory)
    requires RecordsSound(h)
    requires id in h && h[id].kind == Deposited && !h[id].disputed ==>
               InI64(a.available.units - h[id].amount.units) && InI64(a.held.units + h[id].amount.units)
    ensures Balanced(a, h, ProcessDispute(a, id, h))
  {
    var r := ProcessDispute(a, id, h);
    if r.outcome.Success? {
      var t := h[id].(disputed := true);
      assert r.history == h[id := t];
      SumUpdate(h, id, t, DisputedAmount);
      SumUpdate(h, id, t, SignedAmount);
    }
  }

  lemma ResolveBalanced(a: Account, id: TxId, h: TxHistory)
    requires RecordsSound(h)
    requires id in h && h[id].disputed ==>
               InI64(a.held.units - h[id].amount.units) && InI64(a.available.units + h[id].amount.units)
    ensures Balanced(a, h, ProcessResolve(a, id, h))
  {
    var r := ProcessResolve(a, id, h);
    if r.outcome.Success? {
      var t := h[id].(disputed := false);
      assert r.history == h[id := t];
      SumUpdate(h, id, t, DisputedAmount);
      SumUpdate(h, id, t, SignedAmount);
    }
  }

  lemma ChargebackBalanced(a: Account, id: TxId, h: TxHistory)
    requires RecordsSound(h)
    requires id in h && h[id].disputed ==> InI64(a.held.units - h[id].amount.units)
    ensures Balanced(a, h, ProcessChargeback(a, id, h))
  {
    var r := ProcessChargeback(a, id, h);
    if r.outcome.Success? {
      var t := h[id].(amount := ZERO);
      assert r.history == h[id := t];
      SumUpdate(h, id, t, DisputedAmount);
      SumUpdate(h, id, t, SignedAmount);
    }
  }

  /** Every well-formed transaction keeps the account and the history in balance. */
  lemma TransactionBalanced(a: Account, tx: Transaction, h: TxHistory)
    requires RecordsSound(h) && WellFormed(tx.action)
    requires NoOverflow(a, tx, h)
    ensures Balanced(a, h, ProcessTransaction(a, tx, h))
  {
    match tx.action
    case Deposit(m) => DepositBalanced(a, tx.id, m, h);
    case Withdrawal(m) => WithdrawalBalanced(a, tx.id, m, h);
    case Dispute => DisputeBalanced(a, tx.id, h);
    case Resolve => ResolveBalanced(a, tx.id, h);
    case Chargeback => ChargebackBalanced(a, tx.id, h);
  }

  // ---------------------------------------------------------------------------
  // The whole ledger
  // ---------------------------------------------------------------------------

  lemma StartConsistent()
    ensures Consistent(START)
  {
  }

  /** One turn of the loop keeps the ledger consistent. */
  lemma ApplyConsistent(l: Ledger, tx: Transaction)
    requires Consistent(l) && CanApply(l, tx) && WellFormed(tx.action)
    ensures Consistent(Apply(l, tx))
  {
    var a := AccountFor(l, tx.client);
    var p := ProcessTransaction(a, tx, l.history);
    TransactionBalanced(a, tx, l.history);
    assert Apply(l, tx).accounts == l.accounts[tx.client := p.account];
    SumUpdate(l.accounts, tx.client, p.account, Held);
    SumUpdate(l.accounts, tx.client, p.account, Funds);
  }

  /** The loop keeps the ledger consistent over any well-formed input. */
  lemma {:induction false} ReplayConsistent(l: Ledger, txs: seq<Transaction>)
    requires Consistent(l) && CanReplay(l, txs)
    requires forall i | 0 <= i < |txs| :: WellFormed(txs[i].action)
    ensures Consistent(Replay(l, txs))
    decreases |txs|
  {
    if txs != [] {
      ApplyConsistent(l, txs[0]);
      ReplayConsistent(Apply(l, txs[0]), txs[1..]);
    }
  }

  /** Summed over all accounts, held funds are never negative. */
  lemma HeldSumNonNegative(l: Ledger)
    requires Consistent(l)
    ensures Sum(l.accounts, Held) >= 0
  {
    SumNonNegative(l.history, DisputedAmount);
  }

  /** Transactions that all name one client leave exactly that client's account. */
  lemma {:induction false} OneClient(txs: seq<Transaction>, c: Client)
    requires forall i | 0 <= i < |txs| :: txs[i].client == c
    ensures Clients(txs) == if txs == [] then {} else {c}
    decreases |txs|
  {
    if txs != [] {
      OneClient(txs[1..], c);
    }
  }

  /**
   * For one client replaying its own transactions from the start, the held
   * funds are the amounts of its deposits in dispute, and so never negative.
   */
  lemma OwnHistoryHeld(txs: seq<Transaction>, c: Client)
    requires txs != [] && CanReplay(START, txs)
    requires forall i | 0 <= i < |txs| :: txs[i].client == c && WellFormed(txs[i].action)
    ensures var l := Replay(START, txs);
            && l.accounts.Keys == {c}
            && l.accounts[c].held.units == Sum(l.history, DisputedAmount)
            && l.accounts[c].held.units >= 0
  {
    var l := Replay(START, txs);
    OneClient(txs, c);
    StartConsistent();
    ReplayConsistent(START, txs);
    SumSingle(l.accounts, c, Held);
    HeldSumNonNegative(l);
  }
}
