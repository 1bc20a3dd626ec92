/**
 * Whole runs of the processing loop over short inputs, each stated as the
 * accounts the loop leaves behind. Amounts are in ten-thousandths: 100.0000
 * is `Money(100_0000)`.
 */
module Scenarios {
  import opened Wrappers
  import opened Money
  import opened Transaction
  import opened TxHistory
  import opened Account
  import opened Ledger

  const HUNDRED := Money(100_0000)

  /** A one-row replay is one turn of the loop. */
  lemma ReplayOne(l: Ledger, t: Transaction)
    requires CanApply(l, t)
    ensures CanReplay(l, [t]) && Replay(l, [t]) == Apply(l, t)
  {
    assert [t][1..] == [];
  }

  /** Replaying a row and then the rest is one turn of the loop, then the rest. */
  lemma ReplayCons(l: Ledger, t: Transaction, rest: seq<Transaction>)
    requires CanApply(l, t) && CanReplay(Apply(l, t), rest)
    ensures CanReplay(l, [t] + rest) && Replay(l, [t] + rest) == Replay(Apply(l, t), rest)
  {
    assert ([t] + rest)[0] == t;
    assert ([t] + rest)[1..] == rest;
  }

  /** Two rows whose turns lead from `l` through `l1` to `l2` replay to `l2`. */
  lemma ReplayTwo(l: Ledger, t1: Transaction, l1: Ledger, t2: Transaction, l2: Ledger)
    requires CanApply(l, t1) && Apply(l, t1) == l1
    requires CanApply(l1, t2) && Apply(l1, t2) == l2
    ensures CanReplay(l, [t1, t2]) && Replay(l, [t1, t2]) == l2
  {
    ReplayOne(l1, t2);
    ReplayCons(l, t1, [t2]);
    assert [t1] + [t2] == [t1, t2];
  }

  /** Three rows whose turns lead from `l` through `l1` and `l2` to `l3` replay to `l3`. */
  lemma ReplayThree(l: Ledger, t1: Transaction, l1: Ledger, t2: Transaction, l2: Ledger, t3: Transaction, l3: Ledger)
    requires CanApply(l, t1) && Apply(l, t1) == l1
    requires CanApply(l1, t2) && Apply(l1, t2) == l2
    requires CanApply(l2, t3) && Apply(l2, t3) == l3
    ensures CanReplay(l, [t1, t2, t3]) && Replay(l, [t1, t2, t3]) == l3
  {
    ReplayTwo(l1, t2, l2, t3, l3);
    ReplayCons(l, t1, [t2, t3]);
    assert [t1] + [t2, t3] == [t1, t2, t3];
  }

  // One turn of each kind that succeeds, as the ledger it leaves: the
  // client's account becomes `na` and the history becomes `nh`.

  lemma DepositStep(l: Ledger, tx: Transaction, a: Account, m: Money, na: Account, nh: TxHistory)
    requires tx.action == Deposit(m) && a == AccountFor(l, tx.client) && !a.locked && tx.id !in l.history
    requires InI64(a.available.units + m.units)
    requires na == a.(available := Money(a.available.units + m.units))
    requires nh == l.history[tx.id := CompletedTx(Deposited, m, false)]
    ensures CanApply(l, tx)
    ensures Apply(l, tx) == Ledger(l.accounts[tx.client := na], nh)
  {
    var p := ProcessTransaction(a, tx, l.history);
    assert p.account == na && p.history == nh;
    assert Apply(l, tx) == Ledger(l.accounts[tx.client := p.account], p.history);
  }

  lemma WithdrawalStep(l: Ledger, tx: Transaction, a: Account, m: Money, na: Account, nh: TxHistory)
    requires tx.action == Withdrawal(m) && a == AccountFor(l, tx.client) && !a.locked && tx.id !in l.history
    requires 0 <= a.available.units - m.units <= I64_MAX
    requires na == a.(available := Money(a.available.units - m.units))
    requires nh == l.history[tx.id := CompletedTx(Withdrawn, m, false)]
    ensures CanApply(l, tx)
    ensures Apply(l, tx) == Ledger(l.accounts[tx.client := na], nh)
  {
    var p := ProcessTransaction(a, tx, l.history);
    assert p.account == na && p.history == nh;
    assert Apply(l, tx) == Ledger(l.accounts[tx.client := p.account], p.history);
  }

  /** A dispute of an undisputed deposit, as the account and history it leaves. */
  lemma DisputeResult(a: Account, id: TxId, h: TxHistory, t: CompletedTx)
    requires id in h && t == h[id] && t.kind == Deposited && !t.disputed
    requires InI64(a.available.units - t.amount.units) && InI64(a.held.units + t.amount.units)
    ensures ProcessDispute(a, id, h)
            == Processed(Success(()), a.(available := Money(a.available.units - t.amount.units), held := Money(a.held.units + t.amount.units)),
                         h[id := t.(disputed := true)])
  {
  }

  /** A resolve of a disputed deposit, as the account and history it leaves. */
  lemma ResolveResult(a: Account, id: TxId, h: TxHistory, t: CompletedTx)
    requires id in h && t == h[id] && t.disputed
    requires InI64(a.held.units - t.amount.units) && InI64(a.available.units + t.amount.units)
    ensures ProcessResolve(a, id, h)
            == Processed(Success(()), a.(held := Money(a.held.units - t.amount.units), available := Money(a.available.units + t.amount.units)),
                         h[id := t.(disputed := false)])
  {
  }

  /** A chargeback of a disputed deposit, as the account and history it leaves. */
  lemma ChargebackResult(a: Account, id: TxId, h: TxHistory, t: CompletedTx)
    requires id in h && t == h[id] && t.disputed
    requires InI64(a.held.units - t.amount.units)
    ensures ProcessChargeback(a, id, h)
            == Processed(Success(()), a.(held := Money(a.held.units - t.amount.units), locked := true), h[id := t.(amount := ZERO)])
  {
  }

  lemma DisputeStep(l: Ledger, tx: Transaction, a: Account, t: CompletedTx, na: Account, nh: TxHistory)
    requires tx.action.Dispute? && a == AccountFor(l, tx.client)
    requires tx.id in l.history && t == l.history[tx.id] && t.kind == Deposited && !t.disputed
    requires InI64(a.available.units - t.amount.units) && InI64(a.held.units + t.amount.units)
    requires na == a.(available := Money(a.available.units - t.amount.units), held := Money(a.held.units + t.amount.units))
    requires nh == l.history[tx.id := t.(disputed := true)]
    ensures CanApply(l, tx)
    ensures Apply(l, tx) == Ledger(l.accounts[tx.client := na], nh)
  {
    assert CanApply(l, tx);
    DisputeResult(a, tx.id, l.history, t);
    var p := ProcessTransaction(a, tx, l.history);
    assert p == ProcessDispute(a, tx.id, l.history);
    assert p.account == na;
    assert p.history == nh;
    assert Apply(l, tx) == Ledger(l.accounts[tx.client := p.account], p.history);
  }

  lemma ResolveStep(l: Ledger, tx: Transaction, a: Account, t: CompletedTx, na: Account, nh: TxHistory)
    requires tx.action.Resolve? && a == AccountFor(l, tx.client)
    requires tx.id in l.history && t == l.history[tx.id] && t.disputed
    requires InI64(a.held.units - t.amount.units) && InI64(a.available.units + t.amount.units)
    requires na == a.(held := Money(a.held.units - t.amount.units), available := Money(a.available.units + t.amount.units))
    requires nh == l.history[tx.id := t.(disputed := false)]
    ensures CanApply(l, tx)
    ensures Apply(l, tx) == Ledger(l.accounts[tx.client := na], nh)
  {
    assert CanApply(l, tx);
    ResolveResult(a, tx.id, l.history, t);
    var p := ProcessTransaction(a, tx, l.history);
    assert p == ProcessResolve(a, tx.id, l.history);
    assert p.account == na;
    assert p.history == nh;
    assert Apply(l, tx) == Ledger(l.accounts[tx.client := p.account], p.history);
  }

  lemma ChargebackStep(l: Ledger, tx: Transaction, a: Account, t: CompletedTx, na: Account, nh: TxHistory)
    requires tx.action.Chargeback? && a == AccountFor(l, tx.client)
    requires tx.id in l.history && t == l.history[tx.id] && t.disputed
    requires InI64(a.held.units - t.amount.units)
    requires na == a.(held := Money(a.held.units - t.amount.units), locked := true)
    requires nh == l.history[tx.id := t.(amount := ZERO)]
    ensures CanApply(l, tx)
    ensures Apply(l, tx) == Ledger(l.accounts[tx.client := na], nh)
  {
    assert CanApply(l, tx);
    ChargebackResult(a, tx.id, l.history, t);
    var p := ProcessTransaction(a, tx, l.history);
    assert p == ProcessChargeback(a, tx.id, l.history);
    assert p.account == na;
    assert p.history == nh;
    assert Apply(l, tx) == Ledger(l.accounts[tx.client := p.account], p.history);
  }

  /** Deposit 100 then withdraw 30 on client 5: 70 available, nothing held, not locked. */
  lemma DepositThenWithdraw()
    ensures var txs := [Transaction(Deposit(HUNDRED), 5, 1), Transaction(Withdrawal(Money(30_0000)), 5, 2)];
            && CanReplay(START, txs)
            && Replay(START, txs).accounts == map[5 := Account(5, Money(70_0000), ZERO, false)]
  {
    var t1, t2 := Transaction(Deposit(HUNDRED), 5, 1), Transaction(Withdrawal(Money(30_0000)), 5, 2);
    var l1 := Ledger(map[5 := Account(5, HUNDRED, ZERO, false)], map[1 := CompletedTx(Deposited, HUNDRED, false)]);
    var l2 := Ledger(map[5 := Account(5, Money(70_0000), ZERO, false)],
                     map[1 := CompletedTx(Deposited, HUNDRED, false), 2 := CompletedTx(Withdrawn, Money(30_0000), false)]);
    DepositStep(START, t1, New(5), HUNDRED, l1.accounts[5], l1.history);
    assert l1.accounts == START.accounts[5 := l1.accounts[5]];
    WithdrawalStep(l1, t2, l1.accounts[5], Money(30_0000), l2.accounts[5], l2.history);
    assert l2.accounts == l1.accounts[5 := l2.accounts[5]];
    ReplayTwo(START, t1, l1, t2, l2);
    assert Replay(START, [t1, t2]) == l2;
  }

  /** Deposit 100 then dispute it: nothing available, 100 held, the total still 100. */
  lemma DepositThenDispute()
    ensures var txs := [Transaction(Deposit(HUNDRED), 5, 1), Transaction(Dispute, 5, 1)];
            && CanReplay(START, txs)
            && Replay(START, txs).accounts == map[5 := Account(5, ZERO, HUNDRED, false)]
            && Total(Replay(START, txs).accounts[5]) == HUNDRED
  {
    var t1, t2 := Transaction(Deposit(HUNDRED), 5, 1), Transaction(Dispute, 5, 1);
    var l1 := Ledger(map[5 := Account(5, HUNDRED, ZERO, false)], map[1 := CompletedTx(Deposited, HUNDRED, false)]);
    var l2 := Ledger(map[5 := Account(5, ZERO, HUNDRED, false)], map[1 := CompletedTx(Deposited, HUNDRED, true)]);
    DepositStep(START, t1, New(5), HUNDRED, l1.accounts[5], l1.history);
    DisputeStep(l1, t2, l1.accounts[5], l1.history[1], l2.accounts[5], l2.history);
    ReplayTwo(START, t1, l1, t2, l2);
    assert Replay(START, [t1, t2]) == l2;
  }

  /**
   * Deposit 100, dispute it, charge it back: the account is emptied and
   * locked. A later deposit by client 9 under the same id is a duplicate
   * even though client 9 never used it, and a later deposit by client 5
   * under a new id is refused because the account is locked.
   */
  lemma ChargebackLocksAndKeepsId()
    ensures var txs := [Transaction(Deposit(HUNDRED), 5, 1), Transaction(Dispute, 5, 1), Transaction(Chargeback, 5, 1)];
            && CanReplay(START, txs)
            && var l := Replay(START, txs);
            && l.accounts == map[5 := Account(5, ZERO, ZERO, true)]
            && l.history == map[1 := CompletedTx(Deposited, ZERO, true)]
            && ProcessTransaction(New(9), Transaction(Deposit(Money(1_0000)), 9, 1), l.history).outcome
               == Failure(DuplicateTransaction(1))
            && ProcessTransaction(l.accounts[5], Transaction(Deposit(Money(1_0000)), 5, 2), l.history).outcome
               == Failure(AccountLockedFundsFrozen(2))
  {
    var t1, t2, t3 := Transaction(Deposit(HUNDRED), 5, 1), Transaction(Dispute, 5, 1), Transaction(Chargeback, 5, 1);
    var l1 := Ledger(map[5 := Account(5, HUNDRED, ZERO, false)], map[1 := CompletedTx(Deposited, HUNDRED, false)]);
    var l2 := Ledger(map[5 := Account(5, ZERO, HUNDRED, false)], map[1 := CompletedTx(Deposited, HUNDRED, true)]);
    var l3 := Ledger(map[5 := Account(5, ZERO, ZERO, true)], map[1 := CompletedTx(Deposited, ZERO, true)]);
    DepositStep(START, t1, New(5), HUNDRED, l1.accounts[5], l1.history);
    DisputeStep(l1, t2, l1.accounts[5], l1.history[1], l2.accounts[5], l2.history);
    ChargebackStep(l2, t3, l2.accounts[5], l2.history[1], l3.accounts[5], l3.history);
    ReplayThree(START, t1, l1, t2, l2, t3, l3);
    assert Replay(START, [t1, t2, t3]) == l3;
  }

  /** Withdrawing 50 from a new account is refused for insufficient funds and leaves the account empty. */
  lemma WithdrawFromEmpty()
    ensures var t := Transaction(Withdrawal(Money(50_0000)), 5, 1);
            && CanApply(START, t)
            && ProcessTransaction(New(5), t, EMPTY).outcome == Failure(InsufficientFundsForWithdrawal(1))
            && Apply(START, t) == Ledger(map[5 := New(5)], EMPTY)
  {
  }

  /**
   * The source never compares a dispute's client with the client of the
   * deposit it names: client 2 can resolve the deposit client 1 disputed,
   * which moves the amount into client 2's available funds and leaves
   * client 2 holding minus that amount.
   */
  lemma CrossClientResolve()
    ensures var txs := [Transaction(Deposit(HUNDRED), 1, 1), Transaction(Dispute, 1, 1), Transaction(Resolve, 2, 1)];
            && CanReplay(START, txs)
            && Replay(START, txs).accounts
               == map[1 := Account(1, ZERO, HUNDRED, false), 2 := Account(2, HUNDRED, Money(-100_0000), false)]
  {
    var t1, t2, t3 := Transaction(Deposit(HUNDRED), 1, 1), Transaction(Dispute, 1, 1), Transaction(Resolve, 2, 1);
    var l1 := Ledger(map[1 := Account(1, HUNDRED, ZERO, false)], map[1 := CompletedTx(Deposited, HUNDRED, false)]);
    var l2 := Ledger(map[1 := Account(1, ZERO, HUNDRED, false)], map[1 := CompletedTx(Deposited, HUNDRED, true)]);
    var l3 := Ledger(map[1 := Account(1, ZERO, HUNDRED, false), 2 := Account(2, HUNDRED, Money(-100_0000), false)],
                     map[1 := CompletedTx(Deposited, HUNDRED, false)]);
    DepositStep(START, t1, New(1), HUNDRED, l1.accounts[1], l1.history);
    DisputeStep(l1, t2, l1.accounts[1], l1.history[1], l2.accounts[1], l2.history);
    ResolveStep(l2, t3, New(2), l2.history[1], l3.accounts[2], l3.history);
    ReplayThree(START, t1, l1, t2, l2, t3, l3);
    assert Replay(START, [t1, t2, t3]) == l3;
  }
}
