/**
 * Accounts of src/account/mod.rs: a client's available and held funds and
 * whether the account is locked, and `process_transaction`, which applies one
 * transaction to an account and the shared history. Every check runs before
 * anything is changed, so a refused transaction changes nothing.
 */
module Account {
  import opened Wrappers
  import opened Money
  import opened Transaction
  import opened TxHistory

  datatype Account = Account(client: Client, available: Money, held: Money, locked: bool)

  /** The errors of mod.rs:173-190; each carries the id of the refused transaction. */
  datatype Error =
    | DuplicateTransaction(id: TxId)
    | AccountLockedFundsFrozen(id: TxId)
    | InsufficientFundsForWithdrawal(id: TxId)
    | UnknownTxReference(id: TxId)
    | WithdrawalsAreIndisputable(id: TxId)
    | CantResolveIndisputedTx(id: TxId)
    | CantChargebackIndisputedTx(id: TxId)
    | DuplicateDispute(id: TxId)

  /** What `process_transaction` returns, together with the account and history it leaves behind. */
  datatype Processed = Processed(outcome: Result<(), Error>, account: Account, history: TxHistory)

  /** `Account::new`: nothing available, nothing held, not locked. */
  function New(client: Client): (a: Account)
    ensures a.client == client && !a.locked
    ensures a.available == ZERO && a.held == ZERO
  {
    Account(client, ZERO, ZERO, false)
  }

  /** The account's funds as an unbounded integer, available plus held. */
  function Funds(a: Account): int {
    a.available.units + a.held.units
  }

  /** `total`: available plus held; the checked addition panics outside `i64`. */
  function Total(a: Account): (t: Money)
    requires InI64(Funds(a))
    ensures t.units == Funds(a)
    ensures Sub(t, a.held) == a.available && Sub(t, a.available) == a.held
  {
    Add(a.available, a.held)
  }

  /** A new account's total is zero. */
  lemma TotalOfNew(c: Client)
    ensures Total(New(c)) == ZERO
  {
  }

  /** The `account_total_simple_addition` test: 120.0000 available and 3.4567 held total 123.4567. */
  lemma TotalSimpleAddition(c: Client)
    ensures Total(Account(c, Money(120_0000), Money(3_4567), false)) == Money(123_4567)
  {
  }

  /** The `account_total_negative_available` test: -120.0000 available and 360.0000 held total 240.0000. */
  lemma TotalNegativeAvailable(c: Client)
    ensures Total(Account(c, Money(-120_0000), Money(360_0000), false)) == Money(240_0000)
  {
  }

  /**
   * The source's arithmetic panics on `i64` overflow; a transaction is only
   * processed where none of the additions and subtractions it reaches overflows.
   * Each case names exactly the arithmetic the matching branch performs, and only
   * on the path that reaches it.
   */
  predicate NoOverflow(a: Account, tx: Transaction, h: TxHistory) {
    match tx.action
    case Deposit(m) =>
      !a.locked && tx.id !in h ==> InI64(a.available.units + m.units)
    case Withdrawal(m) =>
      !a.locked ==> InI64(a.available.units - m.units)
    case Dispute =>
      tx.id in h && h[tx.id].kind == Deposited && !h[tx.id].disputed ==>
        InI64(a.available.units - h[tx.id].amount.units) && InI64(a.held.units + h[tx.id].amount.units)
    case Resolve =>
      tx.id in h && h[tx.id].disputed ==>
        InI64(a.held.units - h[tx.id].amount.units) && InI64(a.available.units + h[tx.id].amount.units)
    case Chargeback =>
      tx.id in h && h[tx.id].disputed ==> InI64(a.held.units - h[tx.id].amount.units)
  }

  /** A refusal: the error, with the account and history exactly as they were. */
  function Refuse(e: Error, a: Account, h: TxHistory): (r: Processed)
    ensures r.outcome.Failure? && r.outcome.error == e
    ensures r.account == a && r.history == h
  {
    Processed(Failure(e), a, h)
  }

  /** The Deposit arm: locked accounts refuse it, then a reused id does; otherwise the amount becomes available. */
  function ProcessDeposit(a: Account, id: TxId, amount: Money, h: TxHistory): (r: Processed)
    requires !a.locked && id !in h ==> InI64(a.available.units + amount.units)
    ensures r.outcome == Failure(AccountLockedFundsFrozen(id)) <==> a.locked
    ensures r.outcome == Failure(DuplicateTransaction(id)) <==> !a.locked && id in h
    ensures r.outcome.Success? <==> !a.locked && id !in h
    ensures r.outcome.Failure? ==> r.account == a && r.history == h
    ensures r.outcome.Success? ==>
              && r.account.available.units == a.available.units + amount.units
              && r.account.held == a.held && r.account.locked == a.locked && r.account.client == a.client
              && Record(h, id, amount, Deposited) == Some(r.history)
  {
    if a.locked then Refuse(AccountLockedFundsFrozen(id), a, h)
    else
      match Record(h, id, amount, Deposited)
      case None => Refuse(DuplicateTransaction(id), a, h)
      case Some(recorded) => Processed(Success(()), a.(available := Add(a.available, amount)), recorded)
  }

  /**
   * The Withdrawal arm: locked accounts refuse it, then a withdrawal that would
   * leave the available funds negative, then a reused id; otherwise the amount
   * is taken from the available funds.
   */
  function ProcessWithdrawal(a: Account, id: TxId, amount: Money, h: TxHistory): (r: Processed)
    requires !a.locked ==> InI64(a.available.units - amount.units)
    ensures r.outcome == Failure(AccountLockedFundsFrozen(id)) <==> a.locked
    ensures r.outcome == Failure(InsufficientFundsForWithdrawal(id)) <==>
              !a.locked && a.available.units < amount.units
    ensures r.outcome == Failure(DuplicateTransaction(id)) <==>
              !a.locked && amount.units <= a.available.units && id in h
    ensures r.outcome.Success? <==> !a.locked && amount.units <= a.available.units && id !in h
    ensures r.outcome.Failure? ==> r.account == a && r.history == h
    ensures r.outcome.Success? ==>
              && r.account.available.units == a.available.units - amount.units
              && r.account.available.units >= 0
              && r.account.held == a.held && r.account.locked == a.locked && r.account.client == a.client
              && Record(h, id, amount, Withdrawn) == Some(r.history)
  {
    if a.locked then Refuse(AccountLockedFundsFrozen(id), a, h)
    else
      var newAvailable := Sub(a.available, amount);
      if Less(newAvailable, ZERO) then Refuse(InsufficientFundsForWithdrawal(id), a, h)
      else
        match Record(h, id, amount, Withdrawn)
        case None => Refuse(DuplicateTransaction(id), a, h)
        case Some(recorded) => Processed(Success(()), a.(available := newAvailable), recorded)
  }

  /**
   * The Dispute arm: the id must name a recorded deposit not already in
   * dispute; its amount moves from available (possibly going negative) to held,
   * and the record is marked disputed. Neither the lock nor the client is checked.
   */
  function ProcessDispute(a: Account, id: TxId, h: TxHistory): (r: Processed)
    requires id in h && h[id].kind == Deposited && !h[id].disputed ==>
               InI64(a.available.units - h[id].amount.units) && InI64(a.held.units + h[id].amount.units)
    ensures r.outcome == Failure(UnknownTxReference(id)) <==> id !in h
    ensures r.outcome == Failure(WithdrawalsAreIndisputable(id)) <==> id in h && h[id].kind == Withdrawn
    ensures r.outcome == Failure(DuplicateDispute(id)) <==> id in h && h[id].kind == Deposited && h[id].disputed
    ensures r.outcome.Success? <==> id in h && h[id].kind == Deposited && !h[id].disputed
    ensures r.outcome.Failure? ==> r.account == a && r.history == h
    ensures r.outcome.Success? ==>
              && r.account.available.units == a.available.units - h[id].amount.units
              && r.account.held.units == a.held.units + h[id].amount.units
              && r.account.locked == a.locked && r.account.client == a.client
              && r.history == Amend(h, id, h[id].(disputed := true))
  {
    match PastTransaction(h, id)
    case None => Refuse(UnknownTxReference(id), a, h)
    case Some(past) =>
      if past.kind == Withdrawn then Refuse(WithdrawalsAreIndisputable(id), a, h)
      else if past.disputed then Refuse(DuplicateDispute(id), a, h)
      else
        var account := a.(available := Sub(a.available, past.amount), held := Add(a.held, past.amount));
        Processed(Success(()), account, Amend(h, id, past.(disputed := true)))
  }

  /**
   * The Resolve arm: the id must name a record in dispute; its amount moves
   * back from held to available and the dispute is cleared.
   */
  function ProcessResolve(a: Account, id: TxId, h: TxHistory): (r: Processed)
    requires id in h && h[id].disputed ==>
               InI64(a.held.units - h[id].amount.units) && InI64(a.available.units + h[id].amount.units)
    ensures r.outcome == Failure(UnknownTxReference(id)) <==> id !in h
    ensures r.outcome == Failure(CantResolveIndisputedTx(id)) <==> id in h && !h[id].disputed
    ensures r.outcome.Success? <==> id in h && h[id].disputed
    ensures r.outcome.Failure? ==> r.account == a && r.history == h
    ensures r.outcome.Success? ==>
              && r.account.available.units == a.available.units + h[id].amount.units
              && r.account.held.units == a.held.units - h[id].amount.units
              && r.account.locked == a.locked && r.account.client == a.client
              && r.history == Amend(h, id, h[id].(disputed := false))
  {
    match PastTransaction(h, id)
    case None => Refuse(UnknownTxReference(id), a, h)
    case Some(past) =>
      if !past.disputed then Refuse(CantResolveIndisputedTx(id), a, h)
      else
        var account := a.(held := Sub(a.held, past.amount), available := Add(a.available, past.amount));
        Processed(Success(()), account, Amend(h, id, past.(disputed := false)))
  }

  /**
   * The Chargeback arm: the id must name a record in dispute; its amount leaves
   * the held funds for good, the account is locked, and the record's amount is
   * set to zero while it stays marked disputed.
   */
  function ProcessChargeback(a: Account, id: TxId, h: TxHistory): (r: Processed)
    requires id in h && h[id].disputed ==> InI64(a.held.units - h[id].amount.units)
    ensures r.outcome == Failure(UnknownTxReference(id)) <==> id !in h
    ensures r.outcome == Failure(CantChargebackIndisputedTx(id)) <==> id in h && !h[id].disputed
    ensures r.outcome.Success? <==> id in h && h[id].disputed
    ensures r.outcome.Failure? ==> r.account == a && r.history == h
    ensures r.outcome.Success? ==>
              && r.account.available == a.available
              && r.account.held.units == a.held.units - h[id].amount.units
              && r.account.locked && r.account.client == a.client
              && r.history == Amend(h, id, h[id].(amount := ZERO))
  {
    match PastTransaction(h, id)
    case None => Refuse(UnknownTxReference(id), a, h)
    case Some(past) =>
      if !past.disputed then Refuse(CantChargebackIndisputedTx(id), a, h)
      else
        var account := a.(held := Sub(a.held, past.amount), locked := true);
        Processed(Success(()), account, Amend(h, id, past.(amount := ZERO)))
  }

  /** `process_transaction`: dispatch on the action. */
  function ProcessTransaction(a: Account, tx: Transaction, h: TxHistory): (r: Processed)
    requires NoOverflow(a, tx, h)
    ensures r.outcome.Failure? ==> r.account == a && r.history == h && r.outcome.error.id == tx.id
    ensures r.account.client == a.client
    ensures a.locked ==> r.account.locked
    ensures h.Keys <= r.history.Keys
    ensures r.outcome.Success? && (tx.action.Deposit? || tx.action.Withdrawal?) ==> r.history.Keys == h.Keys + {tx.id}
    ensures !(tx.action.Deposit? || tx.action.Withdrawal?) ==> r.history.Keys == h.Keys
  {
    match tx.action
    case Deposit(amount) => ProcessDeposit(a, tx.id, amount, h)
    case Withdrawal(amount) => ProcessWithdrawal(a, tx.id, amount, h)
    case Dispute => ProcessDispute(a, tx.id, h)
    case Resolve => ProcessResolve(a, tx.id, h)
    case Chargeback => ProcessChargeback(a, tx.id, h)
  }

  // ---------------------------------------------------------------------------
  // Properties of process_transaction
  // ---------------------------------------------------------------------------

  /**
   * How a successful transaction changes the account's funds (available plus
   * held): a deposit adds its amount, a withdrawal and a chargeback remove the
   * amount concerned, a dispute and a resolve only move funds between
   * available and held.
   */
  function FundsChange(tx: Transaction, h: TxHistory): int {
    match tx.action
    case Deposit(m) => m.units
    case Withdrawal(m) => -(m.units as int)
    case Dispute => 0
    case Resolve => 0
    case Chargeback => if tx.id in h then -(h[tx.id].amount.units as int) else 0
  }

  lemma FundsAfter(a: Account, tx: Transaction, h: TxHistory)
    requires NoOverflow(a, tx, h)
    ensures var r := ProcessTransaction(a, tx, h);
            Funds(r.account) == Funds(a) + (if r.outcome.Success? then FundsChange(tx, h) else 0)
  {
  }

  /** A locked account refuses every deposit and withdrawal, and nothing changes. */
  lemma LockedRefusesFunds(a: Account, tx: Transaction, h: TxHistory)
    requires a.locked && (tx.action.Deposit? || tx.action.Withdrawal?)
    ensures NoOverflow(a, tx, h)
    ensures ProcessTransaction(a, tx, h) == Processed(Failure(AccountLockedFundsFrozen(tx.id)), a, h)
  {
  }

  /**
   * Disputes, resolves and chargebacks ignore the lock: they have the same
   * outcome and effect on a locked account as on the same account unlocked.
   */
  lemma LockIgnoredByDisputes(a: Account, tx: Transaction, h: TxHistory)
    requires !(tx.action.Deposit? || tx.action.Withdrawal?)
    requires NoOverflow(a, tx, h)
    ensures NoOverflow(a.(locked := true), tx, h)
    ensures var r, s := ProcessTransaction(a, tx, h), ProcessTransaction(a.(locked := true), tx, h);
            s.outcome == r.outcome && s.history == r.history && s.account == r.account.(locked := true)
  {
  }

  /** Only a successful chargeback locks an account, and nothing unlocks one. */
  lemma OnlyChargebackLocks(a: Account, tx: Transaction, h: TxHistory)
    requires NoOverflow(a, tx, h)
    ensures var r := ProcessTransaction(a, tx, h);
            r.account.locked <==> a.locked || (tx.action.Chargeback? && r.outcome.Success?)
  {
  }

  /**
   * A deposit or withdrawal id is never accepted twice: processing the same
   * transaction again is refused and changes nothing. It is refused as a
   * duplicate unless a repeated withdrawal already fails the funds check,
   * which comes first (process_tx_skips_dup_deposits, process_tx_skips_dup_withdrawals).
   */
  lemma RepeatIsRefused(a: Account, tx: Transaction, h: TxHistory)
    requires tx.action.Deposit? || tx.action.Withdrawal?
    requires WellFormed(tx.action)
    requires NoOverflow(a, tx, h) && ProcessTransaction(a, tx, h).outcome.Success?
    ensures var r := ProcessTransaction(a, tx, h);
            && NoOverflow(r.account, tx, r.history)
            && var s := ProcessTransaction(r.account, tx, r.history);
               && s.outcome.Failure? && s.account == r.account && s.history == r.history
               && (tx.action.Deposit? || tx.action.amount.units <= r.account.available.units ==>
                     s.outcome == Failure(DuplicateTransaction(tx.id)))
  {
  }

  /**
   * A dispute followed by a resolve of the same transaction, on the same
   * account, restores the account and the history exactly.
   */
  lemma DisputeThenResolve(a: Account, id: TxId, h: TxHistory)
    requires id in h && h[id].kind == Deposited && !h[id].disputed
    requires InI64(a.available.units - h[id].amount.units) && InI64(a.held.units + h[id].amount.units)
    ensures var d := ProcessDispute(a, id, h);
            && d.outcome.Success?
            && ProcessResolve(d.account, id, d.history) == Processed(Success(()), a, h)
  {
    var d := ProcessDispute(a, id, h);
    assert d.history[id] == h[id].(disputed := true);
    assert Amend(d.history, id, h[id]) == h;
  }

  /**
   * A chargeback zeroes the record and leaves it disputed: a second chargeback
   * of the same transaction is accepted but moves no funds.
   */
  lemma ChargebackTwice(a: Account, id: TxId, h: TxHistory)
    requires id in h && h[id].disputed && InI64(a.held.units - h[id].amount.units)
    ensures var c := ProcessChargeback(a, id, h);
            && c.outcome.Success?
            && c.history[id] == h[id].(amount := ZERO)
            && ProcessChargeback(c.account, id, c.history) == Processed(Success(()), c.account, c.history)
  {
    var c := ProcessChargeback(a, id, h);
    assert Amend(c.history, id, c.history[id].(amount := ZERO)) == c.history;
  }

  /** A second dispute of the same deposit, with no resolve between, is refused and changes nothing. */
  lemma DisputeTwice(a: Account, id: TxId, h: TxHistory)
    requires id in h && h[id].kind == Deposited && !h[id].disputed
    requires InI64(a.available.units - h[id].amount.units) && InI64(a.held.units + h[id].amount.units)
    ensures var d := ProcessDispute(a, id, h);
            && d.outcome.Success?
            && ProcessDispute(d.account, id, d.history) == Processed(Failure(DuplicateDispute(id)), d.account, d.history)
  {
  }

  /**
   * Once a chargeback has zeroed a record, disputes, resolves and chargebacks
   * that name it leave the available and held funds as they are.
   */
  lemma ZeroedRecordMovesNothing(a: Account, tx: Transaction, h: TxHistory)
    requires !(tx.action.Deposit? || tx.action.Withdrawal?)
    requires tx.id in h && h[tx.id].amount == ZERO
    ensures NoOverflow(a, tx, h)
    ensures var r := ProcessTransaction(a, tx, h);
            r.account.available == a.available && r.account.held == a.held
  {
  }
}
