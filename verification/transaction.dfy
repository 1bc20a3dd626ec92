/**
 * Transactions of src/account/transaction.rs: the action a CSV row asks for,
 * the client it names and its transaction id, and the rules by which a row's
 * `type` and optional `amount` columns become an `Action`.
 */
module Transaction {
  import opened Wrappers
  import opened Money

  /** `Client = u16`. */
  type Client = x: int | 0 <= x <= 0xFFFF

  /** `Id = u32`, re-exported as `TxId`. */
  type TxId = x: int | 0 <= x <= 0xFFFF_FFFF

  datatype Action =
    | Deposit(amount: Money)
    | Withdrawal(amount: Money)
    | Dispute
    | Resolve
    | Chargeback

  /** `Transaction::new` and the accessors `action()`, `client()`, `id()` are this datatype's constructor and fields. */
  datatype Transaction = Transaction(action: Action, client: Client, id: TxId)

  /** The `type` column of a row (`rename_all = "lowercase"`). */
  datatype ActionType = DepositType | WithdrawalType | DisputeType | ResolveType | ChargebackType

  /** Why a row does not make a transaction. */
  datatype RowError =
    | MissingAmount     // `missing_field("amount")`
    | NegativeAmount    // `invalid_value(..., "a positive amount of moneys")`
    | UnexpectedAmount  // "expected nothing in `amount` field"

  /** Deposits and withdrawals carry an amount; the other actions carry none. */
  predicate CarriesAmount(t: ActionType) {
    t == DepositType || t == WithdrawalType
  }

  /** The guarantee `new_deposit`, `new_withdrawal` and the row decoder all give: no negative amount. */
  predicate WellFormed(a: Action) {
    (a.Deposit? || a.Withdrawal?) ==> !IsNegative(a.amount)
  }

  function TypeOf(a: Action): ActionType {
    match a
    case Deposit(_) => DepositType
    case Withdrawal(_) => WithdrawalType
    case Dispute => DisputeType
    case Resolve => ResolveType
    case Chargeback => ChargebackType
  }

  function AmountOf(a: Action): Option<Money> {
    if a.Deposit? || a.Withdrawal? then Some(a.amount) else None
  }

  /** `Action::new_deposit`: asserts the amount is not negative. */
  function NewDeposit(amount: Money): (a: Action)
    requires !IsNegative(amount)
    ensures WellFormed(a) && TypeOf(a) == DepositType && AmountOf(a) == Some(amount)
  {
    Deposit(amount)
  }

  /** `Action::new_withdrawal`: asserts the amount is not negative. */
  function NewWithdrawal(amount: Money): (a: Action)
    requires !IsNegative(amount)
    ensures WellFormed(a) && TypeOf(a) == WithdrawalType && AmountOf(a) == Some(amount)
  {
    Withdrawal(amount)
  }

  /**
   * The un-flattening step of `Transaction::deserialize`: a deposit or a
   * withdrawal takes the amount, which must be present and not negative;
   * afterwards any amount still left over is an error.
   */
  function FromRow(t: ActionType, amount: Option<Money>, client: Client, id: TxId): (r: Result<Transaction, RowError>)
    ensures r == Failure(MissingAmount) <==> CarriesAmount(t) && amount.None?
    ensures r == Failure(NegativeAmount) <==> CarriesAmount(t) && amount.Some? && IsNegative(amount.value)
    ensures r == Failure(UnexpectedAmount) <==> !CarriesAmount(t) && amount.Some?
    ensures r.Success? ==>
              && WellFormed(r.value.action)
              && TypeOf(r.value.action) == t
              && AmountOf(r.value.action) == amount
              && r.value.client == client && r.value.id == id
  {
    if CarriesAmount(t) then
      match amount
      case None => Failure(MissingAmount)
      case Some(m) =>
        if IsNegative(m) then Failure(NegativeAmount)
        else
          var action := if t == DepositType then NewDeposit(m) else NewWithdrawal(m);
          Success(Transaction(action, client, id))
    else if amount.Some? then Failure(UnexpectedAmount)
    else
      var action := match t
        case DisputeType => Dispute
        case ResolveType => Resolve
        case _ => Chargeback;
      Success(Transaction(action, client, id))
  }

  /** The columns a transaction is written as: its type, its amount if any, its client and id. */
  function ToRow(tx: Transaction): (ActionType, Option<Money>, Client, TxId) {
    (TypeOf(tx.action), AmountOf(tx.action), tx.client, tx.id)
  }

  /** Every well-formed transaction is decoded from its own columns. */
  lemma RowRoundTrip(tx: Transaction)
    requires WellFormed(tx.action)
    ensures var (t, amount, client, id) := ToRow(tx);
            FromRow(t, amount, client, id) == Success(tx)
  {
  }

  /** A decoded row determines its columns: decoding is injective and only yields well-formed transactions. */
  lemma RowDecodeInjective(t: ActionType, amount: Option<Money>, client: Client, id: TxId)
    requires FromRow(t, amount, client, id).Success?
    ensures WellFormed(FromRow(t, amount, client, id).value.action)
    ensures ToRow(FromRow(t, amount, client, id).value) == (t, amount, client, id)
  {
  }

  /** A decoded row is accepted exactly when the amount column matches what its type carries. */
  lemma RowAccepted(t: ActionType, amount: Option<Money>, client: Client, id: TxId)
    ensures FromRow(t, amount, client, id).Success? <==>
              if CarriesAmount(t) then amount.Some? && !IsNegative(amount.value) else amount.None?
  {
  }
}
