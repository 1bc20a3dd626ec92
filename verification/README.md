# payment_toy ledger core in Dafny

This project models the ledger core of payment_toy, a Rust program that reads
a CSV file of transactions and replays it in order. Each transaction is a
deposit, a withdrawal, a dispute, a resolve or a chargeback. The program keeps
one account per client and prints the final balances. The model covers five
parts of the program:

- `Money` (module `Money`, src/account/money.rs): a signed 64-bit count of
  ten-thousandths. Addition and subtraction abort on overflow.
- `visit_str` (module `MoneyParse`, src/account/money.rs:77-122): the parser
  for decimal text such as `-1.2345`. It is modelled in two layers:
  - `SplitParts` does the text analysis, which is the only step that can fail;
  - `Units` does the arithmetic: scaling, the per-character rounding loop, and
    carrying the sign of the whole part onto the fraction.
- `Transaction` (module `Transaction`, src/account/transaction.rs): the five
  actions. It also models the rule that turns a row's `type` and optional
  `amount` columns into a transaction.
- The transaction history (module `TxHistory`, src/account/tx_history.rs):
  one record per completed deposit or withdrawal, keyed by transaction id and
  shared by every client.
- `Account` and `process_transaction` (module `Account`,
  src/account/mod.rs:46-153), with the eight errors of mod.rs:173-190.

The processing loop of src/main.rs:27-37 is module `Ledger`. It is a left fold
over the decoded rows with these rules:

- an account is created on first use;
- every account shares one history;
- a refused transaction is ignored;
- a row that fails to decode ends the run with that row's error.

Module `Conservation` proves the invariant this loop keeps. Module `Scenarios`
states what the loop leaves after whole short inputs.

Module `Wrappers` holds `Option` and `Result`. They model Rust's `Option`, and
`Result` in the places where the source returns one.

Amounts are in ten-thousandths throughout. For example, 100.0000 is `Money(100_0000)`.

## Model

| member | source | states |
|---|---|---|
| Money.Add | src/account/money.rs:142-148 | The sum is defined only inside `i64`, since `checked_add(..).unwrap()` panics instead of wrapping. The result exceeds the left operand exactly when the right one is positive, and falls below it exactly when the right one is negative. |
| Money.Sub | src/account/money.rs:149-155 | Difference within `i64` only. The result falls below the left operand exactly when the right one is positive, and exceeds it exactly when the right one is negative. |
| Money.AddThenSub | src/account/money.rs:142-155 | Subtracting what was added gives back the original amount exactly, with no rounding and no wrap. |
| Money.SubThenAdd | src/account/money.rs:142-155 | Adding back what was subtracted gives back the original amount exactly. |
| Money.AddLaws | src/account/money.rs:18 | ZERO is the identity of addition and subtraction, and addition commutes. |
| Money.IsNegativeIsBelowZero | src/account/money.rs:26-32 | `is_negative` holds exactly when the amount is below ZERO in the derived order, and `is_positive` exactly when it is above. So the account's `new_available < Money::ZERO` and the decoder's `is_negative` are the same test. |
| Money.OrderIsTotal | src/account/money.rs:14-15 | The derived `PartialOrd`/`Ord` is reflexive, antisymmetric, transitive and total, and `<` is its strict part. |
| MoneyParse.ParseI64 | src/account/money.rs:94 | Rust's `i64::from_str`. When it succeeds, the text is an optional sign followed by one or more digits, and unsigned text gives a non-negative value. |
| MoneyParse.ParseUnsigned | src/account/money.rs:93-95 | A run of digits parses to its decimal value exactly when that value fits in `i64`. |
| MoneyParse.ParseNegated | src/account/money.rs:113 | `-` followed by digits parses to the negated value exactly when it fits, so `i64::MIN` is included. |
| MoneyParse.SplitOnce | src/account/money.rs:81 | `split_once('.')` returns nothing exactly when there is no '.'. Otherwise it returns the text before the first '.' (which has no '.') and the text after it, and these rebuild the input. |
| MoneyParse.ParseMoney | src/account/money.rs:77-122 | Text without a '.' parses exactly when it is an `i64`, and is worth that many whole units. With a '.', the `SignedFraction` error happens exactly when the text after the first '.' starts with '-'. A non-empty fraction that is not an integer is `NotAnInteger`. So is a whole part that is not an integer, unless it is empty or a bare "-" before a non-empty fraction. In every other case the parse succeeds. A result is never positive when the text starts with '-', and never negative otherwise. |
| MoneyParse.WithoutDot | src/account/money.rs:116-119 | Text without a '.' fails exactly when it is not an `i64`. Otherwise it is worth that many whole units. |
| MoneyParse.ZeroTexts | src/account/money.rs:273-277 | "0" and "-0" both give ZERO. |
| MoneyParse.NegativeWholePart | src/account/money.rs:103-114 | For digit-only `w` and `d`, "-w.d" succeeds exactly when "w.d" does, and gives the negated value. This includes an empty `w`, so "-.d" is the negation of ".d". On failure both fail as non-integers. |
| MoneyParse.NegativeInteger | src/account/money.rs:116-119 | Without a '.', "-n" succeeds exactly when "n" does, and gives the negated value. |
| MoneyParse.NegatedUnits | src/account/money.rs:105-121 | Negating the whole part and moving its sign onto the fraction negates the final count. |
| MoneyParse.EmptyFraction | src/account/money.rs:89-91 | An empty fraction is 0. Appending a '.' to text without one gives the same result or the same error. |
| MoneyParse.SignedFractionRejected | src/account/money.rs:83-88 | A fraction that starts with '-' is rejected with the fraction-sign error, whatever surrounds it. |
| MoneyParse.SecondDotRejected | src/account/money.rs:93-95 | Any second '.' makes the parse fail, because the text after the first '.' must be an integer. |
| MoneyParse.DotIsNotAnInteger | src/account/money.rs:93-95 | Text that contains a '.' is never an `i64`. |
| MoneyParse.ShortFractionExact | src/account/money.rs:97-102 | With one to four fraction digits, "w.d" succeeds exactly when `w` fits in `i64`. Its value is exactly `w * 10000 + d * 10^(4 - \|d\|)`, with no rounding. |
| MoneyParse.FractionScaling | src/account/money.rs:97-102 | The scale-then-loop computation divides exactly for the first four fraction characters. Each later character costs one add-5-and-divide step on the value as written. |
| MoneyParse.RoundStepsOfScaled | src/account/money.rs:99-102 | On a value scaled by `10^j`, the first `j` rounding steps are exact divisions. |
| MoneyParse.TrailingZeros | src/account/money.rs:97-102 | Trailing zeros in the fraction never change the result, as long as the padded fraction still fits once scaled. |
| MoneyParse.EquivalentFractions | src/account/money.rs:89-121 | Two digit-only fractions that scale and round to the same units give the same result after the same whole part. |
| MoneyParse.PaddedFractionUnits | src/account/money.rs:97-102 | A fraction padded with `k` zeros scales and rounds to the same units as the unpadded one. |
| MoneyParse.FractionSwap | src/account/money.rs:89-115 | In the text analysis the fraction only contributes its value and its length. Any two non-empty fractions that parse lead to the same outcome, apart from those two fields. |
| MoneyParse.DigitDecimal | src/account/money.rs:89-115 | The text analysis of "w.d", for digit-only sides. It fails exactly when both sides are empty or a present side does not fit in `i64`. Otherwise the parts are the two values and the fraction's length. |
| MoneyParse.NegatedDigitDecimal | src/account/money.rs:89-115 | The same for "-w.d": the whole part is negated, the fraction is marked negative, and "-" alone counts as 0 before a fraction. |
| MoneyParse.SmallDecimal | src/account/money.rs:89-121 | For digit runs of at most 14 characters, not both empty, "w.d" never overflows. It is worth `w * 10000` plus the rounded fraction. |
| MoneyParse.SmallNegatedDecimal | src/account/money.rs:89-121 | The same for "-w.d", whose value is the negation of that of "w.d". |
| MoneyParse.DecimalValue | src/account/money.rs:89-121 | For digit-only `w` and `d` of any length, with the scaling in range, "w.d" parses exactly when the two sides are not both empty and each fits in `i64`. It is then worth `w * 10000` plus the fraction after the rounding loop. |
| MoneyParse.NegatedDecimalValue | src/account/money.rs:89-121 | The same for "-w.d": the whole part may reach `i64::MIN`, and the value is the negation of `w * 10000` plus the rounded fraction. |
| MoneyParse.OneTenth | src/account/money.rs:202-208 | "0.1" is `ONE_MONEY / 10`. |
| MoneyParse.OneHundredth | src/account/money.rs:210-216 | "0.01" is `ONE_MONEY / 100`. |
| MoneyParse.OneThousandth | src/account/money.rs:218-224 | "0.001" is `ONE_MONEY / 1000`. |
| MoneyParse.OneTenThousandth | src/account/money.rs:226-232 | "0.0001" is one ten-thousandth. |
| MoneyParse.OneHundredThousandth | src/account/money.rs:234-240 | "0.00001" is ZERO, because a fifth digit below 5 is dropped. |
| MoneyParse.NineHundredThousandths | src/account/money.rs:242-248 | "0.00009" rounds up to one ten-thousandth. |
| MoneyParse.DoubleRounding | src/account/money.rs:99-102 | Each dropped character is rounded separately, so "0.000049" gives one ten-thousandth, not zero. |
| MoneyParse.Halves | src/account/money.rs:250-266 | "0.5" followed by up to thirteen zeros is always half of `ONE_MONEY`. |
| MoneyParse.NegativeZeroWhole | src/account/money.rs:178-184 | "-0.1234" is -1234 ten-thousandths. The sign survives a whole part of 0. |
| MoneyParse.NegativeEmptyWhole | src/account/money.rs:186-192 | "-.1234" is -1234 ten-thousandths. |
| MoneyParse.NegativeOneWhole | src/account/money.rs:194-200 | "-1.2345" is -12345 ten-thousandths. |
| MoneyParse.BlankZeros | src/account/money.rs:270-276 | "0.0", "0.", ".0", "-0.0", "-0." and "-.0" all give ZERO. |
| MoneyParse.BlankErrors | src/account/money.rs:278-282 | "", "-", "." and "-." all fail as non-integers. |
| MoneyParse.EmptySides | src/account/money.rs:108-114 | With no whole digits and an empty fraction, the '.' does not make the text a decimal, and the parse fails. |
| MoneyParse.BlankSecondDot | src/account/money.rs:280-283 | ".0." and "-.0." fail. |
| MoneyParse.PlusInFraction | src/account/money.rs:89-102 | "0.+5" parses, and its '+' counts as a fraction position, so the result is 500 ten-thousandths. |
| Transaction.NewDeposit | src/account/transaction.rs:112-115 | A deposit built from a non-negative amount is well formed and carries that amount. |
| Transaction.NewWithdrawal | src/account/transaction.rs:116-119 | A withdrawal built from a non-negative amount is well formed and carries that amount. |
| Transaction.FromRow | src/account/transaction.rs:60-97 | Each error happens exactly in its own case. A missing amount is an error for a deposit or withdrawal. A negative amount is an error for a deposit or withdrawal. Any amount is an error for the other three types. A decoded transaction is well formed and keeps the row's type, amount, client and id. |
| Transaction.RowRoundTrip | src/account/transaction.rs:60-108 | Every well-formed transaction decodes from its own columns. |
| Transaction.RowDecodeInjective | src/account/transaction.rs:60-97 | Decoding is injective: a decoded transaction gives back the columns it came from, and is well formed. |
| Transaction.RowAccepted | src/account/tests.rs:107-204 | A row is accepted exactly when its amount column matches its type. Deposits and withdrawals need a non-negative amount, and the other types need none. |
| TxHistory.Record | src/account/tx_history.rs:10-29 | Recording succeeds exactly when the id is new. It then adds only that id, as an undisputed record of the given kind and amount, and keeps every other record. |
| TxHistory.PastTransaction | src/account/tx_history.rs:31-33 | The lookup finds a record exactly when the id is present, and that record is the stored one. |
| TxHistory.Amend | src/account/tx_history.rs:31-33 | Writing through the returned reference changes only that record, and adds or removes no id. |
| TxHistory.RecordThenLookup | src/account/tx_history.rs:10-33 | A recorded transaction is found again, unchanged and undisputed. |
| TxHistory.RecordKeepsOthers | src/account/tx_history.rs:16-28 | Recording never changes what another id looks up. |
| TxHistory.RecordOnce | src/account/tx_history.rs:19 | An id can be recorded only once, whatever the second record carries. |
| TxHistory.AmendThenLookup | src/account/tx_history.rs:31-33 | After an amendment, the lookup returns the amended record, and other ids look up as before. |
| Account.New | src/account/mod.rs:55-62 | A new account belongs to the given client, has nothing available, holds nothing and is not locked. |
| Account.Total | src/account/mod.rs:63-65 | The total is available plus held, so subtracting either part gives the other. |
| Account.TotalOfNew | src/account/mod.rs:55-65 | A new account's total is ZERO. |
| Account.TotalSimpleAddition | src/account/tests.rs:206-213 | 120.0000 available plus 3.4567 held is 123.4567. |
| Account.TotalNegativeAvailable | src/account/tests.rs:215-223 | -120.0000 available plus 360.0000 held is 240.0000. |
| Account.ProcessDeposit | src/account/mod.rs:73-84 | A locked account refuses the deposit. Otherwise a reused id is refused as a duplicate. Otherwise the deposit succeeds: the amount is added to the available funds and the deposit is recorded. Each outcome happens exactly in its own case. |
| Account.ProcessWithdrawal | src/account/mod.rs:85-100 | Checks run in this order: the lock; then insufficient funds, when the amount exceeds the available funds; then a duplicate id. Each outcome happens exactly in its own case. On success the amount is taken from the available funds, which stay non-negative, and the withdrawal is recorded. |
| Account.ProcessDispute | src/account/mod.rs:101-121 | An unknown id, a withdrawal or a record already in dispute is each refused with its own error. Otherwise the amount moves from available to held (available may go negative) and the record is marked disputed. Neither the lock nor the client is checked. |
| Account.ProcessResolve | src/account/mod.rs:122-134 | An unknown id or an undisputed record is refused. Otherwise the amount moves from held back to available and the dispute is cleared. |
| Account.ProcessChargeback | src/account/mod.rs:135-150 | An unknown id or an undisputed record is refused. Otherwise the amount leaves the held funds, the account is locked, and the record's amount becomes ZERO while it stays disputed. |
| Account.ProcessTransaction | src/account/mod.rs:66-153 | Every refusal carries the transaction's id and changes nothing. The client never changes and a lock is never lifted. A successful deposit or withdrawal adds exactly its id to the history. The other actions add no id. |
| Account.FundsAfter | src/account/mod.rs:66-153 | After any transaction, available plus held changes by exactly the deposit, minus the withdrawal, or minus the amount charged back. It does not change on a refusal, a dispute or a resolve. |
| Account.LockedRefusesFunds | src/account/mod.rs:73-88 | A locked account refuses every deposit and withdrawal with `AccountLockedFundsFrozen`, and nothing changes. |
| Account.LockIgnoredByDisputes | src/account/mod.rs:101-150 | Disputes, resolves and chargebacks have the same outcome and effect on a locked account as on the same account unlocked. |
| Account.OnlyChargebackLocks | src/account/mod.rs:135-150 | After a transaction the account is locked exactly when it was locked before or a chargeback succeeded. |
| Account.RepeatIsRefused | src/account/tests.rs:52-78 | Reprocessing an accepted deposit or withdrawal is refused and changes nothing. It is refused as a duplicate unless a repeated withdrawal already fails the funds check. |
| Account.DisputeThenResolve | src/account/mod.rs:101-134 | A dispute followed by a resolve of the same deposit restores the account and the history exactly. |
| Account.DisputeTwice | src/account/mod.rs:114-116 | A second dispute of the same deposit, with no resolve between, is refused as `DuplicateDispute` and changes nothing. |
| Account.ChargebackTwice | src/account/mod.rs:146-148 | After a chargeback, a second chargeback of the same id is accepted but moves nothing, because the record was zeroed. |
| Account.ZeroedRecordMovesNothing | src/account/mod.rs:146-148 | Once a record's amount is ZERO, disputes, resolves and chargebacks that name it leave available and held as they are. |
| Ledger.Apply | src/main.rs:31-36 | One turn of the loop creates the client's account if it is missing and leaves every other account alone. No history record is removed. The client's account and the history become those `process_transaction` leaves, and the outcome is dropped. |
| Ledger.Replay | src/main.rs:29-37 | After the loop over decoded rows, exactly the clients named have gained accounts. Accounts of other clients are untouched, and the history only grows. |
| Ledger.Values | src/main.rs:30 | The transactions of rows that all decoded, in order. |
| Ledger.Run | src/main.rs:29-37 | The run succeeds exactly when every row decodes. Otherwise it ends with the error of a row that failed to decode. |
| Ledger.RunAllDecoded | src/main.rs:29-37 | When every row decodes, the run is the replay of the decoded transactions in input order. |
| Ledger.RunStopsAtFirstError | src/main.rs:30 | The run ends with the error of the first row that fails to decode. |
| Ledger.ReplayAppend | src/main.rs:29-37 | Replaying a concatenation is replaying the first part, then the second part from where the first stopped. |
| Ledger.ReplayLast | src/main.rs:29-37 | The loop is a left fold: the last transaction is applied to the ledger the earlier ones left. |
| Ledger.RefusedLeavesOnlyAccount | src/main.rs:32-36 | A refused transaction leaves the history unchanged. It leaves the ledger unchanged, or adds only a fresh zero account for a client seen for the first time. |
| Ledger.OnlyOwnAccount | src/main.rs:32-36 | A transaction never creates or changes another client's account. |
| Conservation.TransactionBalanced | src/account/mod.rs:66-153 | Each well-formed transaction changes held funds as much as it changes the sum of disputed amounts. It changes available plus held as much as it changes the sum of signed recorded amounts. The records stay sound. |
| Conservation.ApplyConsistent | src/main.rs:31-36 | One turn of the loop keeps the ledger invariant. Summed over all accounts, held equals the disputed amounts and funds equal deposits minus withdrawals minus chargebacks. |
| Conservation.ReplayConsistent | src/main.rs:29-37 | The loop keeps that invariant over any sequence of well-formed transactions. |
| Conservation.HeldSumNonNegative | src/account/mod.rs:101-150 | Summed over all accounts, held funds are never negative. A single account's held funds can be, as `Scenarios.CrossClientResolve` shows. |
| Conservation.OwnHistoryHeld | src/account/mod.rs:101-150 | For one client replaying only its own transactions, its held funds are exactly its disputed deposits, and so never negative. |
| Scenarios.DepositThenWithdraw | src/main.rs:29-37 | Depositing 100 then withdrawing 30 leaves 70 available, nothing held, and the account unlocked. |
| Scenarios.DepositThenDispute | src/account/mod.rs:101-121 | Depositing 100 then disputing it leaves nothing available and 100 held. |
| Scenarios.ChargebackLocksAndKeepsId | src/account/mod.rs:73-150 | A deposit, dispute and chargeback lock the account. A later deposit under the same id by another client is a duplicate, and a new deposit by the locked client is refused. |
| Scenarios.WithdrawFromEmpty | src/account/mod.rs:90-93 | Withdrawing 50 from a new account is refused for insufficient funds, and leaves a fresh zero account. |
| Scenarios.CrossClientResolve | src/account/mod.rs:122-134 | A client can resolve another client's dispute. The amount moves into the resolving client's available funds and leaves that client holding minus the amount. |

## Left out

- The command line, file reading, the CSV reader and its trimming and flexible rows, and the report written to stdout. The model starts from the decoded rows and ends with the ledger. The order in which the report lists accounts is not modelled.
- serde itself, including `Transaction::deserialize` beyond the un-flattening step (transaction.rs:60-97), `Money`'s `Serialize`, `Display`, `Debug` and `to_f64`, and `set_sign_negative` (a test helper). A blank `amount` cell reaching the decoder as `None` is taken as given.
- src/account/mod.rs:15-43 declares a second `Money`, backed by `rust_decimal`, which the account code uses. The `i64` `Money` of money.rs is used everywhere instead, including for account arithmetic. Both abort on overflow rather than wrap. The `rust_decimal` value keeps the scale of its input text, up to 28 decimal places, without `visit_str`'s per-character rounding, and its range reaches about 7.9e28. The `i64` `Money` keeps four decimal places and about 9.2e14 whole units. So the model is narrower than the code as written, in both precision and range.
- MoneyParse.ParseMoney: `fraction * ONE_MONEY` (money.rs:97) and `whole * ONE_MONEY + fraction` (money.rs:121) are unchecked in the source. A debug build panics on overflow there, and a release build wraps. The model's requirement `NoParseOverflow` applies only to texts whose analysis succeeds, and for those it demands that the products and the sum stay in range, so wrapped values are not modelled. A text whose analysis fails gets that failure even when the scaling at money.rs:97 overflows first. An example is "x.999999999999999999", whose whole part is parsed only at money.rs:113. The model gives `NotAnInteger` for it, as a release build does, while a debug build panics at money.rs:97. The `+ 5` in the rounding loop cannot overflow once the product is in range.
- MoneyParse.ParseI64: the kinds of `ParseIntError` (empty, invalid digit, overflow) are merged into one error, `NotAnInteger`, because the model keeps only which check failed. money.rs:67 formats each error's own text into the message `"error parsing as integer: {}"`, so the message does distinguish the kinds.
- MoneyParse.ParseMoney: the loop runs once per byte of the fraction (`fraction_s.len()`). The model counts characters. The two agree whenever the fraction parses, because `i64::from_str` accepts only ASCII.
- MoneyParse.Halves: it covers "0.5" followed by up to thirteen zeros. The source's test stops at six. Longer fractions need the general `TrailingZeros`, which carries an in-range requirement.
- MoneyParse.ParseMoney: for text with a '.', its own contract states when the parse succeeds and the sign of the result, but not the value. `MoneyParse.DecimalValue` and `MoneyParse.NegatedDecimalValue` give the value for digit-only sides. Sides with a '+' have only the text analysis and the example `MoneyParse.PlusInFraction`.
- MoneyParse.SmallDecimal: it is stated for at most 14 digits on each side, where no overflow can occur. `MoneyParse.DecimalValue` and `MoneyParse.NegatedDecimalValue` give the value for digit runs of any length, under `NoParseOverflow`.
- Account.ProcessTransaction: the source panics when an addition or subtraction overflows `i64`. The model requires `NoOverflow`, which names exactly the arithmetic each branch reaches, so an aborted run is not modelled.
- Ledger.Run: a run that would abort on overflow has no model result. `CanRun` and `CanReplay` exclude it.
- The test at src/account/tests.rs:23-50 expects a locked account to accept a deposit and a withdrawal. The code at mod.rs:74-76 and 86-88 refuses both, so the model follows the code (`Account.LockedRefusesFunds`).
- Exact round-half-up would give zero for "0.000049". The code's loop rounds once per dropped character and gives one ten-thousandth, and the model follows the code (`MoneyParse.DoubleRounding`).
- Disputes, resolves and chargebacks are not checked against the client of the deposit they name, and they ignore the lock. The model keeps this behaviour rather than adding checks the source lacks.
- The CSV test with shuffled column order (src/account/tests.rs:89-105) and its random generator are outside the model, because column order belongs to the CSV reader.
