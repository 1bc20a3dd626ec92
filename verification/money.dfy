/**
 * The fixed-point `Money` type of src/account/money.rs: a signed count of
 * ten-thousandths held in a Rust `i64`, with exact arithmetic that aborts
 * instead of wrapping, and the ordering derived from the inner integer.
 */
module Money {

  /** Bounds of Rust's `i64`, the money's inner representation (`MoneyInner`). */
  const I64_MIN: int := -0x8000_0000_0000_0000
  const I64_MAX: int := 0x7FFF_FFFF_FFFF_FFFF

  predicate InI64(x: int) {
    I64_MIN <= x <= I64_MAX
  }

  type I64 = x: int | InI64(x)

  /** Number of inner units in one whole unit of money: four decimal places. */
  const ONE_MONEY: int := 10000

  /** `Money(i64)`: `units` ten-thousandths of a whole unit. */
  datatype Money = Money(units: I64)

  const ZERO: Money := Money(0)

  predicate IsNegative(m: Money) {
    m.units < 0
  }

  predicate IsPositive(m: Money) {
    m.units > 0
  }

  /** The derived `Ord`: money compares as its inner integer. */
  predicate Less(a: Money, b: Money) {
    a.units < b.units
  }

  predicate LessEq(a: Money, b: Money) {
    a.units <= b.units
  }

  /**
   * `a + b` uses `checked_add(..).unwrap()`, so it panics rather than wrap:
   * the sum must stay inside `i64`.
   */
  function Add(a: Money, b: Money): (r: Money)
    requires InI64(a.units + b.units)
    ensures Less(a, r) <==> IsPositive(b)
    ensures Less(r, a) <==> IsNegative(b)
  {
    Money(a.units + b.units)
  }

  /** `a - b` uses `checked_sub(..).unwrap()`, with the same abort-on-overflow rule. */
  function Sub(a: Money, b: Money): (r: Money)
    requires InI64(a.units - b.units)
    ensures Less(r, a) <==> IsPositive(b)
    ensures Less(a, r) <==> IsNegative(b)
  {
    Money(a.units - b.units)
  }

  /** Subtraction undoes addition exactly: nothing is rounded or wrapped. */
  lemma AddThenSub(a: Money, b: Money)
    requires InI64(a.units + b.units)
    ensures Sub(Add(a, b), b) == a
  {
  }

  /** Addition undoes subtraction exactly. */
  lemma SubThenAdd(a: Money, b: Money)
    requires InI64(a.units - b.units)
    ensures Add(Sub(a, b), b) == a
  {
  }

  /** ZERO is the identity of addition and subtraction, and adding commutes. */
  lemma AddLaws(a: Money, b: Money)
    requires InI64(a.units + b.units)
    ensures Add(a, ZERO) == a && Sub(a, ZERO) == a
    ensures Add(a, b) == Add(b, a)
  {
  }

  /**
   * `is_negative` agrees with the derived ordering against ZERO; the account
   * code tests `new_available < Money::ZERO` where the transaction code calls
   * `is_negative`, and the two tests mean the same thing.
   */
  lemma IsNegativeIsBelowZero(m: Money)
    ensures IsNegative(m) <==> Less(m, ZERO)
    ensures IsPositive(m) <==> Less(ZERO, m)
    ensures !IsNegative(m) <==> LessEq(ZERO, m)
  {
  }

  /** The derived ordering is a total order, and `Less` is its strict part. */
  lemma OrderIsTotal(a: Money, b: Money, c: Money)
    ensures LessEq(a, a)
    ensures LessEq(a, b) && LessEq(b, a) ==> a == b
    ensures LessEq(a, b) && LessEq(b, c) ==> LessEq(a, c)
    ensures LessEq(a, b) || LessEq(b, a)
    ensures Less(a, b) <==> LessEq(a, b) && a != b
  {
  }
}
