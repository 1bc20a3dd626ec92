/**
 * The textual parser of src/account/money.rs (`visit_str`): `[-]INT[.FRAC]`
 * into a count of ten-thousandths.
 *
 * The parser is modelled in two layers that follow the source's own order of
 * work. `SplitParts` does everything that can fail with an error: it splits at
 * the first '.', rejects a fraction that starts with '-', parses the fraction
 * and the whole part with Rust's `i64::from_str`, and applies the rule that an
 * empty or bare "-" whole part means 0 when a fraction follows. `Units` then
 * does the arithmetic: scale the fraction by 10000, run the add-5-divide-by-10
 * loop once per fraction character, carry the whole part's sign onto the
 * fraction, and add `whole * 10000`.
 */
module MoneyParse {
  import opened Wrappers
  import opened Money

  /** The two errors `visit_str` reports. */
  datatype MoneyError =
    | SignedFraction   // "invalid digit after decimal point": the fraction starts with '-'
    | NotAnInteger     // "error parsing as integer": an `i64::from_str` sub-parse failed

  predicate IsDigit(c: char) {
    '0' <= c <= '9'
  }

  predicate AllDigits(s: string) {
    forall i | 0 <= i < |s| :: IsDigit(s[i])
  }

  function DigitValue(c: char): nat
    requires IsDigit(c)
  {
    (c as int) - ('0' as int)
  }

  /** The value of a run of decimal digits, most significant first. */
  function DigitsValue(s: string): nat
    requires AllDigits(s)
    decreases |s|
  {
    if s == [] then 0 else 10 * DigitsValue(s[..|s| - 1]) + DigitValue(s[|s| - 1])
  }

  function Pow10(n: nat): (p: nat)
    ensures p >= 1
  {
    if n == 0 then 1 else 10 * Pow10(n - 1)
  }

  predicate StartsWith(s: string, c: char) {
    |s| > 0 && s[0] == c
  }

  /** An optional sign followed by one or more ASCII digits. */
  predicate IntegerText(s: string) {
    && |s| > 0
    && (s[0] == '+' || s[0] == '-' || IsDigit(s[0]))
    && (s[0] == '+' || s[0] == '-' ==> |s| > 1)
    && forall i | 0 < i < |s| :: IsDigit(s[i])
  }

  /**
   * Rust's `i64::from_str`: an optional '+' or '-', then one or more ASCII
   * digits, whose signed value must fit in `i64`. The kind of failure (empty
   * text, invalid digit, overflow) is not distinguished.
   */
  function ParseI64(s: string): (r: Option<I64>)
    ensures r.Some? ==> IntegerText(s)
    ensures r.Some? && !StartsWith(s, '-') ==> r.value >= 0
    ensures r.Some? && StartsWith(s, '-') ==> r.value <= 0
  {
    if s == [] then None
    else
      var digits := if s[0] == '+' || s[0] == '-' then s[1..] else s;
      if digits == [] || !AllDigits(digits) then None
      else
        var n: int := if s[0] == '-' then -(DigitsValue(digits) as int) else DigitsValue(digits);
        if InI64(n) then Some(n) else None
  }

  /** Position of the first `c` in `s`, or `|s|` when there is none. */
  function FirstIndexOf(s: string, c: char): (i: nat)
    ensures i <= |s|
    ensures i < |s| ==> s[i] == c
    ensures forall j | 0 <= j < i :: s[j] != c
  {
    if s == [] then 0 else if s[0] == c then 0 else 1 + FirstIndexOf(s[1..], c)
  }

  /** Rust's `str::split_once(c)`: the text before and after the first `c`. */
  function SplitOnce(s: string, c: char): (r: Option<(string, string)>)
    ensures r.None? <==> c !in s
    ensures r.Some? ==> c !in r.value.0 && s == r.value.0 + [c] + r.value.1
  {
    var i := FirstIndexOf(s, c);
    if i == |s| then None else Some((s[..i], s[i + 1..]))
  }

  /**
   * What the text analysis of `visit_str` yields: the parsed whole part, whether
   * the whole part's text starts with '-', the parsed fraction and the number
   * of characters in the fraction's text.
   */
  datatype Parts = Parts(whole: I64, negative: bool, fraction: nat, digits: nat)

  function SplitParts(v: string): Result<Parts, MoneyError> {
    match SplitOnce(v, '.')
    case None => IntegerParts(v)
    case Some((whole, fraction)) => DecimalParts(whole, fraction)
  }

  /** Text without a '.': one `i64::from_str`, no fraction. */
  function IntegerParts(v: string): Result<Parts, MoneyError> {
    match ParseI64(v)
    case None => Failure(NotAnInteger)
    case Some(w) => Success(Parts(w, false, 0, 0))
  }

  /**
   * The text around the first '.': the fraction is checked for a leading '-'
   * and parsed first, then the whole part.
   */
  function DecimalParts(whole: string, fraction: string): Result<Parts, MoneyError> {
    if StartsWith(fraction, '-') then Failure(SignedFraction)
    else
      match FractionValue(fraction)
      case None => Failure(NotAnInteger)
      case Some(f) =>
        match WholeValue(whole, fraction)
        case None => Failure(NotAnInteger)
        case Some(w) => Success(Parts(w, StartsWith(whole, '-'), f, |fraction|))
  }

  /** An empty fraction is 0; otherwise it must be an integer, which cannot be negative here. */
  function FractionValue(fraction: string): Option<nat>
    requires !StartsWith(fraction, '-')
  {
    if fraction == [] then Some(0)
    else
      match ParseI64(fraction)
      case None => None
      case Some(n) => Some(n)
  }

  /** "-" and "" are a valid whole part (worth 0) only when a fraction follows. */
  function WholeValue(whole: string, fraction: string): Option<I64> {
    if (whole == "-" || whole == []) && fraction != [] then Some(0) else ParseI64(whole)
  }

  /**
   * The loop of money.rs:99-102: `steps` times, add 5 and divide by 10. The
   * value is never negative here, so Rust's truncating division and Dafny's
   * Euclidean division agree.
   */
  function RoundSteps(x: nat, steps: nat): nat
    decreases steps
  {
    if steps == 0 then x else RoundSteps((x + 5) / 10, steps - 1)
  }

  /** `fraction *= ONE_MONEY` followed by the rounding loop, one step per fraction character. */
  function FractionUnits(fraction: nat, digits: nat): nat {
    RoundSteps(fraction * ONE_MONEY, digits)
  }

  function Units(p: Parts): int {
    var f: int := FractionUnits(p.fraction, p.digits);
    p.whole * ONE_MONEY + (if p.negative then -f else f)
  }

  /** The products and the final sum of `visit_str` stay inside `i64`. */
  predicate PartsFit(p: Parts) {
    && InI64(p.fraction * ONE_MONEY)
    && InI64(p.whole * ONE_MONEY)
    && InI64(Units(p))
  }

  /**
   * The source computes `fraction * ONE_MONEY` and `whole * ONE_MONEY + fraction`
   * unchecked; the model only admits texts for which these do not overflow.
   */
  predicate NoParseOverflow(v: string) {
    SplitParts(v).Success? ==> PartsFit(SplitParts(v).value)
  }

  /**
   * `visit_str`. Text without a '.' is an `i64` count of whole units. With a
   * '.', a fraction whose text starts with '-' is the one `SignedFraction`
   * error, a fraction or a whole part that is not an integer is `NotAnInteger`
   * (an empty fraction, and an empty or bare "-" whole part before a
   * fraction, are allowed); otherwise it succeeds, with the sign of the text.
   */
  function ParseMoney(v: string): (r: Result<Money, MoneyError>)
    requires NoParseOverflow(v)
    ensures '.' !in v ==> (r.Success? <==> ParseI64(v).Some?)
    ensures '.' !in v && r.Success? ==> r.value.units == ParseI64(v).value * ONE_MONEY
    ensures r == Failure(SignedFraction) <==> '.' in v && StartsWith(SplitOnce(v, '.').value.1, '-')
    ensures '.' in v ==>
              var (whole, fraction) := SplitOnce(v, '.').value;
              !StartsWith(fraction, '-') && fraction != [] && ParseI64(fraction).None? ==> r == Failure(NotAnInteger)
    ensures '.' in v ==>
              var (whole, fraction) := SplitOnce(v, '.').value;
              && !StartsWith(fraction, '-') && ParseI64(whole).None?
              && !((whole == [] || whole == "-") && fraction != [])
              ==> r == Failure(NotAnInteger)
    ensures '.' in v ==>
              var (whole, fraction) := SplitOnce(v, '.').value;
              && !StartsWith(fraction, '-')
              && (fraction == [] || ParseI64(fraction).Some?)
              && (ParseI64(whole).Some? || ((whole == [] || whole == "-") && fraction != []))
              ==> r.Success?
    ensures r.Success? && StartsWith(v, '-') ==> r.value.units <= 0
    ensures r.Success? && !StartsWith(v, '-') ==> r.value.units >= 0
  {
    match SplitParts(v)
    case Failure(e) => Failure(e)
    case Success(p) => Success(Money(Units(p)))
  }

  // ---------------------------------------------------------------------------
  // Splitting and integer sub-parses
  // ---------------------------------------------------------------------------

  /** Splitting text that has exactly one separator before `f` gives back both halves. */
  lemma SplitOnceAt(w: string, c: char, f: string)
    requires c !in w
    ensures SplitOnce(w + [c] + f, c) == Some((w, f))
  {
    var s := w + [c] + f;
    assert s[|w|] == c;
    var r := SplitOnce(s, c);
    var a := r.value.0;
    assert a == s[..|w|] == w;
    assert r.value.1 == s[|w| + 1..] == f;
  }

  /** Text with one '.' after a '.'-free prefix is analysed as a decimal. */
  lemma SplitDecimal(w: string, f: string)
    requires '.' !in w
    ensures SplitParts(w + "." + f) == DecimalParts(w, f)
  {
    SplitOnceAt(w, '.', f);
  }

  /** Appending one digit multiplies the value so far by ten and adds the digit. */
  lemma DigitsValueSnoc(d: string, x: char)
    requires AllDigits(d) && IsDigit(x)
    ensures AllDigits(d + [x])
    ensures DigitsValue(d + [x]) == 10 * DigitsValue(d) + DigitValue(x)
  {
    assert (d + [x])[..|d|] == d;
  }

  /** An unsigned run of digits parses to its value when that fits in `i64`. */
  lemma ParseUnsigned(d: string)
    requires AllDigits(d) && d != []
    ensures ParseI64(d) == if DigitsValue(d) <= I64_MAX then Some(DigitsValue(d)) else None
  {
  }

  /** A '-' before a run of digits negates its value (and `i64` admits one more negative value). */
  lemma ParseNegated(d: string)
    requires AllDigits(d) && d != []
    ensures ParseI64("-" + d) == if -(DigitsValue(d) as int) >= I64_MIN then Some(-(DigitsValue(d) as int)) else None
  {
    assert ("-" + d)[1..] == d;
  }

  /** A '-' followed by digits has no '.'. */
  lemma NoDotAfterMinus(w: string)
    requires AllDigits(w)
    ensures '.' !in "-" + w
  {
    assert forall i | 1 <= i < |"-" + w| :: ("-" + w)[i] == w[i - 1];
  }

  /** Text with a '.' anywhere is never an integer. */
  lemma DotIsNotAnInteger(s: string)
    requires '.' in s
    ensures ParseI64(s).None?
  {
    var i :| 0 <= i < |s| && s[i] == '.';
  }

  // ---------------------------------------------------------------------------
  // The rounding loop
  // ---------------------------------------------------------------------------

  /**
   * Running the add-5-divide-by-10 loop on a value scaled by `10^j`: the
   * first `j` steps are exact divisions, and only the steps beyond `j` round.
   */
  lemma {:induction false} RoundStepsOfScaled(x: nat, j: nat, k: nat)
    ensures RoundSteps(x * Pow10(j), k) == if k <= j then x * Pow10(j - k) else RoundSteps(x, k - j)
    decreases k
  {
    if k == 0 {
    } else if j == 0 {
      assert x * Pow10(0) == x;
    } else {
      var y := x * Pow10(j - 1);
      assert x * Pow10(j) == 10 * y;
      assert (10 * y + 5) / 10 == y;
      RoundStepsOfScaled(x, j - 1, k - 1);
    }
  }

  lemma {:induction false} Pow10Monotone(a: nat, b: nat)
    requires a <= b
    ensures Pow10(a) <= Pow10(b)
    decreases b
  {
    if a < b {
      Pow10Monotone(a, b - 1);
    }
  }

  lemma MulTen(a: int, b: int)
    ensures a * (10 * b) == 10 * (a * b)
  {
  }

  lemma MulGrows(a: nat, b: nat)
    requires b >= 1
    ensures a <= a * b
  {
  }

  lemma OneMoneyIsPow10()
    ensures ONE_MONEY == Pow10(4)
  {
  }

  /**
   * One to four fraction characters scale exactly to ten-thousandths; each
   * character beyond four is dropped by one add-5-then-divide-by-10 step,
   * applied to the value as written (not exact rounding of the decimal).
   */
  lemma FractionScaling(f: nat, n: nat)
    ensures n <= 4 ==> FractionUnits(f, n) == f * Pow10(4 - n)
    ensures n >= 4 ==> FractionUnits(f, n) == RoundSteps(f, n - 4)
  {
    OneMoneyIsPow10();
    RoundStepsOfScaled(f, 4, n);
  }

  /** A digit-only fraction is its value, when that fits in `i64`; an empty one is 0. */
  lemma DigitFraction(d: string)
    requires AllDigits(d)
    ensures !StartsWith(d, '-')
    ensures FractionValue(d) == if DigitsValue(d) > I64_MAX then None else Some(DigitsValue(d))
  {
    if d != [] {
      assert IsDigit(d[0]);
      ParseUnsigned(d);
    }
  }

  /** A digit-only whole part is its value, when that fits; an empty one is 0 before a fraction. */
  lemma DigitWhole(w: string, d: string)
    requires AllDigits(w)
    ensures !StartsWith(w, '-')
    ensures WholeValue(w, d) == if (w == [] && d == []) || DigitsValue(w) > I64_MAX then None else Some(DigitsValue(w))
  {
    if w != [] {
      assert IsDigit(w[0]);
      ParseUnsigned(w);
    }
  }

  /** The same whole part after a '-': its value negated, and "-" alone is 0 before a fraction. */
  lemma NegatedWhole(w: string, d: string)
    requires AllDigits(w)
    ensures StartsWith("-" + w, '-')
    ensures WholeValue("-" + w, d) == if (w == [] && d == []) || -(DigitsValue(w) as int) < I64_MIN then None else Some(-(DigitsValue(w) as int))
  {
    var nw := "-" + w;
    if w == [] {
      assert nw == "-";
    } else {
      ParseNegated(w);
      assert nw != "-" && nw != [];
    }
  }

  /** The text analysis around the '.' in terms of the two sub-parses. */
  lemma PartsOfValues(whole: string, fraction: string)
    requires !StartsWith(fraction, '-')
    ensures DecimalParts(whole, fraction) ==
              if FractionValue(fraction).None? || WholeValue(whole, fraction).None? then Failure(NotAnInteger)
              else Success(Parts(WholeValue(whole, fraction).value, StartsWith(whole, '-'), FractionValue(fraction).value, |fraction|))
  {
  }

  /**
   * The text analysis of `w.d` where both sides are digits only: it succeeds
   * unless a side that is present does not fit in `i64`, or both are empty.
   */
  lemma DigitDecimal(w: string, d: string)
    requires AllDigits(w) && AllDigits(d)
    ensures (w == [] && d == []) || DigitsValue(w) > I64_MAX || DigitsValue(d) > I64_MAX ==>
              DecimalParts(w, d) == Failure(NotAnInteger)
    ensures !((w == [] && d == []) || DigitsValue(w) > I64_MAX || DigitsValue(d) > I64_MAX) ==>
              DecimalParts(w, d) == Success(Parts(DigitsValue(w), false, DigitsValue(d), |d|))
  {
    DigitFraction(d);
    DigitWhole(w, d);
    PartsOfValues(w, d);
  }

  /** The same with a '-' in front: the whole part is negated and the fraction marked negative. */
  lemma NegatedDigitDecimal(w: string, d: string)
    requires AllDigits(w) && AllDigits(d)
    ensures (w == [] && d == []) || -(DigitsValue(w) as int) < I64_MIN || DigitsValue(d) > I64_MAX ==>
              DecimalParts("-" + w, d) == Failure(NotAnInteger)
    ensures !((w == [] && d == []) || -(DigitsValue(w) as int) < I64_MIN || DigitsValue(d) > I64_MAX) ==>
              DecimalParts("-" + w, d) == Success(Parts(-(DigitsValue(w) as int), true, DigitsValue(d), |d|))
  {
    DigitFraction(d);
    NegatedWhole(w, d);
    PartsOfValues("-" + w, d);
  }

  // ---------------------------------------------------------------------------
  // Properties of visit_str
  // ---------------------------------------------------------------------------

  /** Text without a '.' is an integer count of whole units. */
  lemma WithoutDot(v: string)
    requires '.' !in v
    requires NoParseOverflow(v)
    ensures ParseI64(v).None? ==> ParseMoney(v) == Failure(NotAnInteger)
    ensures ParseI64(v).Some? ==> ParseMoney(v) == Success(Money(ParseI64(v).value * ONE_MONEY))
  {
  }

  /** "0" and "-0" both give ZERO. */
  lemma ZeroTexts()
    ensures NoParseOverflow("0") && ParseMoney("0") == Success(ZERO)
    ensures NoParseOverflow("-0") && ParseMoney("-0") == Success(ZERO)
  {
    ParseUnsigned("0");
    ParseNegated("0");
    WithoutDot("0");
    WithoutDot("-0");
  }

  /**
   * The sign of the whole part carries onto the fraction: putting '-' in front
   * of `w.d` (digits only, either side possibly empty) negates the result and
   * keeps every failure. An empty whole part counts as 0 when a fraction
   * follows, so "-.d" is the negation of ".d".
   */
  lemma NegativeWholePart(w: string, d: string)
    requires AllDigits(w) && AllDigits(d)
    requires NoParseOverflow(w + "." + d) && NoParseOverflow("-" + w + "." + d)
    ensures ParseMoney("-" + w + "." + d).Success? <==> ParseMoney(w + "." + d).Success?
    ensures ParseMoney("-" + w + "." + d).Success? ==>
              ParseMoney("-" + w + "." + d).value.units == -ParseMoney(w + "." + d).value.units
    ensures ParseMoney("-" + w + "." + d).Failure? ==>
              ParseMoney("-" + w + "." + d) == ParseMoney(w + "." + d) == Failure(NotAnInteger)
  {
    var nw := "-" + w;
    NoDotAfterMinus(w);
    SplitDecimal(w, d);
    SplitDecimal(nw, d);
    DigitDecimal(w, d);
    NegatedDigitDecimal(w, d);
    ScaledWholeFits(-(DigitsValue(w) as int));
    if DigitsValue(w) <= I64_MAX && DecimalParts(w, d).Success? {
      NegatedUnits(DecimalParts(w, d).value);
    }
  }

  /** A whole part that survives scaling by `ONE_MONEY` is far from the ends of `i64`. */
  lemma ScaledWholeFits(x: int)
    ensures InI64(x * ONE_MONEY) ==> -I64_MAX <= x <= I64_MAX
  {
  }

  /** Negating the whole part and marking the fraction negative negates the units. */
  lemma NegatedUnits(p: Parts)
    requires !p.negative && InI64(-(p.whole as int))
    ensures Units(p.(whole := -(p.whole as int), negative := true)) == -Units(p)
  {
  }

  /** The same sign rule without a '.': "-n" is the negation of "n". */
  lemma NegativeInteger(w: string)
    requires AllDigits(w) && w != []
    requires NoParseOverflow(w) && NoParseOverflow("-" + w)
    ensures ParseMoney("-" + w).Success? <==> ParseMoney(w).Success?
    ensures ParseMoney("-" + w).Success? ==> ParseMoney("-" + w).value.units == -ParseMoney(w).value.units
  {
    var nw := "-" + w;
    NoDotAfterMinus(w);
    ParseUnsigned(w);
    ParseNegated(w);
    WithoutDot(w);
    WithoutDot(nw);
  }

  /**
   * An empty fraction counts as 0: appending a '.' to text without one never
   * changes the result, success or failure. So "0." and "-0." give ZERO, while
   * "." and "-." fail exactly as "" and "-" do.
   */
  lemma EmptyFraction(w: string)
    requires '.' !in w
    requires NoParseOverflow(w)
    ensures NoParseOverflow(w + ".")
    ensures ParseMoney(w + ".") == ParseMoney(w)
  {
    var v := w + ".";
    assert v == w + "." + "";
    SplitDecimal(w, "");
    assert SplitParts(w) == IntegerParts(w);
    assert FractionUnits(0, 0) == 0;
    match ParseI64(w)
    case None =>
      assert SplitParts(v) == Failure(NotAnInteger);
    case Some(n) =>
      var p := Parts(n, StartsWith(w, '-'), 0, 0);
      assert SplitParts(v) == Success(p);
      assert Units(p) == Units(p.(negative := false));
  }

  /** A fraction whose text starts with '-' is rejected whatever precedes or follows it. */
  lemma SignedFractionRejected(w: string, f: string)
    requires '.' !in w
    ensures NoParseOverflow(w + ".-" + f)
    ensures ParseMoney(w + ".-" + f) == Failure(SignedFraction)
  {
    var signed := "-" + f;
    assert w + ".-" + f == w + "." + signed;
    SplitDecimal(w, signed);
    assert StartsWith(signed, '-');
    assert DecimalParts(w, signed) == Failure(SignedFraction);
  }

  /** A second '.' is always an error: the text after the first must be an integer. */
  lemma SecondDotRejected(w: string, f: string)
    requires '.' !in w && '.' in f
    ensures NoParseOverflow(w + "." + f)
    ensures ParseMoney(w + "." + f).Failure?
  {
    SplitDecimal(w, f);
    DotIsNotAnInteger(f);
  }

  /** One to four fraction digits convert exactly: `w.d` is worth `w + d / 10^|d|` whole units. */
  lemma ShortFractionExact(w: string, d: string)
    requires AllDigits(w) && AllDigits(d) && 1 <= |d| <= 4
    requires NoParseOverflow(w + "." + d)
    ensures ParseMoney(w + "." + d).Success? <==> DigitsValue(w) <= I64_MAX
    ensures ParseMoney(w + "." + d).Success? ==>
              ParseMoney(w + "." + d).value.units == DigitsValue(w) * ONE_MONEY + DigitsValue(d) * Pow10(4 - |d|)
  {
    assert '.' !in w;
    SplitDecimal(w, d);
    DigitDecimal(w, d);
    DigitsBound(d);
    Pow10Monotone(|d|, 4);
    OneMoneyIsPow10();
    FractionScaling(DigitsValue(d), |d|);
  }

  /** A run of digits is below `10^|d|`. */
  lemma {:induction false} DigitsBound(d: string)
    requires AllDigits(d)
    ensures DigitsValue(d) < Pow10(|d|)
    decreases |d|
  {
    if d != [] {
      var p := d[..|d| - 1];
      assert AllDigits(p);
      DigitsBound(p);
    }
  }

  /** `k` characters of zero. */
  function Zeros(k: nat): (z: string)
    ensures |z| == k && AllDigits(z)
  {
    if k == 0 then "" else Zeros(k - 1) + "0"
  }

  lemma {:induction false} DigitsValueZeros(d: string, k: nat)
    requires AllDigits(d)
    ensures AllDigits(d + Zeros(k))
    ensures DigitsValue(d + Zeros(k)) == DigitsValue(d) * Pow10(k)
  {
    if k > 0 {
      var prev := d + Zeros(k - 1);
      DigitsValueZeros(d, k - 1);
      assert d + Zeros(k) == prev + ['0'];
      DigitsValueSnoc(prev, '0');
      assert DigitsValue(d + Zeros(k)) == 10 * DigitsValue(prev);
      MulTen(DigitsValue(d), Pow10(k - 1));
    } else {
      assert d + Zeros(k) == d;
    }
  }

  /** `k` trailing zeros add `k` exact steps to the rounding loop. */
  lemma TrailingZerosUnits(f: nat, padded: nat, n: nat, k: nat)
    requires padded == f * Pow10(k)
    ensures FractionUnits(padded, n + k) == FractionUnits(f, n)
  {
    assert padded * ONE_MONEY == (f * ONE_MONEY) * Pow10(k);
    RoundStepsOfScaled(f * ONE_MONEY, k, n + k);
    if n == 0 {
      assert (f * ONE_MONEY) * Pow10(0) == f * ONE_MONEY;
    }
  }

  /** Padding with zeros keeps the text all digits and never lowers its value. */
  lemma PaddingGrows(d: string, k: nat)
    requires AllDigits(d)
    ensures AllDigits(d + Zeros(k))
    ensures DigitsValue(d) <= DigitsValue(d + Zeros(k))
  {
    DigitsValueZeros(d, k);
    MulGrows(DigitsValue(d), Pow10(k));
  }

  /** One more fraction character worth ten times as much adds one exact step to the rounding loop. */
  lemma FractionTenfold(x: nat, n: nat)
    ensures FractionUnits(10 * x, n + 1) == FractionUnits(x, n)
  {
    assert (10 * x * ONE_MONEY + 5) / 10 == x * ONE_MONEY;
  }

  /** Appending a zero character to a digit-only fraction text leaves its units as they were. */
  lemma AppendZeroUnits(prev: string, padded: string)
    requires AllDigits(prev) && padded == prev + ['0']
    ensures AllDigits(padded)
    ensures FractionUnits(DigitsValue(padded), |padded|) == FractionUnits(DigitsValue(prev), |prev|)
  {
    DigitsValueSnoc(prev, '0');
    FractionTenfold(DigitsValue(prev), |prev|);
  }

  /** A zero-padded fraction text scales to the same units as the unpadded one. */
  lemma {:induction false} PaddedFractionUnits(d: string, k: nat)
    requires AllDigits(d)
    ensures AllDigits(d + Zeros(k))
    ensures FractionUnits(DigitsValue(d + Zeros(k)), |d| + k) == FractionUnits(DigitsValue(d), |d|)
    decreases k
  {
    if k == 0 {
      assert d + Zeros(k) == d;
    } else {
      PaddedFractionUnits(d, k - 1);
      assert d + Zeros(k) == (d + Zeros(k - 1)) + ['0'];
      AppendZeroUnits(d + Zeros(k - 1), d + Zeros(k));
    }
  }

  /** At the level of the text analysis: two digit-only fractions that fit in `i64` are interchangeable. */
  lemma DigitFractions(w: string, d: string, g: string)
    requires AllDigits(d) && d != [] && DigitsValue(d) <= I64_MAX
    requires AllDigits(g) && g != [] && DigitsValue(g) <= I64_MAX
    ensures DecimalParts(w, d).Failure? ==> DecimalParts(w, g) == DecimalParts(w, d)
    ensures DecimalParts(w, d).Success? ==>
              var p := DecimalParts(w, d).value;
              p.fraction == DigitsValue(d) && p.digits == |d| &&
              DecimalParts(w, g) == Success(p.(fraction := DigitsValue(g), digits := |g|))
  {
    assert IsDigit(d[0]) && IsDigit(g[0]);
    ParseUnsigned(d);
    ParseUnsigned(g);
    FractionSwap(w, d, g);
  }

  /**
   * Two non-empty unsigned fractions that both parse give the same outcome for
   * the same whole part, apart from the fraction's value and length.
   */
  lemma FractionSwap(w: string, f: string, g: string)
    requires f != [] && g != [] && !StartsWith(f, '-') && !StartsWith(g, '-')
    requires FractionValue(f).Some? && FractionValue(g).Some?
    ensures DecimalParts(w, f).Failure? ==> DecimalParts(w, g) == DecimalParts(w, f)
    ensures DecimalParts(w, f).Success? ==>
              var p := DecimalParts(w, f).value;
              p.fraction == FractionValue(f).value && p.digits == |f| &&
              DecimalParts(w, g) == Success(p.(fraction := FractionValue(g).value, digits := |g|))
  {
    assert WholeValue(w, f) == WholeValue(w, g);
  }

  /**
   * Trailing zeros never change the value ("0.5" through "0.5000000" all give
   * 5000), as long as the padded fraction still fits in `i64` once scaled.
   */
  lemma TrailingZeros(w: string, d: string, k: nat)
    requires '.' !in w && AllDigits(d) && d != []
    requires NoParseOverflow(w + "." + d)
    requires AllDigits(d + Zeros(k)) && InI64(DigitsValue(d + Zeros(k)) * ONE_MONEY)
    ensures NoParseOverflow(w + "." + (d + Zeros(k)))
    ensures ParseMoney(w + "." + (d + Zeros(k))) == ParseMoney(w + "." + d)
  {
    PaddingGrows(d, k);
    PaddedFractionUnits(d, k);
    EquivalentFractions(w, d, d + Zeros(k));
  }

  /**
   * Two digit-only fractions that scale to the same units parse alike after
   * the same whole part, provided the second still fits once multiplied by
   * `ONE_MONEY`.
   */
  lemma EquivalentFractions(w: string, d: string, g: string)
    requires '.' !in w
    requires AllDigits(d) && d != [] && AllDigits(g) && g != [] && DigitsValue(d) <= DigitsValue(g)
    requires NoParseOverflow(w + "." + d) && InI64(DigitsValue(g) * ONE_MONEY)
    requires FractionUnits(DigitsValue(g), |g|) == FractionUnits(DigitsValue(d), |d|)
    ensures NoParseOverflow(w + "." + g)
    ensures ParseMoney(w + "." + g) == ParseMoney(w + "." + d)
  {
    SplitDecimal(w, d);
    SplitDecimal(w, g);
    ScaledWholeFits(DigitsValue(g));
    DigitFractions(w, d, g);
    var v, vg := w + "." + d, w + "." + g;
    if SplitParts(v).Success? {
      SameUnits(SplitParts(v).value, SplitParts(vg).value);
    }
  }

  /** `Units` depends on the fraction only through its scaled, rounded value. */
  lemma SameUnits(p: Parts, q: Parts)
    requires p.whole == q.whole && p.negative == q.negative
    requires FractionUnits(p.fraction, p.digits) == FractionUnits(q.fraction, q.digits)
    ensures Units(p) == Units(q)
  {
  }

  // ---------------------------------------------------------------------------
  // The source's test vectors (src/account/money.rs:178-285)
  // ---------------------------------------------------------------------------

  /** The rounding loop never increases its value. */
  lemma {:induction false} RoundStepsAtMost(x: nat, steps: nat)
    ensures RoundSteps(x, steps) <= x
    decreases steps
  {
    if steps > 0 {
      RoundStepsAtMost((x + 5) / 10, steps - 1);
    }
  }

  /** Whole and fraction values below `10^14` keep every step of `visit_str` inside `i64`. */
  lemma SmallUnits(p: Parts)
    requires -100_000_000_000_000 <= p.whole <= 100_000_000_000_000 && p.fraction <= 100_000_000_000_000
    ensures PartsFit(p)
  {
    RoundStepsAtMost(p.fraction * ONE_MONEY, p.digits);
  }

  /** At most 14 digits are worth at most `10^14`. */
  lemma ShortDigitsBound(d: string)
    requires AllDigits(d) && |d| <= 14
    ensures DigitsValue(d) <= 100_000_000_000_000
  {
    DigitsBound(d);
    Pow10Monotone(|d|, 14);
    Pow10Of14();
  }

  lemma Pow10Of14()
    ensures Pow10(14) == 100_000_000_000_000
  {
    assert Pow10(4) == 10_000;
    assert Pow10(9) == 1_000_000_000;
  }

  /**
   * Digit texts of at most 14 characters on each side, not both empty, never
   * overflow, and `w.d` is worth `w` whole units plus the rounded fraction.
   */
  lemma SmallDecimal(w: string, d: string)
    requires AllDigits(w) && AllDigits(d) && |w| <= 14 && |d| <= 14 && (w != [] || d != [])
    ensures NoParseOverflow(w + "." + d)
    ensures && ParseMoney(w + "." + d).Success?
            && ParseMoney(w + "." + d).value.units == DigitsValue(w) * ONE_MONEY + FractionUnits(DigitsValue(d), |d|)
  {
    assert '.' !in w;
    SplitDecimal(w, d);
    DigitDecimal(w, d);
    ShortDigitsBound(w);
    ShortDigitsBound(d);
    var p := Parts(DigitsValue(w), false, DigitsValue(d), |d|);
    SmallUnits(p);
    ParsedAs(w + "." + d, p);
  }

  /** The same for `-w.d`: the result is the negation of `w.d`'s. */
  lemma SmallNegatedDecimal(w: string, d: string)
    requires AllDigits(w) && AllDigits(d) && |w| <= 14 && |d| <= 14 && (w != [] || d != [])
    ensures NoParseOverflow("-" + w + "." + d)
    ensures && ParseMoney("-" + w + "." + d).Success?
            && ParseMoney("-" + w + "." + d).value.units == -(DigitsValue(w) * ONE_MONEY + FractionUnits(DigitsValue(d), |d|))
  {
    NoDotAfterMinus(w);
    SplitDecimal("-" + w, d);
    ShortDigitsBound(w);
    ShortDigitsBound(d);
    var p := Parts(-(DigitsValue(w) as int), true, DigitsValue(d), |d|);
    NegatedShortParts(w, d);
    SmallUnits(p);
    ParsedAs("-" + w + "." + d, p);
    assert Units(p) == -(DigitsValue(w) * ONE_MONEY + FractionUnits(DigitsValue(d), |d|));
  }

  /**
   * `w.d` with digit-only sides of any length, where the scaling does not
   * overflow: it parses exactly when the two sides are not both empty and each
   * fits in `i64`, and is worth `w` whole units plus the rounded fraction.
   */
  lemma DecimalValue(w: string, d: string)
    requires AllDigits(w) && AllDigits(d)
    requires NoParseOverflow(w + "." + d)
    ensures ParseMoney(w + "." + d).Success? <==>
              !(w == [] && d == []) && DigitsValue(w) <= I64_MAX && DigitsValue(d) <= I64_MAX
    ensures ParseMoney(w + "." + d).Success? ==>
              ParseMoney(w + "." + d).value.units == DigitsValue(w) * ONE_MONEY + FractionUnits(DigitsValue(d), |d|)
  {
    assert '.' !in w;
    SplitDecimal(w, d);
    DigitDecimal(w, d);
  }

  /** The same for `-w.d`, down to `i64::MIN` for the whole part: the value is negated. */
  lemma NegatedDecimalValue(w: string, d: string)
    requires AllDigits(w) && AllDigits(d)
    requires NoParseOverflow("-" + w + "." + d)
    ensures ParseMoney("-" + w + "." + d).Success? <==>
              !(w == [] && d == []) && -(DigitsValue(w) as int) >= I64_MIN && DigitsValue(d) <= I64_MAX
    ensures ParseMoney("-" + w + "." + d).Success? ==>
              ParseMoney("-" + w + "." + d).value.units == -(DigitsValue(w) * ONE_MONEY + FractionUnits(DigitsValue(d), |d|))
  {
    NoDotAfterMinus(w);
    SplitDecimal("-" + w, d);
    NegatedDigitDecimal(w, d);
    if (w == [] && d == []) || -(DigitsValue(w) as int) < I64_MIN || DigitsValue(d) > I64_MAX {
      assert SplitParts("-" + w + "." + d).Failure?;
    } else {
      var p := Parts(-(DigitsValue(w) as int), true, DigitsValue(d), |d|);
      assert SplitParts("-" + w + "." + d) == Success(p);
      ParsedAs("-" + w + "." + d, p);
      var f := FractionUnits(DigitsValue(d), |d|);
      assert Units(p) == p.whole * ONE_MONEY - f;
      NegatedScale(DigitsValue(w));
    }
  }

  /** Scaling by `ONE_MONEY` commutes with negation. */
  lemma NegatedScale(x: int)
    ensures -x * ONE_MONEY == -(x * ONE_MONEY)
  {
  }

  /** The text analysis of `-w.d` for short digit runs, not both empty. */
  lemma NegatedShortParts(w: string, d: string)
    requires AllDigits(w) && AllDigits(d) && (w != [] || d != [])
    requires DigitsValue(w) <= 100_000_000_000_000 && DigitsValue(d) <= 100_000_000_000_000
    ensures DecimalParts("-" + w, d) == Success(Parts(-(DigitsValue(w) as int), true, DigitsValue(d), |d|))
  {
    NegatedDigitDecimal(w, d);
  }

  /** Text analysed into parts that fit parses to their units. */
  lemma ParsedAs(v: string, p: Parts)
    requires SplitParts(v) == Success(p) && PartsFit(p)
    ensures NoParseOverflow(v) && ParseMoney(v) == Success(Money(Units(p)))
  {
  }

  /** Leading zeros do not change the value of a run of digits. */
  lemma {:induction false} LeadingZeros(k: nat, d: string)
    requires AllDigits(d)
    ensures AllDigits(Zeros(k) + d)
    ensures DigitsValue(Zeros(k) + d) == DigitsValue(d)
    decreases |d|
  {
    if d == [] {
      DigitsValueZeros("", k);
      assert "" + Zeros(k) == Zeros(k) == Zeros(k) + d;
    } else {
      var p, x := d[..|d| - 1], d[|d| - 1];
      assert AllDigits(p) && IsDigit(x);
      LeadingZeros(k, p);
      assert d == p + [x];
      assert Zeros(k) + d == (Zeros(k) + p) + [x];
      DigitsValueSnoc(Zeros(k) + p, x);
      DigitsValueSnoc(p, x);
    }
  }

  // Each vector is written as whole part, '.', fraction, so that it matches
  // the shape of the general lemmas above: "0" + "." + "1" is the text "0.1".

  /** `w.d` with short digit runs on both sides parses to the given count of ten-thousandths. */
  lemma DecimalIs(w: string, d: string, units: int)
    requires AllDigits(w) && AllDigits(d) && |w| <= 14 && |d| <= 14 && (w != [] || d != [])
    requires DigitsValue(w) * ONE_MONEY + FractionUnits(DigitsValue(d), |d|) == units
    ensures InI64(units)
    ensures NoParseOverflow(w + "." + d) && ParseMoney(w + "." + d) == Success(Money(units))
  {
    SmallDecimal(w, d);
    var r := ParseMoney(w + "." + d);
    assert r.value.units == units;
    assert r == Success(Money(units));
  }

  /** The same for `-w.d`. */
  lemma NegatedDecimalIs(w: string, d: string, units: int)
    requires AllDigits(w) && AllDigits(d) && |w| <= 14 && |d| <= 14 && (w != [] || d != [])
    requires -(DigitsValue(w) * ONE_MONEY + FractionUnits(DigitsValue(d), |d|)) == units
    ensures InI64(units)
    ensures NoParseOverflow("-" + w + "." + d) && ParseMoney("-" + w + "." + d) == Success(Money(units))
  {
    SmallNegatedDecimal(w, d);
    var r := ParseMoney("-" + w + "." + d);
    assert r.value.units == units;
    assert r == Success(Money(units));
  }

  lemma SingleDigit(c: char)
    requires IsDigit(c)
    ensures AllDigits([c]) && DigitsValue([c]) == DigitValue(c)
  {
    assert [c][..0] == [];
  }

  lemma Value49()
    ensures DigitsValue("49") == 49
  {
    assert "49"[..1] == "4";
  }

  lemma Value1234()
    ensures DigitsValue("1234") == 1234
  {
    assert "1234"[..3] == "123" && "123"[..2] == "12" && "12"[..1] == "1";
  }

  lemma Value2345()
    ensures DigitsValue("2345") == 2345
  {
    assert "2345"[..3] == "234" && "234"[..2] == "23" && "23"[..1] == "2";
  }

  /** deser_one_tenth. */
  lemma OneTenth()
    ensures NoParseOverflow("0" + "." + "1") && ParseMoney("0" + "." + "1") == Success(Money(ONE_MONEY / 10))
  {
    SingleDigit('0');
    SingleDigit('1');
    FractionScaling(1, 1);
    assert Pow10(3) == 1000;
    DecimalIs("0", "1", 1000);
  }

  /** deser_one_hundredth. */
  lemma OneHundredth()
    ensures NoParseOverflow("0" + "." + "01") && ParseMoney("0" + "." + "01") == Success(Money(ONE_MONEY / 100))
  {
    SingleDigit('0');
    SingleDigit('1');
    LeadingZeros(1, "1");
    assert Zeros(1) + "1" == "01";
    FractionScaling(1, 2);
    assert Pow10(2) == 100;
    DecimalIs("0", "01", 100);
  }

  /** deser_one_thousandth. */
  lemma OneThousandth()
    ensures NoParseOverflow("0" + "." + "001") && ParseMoney("0" + "." + "001") == Success(Money(ONE_MONEY / 1000))
  {
    SingleDigit('0');
    SingleDigit('1');
    LeadingZeros(2, "1");
    assert Zeros(2) + "1" == "001";
    FractionScaling(1, 3);
    assert Pow10(1) == 10;
    DecimalIs("0", "001", 10);
  }

  /** deser_one_ten_thousandth. */
  lemma OneTenThousandth()
    ensures NoParseOverflow("0" + "." + "0001") && ParseMoney("0" + "." + "0001") == Success(Money(ONE_MONEY / 10000))
  {
    SingleDigit('0');
    SingleDigit('1');
    LeadingZeros(3, "1");
    assert Zeros(3) + "1" == "0001";
    FractionScaling(1, 4);
    assert Pow10(0) == 1;
    DecimalIs("0", "0001", 1);
  }

  /** deser_one_hundred_thousandth_is_zero: a fifth fraction digit below 5 is dropped. */
  lemma OneHundredThousandth()
    ensures NoParseOverflow("0" + "." + "00001") && ParseMoney("0" + "." + "00001") == Success(ZERO)
  {
    SingleDigit('0');
    SingleDigit('1');
    LeadingZeros(4, "1");
    assert Zeros(4) + "1" == "00001";
    FractionScaling(1, 5);
    assert RoundSteps(1, 1) == 0;
    DecimalIs("0", "00001", 0);
  }

  /** deser_nine_hundred_thousandths_rounds_up_to_one_ten_thousandth. */
  lemma NineHundredThousandths()
    ensures NoParseOverflow("0" + "." + "00009") && ParseMoney("0" + "." + "00009") == Success(Money(ONE_MONEY / 10000))
  {
    SingleDigit('0');
    SingleDigit('9');
    LeadingZeros(4, "9");
    assert Zeros(4) + "9" == "00009";
    FractionScaling(9, 5);
    assert RoundSteps(9, 1) == 1;
    DecimalIs("0", "00009", 1);
  }

  /**
   * Each dropped digit is rounded on its own, so a 5 produced by an earlier
   * step rounds up again: "0.000049" gives one ten-thousandth, not zero.
   */
  lemma DoubleRounding()
    ensures NoParseOverflow("0" + "." + "000049") && ParseMoney("0" + "." + "000049") == Success(Money(1))
  {
    SingleDigit('0');
    Value49();
    LeadingZeros(4, "49");
    assert Zeros(4) + "49" == "000049";
    FractionScaling(49, 6);
    assert RoundSteps(49, 2) == 1;
    DecimalIs("0", "000049", 1);
  }

  /** deser_various_halves ("0.5" through "0.5000000"), for up to thirteen trailing zeros. */
  lemma Halves(k: nat)
    requires k <= 13
    ensures NoParseOverflow("0" + "." + ("5" + Zeros(k)))
    ensures ParseMoney("0" + "." + ("5" + Zeros(k))) == Success(Money(ONE_MONEY / 2))
  {
    SingleDigit('0');
    SingleDigit('5');
    PaddedFractionUnits("5", k);
    FractionScaling(5, 1);
    assert Pow10(3) == 1000;
    DecimalIs("0", "5" + Zeros(k), 5000);
  }

  /** deser_negative_zero_whole_portion. */
  lemma NegativeZeroWhole()
    ensures NoParseOverflow("-" + "0" + "." + "1234") && ParseMoney("-" + "0" + "." + "1234") == Success(Money(-1234))
  {
    SingleDigit('0');
    Value1234();
    FractionScaling(1234, 4);
    NegatedDecimalIs("0", "1234", -1234);
  }

  /** deser_negative_empty_whole_portion. */
  lemma NegativeEmptyWhole()
    ensures NoParseOverflow("-" + "" + "." + "1234") && ParseMoney("-" + "" + "." + "1234") == Success(Money(-1234))
  {
    Value1234();
    FractionScaling(1234, 4);
    NegatedDecimalIs("", "1234", -1234);
  }

  /** deser_negative_one_whole_portion. */
  lemma NegativeOneWhole()
    ensures NoParseOverflow("-" + "1" + "." + "2345") && ParseMoney("-" + "1" + "." + "2345") == Success(Money(-12345))
  {
    SingleDigit('1');
    Value2345();
    FractionScaling(2345, 4);
    NegatedDecimalIs("1", "2345", -12345);
  }

  /** deser_blanks: "0.0", "0.", ".0", "-0.0", "-0.", "-.0" give ZERO ("0" and "-0" are ZeroTexts). */
  lemma BlankZeros(negative: bool, w: string, d: string)
    requires w in {"0", ""} && d in {"0", ""} && (w != [] || d != [])
    ensures var v := (if negative then "-" else "") + w + "." + d;
            NoParseOverflow(v) && ParseMoney(v) == Success(ZERO)
  {
    SingleDigit('0');
    assert DigitsValue(w) == 0 && DigitsValue(d) == 0;
    FractionScaling(0, |d|);
    assert FractionUnits(0, |d|) == 0;
    if negative {
      NegatedDecimalIs(w, d, 0);
    } else {
      assert "" + w + "." + d == w + "." + d;
      DecimalIs(w, d, 0);
    }
  }

  /** deser_blanks: "" and "-" fail as integers, and "." and "-." fail as empty on both sides. */
  lemma BlankErrors(negative: bool)
    ensures NoParseOverflow(if negative then "-" else "")
    ensures ParseMoney(if negative then "-" else "") == Failure(NotAnInteger)
    ensures NoParseOverflow((if negative then "-" else "") + "." + "")
    ensures ParseMoney((if negative then "-" else "") + "." + "") == Failure(NotAnInteger)
  {
    var w := if negative then "-" else "";
    assert ParseI64(w).None?;
    WithoutDot(w);
    EmptySides(w);
  }

  /** With nothing but an optional '-' before it and nothing after it, a '.' is an error. */
  lemma EmptySides(w: string)
    requires ParseI64(w).None? && '.' !in w
    ensures NoParseOverflow(w + "." + "") && ParseMoney(w + "." + "") == Failure(NotAnInteger)
  {
    SplitDecimal(w, "");
    assert DecimalParts(w, "") == Failure(NotAnInteger);
  }

  /** deser_blanks: ".0." and "-.0." fail at the second '.'. */
  lemma BlankSecondDot(negative: bool)
    ensures NoParseOverflow((if negative then "-" else "") + "." + "0.")
    ensures ParseMoney((if negative then "-" else "") + "." + "0.").Failure?
  {
    SecondDotRejected(if negative then "-" else "", "0.");
  }

  /**
   * `i64::from_str` accepts a leading '+', and the fraction is not checked for
   * one: "0.+5" parses, and the '+' counts as a fraction position, so the 5
   * is worth hundredths.
   */
  lemma PlusInFraction()
    ensures NoParseOverflow("0" + "." + "+5") && ParseMoney("0" + "." + "+5") == Success(Money(500))
  {
    SplitDecimal("0", "+5");
    SingleDigit('0');
    SingleDigit('5');
    assert "+5"[1..] == "5";
    assert ParseI64("+5") == Some(5);
    ParseUnsigned("0");
    var p := Parts(0, false, 5, 2);
    assert DecimalParts("0", "+5") == Success(p);
    FractionScaling(5, 2);
    assert FractionUnits(5, 2) == 500;
    SmallUnits(p);
    assert Units(p) == 500;
  }
}
