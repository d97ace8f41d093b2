/** The Java value types the transaction code relies on, with their ranges
    written out: `int`, `LocalDateTime`, `BigDecimal` and
    the `TransactionType` enum. */
module JavaTypes {
  import opened Outcomes

  const MinInt32: int := -0x8000_0000
  const MaxInt32: int := 0x7fff_ffff

  /** A Java `int`. */
  type Int32 = x: int | MinInt32 <= x <= MaxInt32

  /** `x++` on a Java `int`: the largest value wraps round to the smallest. */
  function Increment(x: Int32): (r: Int32)
    ensures r == (x + 1 - MinInt32) % 0x1_0000_0000 + MinInt32
  {
    if x == MaxInt32 then MinInt32 else x + 1
  }

  const NanosPerSecond: int := 1_000_000_000

  /** `LocalDateTime.MIN` (-999999999-01-01T00:00) and `LocalDateTime.MAX`
      (+999999999-12-31T23:59:59.999999999) as nanoseconds from
      1970-01-01T00:00; their epoch days are -365243219162 and 365241780471. */
  const MinTimestamp: int := -31557014135596800000000000
  const MaxTimestamp: int := 31556889832780799999999999

  /** A `LocalDateTime`, as nanoseconds from 1970-01-01T00:00. Its order is the
      order of `isBefore` / `isAfter`; the calendar is not modelled. */
  type Timestamp = t: int | MinTimestamp <= t <= MaxTimestamp

  /** `LocalDateTime.truncatedTo(ChronoUnit.SECONDS)`: the whole second at or
      before `t`. */
  function TruncateToSeconds(t: Timestamp): (r: Timestamp)
    ensures r <= t < r + NanosPerSecond
    ensures r % NanosPerSecond == 0
  {
    assert MinTimestamp % NanosPerSecond == 0;
    t - t % NanosPerSecond
  }

  /** Truncating an already truncated timestamp changes nothing. */
  lemma TruncateIdempotent(t: Timestamp)
    ensures TruncateToSeconds(TruncateToSeconds(t)) == TruncateToSeconds(t)
  {
  }

  function Pow10(k: nat): (p: nat)
    ensures p >= 1
  {
    if k == 0 then 1 else 10 * Pow10(k - 1)
  }

  /** A `BigDecimal`: an unscaled integer and a scale, standing for
      `unscaled * 10^-scale`. Values such as 1.0 and 1.00 are equal in worth
      but differ in scale, and `equals` tells them apart, as here. */
  datatype Decimal = Decimal(unscaled: int, scale: int)

  /** The number a `BigDecimal` stands for; it is below zero exactly when the
      unscaled value is. */
  function Value(d: Decimal): (v: real)
    ensures v < 0.0 <==> d.unscaled < 0
  {
    if d.scale >= 0 then d.unscaled as real / Pow10(d.scale) as real
    else (d.unscaled * Pow10(-d.scale)) as real
  }

  /** An amount of money as stored in a transaction: a `BigDecimal` that is
      never negative. */
  type Amount = d: Decimal | d.unscaled >= 0 witness Decimal(0, 0)

  /** `BigDecimal.valueOf(0)`, which is also `BigDecimal.ZERO`. */
  const Zero: Amount := Decimal(0, 0)

  /** The clamp both transaction constructors apply: a sum that compares
      below zero becomes zero, any other sum is kept with its scale. */
  function Clamp(sum: Decimal): (r: Amount)
    ensures Value(sum) >= 0.0 ==> r == sum
    ensures Value(sum) < 0.0 ==> r == Zero
    ensures Value(r) >= 0.0
  {
    if Value(sum) < 0.0 then Zero else sum
  }

  /** `TransactionType`. */
  datatype Kind = Income | Expense

  /** `TransactionType.name()`. */
  function Name(k: Kind): string
  {
    match k
    case Income => "INCOME"
    case Expense => "EXPENSE"
  }

  /** `TransactionType.valueOf(s)`: only the exact constant names are accepted;
      anything else throws `IllegalArgumentException`. */
  function ValueOf(s: string): (r: Option<Kind>)
    ensures r.Some? <==> s == Name(Income) || s == Name(Expense)
    ensures r.Some? ==> Name(r.value) == s
  {
    if s == "INCOME" then Some(Income)
    else if s == "EXPENSE" then Some(Expense)
    else None
  }

  /** `valueOf` inverts `name()`. */
  lemma ValueOfName(k: Kind)
    ensures ValueOf(Name(k)) == Some(k)
  {
  }
}
