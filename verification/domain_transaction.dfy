/** The ledger's own transaction class: its constructor truncates the date
    to whole seconds and clamps a negative sum to zero. */
module DomainTransaction {
  import opened Outcomes
  import opened JavaTypes
  import opened Text

  datatype Tx = Tx(dateTime: Timestamp, kind: Kind, sum: Amount)

  /** The constructor: the date truncated to seconds, the type as given, and
      a negative sum replaced by zero. */
  function New(date: Timestamp, kind: Kind, sum: Decimal): (t: Tx)
    ensures t.dateTime <= date < t.dateTime + NanosPerSecond
    ensures t.dateTime % NanosPerSecond == 0
    ensures t.kind == kind
    ensures Value(sum) < 0.0 ==> t.sum == Zero
    ensures Value(sum) >= 0.0 ==> t.sum == sum
  {
    Tx(TruncateToSeconds(date), kind, Clamp(sum))
  }

  /** What every constructed transaction satisfies: a date on a whole second. */
  predicate Normal(t: Tx)
  {
    t.dateTime % NanosPerSecond == 0
  }

  /** Constructing again from a constructed transaction's own date, type and
      sum gives it back: truncation and clamping are idempotent. */
  lemma {:induction false} NewOfNormal(t: Tx)
    requires Normal(t)
    ensures New(t.dateTime, t.kind, t.sum) == t
  {
    var d := TruncateToSeconds(t.dateTime);
    assert d <= t.dateTime < d + NanosPerSecond && d % NanosPerSecond == 0;
  }

  /** Constructing twice is constructing once. */
  lemma NewIdempotent(date: Timestamp, kind: Kind, sum: Decimal)
    ensures var t := New(date, kind, sum); New(t.dateTime, t.kind, t.sum) == t
  {
    NewOfNormal(New(date, kind, sum));
  }

  /** `copyTransaction`: a new transaction built from this one's date, type
      and sum. */
  function Copy(t: Tx): (r: Tx)
    ensures Normal(r)
    ensures Normal(t) ==> r == t
  {
    assert Normal(t) ==> New(t.dateTime, t.kind, t.sum) == t by {
      if Normal(t) { NewOfNormal(t); }
    }
    New(t.dateTime, t.kind, t.sum)
  }

  /** `toString`: the date in `LocalDateTime.toString()` form, the type
      name and the sum, separated by single spaces. */
  function ToString(c: Codec, t: Tx): (r: string)
    ensures Plain(c.dateText(t.dateTime)) && Plain(c.amountText(t.sum)) ==>
              Split(ReplaceSpaces(r)) == [c.dateText(t.dateTime), Name(t.kind), c.amountText(t.sum)]
  {
    var d, n, a := c.dateText(t.dateTime), Name(t.kind), c.amountText(t.sum);
    assert Plain(d) && Plain(a) ==> Split(ReplaceSpaces(d + " " + n + " " + a)) == [d, n, a] by {
      NamePlain(t.kind);
      if Plain(d) && Plain(a) {
        SplitSpaced(d, n, a);
      }
    }
    d + " " + n + " " + a
  }

  /** With its spaces replaced by commas, `toString` splits into exactly
      three fields: the date, the type name and the sum, each of which parses
      back to the transaction's component. */
  lemma ToStringFields(c: Codec, t: Tx)
    requires Sound(c)
    ensures Split(ReplaceSpaces(ToString(c, t))) == [c.dateText(t.dateTime), Name(t.kind), c.amountText(t.sum)]
    ensures c.parseDate(c.dateText(t.dateTime)) == Some(t.dateTime)
    ensures ValueOf(Name(t.kind)) == Some(t.kind)
    ensures c.parseAmount(c.amountText(t.sum)) == Some(t.sum)
  {
    var d, a := c.dateText(t.dateTime), c.amountText(t.sum);
    assert Plain(d) && c.parseDate(d) == Some(t.dateTime);
    assert Plain(a) && c.parseAmount(a) == Some(t.sum);
    ValueOfName(t.kind);
  }
}
