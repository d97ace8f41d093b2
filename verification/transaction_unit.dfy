/** The transaction record of the storage code: a date, a type and a sum
    that the compact constructor clamps to zero. */
module TransactionUnit {
  import opened Outcomes
  import opened JavaTypes
  import opened Text

  datatype Transaction = Transaction(dateTime: Timestamp, kind: Kind, sum: Amount)

  /** The compact constructor: a negative sum is replaced by zero; the date
      and the type are kept as given, with no truncation. */
  function New(dateTime: Timestamp, kind: Kind, sum: Decimal): (t: Transaction)
    ensures t.dateTime == dateTime && t.kind == kind
    ensures Value(sum) < 0.0 ==> t.sum == Zero
    ensures Value(sum) >= 0.0 ==> t.sum == sum
  {
    Transaction(dateTime, kind, Clamp(sum))
  }

  /** Rebuilding a record from its own components gives the same record. */
  lemma NewOfComponents(t: Transaction)
    ensures New(t.dateTime, t.kind, t.sum) == t
  {
  }

  /** `toString`: the ISO date, the type name and the sum, separated by single
      spaces. */
  function ToString(c: Codec, t: Transaction): (r: string)
    ensures Plain(c.isoDateText(t.dateTime)) && Plain(c.amountText(t.sum)) ==>
              Split(ReplaceSpaces(r)) == [c.isoDateText(t.dateTime), Name(t.kind), c.amountText(t.sum)]
  {
    var d, n, a := c.isoDateText(t.dateTime), Name(t.kind), c.amountText(t.sum);
    assert Plain(d) && Plain(a) ==> Split(ReplaceSpaces(d + " " + n + " " + a)) == [d, n, a] by {
      NamePlain(t.kind);
      if Plain(d) && Plain(a) {
        SplitSpaced(d, n, a);
      }
    }
    d + " " + n + " " + a
  }

  /** With spaces replaced by commas, `toString` splits into exactly three
      fields, the date, the type name and the sum, which parse back to the
      record's components. */
  lemma ToStringFields(c: Codec, t: Transaction)
    requires Sound(c)
    ensures Split(ReplaceSpaces(ToString(c, t))) == [c.isoDateText(t.dateTime), Name(t.kind), c.amountText(t.sum)]
    ensures c.parseDate(c.isoDateText(t.dateTime)) == Some(t.dateTime)
    ensures ValueOf(Name(t.kind)) == Some(t.kind)
    ensures c.parseAmount(c.amountText(t.sum)) == Some(t.sum)
  {
    var d, a := c.isoDateText(t.dateTime), c.amountText(t.sum);
    assert Plain(d) && c.parseDate(d) == Some(t.dateTime);
    assert Plain(a) && c.parseAmount(a) == Some(t.sum);
    ValueOfName(t.kind);
  }
}
