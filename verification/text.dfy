/** The string handling the CSV code relies on: `String.split(",")`,
    `String.replace(" ", ",")`, `String.endsWith`, `Integer.parseInt` and
    `Integer.toString`, plus the text forms of dates and amounts. */
module Text {
  import opened Outcomes
  import opened JavaTypes

  /** The pieces of `s` between commas, empty ones included: one more than
      the number of commas. */
  function Pieces(s: string): (r: seq<string>)
    ensures |r| >= 1
    ensures forall i :: 0 <= i < |r| ==> ',' !in r[i]
  {
    if |s| == 0 then [""]
    else if s[0] == ',' then [""] + Pieces(s[1..])
    else
      var rest := Pieces(s[1..]);
      [[s[0]] + rest[0]] + rest[1..]
  }

  /** `p` without its trailing empty strings. */
  function DropTrailingEmpty(p: seq<string>): (r: seq<string>)
    ensures r <= p
    ensures |r| > 0 ==> r[|r| - 1] != ""
    ensures forall i :: |r| <= i < |p| ==> p[i] == ""
  {
    if |p| == 0 || p[|p| - 1] != "" then p
    else DropTrailingEmpty(p[..|p| - 1])
  }

  /** Java's `s.split(",")`: a string without a comma is its own only field;
      otherwise the pieces between commas with trailing empty pieces dropped,
      so that `","` has no field at all. */
  function Split(s: string): (r: seq<string>)
    ensures forall i :: 0 <= i < |r| ==> ',' !in r[i]
  {
    if ',' !in s then [s] else DropTrailingEmpty(Pieces(s))
  }

  /** Fields joined with commas. */
  function Join(fields: seq<string>): string
  {
    if |fields| == 0 then ""
    else if |fields| == 1 then fields[0]
    else fields[0] + "," + Join(fields[1..])
  }

  lemma {:induction false} PiecesOfPlain(a: string)
    requires ',' !in a
    ensures Pieces(a) == [a]
    decreases |a|
  {
    if |a| > 0 {
      PiecesOfPlain(a[1..]);
      assert a[0] != ',';
      assert [a[0]] + a[1..] == a;
    }
  }

  lemma {:induction false} PiecesOfPrefixed(a: string, rest: string)
    requires ',' !in a
    ensures Pieces(a + "," + rest) == [a] + Pieces(rest)
    decreases |a|
  {
    if |a| == 0 {
      assert a + "," + rest == [','] + rest;
      assert (a + "," + rest)[1..] == rest;
    } else {
      var s := a + "," + rest;
      assert s[0] == a[0] && a[0] != ',';
      assert s[1..] == a[1..] + "," + rest;
      PiecesOfPrefixed(a[1..], rest);
      assert [a[0]] + a[1..] == a;
    }
  }

  lemma {:induction false} PiecesOfJoin(fields: seq<string>)
    requires |fields| >= 1
    requires forall i :: 0 <= i < |fields| ==> ',' !in fields[i]
    ensures Pieces(Join(fields)) == fields
    decreases |fields|
  {
    if |fields| == 1 {
      PiecesOfPlain(fields[0]);
    } else {
      PiecesOfPrefixed(fields[0], Join(fields[1..]));
      PiecesOfJoin(fields[1..]);
      assert fields == [fields[0]] + fields[1..];
    }
  }

  /** Splitting comma-joined fields gives the fields back, provided none of
      them holds a comma and, when there are several, the last is not empty
      (Java drops trailing empty fields). */
  lemma {:induction false} SplitJoin(fields: seq<string>)
    requires |fields| >= 1
    requires forall i :: 0 <= i < |fields| ==> ',' !in fields[i]
    requires |fields| > 1 ==> fields[|fields| - 1] != ""
    ensures Split(Join(fields)) == fields
  {
    PiecesOfJoin(fields);
    if |fields| > 1 {
      var s := Join(fields);
      assert s == fields[0] + "," + Join(fields[1..]);
      assert s[|fields[0]|] == ',';
    } else {
      assert Join(fields) == fields[0];
    }
  }

  /** `s.replace(" ", ",")`: every space becomes a comma. */
  function ReplaceSpaces(s: string): (r: string)
    ensures |r| == |s|
    ensures forall i :: 0 <= i < |s| ==> r[i] == (if s[i] == ' ' then ',' else s[i])
  {
    if |s| == 0 then ""
    else [if s[0] == ' ' then ',' else s[0]] + ReplaceSpaces(s[1..])
  }

  /** Text without spaces or commas, which `replace` leaves alone and `split`
      keeps in one field. */
  predicate Plain(s: string)
  {
    s != "" && ' ' !in s && ',' !in s
  }

  lemma ReplaceSpacesConcat(x: string, y: string)
    ensures ReplaceSpaces(x + y) == ReplaceSpaces(x) + ReplaceSpaces(y)
  {
    var l, r := ReplaceSpaces(x + y), ReplaceSpaces(x) + ReplaceSpaces(y);
    assert forall i :: 0 <= i < |l| ==> l[i] == r[i];
  }

  lemma ReplaceSpacesOfPlain(x: string)
    requires ' ' !in x
    ensures ReplaceSpaces(x) == x
  {
  }

  /** Replacing the spaces of space-separated plain fields yields the same
      fields separated by commas. */
  lemma ReplaceSpacesOfSpaced(a: string, b: string, c: string)
    requires Plain(a) && Plain(b) && Plain(c)
    ensures ReplaceSpaces(a + " " + b + " " + c) == Join([a, b, c])
  {
    ReplaceSpacesOfPlain(a);
    ReplaceSpacesOfPlain(b);
    ReplaceSpacesOfPlain(c);
    var sp := ReplaceSpaces(" ");
    assert sp == ",";
    calc {
      ReplaceSpaces(a + " " + b + " " + c);
      { ReplaceSpacesConcat(a + " " + b + " ", c); }
      ReplaceSpaces(a + " " + b + " ") + c;
      { ReplaceSpacesConcat(a + " " + b, " "); }
      ReplaceSpaces(a + " " + b) + "," + c;
      { ReplaceSpacesConcat(a + " ", b); }
      ReplaceSpaces(a + " ") + b + "," + c;
      { ReplaceSpacesConcat(a, " "); }
      a + "," + b + "," + c;
    }
    JoinThree(a, b, c);
  }

  /** Three plain space-separated fields, with spaces replaced by commas,
      split back into those three fields. */
  lemma SplitSpaced(a: string, b: string, c: string)
    requires Plain(a) && Plain(b) && Plain(c)
    ensures Split(ReplaceSpaces(a + " " + b + " " + c)) == [a, b, c]
  {
    ReplaceSpacesOfSpaced(a, b, c);
    SplitJoin([a, b, c]);
  }

  lemma JoinThree(a: string, b: string, c: string)
    ensures Join([a, b, c]) == a + "," + b + "," + c
  {
    assert [a, b, c][1..] == [b, c];
    assert [b, c][1..] == [c];
    assert Join([c]) == c;
    assert Join([b, c]) == b + "," + c;
    assert Join([a, b, c]) == a + "," + (b + "," + c);
    assert a + "," + (b + "," + c) == a + "," + b + "," + c;
  }

  /** `s.endsWith(suffix)`. */
  predicate EndsWith(s: string, suffix: string)
  {
    |s| >= |suffix| && s[|s| - |suffix|..] == suffix
  }

  /** `EndsWith` holds exactly when `s` is some stem followed by the suffix. */
  lemma EndsWithStem(s: string, suffix: string)
    ensures EndsWith(s, suffix) <==> exists stem :: s == stem + suffix
  {
    if EndsWith(s, suffix) {
      var stem := s[..|s| - |suffix|];
      assert s == stem + suffix;
    }
    if exists stem :: s == stem + suffix {
      var stem :| s == stem + suffix;
      assert s[|s| - |suffix|..] == suffix;
    }
  }

  // ---------------------------------------------------------------------------
  // Integers

  predicate IsDigit(ch: char)
  {
    '0' <= ch <= '9'
  }

  predicate AllDigits(s: string)
  {
    forall i :: 0 <= i < |s| ==> IsDigit(s[i])
  }

  /** The value of a string of decimal digits. */
  function DigitsValue(s: string): (n: nat)
    requires AllDigits(s)
  {
    if |s| == 0 then 0
    else DigitsValue(s[..|s| - 1]) * 10 + (s[|s| - 1] as int - '0' as int)
  }

  /** An optional sign and at least one digit, read as an integer of any
      size; `Integer.parseInt` and `new BigDecimal` read their integer parts
      this way. */
  function ParseInteger(s: string): (r: Option<int>)
    ensures r.Some? ==> Plain(s)
  {
    if |s| == 0 then None
    else if s[0] == '-' || s[0] == '+' then
      var digits := s[1..];
      if |digits| == 0 || !AllDigits(digits) then None
      else
        assert forall i :: 1 <= i < |s| ==> s[i] == digits[i - 1];
        Some(if s[0] == '-' then -(DigitsValue(digits) as int) else DigitsValue(digits))
    else if !AllDigits(s) then None
    else Some(DigitsValue(s))
  }

  /** `Integer.parseInt(s)`: an optional sign and at least one digit, within
      the range of `int`; anything else throws `NumberFormatException`. */
  function ParseInt(s: string): (r: Option<Int32>)
    ensures r.Some? ==> Plain(s)
    ensures r.Some? <==> ParseInteger(s).Some? && MinInt32 <= ParseInteger(s).value <= MaxInt32
  {
    match ParseInteger(s)
    case Some(n) => if MinInt32 <= n <= MaxInt32 then Some(n) else None
    case None => None
  }

  function DigitChar(d: int): char
    requires 0 <= d < 10
  {
    ('0' as int + d) as char
  }

  /** The decimal digits of `n`, without leading zeros. */
  function NatText(n: nat): (s: string)
    ensures |s| >= 1 && AllDigits(s)
  {
    if n < 10 then [DigitChar(n)] else NatText(n / 10) + [DigitChar(n % 10)]
  }

  lemma {:induction false} NatTextValue(n: nat)
    ensures DigitsValue(NatText(n)) == n
  {
    if n >= 10 {
      NatTextValue(n / 10);
      var s := NatText(n);
      assert s[..|s| - 1] == NatText(n / 10);
    }
  }

  /** `Integer.toString(n)`, which `n + ","` uses, for an integer of any size:
      a minus sign exactly for negative numbers, then the digits. */
  function IntText(n: int): (s: string)
    ensures |s| >= 1 && (s[0] == '-' <==> n < 0)
    ensures forall i :: 0 <= i < |s| ==> IsDigit(s[i]) || (i == 0 && s[i] == '-')
  {
    if n < 0 then "-" + NatText(-n) else NatText(n)
  }

  /** `ParseInteger` inverts `IntText`. */
  lemma ParseIntegerText(n: int)
    ensures Plain(IntText(n))
    ensures ParseInteger(IntText(n)) == Some(n)
  {
    NatTextValue(if n < 0 then -n else n);
    if n < 0 {
      assert IntText(n)[1..] == NatText(-n);
    }
  }

  /** `IntText` is plain, and `ParseInt` inverts it for every `int`. */
  lemma ParseIntText(n: Int32)
    ensures Plain(IntText(n))
    ensures ParseInt(IntText(n)) == Some(n)
  {
    ParseIntegerText(n);
  }

  /** Outside the range of `int` the text of a number is refused:
      `parseInt` does not wrap round. */
  lemma ParseIntOutOfRange(n: int)
    requires n < MinInt32 || MaxInt32 < n
    ensures ParseInt(IntText(n)) == None
  {
    ParseIntegerText(n);
  }

  /** The index of the first `ch` in `s`, or `|s|` when there is none. */
  function IndexOf(s: string, ch: char): (i: nat)
    ensures i <= |s|
    ensures forall j :: 0 <= j < i ==> s[j] != ch
    ensures i < |s| ==> s[i] == ch
  {
    if |s| == 0 || s[0] == ch then 0 else 1 + IndexOf(s[1..], ch)
  }

  /** In `a + [ch] + b` with no `ch` in `a`, the first `ch` is the one after `a`. */
  lemma IndexOfJoined(a: string, ch: char, b: string)
    requires ch !in a
    ensures IndexOf(a + [ch] + b, ch) == |a|
  {
    var s := a + [ch] + b;
    assert forall j | 0 <= j < |a| :: s[j] == a[j];
    assert s[|a|] == ch;
  }

  /** A type name is a plain token. */
  lemma NamePlain(k: Kind)
    ensures Plain(Name(k))
  {
  }

  // ---------------------------------------------------------------------------
  // Dates and amounts

  /** The text forms of `LocalDateTime` and `BigDecimal`, which the model takes
      as given: `dateText` is `LocalDateTime.toString()`, `isoDateText` the
      `ISO_LOCAL_DATE_TIME` format, `parseDate` is `LocalDateTime.parse`,
      `amountText` is `BigDecimal.toString()` and `parseAmount` is
      `new BigDecimal(String)`. */
  datatype Codec = Codec(
    dateText: Timestamp -> string,
    isoDateText: Timestamp -> string,
    parseDate: string -> Option<Timestamp>,
    amountText: Amount -> string,
    parseAmount: string -> Option<Decimal>)

  /** What the Java library guarantees of these text forms: each is a
      non-empty token without spaces or commas, and parsing it gives the value
      back. */
  ghost predicate Sound(c: Codec)
  {
    && (forall t: Timestamp :: Plain(c.dateText(t)) && c.parseDate(c.dateText(t)) == Some(t))
    && (forall t: Timestamp :: Plain(c.isoDateText(t)) && c.parseDate(c.isoDateText(t)) == Some(t))
    && (forall a: Amount :: Plain(c.amountText(a)) && c.parseAmount(c.amountText(a)) == Some(a))
  }

  // ---------------------------------------------------------------------------
  // A codec meeting `Sound`

  /** A date read as its signed count of nanoseconds. */
  function ParseNanos(s: string): Option<Timestamp>
  {
    match ParseInteger(s)
    case Some(n) => if MinTimestamp <= n <= MaxTimestamp then Some(n) else None
    case None => None
  }

  /** A decimal written as its unscaled value, "E" and its negated scale. */
  function DecimalText(a: Decimal): string
  {
    IntText(a.unscaled) + "E" + IntText(-a.scale)
  }

  function ParseDecimal(s: string): Option<Decimal>
  {
    var i := IndexOf(s, 'E');
    if i == |s| then None else DecimalOf(ParseInteger(s[..i]), ParseInteger(s[i + 1..]))
  }

  function DecimalOf(u: Option<int>, e: Option<int>): Option<Decimal>
  {
    if u.Some? && e.Some? then Some(Decimal(u.value, -e.value)) else None
  }

  /** Dates as nanosecond counts and amounts as unscaled value and exponent.
      Its forms differ from Java's, but it shows that the round trips `Sound`
      asks for can all hold at once. */
  const DigitsCodec: Codec := Codec(
    (t: Timestamp) => IntText(t),
    (t: Timestamp) => IntText(t),
    ParseNanos,
    (a: Amount) => DecimalText(a),
    ParseDecimal)

  /** Two plain tokens joined by a character other than a space or comma
      form a plain token. */
  lemma PlainJoined(a: string, ch: char, b: string)
    requires Plain(a) && Plain(b) && ch != ' ' && ch != ','
    ensures Plain(a + [ch] + b)
  {
  }

  /** The text of an integer has no letter "E". */
  lemma NoExponentInIntText(n: int)
    ensures 'E' !in IntText(n)
  {
    var u := IntText(n);
    forall i | 0 <= i < |u| ensures u[i] != 'E' {
      assert IsDigit(u[i]) || u[i] == '-';
    }
  }

  lemma DecimalTextReadsBack(a: Decimal)
    ensures Plain(DecimalText(a)) && ParseDecimal(DecimalText(a)) == Some(a)
  {
    ParseIntegerText(a.unscaled);
    ParseIntegerText(-a.scale);
    NoExponentInIntText(a.unscaled);
    JoinedReadsBack(IntText(a.unscaled), IntText(-a.scale), a.unscaled, -a.scale);
  }

  /** Two integer texts joined by "E", the first without an "E", read back as
      the decimal they name. */
  lemma JoinedReadsBack(u: string, e: string, x: int, y: int)
    requires Plain(u) && Plain(e) && 'E' !in u
    requires ParseInteger(u) == Some(x) && ParseInteger(e) == Some(y)
    ensures Plain(u + ['E'] + e) && ParseDecimal(u + ['E'] + e) == Some(Decimal(x, -y))
  {
    var s := u + ['E'] + e;
    PlainJoined(u, 'E', e);
    IndexOfJoined(u, 'E', e);
    SplitAround(u, 'E', e);
    ParseDecimalAt(s, |u|, x, y);
  }

  /** `ParseDecimal` reads the integers on either side of the first "E". */
  lemma ParseDecimalAt(s: string, i: nat, u: int, e: int)
    requires i < |s| && IndexOf(s, 'E') == i
    requires ParseInteger(s[..i]) == Some(u) && ParseInteger(s[i + 1..]) == Some(e)
    ensures ParseDecimal(s) == Some(Decimal(u, -e))
  {
    assert ParseDecimal(s) == DecimalOf(ParseInteger(s[..i]), ParseInteger(s[i + 1..]));
  }

  lemma SplitAround(a: string, ch: char, b: string)
    ensures (a + [ch] + b)[..|a|] == a && (a + [ch] + b)[|a| + 1..] == b
  {
  }

  /** `Sound` can be met: `DigitsCodec` meets it. */
  lemma DigitsCodecSound()
    ensures Sound(DigitsCodec)
  {
    forall t: Timestamp
      ensures Plain(DigitsCodec.dateText(t)) && DigitsCodec.parseDate(DigitsCodec.dateText(t)) == Some(t)
    {
      ParseIntegerText(t);
    }
    forall a: Amount
      ensures Plain(DigitsCodec.amountText(a)) && DigitsCodec.parseAmount(DigitsCodec.amountText(a)) == Some(a)
    {
      DecimalTextReadsBack(a);
    }
  }
}
