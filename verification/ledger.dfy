/** `FinanceTracker`: a map from ids to transactions, an id counter and a
    running balance, with bulk loading from and saving to a three-field CSV
    file. The counter is a `static` field in the code; the model has one
    ledger, so it is part of the ledger's state. */
module Ledger {
  import opened Outcomes
  import opened JavaTypes
  import opened Text
  import opened Errors
  import opened Files
  import opened IdOrder
  import opened DomainTransaction
  import opened LineLoop

  datatype Ledger = Ledger(transactions: map<Int32, Tx>, lastFreeId: Int32, balance: real)

  /** The state of a new ledger: no transactions, counter and balance 0. */
  const Initial: Ledger := Ledger(map[], 0, 0.0)

  /** The ids in use are exactly 0 up to, not including, the counter. */
  ghost predicate Valid(l: Ledger)
  {
    && 0 <= l.lastFreeId
    && forall id: Int32 :: id in l.transactions <==> 0 <= id < l.lastFreeId
  }

  /** Every stored transaction came out of the constructor. */
  ghost predicate AllNormal(l: Ledger)
  {
    forall id :: id in l.transactions ==> Normal(l.transactions[id])
  }

  /** What a transaction does to the balance. */
  function Signed(t: Tx): real
  {
    match t.kind
    case Income => Value(t.sum)
    case Expense => -(Value(t.sum))
  }

  // ---------------------------------------------------------------------------
  // Queries

  /** `getTransactionById`. */
  function GetTransactionById(l: Ledger, id: Int32): (r: Result<Tx, Error>)
    ensures r.Ok? <==> id in l.transactions
    ensures r.Ok? ==> r.value == l.transactions[id]
    ensures r.Err? ==> r.error == NoTransactions(NoSuchId(id))
  {
    if id in l.transactions then Ok(l.transactions[id]) else Err(NoTransactions(NoSuchId(id)))
  }

  /** `getTransactionsBetweenDates`: a start after the end is refused;
      otherwise the entries dated strictly between the bounds, under their
      ids, and possibly none. */
  function GetTransactionsBetweenDates(l: Ledger, start: Timestamp, end: Timestamp): (r: Result<map<Int32, Tx>, Error>)
    ensures r.Err? <==> start > end
    ensures r.Err? ==> r.error == StartAfterEnd
    ensures r.Ok? ==> forall id :: id in r.value <==> id in l.transactions && start < l.transactions[id].dateTime < end
    ensures r.Ok? ==> forall id :: id in r.value ==> r.value[id] == l.transactions[id]
  {
    if start > end then Err(StartAfterEnd)
    else Ok(map id | id in l.transactions && start < l.transactions[id].dateTime < end :: l.transactions[id])
  }

  // ---------------------------------------------------------------------------
  // Adding one transaction

  /** `addTransaction`: an expense larger than the balance is refused and
      nothing changes; otherwise the transaction goes under the counter, the
      counter moves on and the balance moves by the sum. */
  function AddTransaction(l: Ledger, t: Tx): (r: Result<Ledger, Error>)
    ensures r.Err? <==> t.kind == Expense && l.balance < Value(t.sum)
    ensures r.Err? ==> r.error == InsufficientFunds(t.sum)
    ensures r.Ok? ==> r.value.transactions.Keys == l.transactions.Keys + {l.lastFreeId}
    ensures r.Ok? ==> r.value.transactions[l.lastFreeId] == t
    ensures r.Ok? ==> forall id :: id in l.transactions && id != l.lastFreeId ==> r.value.transactions[id] == l.transactions[id]
    ensures r.Ok? && l.lastFreeId < MaxInt32 ==> r.value.lastFreeId == l.lastFreeId + 1
    ensures r.Ok? && t.kind == Income ==> r.value.balance == l.balance + Value(t.sum)
    ensures r.Ok? && t.kind == Expense ==> r.value.balance == l.balance - Value(t.sum)
    ensures r.Ok? && l.balance >= 0.0 ==> r.value.balance >= 0.0
  {
    if t.kind == Expense && l.balance < Value(t.sum) then Err(InsufficientFunds(t.sum))
    else Ok(Ledger(l.transactions[l.lastFreeId := t], Increment(l.lastFreeId), l.balance + Signed(t)))
  }

  /** While the counter is below the largest `int`, an add keeps the ids
      exactly 0 up to the counter and every transaction normal. */
  lemma AddKeepsValid(l: Ledger, t: Tx)
    requires Valid(l) && l.lastFreeId < MaxInt32 && AddTransaction(l, t).Ok?
    ensures l.lastFreeId !in l.transactions
    ensures Valid(AddTransaction(l, t).value)
    ensures AllNormal(l) && Normal(t) ==> AllNormal(AddTransaction(l, t).value)
  {
  }

  // ---------------------------------------------------------------------------
  // The balance as the signed sum of the stored transactions

  /** The sum of the stored amounts, incomes counted positive and expenses
      negative. */
  ghost function SignedSum(m: map<Int32, Tx>): real
    decreases |m|
  {
    if m == map[] then 0.0
    else
      var k := MinOf(m.Keys);
      var rest := m - {k};
      assert |rest.Keys| < |m.Keys| by {
        assert rest.Keys == m.Keys - {k};
      }
      Signed(m[k]) + SignedSum(rest)
  }

  /** The sum does not depend on which entry is taken out first. */
  lemma {:induction false} SignedSumRemove(m: map<Int32, Tx>, x: Int32)
    requires x in m
    ensures SignedSum(m) == Signed(m[x]) + SignedSum(m - {x})
    decreases |m|
  {
    var k := MinOf(m.Keys);
    if x != k {
      var mk, mx := m - {k}, m - {x};
      assert mk.Keys == m.Keys - {k} && mx.Keys == m.Keys - {x};
      assert |mk| < |m| && |mx| < |m|;
      SignedSumRemove(mk, x);
      SignedSumRemove(mx, k);
      assert mk - {x} == mx - {k};
    }
  }

  /** Adding an entry under a fresh key adds its signed amount. */
  lemma SignedSumAdd(m: map<Int32, Tx>, x: Int32, t: Tx)
    requires x !in m
    ensures SignedSum(m[x := t]) == SignedSum(m) + Signed(t)
  {
    SignedSumRemove(m[x := t], x);
    assert m[x := t] - {x} == m;
  }

  /** The balance is the signed sum of the stored transactions. */
  ghost predicate Consistent(l: Ledger)
  {
    l.balance == SignedSum(l.transactions)
  }

  /** Over a history of adds alone, the balance stays the signed sum of what
      is stored: the new id was free, so the sum gains exactly the new
      transaction's amount. */
  lemma AddKeepsConsistent(l: Ledger, t: Tx)
    requires Valid(l) && l.lastFreeId < MaxInt32 && Consistent(l)
    requires AddTransaction(l, t).Ok?
    ensures Consistent(AddTransaction(l, t).value)
  {
    AddKeepsValid(l, t);
    SignedSumAdd(l.transactions, l.lastFreeId, t);
  }

  /** A new ledger is valid, solvent and consistent. */
  lemma InitialInvariants()
    ensures Valid(Initial) && AllNormal(Initial) && Initial.balance >= 0.0 && Consistent(Initial)
  {
  }

  // ---------------------------------------------------------------------------
  // Reading transactions from a file

  /** One line of the file as `safelyAddTransactionsFromFile` reads it: the
      date, type and sum from the first three comma-separated fields (later
      fields are ignored); a missing field or one that does not parse is a
      failure. */
  function ParseLine(c: Codec, line: string): (r: Option<Tx>)
    ensures r.Some? <==>
              var f := Split(line);
              |f| >= 3 && c.parseDate(f[0]).Some? && ValueOf(f[1]).Some? && c.parseAmount(f[2]).Some?
    ensures r.Some? ==> Normal(r.value) && r.value.kind == ValueOf(Split(line)[1]).value
  {
    var f := Split(line);
    if |f| < 1 then None
    else match c.parseDate(f[0])
      case None => None
      case Some(date) =>
        if |f| < 2 then None
        else match ValueOf(f[1])
          case None => None
          case Some(kind) =>
            if |f| < 3 then None
            else match c.parseAmount(f[2])
              case None => None
              case Some(sum) => Some(New(date, kind, sum))
  }

  /** One pass of the reading loop: the line parsed and passed to
      `addTransaction`, giving the next ledger, or nothing when the line does
      not parse or is refused. */
  function StepLine(c: Codec, l: Ledger, line: string): (r: Option<Ledger>)
    ensures r.Some? <==> ParseLine(c, line).Some? && AddTransaction(l, ParseLine(c, line).value).Ok?
    ensures r.Some? ==> r.value == AddTransaction(l, ParseLine(c, line).value).value
  {
    match ParseLine(c, line)
    case None => None
    case Some(t) =>
      match AddTransaction(l, t)
      case Err(_) => None
      case Ok(next) => Some(next)
  }

  /** `StepLine` as a step of the loop's shape. */
  function Step(c: Codec): (Ledger, string) -> Option<Ledger>
  {
    (l: Ledger, line: string) => StepLine(c, l, line)
  }

  /** The reading loop from line `i` on: each line is stepped in turn, and
      the first line that fails stops the loop. A solvent ledger stays
      solvent. */
  function AddLines(c: Codec, l: Ledger, lines: seq<string>, i: nat): (r: Run<Ledger>)
    requires i <= |lines|
    ensures r.failedAt.Some? ==> i <= r.failedAt.value < |lines|
    ensures l.balance >= 0.0 ==> r.state.balance >= 0.0
  {
    assert l.balance >= 0.0 ==> Fold(Step(c), l, lines, i).state.balance >= 0.0 by {
      if l.balance >= 0.0 {
        FoldKeeps(Step(c), (x: Ledger) => x.balance >= 0.0, l, lines, i);
      }
    }
    Fold(Step(c), l, lines, i)
  }

  /** `copyTransactions`: a copy of the map with every transaction copied. */
  function Snapshot(m: map<Int32, Tx>): (r: map<Int32, Tx>)
    ensures r.Keys == m.Keys
    ensures forall id :: id in m ==> r[id] == Copy(m[id])
  {
    map id | id in m :: Copy(m[id])
  }

  /** Copies of constructed transactions are equal to them, so the snapshot
      of a ledger's map is that map. */
  lemma SnapshotOfNormal(l: Ledger)
    requires AllNormal(l)
    ensures Snapshot(l.transactions) == l.transactions
  {
  }

  /** A bulk load and how it ended. */
  datatype Outcome = Outcome(ledger: Ledger, result: Result<(), Error>)

  /** `safelyAddTransactionsFromFile`: run the loop; on a failure put back the
      saved map and counter and report the number of lines added before it.
      The balance is not put back. */
  function SafelyAdd(c: Codec, l: Ledger, lines: seq<string>, saved: map<Int32, Tx>, savedId: Int32): (r: Outcome)
    ensures r.result.Err? ==> r.ledger.transactions == saved && r.ledger.lastFreeId == savedId
    ensures r.result.Err? ==> exists n :: 0 <= n < |lines| && r.result.error == FileFormat(BadValuesOnLine(n))
    ensures r.result.Ok? <==> AddLines(c, l, lines, 0).failedAt.None?
    ensures r.result.Ok? ==> r.ledger == AddLines(c, l, lines, 0).state
    ensures r.result.Err? ==> r.result.error == FileFormat(BadValuesOnLine(AddLines(c, l, lines, 0).failedAt.value))
    ensures r.result.Err? ==> r.ledger.balance == AddLines(c, l, lines, 0).state.balance
    ensures l.balance >= 0.0 ==> r.ledger.balance >= 0.0
  {
    var run := AddLines(c, l, lines, 0);
    match run.failedAt
    case None => Outcome(run.state, Ok(()))
    case Some(n) => Outcome(Ledger(saved, savedId, run.state.balance), Err(FileFormat(BadValuesOnLine(n))))
  }

  /** The line-shape precheck as written: a line passes when it contains a
      comma or splits into three fields. A line without a comma is one
      field, so the second half never decides: the check is the comma. */
  predicate LinePasses(line: string)
    ensures LinePasses(line) <==> ',' in line
  {
    ',' in line || |Split(line)| == 3
  }

  /** The checks both bulk loads make before reading: the file exists, is
      readable, has a `.csv` path, and every line passes the precheck. */
  function CheckSource(path: string, file: FileState): (r: Result<(), Error>)
    ensures r.Ok? <==> CanRead(file) && EndsWith(path, ".csv") && forall i :: 0 <= i < |file.lines| ==> LinePasses(file.lines[i])
    ensures !file.present ==> r == Err(FileNotFound(DoesNotExist))
    ensures r.Err? && file.present ==> r.error.FileFormat?
  {
    if !file.present then Err(FileNotFound(DoesNotExist))
    else if !CanRead(file) then Err(FileFormat(NotReadable))
    else if !EndsWith(path, ".csv") then Err(FileFormat(NotCsv))
    else if exists i :: 0 <= i < |file.lines| && !LinePasses(file.lines[i]) then Err(FileFormat(NotThreeValuesPerLine))
    else Ok(())
  }

  /** `addTransactionsFromFile`. */
  function AddTransactionsFromFile(c: Codec, l: Ledger, path: string, file: FileState): (r: Outcome)
    ensures CheckSource(path, file).Err? ==> r == Outcome(l, Err(CheckSource(path, file).error))
    ensures r.result.Err? && AllNormal(l) ==> r.ledger.transactions == l.transactions && r.ledger.lastFreeId == l.lastFreeId
    ensures CheckSource(path, file).Ok? ==> (r.result.Ok? <==> AddLines(c, l, file.lines, 0).failedAt.None?)
    ensures r.result.Ok? ==> r.ledger == AddLines(c, l, file.lines, 0).state
    ensures CheckSource(path, file).Ok? && r.result.Err? ==>
              && r.result.error == FileFormat(BadValuesOnLine(AddLines(c, l, file.lines, 0).failedAt.value))
              && r.ledger.balance == AddLines(c, l, file.lines, 0).state.balance
    ensures l.balance >= 0.0 ==> r.ledger.balance >= 0.0
  {
    match CheckSource(path, file)
    case Err(e) => Outcome(l, Err(e))
    case Ok(_) =>
      assert AllNormal(l) ==> Snapshot(l.transactions) == l.transactions by {
        if AllNormal(l) { SnapshotOfNormal(l); }
      }
      SafelyAdd(c, l, file.lines, Snapshot(l.transactions), l.lastFreeId)
  }

  /** `replaceTransactionsWithFileTransactions`: as the append, but the map is
      emptied and the counter reset to 0 before the loop; the balance is
      left as it was. */
  function ReplaceTransactionsWithFileTransactions(c: Codec, l: Ledger, path: string, file: FileState): (r: Outcome)
    ensures CheckSource(path, file).Err? ==> r == Outcome(l, Err(CheckSource(path, file).error))
    ensures r.result.Err? && AllNormal(l) ==> r.ledger.transactions == l.transactions && r.ledger.lastFreeId == l.lastFreeId
    ensures CheckSource(path, file).Ok? ==> (r.result.Ok? <==> AddLines(c, Ledger(map[], 0, l.balance), file.lines, 0).failedAt.None?)
    ensures r.result.Ok? ==> r.ledger == AddLines(c, Ledger(map[], 0, l.balance), file.lines, 0).state
    ensures CheckSource(path, file).Ok? && r.result.Err? ==>
              && r.result.error == FileFormat(BadValuesOnLine(AddLines(c, Ledger(map[], 0, l.balance), file.lines, 0).failedAt.value))
              && r.ledger.balance == AddLines(c, Ledger(map[], 0, l.balance), file.lines, 0).state.balance
    ensures l.balance >= 0.0 ==> r.ledger.balance >= 0.0
  {
    match CheckSource(path, file)
    case Err(e) => Outcome(l, Err(e))
    case Ok(_) =>
      var cleared := Ledger(map[], 0, l.balance);
      assert AllNormal(l) ==> Snapshot(l.transactions) == l.transactions by {
        if AllNormal(l) { SnapshotOfNormal(l); }
      }
      SafelyAdd(c, cleared, file.lines, Snapshot(l.transactions), l.lastFreeId)
  }

  // ---------------------------------------------------------------------------
  // What the loop does

  /** The reading loop reports the first line that fails: every line before
      it was read and added, and that line either does not parse or is
      refused by the ledger those lines produced. */
  lemma AddLinesFirstFailure(c: Codec, l: Ledger, lines: seq<string>, i: nat, n: nat)
    requires i <= n < |lines|
    requires AddLines(c, l, lines, i).failedAt == Some(n)
    ensures AddLines(c, l, lines[..n], i).failedAt.None?
    ensures StepLine(c, AddLines(c, l, lines[..n], i).state, lines[n]).None?
    ensures AddLines(c, l, lines, i).state == AddLines(c, l, lines[..n], i).state
  {
    FirstFailure(Step(c), l, lines, i, n);
  }

  /** Reading lines into a valid ledger whose counter leaves room for all of
      them keeps it valid, and keeps the balance equal to the signed sum of
      the stored transactions when it was. */
  lemma {:induction false} AddLinesKeepInvariants(c: Codec, l: Ledger, lines: seq<string>, i: nat)
    requires i <= |lines| && Valid(l) && l.lastFreeId + (|lines| - i) <= MaxInt32
    ensures Valid(AddLines(c, l, lines, i).state)
    ensures AllNormal(l) ==> AllNormal(AddLines(c, l, lines, i).state)
    ensures Consistent(l) ==> Consistent(AddLines(c, l, lines, i).state)
    ensures AddLines(c, l, lines, i).state.lastFreeId <= l.lastFreeId + (|lines| - i)
    ensures AddLines(c, l, lines, i).failedAt.None? ==>
              AddLines(c, l, lines, i).state.lastFreeId == l.lastFreeId + (|lines| - i)
    decreases |lines| - i
  {
    if i < |lines| && StepLine(c, l, lines[i]).Some? {
      var next := StepLine(c, l, lines[i]).value;
      StepKeepsInvariants(c, l, lines[i]);
      assert Fold(Step(c), l, lines, i) == Fold(Step(c), next, lines, i + 1);
      AddLinesKeepInvariants(c, next, lines, i + 1);
    }
  }

  /** One line taken into a valid ledger with room for one more id. */
  lemma StepKeepsInvariants(c: Codec, l: Ledger, line: string)
    requires Valid(l) && l.lastFreeId < MaxInt32 && StepLine(c, l, line).Some?
    ensures var next := StepLine(c, l, line).value;
            && Valid(next)
            && next.lastFreeId == l.lastFreeId + 1
            && (AllNormal(l) ==> AllNormal(next))
            && (Consistent(l) ==> Consistent(next))
  {
    var t := ParseLine(c, line).value;
    AddKeepsValid(l, t);
    if Consistent(l) {
      AddKeepsConsistent(l, t);
    }
  }

  // ---------------------------------------------------------------------------
  // Saving to a file

  /** The file after a save attempt, and how the attempt ended. */
  datatype Saving = Saving(file: FileState, result: Result<(), Error>)

  /** The lines `saveTransactionsToFile` writes: each transaction's
      `toString` with spaces replaced by commas, in the map's iteration
      order. */
  function SavedLines(c: Codec, m: map<Int32, Tx>): (r: seq<string>)
    ensures |r| == |m|
  {
    var ts := ValuesInOrder(m);
    seq(|ts|, i requires 0 <= i < |ts| => ReplaceSpaces(ToString(c, ts[i])))
  }

  /** `saveTransactionsToFile`: an empty ledger is refused before any file
      work; then the file must be creatable, is created when missing, must
      be writable and have a `.csv` path, and is overwritten with one line
      per transaction. */
  function SaveTransactionsToFile(c: Codec, l: Ledger, path: string, file: FileState): (r: Saving)
    ensures l.transactions == map[] ==> r == Saving(file, Err(NoTransactions(NothingToSave)))
    ensures r.result.Ok? <==>
              l.transactions != map[] && file.creatable && CreateIfMissing(file).writable && EndsWith(path, ".csv")
    ensures r.result.Ok? ==> r.file == CreateIfMissing(file).(lines := SavedLines(c, l.transactions))
    ensures r.result.Err? ==> r.file.lines == file.lines || (!file.present && r.file.lines == [])
  {
    if l.transactions == map[] then Saving(file, Err(NoTransactions(NothingToSave)))
    else if !file.creatable then Saving(file, Err(FileCreation))
    else
      var created := CreateIfMissing(file);
      if !created.present then Saving(created, Err(FileNotFound(DoesNotExist)))
      else if !created.writable then Saving(created, Err(FileNotFound(CannotWrite)))
      else if !EndsWith(path, ".csv") then Saving(created, Err(FileFormat(NotCsv)))
      else Saving(created.(lines := SavedLines(c, l.transactions)), Ok(()))
  }

  /** Every line a save writes passes the precheck and reads back, through
      the loop's parser, as the transaction it was written from; the lines
      follow the ids in ascending order. */
  lemma SavedLinesReadBack(c: Codec, m: map<Int32, Tx>)
    requires Sound(c)
    requires forall id :: id in m ==> Normal(m[id])
    ensures var lines := SavedLines(c, m);
            forall i :: 0 <= i < |lines| ==>
              && |Split(lines[i])| == 3
              && LinePasses(lines[i])
              && ParseLine(c, lines[i]) == Some(m[SortedIds(m.Keys)[i]])
  {
    var lines := SavedLines(c, m);
    var ts := ValuesInOrder(m);
    forall i | 0 <= i < |lines|
      ensures |Split(lines[i])| == 3 && LinePasses(lines[i]) && ParseLine(c, lines[i]) == Some(m[SortedIds(m.Keys)[i]])
    {
      assert lines[i] == ReplaceSpaces(ToString(c, ts[i]));
      SavedLineReadsBack(c, ts[i]);
    }
  }

  /** One saved line: three fields, passing the precheck, parsing back to
      the transaction it was written from. */
  lemma SavedLineReadsBack(c: Codec, t: Tx)
    requires Sound(c) && Normal(t)
    ensures var line := ReplaceSpaces(ToString(c, t));
            |Split(line)| == 3 && LinePasses(line) && ParseLine(c, line) == Some(t)
  {
    ToStringFields(c, t);
    NewOfNormal(t);
    ReplaceSpacesOfSpacedHasComma(c, t);
  }

  lemma ReplaceSpacesOfSpacedHasComma(c: Codec, t: Tx)
    ensures ',' in ReplaceSpaces(ToString(c, t))
  {
    var d := c.dateText(t.dateTime);
    var s := ToString(c, t);
    assert s[|d|] == ' ';
    assert ReplaceSpaces(s)[|d|] == ',';
  }
}
