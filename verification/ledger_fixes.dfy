/** Three defects of the ledger's file loading, each shown on a concrete
    input against the model of the code as written, next to a corrected
    definition with the property the code evidently intends. */
module LedgerFixes {
  import opened Outcomes
  import opened JavaTypes
  import opened Text
  import opened Errors
  import opened Files
  import opened LineLoop
  import opened DomainTransaction
  import opened Ledger

  /** `BigDecimal` one, `new BigDecimal("1")`. */
  const One: Amount := Decimal(1, 0)

  /** A small text form for the examples: the date "D" is the epoch and the
      amount "1" is one. */
  const Demo: Codec := Codec(
    (t: Timestamp) => "D",
    (t: Timestamp) => "D",
    (s: string) => if s == "D" then Some(0) else None,
    (a: Amount) => "1",
    (s: string) => if s == "1" then Some(One) else None)

  /** The lines "D,INCOME,1", "D,EXPENSE,1" and "x,y". */
  const Good: string := "D" + "," + "INCOME" + "," + "1"
  const Spend: string := "D" + "," + "EXPENSE" + "," + "1"
  const Bad: string := "x" + "," + "y"

  lemma SplitThree(a: string, b: string, c: string)
    requires Plain(a) && Plain(b) && Plain(c)
    ensures Split(a + "," + b + "," + c) == [a, b, c] && ',' in a + "," + b + "," + c
  {
    JoinThree(a, b, c);
    SplitJoin([a, b, c]);
    assert (a + "," + b + "," + c)[|a|] == ',';
  }

  lemma SplitTwo(a: string, b: string)
    requires Plain(a) && Plain(b)
    ensures Split(a + "," + b) == [a, b] && ',' in a + "," + b
  {
    assert Join([a, b]) == a + "," + Join([b]);
    SplitJoin([a, b]);
    assert (a + "," + b)[|a|] == ',';
  }

  lemma ParseDemoLines()
    ensures ParseLine(Demo, Good) == Some(Tx(0, Income, One))
    ensures ParseLine(Demo, Spend) == Some(Tx(0, Expense, One))
    ensures ParseLine(Demo, Bad) == None
  {
    SplitThree("D", "INCOME", "1");
    SplitThree("D", "EXPENSE", "1");
    SplitTwo("x", "y");
  }

  // ---------------------------------------------------------------------------
  // Finding 1: a failed load puts back the map and the counter, not the balance

  /** As written: a file whose first line is an income of 1 and whose second
      line does not parse is refused, the map and counter are restored, and
      the balance keeps the income, so it no longer matches the map. */
  lemma RollbackKeepsBalance()
    ensures var r := AddTransactionsFromFile(Demo, Initial, "a.csv", FileState(true, true, true, true, [Good, Bad]));
            && r.result == Err(FileFormat(BadValuesOnLine(1)))
            && r.ledger == Ledger(map[], 0, 1.0)
            && Consistent(Initial)
            && !Consistent(r.ledger)
  {
    DemoSourcePasses([Good, Bad]);
    RunStopsAtBad();
  }

  /** Demo files of these lines pass the checks before reading. */
  lemma DemoSourcePasses(lines: seq<string>)
    requires forall i :: 0 <= i < |lines| ==> lines[i] in {Good, Spend, Bad}
    ensures CheckSource("a.csv", FileState(true, true, true, true, lines)).Ok?
  {
    SplitThree("D", "INCOME", "1");
    SplitThree("D", "EXPENSE", "1");
    SplitTwo("x", "y");
    assert EndsWith("a.csv", ".csv");
  }

  /** The loop takes the income and stops at the unparsable line. */
  lemma RunStopsAtBad()
    ensures AddLines(Demo, Initial, [Good, Bad], 0) == Run(Ledger(map[0 := Tx(0, Income, One)], 1, 1.0), Some(1))
  {
    ParseDemoLines();
    var lines := [Good, Bad];
    var one := Ledger(map[0 := Tx(0, Income, One)], 1, 1.0);
    assert StepLine(Demo, Initial, Good) == Some(one);
    assert StepLine(Demo, one, Bad) == None;
    assert Fold(Step(Demo), one, lines, 1) == Run(one, Some(1));
  }

  /** Corrected: a failed load also puts back the balance saved before it. */
  function SafelyAddFixed(c: Codec, l: Ledger, lines: seq<string>, saved: Ledger): (r: Outcome)
    ensures r.result.Err? ==> r.ledger == saved
    ensures r.result.Err? ==> exists n :: 0 <= n < |lines| && r.result.error == FileFormat(BadValuesOnLine(n))
    ensures r.result.Ok? ==> r.ledger == AddLines(c, l, lines, 0).state
    ensures r.result.Ok? <==> AddLines(c, l, lines, 0).failedAt.None?
    ensures r.result.Err? ==> r.result.error == FileFormat(BadValuesOnLine(AddLines(c, l, lines, 0).failedAt.value))
  {
    var run := AddLines(c, l, lines, 0);
    match run.failedAt
    case None => Outcome(run.state, Ok(()))
    case Some(n) => Outcome(saved, Err(FileFormat(BadValuesOnLine(n))))
  }

  /** Corrected `addTransactionsFromFile`: the precheck of finding 3 and the
      full rollback. */
  function AddTransactionsFromFileFixed(c: Codec, l: Ledger, path: string, file: FileState): (r: Outcome)
    ensures CheckSourceFixed(path, file).Err? ==> r == Outcome(l, Err(CheckSourceFixed(path, file).error))
  {
    match CheckSourceFixed(path, file)
    case Err(e) => Outcome(l, Err(e))
    case Ok(_) =>
      assert AllNormal(l) ==> Snapshot(l.transactions) == l.transactions by {
        if AllNormal(l) { SnapshotOfNormal(l); }
      }
      SafelyAddFixed(c, l, file.lines, Ledger(Snapshot(l.transactions), l.lastFreeId, l.balance))
  }

  /** With the fix, appending a file keeps a valid, consistent ledger valid
      and consistent whether it succeeds or fails, and a failure leaves the
      ledger exactly as it was. */
  lemma AddFromFileFixedKeepsInvariants(c: Codec, l: Ledger, path: string, file: FileState)
    requires Valid(l) && AllNormal(l) && Consistent(l)
    requires l.lastFreeId + |file.lines| <= MaxInt32
    ensures var r := AddTransactionsFromFileFixed(c, l, path, file);
            && Valid(r.ledger) && AllNormal(r.ledger) && Consistent(r.ledger)
            && (r.result.Err? ==> r.ledger == l)
  {
    SnapshotOfNormal(l);
    AddLinesKeepInvariants(c, l, file.lines, 0);
  }

  // ---------------------------------------------------------------------------
  // Finding 2: replacing the transactions keeps the old balance

  /** As written: a ledger holding one income of 1, replaced by a file with
      one expense of 1, ends with that expense alone and a balance of 0
      instead of -1; the expense is checked against the old balance. */
  lemma ReplaceKeepsBalance()
    ensures var l := Ledger(map[0 := Tx(0, Income, One)], 1, 1.0);
            var r := ReplaceTransactionsWithFileTransactions(Demo, l, "a.csv", FileState(true, true, true, true, [Spend]));
            && Valid(l) && Consistent(l)
            && r.result == Ok(())
            && r.ledger == Ledger(map[0 := Tx(0, Expense, One)], 1, 0.0)
            && !Consistent(r.ledger)
  {
    DemoSourcePasses([Spend]);
    RunTakesSpend();
    SignedSumAdd(map[], 0, Tx(0, Income, One));
    SignedSumAdd(map[], 0, Tx(0, Expense, One));
  }

  /** From a cleared ledger that kept a balance of 1, the expense of 1 is
      taken and the balance drops to 0. */
  lemma RunTakesSpend()
    ensures AddLines(Demo, Ledger(map[], 0, 1.0), [Spend], 0) == Run(Ledger(map[0 := Tx(0, Expense, One)], 1, 0.0), None)
  {
    ParseDemoLines();
    var cleared := Ledger(map[], 0, 1.0);
    var after := Ledger(map[0 := Tx(0, Expense, One)], 1, 0.0);
    assert StepLine(Demo, cleared, Spend) == Some(after);
    assert Fold(Step(Demo), after, [Spend], 1) == Run(after, None);
  }

  /** Corrected `replaceTransactionsWithFileTransactions`: the balance is
      reset with the map and counter, and put back on failure. */
  function ReplaceFixed(c: Codec, l: Ledger, path: string, file: FileState): (r: Outcome)
    ensures CheckSourceFixed(path, file).Err? ==> r == Outcome(l, Err(CheckSourceFixed(path, file).error))
  {
    match CheckSourceFixed(path, file)
    case Err(e) => Outcome(l, Err(e))
    case Ok(_) =>
      assert AllNormal(l) ==> Snapshot(l.transactions) == l.transactions by {
        if AllNormal(l) { SnapshotOfNormal(l); }
      }
      SafelyAddFixed(c, Initial, file.lines, Ledger(Snapshot(l.transactions), l.lastFreeId, l.balance))
  }

  /** With the fix, a successful replace yields a valid, consistent ledger
      holding one transaction per line under ids 0 upwards, and a failed one
      leaves a valid, consistent ledger exactly as it was. */
  lemma ReplaceFixedKeepsInvariants(c: Codec, l: Ledger, path: string, file: FileState)
    requires Valid(l) && AllNormal(l) && Consistent(l)
    requires |file.lines| <= MaxInt32
    ensures var r := ReplaceFixed(c, l, path, file);
            && Valid(r.ledger) && AllNormal(r.ledger) && Consistent(r.ledger)
            && (r.result.Err? ==> r.ledger == l)
            && (r.result.Ok? ==> r.ledger.lastFreeId == |file.lines|)
  {
    SnapshotOfNormal(l);
    InitialInvariants();
    AddLinesKeepInvariants(c, Initial, file.lines, 0);
  }

  // ---------------------------------------------------------------------------
  // Finding 3: the line precheck lets through any line holding a comma

  /** As written: "a,b" passes the check that lines hold three values,
      though it splits into two. */
  lemma PrecheckAcceptsTwoFields()
    ensures LinePasses("a,b") && |Split("a,b")| == 2
  {
    SplitTwo("a", "b");
    assert "a,b" == "a" + "," + "b";
  }

  /** Corrected precheck: a line passes when it splits into three fields. */
  predicate LinePassesFixed(line: string)
  {
    |Split(line)| == 3
  }

  /** Corrected source checks: the same order, with the corrected precheck. */
  function CheckSourceFixed(path: string, file: FileState): (r: Result<(), Error>)
    ensures r.Ok? <==> CanRead(file) && EndsWith(path, ".csv") && forall i :: 0 <= i < |file.lines| ==> |Split(file.lines[i])| == 3
    ensures !file.present ==> r == Err(FileNotFound(DoesNotExist))
    ensures r.Err? && file.present ==> r.error.FileFormat?
    ensures r == Err(FileFormat(NotThreeValuesPerLine)) <==>
              CanRead(file) && EndsWith(path, ".csv") && exists i :: 0 <= i < |file.lines| && |Split(file.lines[i])| != 3
  {
    if !file.present then Err(FileNotFound(DoesNotExist))
    else if !CanRead(file) then Err(FileFormat(NotReadable))
    else if !EndsWith(path, ".csv") then Err(FileFormat(NotCsv))
    else if exists i :: 0 <= i < |file.lines| && !LinePassesFixed(file.lines[i]) then Err(FileFormat(NotThreeValuesPerLine))
    else Ok(())
  }

  /** The corrected precheck is no stricter than the written one on the
      lines a save produces: each splits into three fields. */
  lemma SavedLinesPassFixed(c: Codec, m: map<Int32, Tx>)
    requires Sound(c) && forall id :: id in m ==> Normal(m[id])
    ensures forall i :: 0 <= i < |SavedLines(c, m)| ==> LinePassesFixed(SavedLines(c, m)[i]) && LinePasses(SavedLines(c, m)[i])
  {
    SavedLinesReadBack(c, m);
  }
}
