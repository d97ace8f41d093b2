/** `TransactionCopier`: copying transactions from one store into another
    through the shared store contract. */
module Copier {
  import opened Outcomes
  import opened JavaTypes
  import opened Text
  import opened Errors
  import opened TransactionUnit
  import opened IdOrder
  import opened Storage
  import RuntimeStorage
  import FileStorage
  import Validator

  /** The target store after a copy, and whether the copy completed. A copy
      that throws part-way keeps the adds made before the throw. */
  datatype Copy = Copy(target: Store, outcome: Result<(), Error>)

  /** The copying loop: add each transaction in turn, stopping at the first
      add that throws. */
  function AddEach(c: Codec, target: Store, ts: seq<Transaction>): (r: Copy)
    ensures r.target.InMemory? == target.InMemory?
    ensures target.InMemory? ==> r.outcome.Ok?
    ensures r.outcome.Err? ==> r.outcome.error.Runtime?
    decreases |ts|
  {
    if |ts| == 0 then Copy(target, Ok(()))
    else match Add(c, target, ts[0])
      case Err(e) => Copy(target, Err(e))
      case Ok(next) => AddEach(c, next, ts[1..])
  }

  /** `copyTransactionById`: look the id up in the source, then add what was
      found to the target. A failed lookup leaves the target as it was. */
  function CopyById(c: Codec, id: Int32, source: Store, target: Store): (r: Copy)
    ensures r.target.InMemory? == target.InMemory?
    ensures GetById(c, source, id).Err? ==> r == Copy(target, Err(GetById(c, source, id).error))
    ensures r.outcome.Err? ==> r.outcome.error == NoTransactions(NoSuchId(id)) || r.outcome.error.Runtime?
    ensures GetById(c, source, id).Ok? && target.InMemory? ==> r.outcome.Ok?
  {
    match GetById(c, source, id)
    case Err(e) => Copy(target, Err(e))
    case Ok(t) =>
      match Add(c, target, t)
      case Err(e) => Copy(target, Err(e))
      case Ok(next) => Copy(next, Ok(()))
  }

  /** `copyTransactionsBetweenDates`: query the source's range, then add
      every transaction found, in the map's iteration order. A failed query,
      including an empty range, leaves the target as it was. */
  function CopyBetween(c: Codec, start: Timestamp, end: Timestamp, source: Store, target: Store): (r: Copy)
    ensures r.target.InMemory? == target.InMemory?
    ensures GetBetween(c, source, start, end).Err? ==> r == Copy(target, Err(GetBetween(c, source, start, end).error))
    ensures r.outcome.Err? ==> r.outcome.error == NoTransactions(NothingBetween(start, end)) || r.outcome.error.Runtime?
    ensures GetBetween(c, source, start, end).Ok? && target.InMemory? ==> r.outcome.Ok?
  {
    match GetBetween(c, source, start, end)
    case Err(e) => Copy(target, Err(e))
    case Ok(found) => AddEach(c, target, ValuesInOrder(found))
  }

  /** Adding into memory is `addTransaction` on the map, once per
      transaction, and never stops early. */
  lemma {:induction false} AddEachIntoMemory(c: Codec, mem: RuntimeStorage.Store, ts: seq<Transaction>)
    ensures AddEach(c, InMemory(mem), ts) == Copy(InMemory(RuntimeStorage.AddAll(mem, ts)), Ok(()))
    decreases |ts|
  {
    if |ts| > 0 {
      AddEachIntoMemory(c, RuntimeStorage.Add(mem, ts[0]), ts[1..]);
    }
  }

  /** Copying a transaction the source holds into memory stores it under
      the memory store's counter, where it reads back unchanged. */
  lemma CopyByIdIntoMemory(c: Codec, id: Int32, source: Store, mem: RuntimeStorage.Store)
    requires RuntimeStorage.Valid(mem) && mem.lastFreeId < MaxInt32
    requires GetById(c, source, id).Ok?
    ensures CopyById(c, id, source, InMemory(mem)).outcome.Ok?
    ensures RuntimeStorage.Valid(CopyById(c, id, source, InMemory(mem)).target.memory)
    ensures GetById(c, CopyById(c, id, source, InMemory(mem)).target, mem.lastFreeId) == GetById(c, source, id)
  {
    RuntimeStorage.AddKeepsValid(mem, GetById(c, source, id).value);
  }

  /** Copying a transaction the source holds into a valid file whose ids are
      below the largest `int` succeeds, keeps the file valid, and the file
      then yields that transaction under the id it gave it. */
  lemma CopyByIdIntoFile(c: Codec, id: Int32, source: Store, target: Store)
    requires Sound(c) && target.OnFile? && Valid(c, target)
    requires forall j :: 0 <= j < |target.file.file.lines| ==> Validator.LeadingId(target.file.file.lines[j]).value < MaxInt32
    requires GetById(c, source, id).Ok?
    ensures CopyById(c, id, source, target).outcome.Ok?
    ensures Valid(c, CopyById(c, id, source, target).target)
    ensures GetById(c, CopyById(c, id, source, target).target, FileStorage.FindLastFreeId(target.file.file.lines).value)
            == GetById(c, source, id)
  {
    AddThenGet(c, target, GetById(c, source, id).value);
  }

  /** Copying a non-empty range into memory appends the found transactions
      under consecutive new ids, in ascending order of their source ids, and
      keeps every earlier entry. */
  lemma CopyBetweenIntoMemory(c: Codec, start: Timestamp, end: Timestamp, source: Store, mem: RuntimeStorage.Store)
    requires RuntimeStorage.Valid(mem)
    requires GetBetween(c, source, start, end).Ok?
    requires mem.lastFreeId + |GetBetween(c, source, start, end).value| <= MaxInt32
    ensures var found := GetBetween(c, source, start, end).value;
            var r := CopyBetween(c, start, end, source, InMemory(mem));
            && r.outcome.Ok?
            && RuntimeStorage.Valid(r.target.memory)
            && r.target.memory.lastFreeId == mem.lastFreeId + |found|
            && (forall id :: id in mem.transactions ==> r.target.memory.transactions[id] == mem.transactions[id])
            && (forall i :: 0 <= i < |found| ==>
                  r.target.memory.transactions[mem.lastFreeId + i] == found[SortedIds(found.Keys)[i]])
  {
    var found := GetBetween(c, source, start, end).value;
    var ts := ValuesInOrder(found);
    AddEachIntoMemory(c, mem, ts);
    RuntimeStorage.AddAllSpec(mem, ts);
  }
  /** Ids of a file leave room for `k` more adds. */
  ghost predicate RoomFor(f: FileStorage.Store, k: int)
  {
    Room(f.file.lines, k)
  }

  /** Every line carries an id at least `k` below the largest `int`. */
  ghost predicate Room(lines: seq<string>, k: int)
  {
    forall j :: 0 <= j < |lines| ==>
      Validator.LeadingId(lines[j]).Some? && Validator.LeadingId(lines[j]).value + k < MaxInt32
  }

  /** The next id of a file with room for `k >= 1` adds leaves room for
      `k - 1` more. */
  lemma NextIdRoom(lines: seq<string>, k: int)
    requires 1 <= k < MaxInt32 && FileStorage.FindLastFreeId(lines).Ok? && Room(lines, k)
    ensures FileStorage.FindLastFreeId(lines).value + (k - 1) < MaxInt32
  {
    var id := FileStorage.FindLastFreeId(lines).value;
    if lines != [] {
      var i :| 0 <= i < |lines| && id == Increment(Validator.LeadingId(lines[i]).value);
      assert Validator.LeadingId(lines[i]).value + k < MaxInt32;
    }
  }

  /** Appending a line whose id leaves room for `k - 1` adds to lines that
      leave room for `k` leaves room for `k - 1`. */
  lemma RoomAfterAppend(lines: seq<string>, line: string, k: int)
    requires Room(lines, k)
    requires Validator.LeadingId(line).Some? && Validator.LeadingId(line).value + (k - 1) < MaxInt32
    ensures Room(lines + [line], k - 1)
  {
    var next := lines + [line];
    forall j | 0 <= j < |next|
      ensures Validator.LeadingId(next[j]).Some? && Validator.LeadingId(next[j]).value + (k - 1) < MaxInt32
    {
      if j < |lines| {
        assert next[j] == lines[j];
      }
    }
  }

  /** One line per element of `ts`, made by `line` under ids counting up
      from `first` in `int` arithmetic. */
  function Numbered<T>(line: (Int32, T) -> string, first: Int32, ts: seq<T>): (r: seq<string>)
    ensures |r| == |ts|
    decreases |ts|
  {
    if |ts| == 0 then [] else [line(first, ts[0])] + Numbered(line, Increment(first), ts[1..])
  }

  /** Without wrap-around, the j-th line is made from `first + j` and `ts[j]`. */
  lemma {:induction false} NumberedAt<T>(line: (Int32, T) -> string, first: Int32, ts: seq<T>, j: nat)
    requires j < |ts| && first + j <= MaxInt32
    ensures Numbered(line, first, ts)[j] == line(first + j, ts[j])
    decreases j
  {
    if j > 0 {
      assert Increment(first) == first + 1;
      NumberedAt(line, first + 1, ts[1..], j - 1);
      assert ts[j] == ts[1..][j - 1];
    }
  }

  /** The lines `addTransaction` appends for `ts`, one after another, from
      the id `first` on. */
  function AddedLines(c: Codec, first: Int32, ts: seq<Transaction>): (r: seq<string>)
    ensures |r| == |ts|
  {
    Numbered((id: Int32, t: Transaction) => FileStorage.AddedLine(c, id, t), first, ts)
  }

  /** The file yields each transaction of `ts` under the consecutive ids
      from `first`. */
  ghost predicate ReadsBackInOrder(c: Codec, s: FileStorage.Store, first: int, ts: seq<Transaction>)
  {
    forall j :: 0 <= j < |ts| ==>
      && MinInt32 <= first + j <= MaxInt32
      && FileStorage.GetById(c, s, first + j) == Ok(ts[j])
  }

  /** One add to a valid file with room for `k` adds succeeds, appends one
      line, and leaves room for `k - 1` more. */
  lemma AddOneToFile(c: Codec, f: FileStorage.Store, t: Transaction, k: int)
    requires Sound(c) && FileStorage.Valid(c, f) && 1 <= k < MaxInt32 && RoomFor(f, k)
    ensures Add(c, OnFile(f), t).Ok?
    ensures var f' := Add(c, OnFile(f), t).value.file;
            && FileStorage.Valid(c, f')
            && |f'.file.lines| == |f.file.lines| + 1
            && f'.file.lines[..|f.file.lines|] == f.file.lines
            && RoomFor(f', k - 1)
  {
    var lines := f.file.lines;
    FileStorage.AddSpec(c, f, t);
    var id := FileStorage.FindLastFreeId(lines).value;
    FileStorage.AddedLineReadsBack(c, id, t);
    NextIdRoom(lines, k);
    RoomAfterAppend(lines, FileStorage.AddedLine(c, id, t), k);
  }

  /** The line that add appends is the transaction's line under the next
      free id, and the next free id then moves on by one. */
  lemma AddOneLine(c: Codec, f: FileStorage.Store, t: Transaction, k: int)
    requires Sound(c) && FileStorage.Valid(c, f) && 1 <= k < MaxInt32 && RoomFor(f, k)
    ensures Add(c, OnFile(f), t).Ok?
    ensures var id := FileStorage.FindLastFreeId(f.file.lines).value;
            var f' := Add(c, OnFile(f), t).value.file;
            && f'.file.lines == f.file.lines + [FileStorage.AddedLine(c, id, t)]
            && FileStorage.FindLastFreeId(f'.file.lines) == Ok(Increment(id))
  {
    var lines := f.file.lines;
    FileStorage.AddSpec(c, f, t);
    var id := FileStorage.FindLastFreeId(lines).value;
    FileStorage.AddedLineReadsBack(c, id, t);
    NextIdAfterRoom(lines, FileStorage.AddedLine(c, id, t), k);
  }

  /** In lines with room for `k >= 1` adds, appending a line under the next
      free id moves the next free id on by one. */
  lemma NextIdAfterRoom(lines: seq<string>, line: string, k: int)
    requires 1 <= k < MaxInt32 && Room(lines, k)
    requires FileStorage.FindLastFreeId(lines).Ok?
    requires Validator.LeadingId(line) == Some(FileStorage.FindLastFreeId(lines).value)
    ensures FileStorage.FindLastFreeId(lines + [line]) == Ok(Increment(FileStorage.FindLastFreeId(lines).value))
  {
    var id := FileStorage.FindLastFreeId(lines).value;
    NextIdRoom(lines, k);
    assert Increment(id) == id + 1;
    FileStorage.NextIdAfterAppend(lines, line, id);
  }

  /** Adding transactions one by one to a valid file whose ids leave room
      for all of them never stops early: the file stays valid, keeps its
      lines and gains one line per transaction. */
  lemma {:induction false} AddEachIntoFile(c: Codec, f: FileStorage.Store, ts: seq<Transaction>)
    requires Sound(c) && FileStorage.Valid(c, f) && |ts| < MaxInt32 && RoomFor(f, |ts|)
    ensures AddEach(c, OnFile(f), ts).outcome.Ok?
    ensures FileStorage.Valid(c, AddEach(c, OnFile(f), ts).target.file)
    ensures |AddEach(c, OnFile(f), ts).target.file.file.lines| == |f.file.lines| + |ts|
    ensures AddEach(c, OnFile(f), ts).target.file.file.lines[..|f.file.lines|] == f.file.lines
    decreases |ts|
  {
    if |ts| > 0 {
      AddOneToFile(c, f, ts[0], |ts|);
      var f' := Add(c, OnFile(f), ts[0]).value.file;
      assert AddEach(c, OnFile(f), ts) == AddEach(c, OnFile(f'), ts[1..]);
      AddEachIntoFile(c, f', ts[1..]);
      var last := AddEach(c, OnFile(f'), ts[1..]).target.file.file.lines;
      assert last[..|f.file.lines|] == last[..|f'.file.lines|][..|f.file.lines|];
    }
  }

  /** What those adds append: the line of each transaction in turn, under
      ids counting up from the file's next free id. */
  lemma {:induction false} AddEachLines(c: Codec, f: FileStorage.Store, ts: seq<Transaction>)
    requires Sound(c) && FileStorage.Valid(c, f) && |ts| < MaxInt32 && RoomFor(f, |ts|)
    ensures AddEach(c, OnFile(f), ts).target.OnFile?
    ensures AddEach(c, OnFile(f), ts).target.file.file.lines
              == f.file.lines + AddedLines(c, FileStorage.FindLastFreeId(f.file.lines).value, ts)
    decreases |ts|
  {
    if |ts| > 0 {
      AddOneToFile(c, f, ts[0], |ts|);
      AddOneLine(c, f, ts[0], |ts|);
      var f' := Add(c, OnFile(f), ts[0]).value.file;
      assert AddEach(c, OnFile(f), ts) == AddEach(c, OnFile(f'), ts[1..]);
      AddEachLines(c, f', ts[1..]);
      var id := FileStorage.FindLastFreeId(f.file.lines).value;
      AppendStep(f.file.lines, f'.file.lines, FileStorage.AddedLine(c, id, ts[0]), AddedLines(c, Increment(id), ts[1..]),
                 AddEach(c, OnFile(f'), ts[1..]).target.file.file.lines);
    }
  }

  /** Appending one element and then a tail is appending the element
      followed by the tail. */
  lemma AppendStep<T>(before: seq<T>, mid: seq<T>, x: T, rest: seq<T>, after: seq<T>)
    requires mid == before + [x] && after == mid + rest
    ensures after == before + ([x] + rest)
  {
  }

  /** `after` continues `before` with the line of each transaction of `ts`
      in turn, under consecutive ids from `first`. */
  ghost predicate LinesAppended(c: Codec, before: seq<string>, after: seq<string>, first: int, ts: seq<Transaction>)
  {
    && |after| == |before| + |ts|
    && forall j :: 0 <= j < |ts| ==>
         && MinInt32 <= first + j <= MaxInt32
         && after[|before| + j] == FileStorage.AddedLine(c, first + j, ts[j])
  }

  /** Lines that continue `before` with the added lines of `ts` hold the
      line of `ts[j]` under `first + j` at position `|before| + j`. */
  lemma LineOfAdded(c: Codec, lines: seq<string>, before: seq<string>, first: Int32, ts: seq<Transaction>, j: nat)
    requires lines == before + AddedLines(c, first, ts)
    requires j < |ts| && first + j <= MaxInt32
    ensures |before| + j < |lines| && lines[|before| + j] == FileStorage.AddedLine(c, first + j, ts[j])
  {
    NumberedAt((id: Int32, t: Transaction) => FileStorage.AddedLine(c, id, t), first, ts, j);
  }

  /** Without wrap-around, the added lines are the lines of `ts` under
      consecutive ids. */
  lemma AppendedAt(c: Codec, lines: seq<string>, before: seq<string>, first: Int32, ts: seq<Transaction>)
    requires lines == before + AddedLines(c, first, ts)
    requires first + |ts| <= MaxInt32 + 1
    ensures LinesAppended(c, before, lines, first, ts)
  {
    forall j | 0 <= j < |ts|
      ensures && MinInt32 <= first + j <= MaxInt32
              && lines[|before| + j] == FileStorage.AddedLine(c, first + j, ts[j])
    {
      LineOfAdded(c, lines, before, first, ts, j);
    }
  }

  /** Adding transactions one by one to a valid file with room appends the
      line of each under the file's next free id plus its position. */
  lemma AddEachAppended(c: Codec, f: FileStorage.Store, ts: seq<Transaction>)
    requires Sound(c) && FileStorage.Valid(c, f) && |ts| < MaxInt32 && RoomFor(f, |ts|)
    ensures AddEach(c, OnFile(f), ts).target.OnFile?
    ensures LinesAppended(c, f.file.lines, AddEach(c, OnFile(f), ts).target.file.file.lines,
                          FileStorage.FindLastFreeId(f.file.lines).value, ts)
  {
    AddEachLines(c, f, ts);
    if |ts| > 0 {
      NextIdRoom(f.file.lines, |ts|);
    }
    AppendedAt(c, AddEach(c, OnFile(f), ts).target.file.file.lines, f.file.lines,
               FileStorage.FindLastFreeId(f.file.lines).value, ts);
  }

  /** The line of `ts[j]` in lines that continue `before` with the lines of
      `ts`. */
  lemma LineAt(c: Codec, before: seq<string>, lines: seq<string>, first: int, ts: seq<Transaction>, j: nat)
    requires LinesAppended(c, before, lines, first, ts) && j < |ts|
    ensures MinInt32 <= first + j <= MaxInt32
    ensures |before| + j < |lines| && lines[|before| + j] == FileStorage.AddedLine(c, first + j, ts[j])
  {
    // The quantifier of `LinesAppended` fires on `ts[j]`; naming that term
    // is all the proof needs.
    var t := ts[j];
  }

  /** Under a sound codec, the added line of `ts[j]` carries its id and
      reads back as `ts[j]`. */
  lemma AddedLineRead(c: Codec, before: seq<string>, lines: seq<string>, first: int, ts: seq<Transaction>, j: nat)
    requires Sound(c) && first >= 0 && LinesAppended(c, before, lines, first, ts) && j < |ts|
    ensures |before| + j < |lines|
    ensures && Validator.LineWellFormed(c, lines[|before| + j])
            && Validator.LeadingId(lines[|before| + j]).Some? && Validator.LeadingId(lines[|before| + j]).value == first + j
            && FileStorage.RecordAt(c, lines[|before| + j]) == ts[j]
  {
    LineAt(c, before, lines, first, ts, j);
    FileStorage.AddedLineReadsBack(c, first + j, ts[j]);
  }

  /** Under a sound codec, the added lines of `ts` from `first` on each
      carry their id and read back as their transaction. */
  lemma AddedLinesRead(c: Codec, before: seq<string>, lines: seq<string>, first: int, ts: seq<Transaction>)
    requires Sound(c) && first >= 0 && LinesAppended(c, before, lines, first, ts)
    ensures forall k :: |before| <= k < |lines| ==>
              && Validator.LineWellFormed(c, lines[k])
              && Validator.LeadingId(lines[k]).Some? && Validator.LeadingId(lines[k]).value == first + (k - |before|)
              && FileStorage.RecordAt(c, lines[k]) == ts[k - |before|]
  {
    forall k | |before| <= k < |lines|
      ensures && Validator.LineWellFormed(c, lines[k])
              && Validator.LeadingId(lines[k]).Some? && Validator.LeadingId(lines[k]).value == first + (k - |before|)
              && FileStorage.RecordAt(c, lines[k]) == ts[k - |before|]
    {
      var j := k - |before|;
      AddedLineRead(c, before, lines, first, ts, j);
      assert lines[|before| + j] == lines[k];
    }
  }

  /** On a valid file, the id of every line reads back as that line's
      record. */
  lemma EveryLineReads(c: Codec, s: FileStorage.Store)
    requires FileStorage.Valid(c, s)
    ensures forall k :: 0 <= k < |s.file.lines| ==>
              && Validator.LineWellFormed(c, s.file.lines[k])
              && Validator.LeadingId(s.file.lines[k]).Some?
              && FileStorage.GetById(c, s, Validator.LeadingId(s.file.lines[k]).value) == Ok(FileStorage.RecordAt(c, s.file.lines[k]))
  {
    forall k | 0 <= k < |s.file.lines|
      ensures && Validator.LineWellFormed(c, s.file.lines[k])
              && Validator.LeadingId(s.file.lines[k]).Some?
              && FileStorage.GetById(c, s, Validator.LeadingId(s.file.lines[k]).value) == Ok(FileStorage.RecordAt(c, s.file.lines[k]))
    {
      FileStorage.GetByIdAt(c, s, k);
    }
  }

  /** A file whose every line reads back under its id, holding after
      `before` the lines of `ts` under consecutive ids from `first`, yields
      each transaction under its id. */
  lemma ReadsBackOfFacts(c: Codec, s: FileStorage.Store, before: seq<string>, first: int, ts: seq<Transaction>)
    requires |s.file.lines| == |before| + |ts| && MinInt32 <= first && first + |ts| <= MaxInt32 + 1
    requires forall k :: 0 <= k < |s.file.lines| ==>
               && Validator.LineWellFormed(c, s.file.lines[k])
               && Validator.LeadingId(s.file.lines[k]).Some?
               && FileStorage.GetById(c, s, Validator.LeadingId(s.file.lines[k]).value) == Ok(FileStorage.RecordAt(c, s.file.lines[k]))
    requires forall k :: |before| <= k < |s.file.lines| ==>
               && Validator.LineWellFormed(c, s.file.lines[k])
               && Validator.LeadingId(s.file.lines[k]).Some? && Validator.LeadingId(s.file.lines[k]).value == first + (k - |before|)
               && FileStorage.RecordAt(c, s.file.lines[k]) == ts[k - |before|]
    ensures ReadsBackInOrder(c, s, first, ts)
  {
    forall j | 0 <= j < |ts|
      ensures MinInt32 <= first + j <= MaxInt32 && FileStorage.GetById(c, s, first + j) == Ok(ts[j])
    {
      assert Validator.LeadingId(s.file.lines[|before| + j]).value == first + j;
    }
  }

  /** A valid file holding, after `before`, the lines of `ts` under
      consecutive non-negative ids from `first` yields each transaction
      under its id. */
  lemma ReadsBackAll(c: Codec, s: FileStorage.Store, before: seq<string>, first: int, ts: seq<Transaction>)
    requires Sound(c) && FileStorage.Valid(c, s) && first >= 0 && first + |ts| <= MaxInt32 + 1
    requires LinesAppended(c, before, s.file.lines, first, ts)
    ensures ReadsBackInOrder(c, s, first, ts)
  {
    AddedLinesRead(c, before, s.file.lines, first, ts);
    EveryLineReads(c, s);
    ReadsBackOfFacts(c, s, before, first, ts);
  }

  /** After adding transactions one by one to a valid file with room, the
      file yields the j-th of them under its old next free id plus j. */
  lemma AddEachReadsBack(c: Codec, f: FileStorage.Store, ts: seq<Transaction>)
    requires Sound(c) && FileStorage.Valid(c, f) && |ts| < MaxInt32 && RoomFor(f, |ts|)
    ensures AddEach(c, OnFile(f), ts).target.OnFile?
    ensures ReadsBackInOrder(c, AddEach(c, OnFile(f), ts).target.file, FileStorage.FindLastFreeId(f.file.lines).value, ts)
  {
    AddEachIntoFile(c, f, ts);
    AddEachAppended(c, f, ts);
    if |ts| > 0 {
      NextIdRoom(f.file.lines, |ts|);
    }
    ReadsBackAll(c, AddEach(c, OnFile(f), ts).target.file, f.file.lines, FileStorage.FindLastFreeId(f.file.lines).value, ts);
  }

  /** Copying a non-empty range into a valid file with room for its ids
      adds one line per transaction found, keeping the file's lines and its
      validity: the found transactions, in ascending order of their source
      ids, under consecutive ids from the file's next free id, where each
      reads back. */
  lemma CopyBetweenIntoFile(c: Codec, start: Timestamp, end: Timestamp, source: Store, f: FileStorage.Store)
    requires Sound(c) && FileStorage.Valid(c, f)
    requires GetBetween(c, source, start, end).Ok?
    requires |GetBetween(c, source, start, end).value| < MaxInt32
    requires RoomFor(f, |GetBetween(c, source, start, end).value|)
    ensures var r := CopyBetween(c, start, end, source, OnFile(f));
            && r.outcome.Ok?
            && FileStorage.Valid(c, r.target.file)
            && |r.target.file.file.lines| == |f.file.lines| + |GetBetween(c, source, start, end).value|
            && r.target.file.file.lines[..|f.file.lines|] == f.file.lines
    ensures var ts := ValuesInOrder(GetBetween(c, source, start, end).value);
            var r := CopyBetween(c, start, end, source, OnFile(f));
            var first := FileStorage.FindLastFreeId(f.file.lines).value;
            && LinesAppended(c, f.file.lines, r.target.file.file.lines, first, ts)
            && ReadsBackInOrder(c, r.target.file, first, ts)
  {
    var ts := ValuesInOrder(GetBetween(c, source, start, end).value);
    AddEachIntoFile(c, f, ts);
    AddEachAppended(c, f, ts);
    AddEachReadsBack(c, f, ts);
  }
}
