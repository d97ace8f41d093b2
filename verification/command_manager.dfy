/** `CommandManager`: an in-memory store that is always there, and a file
    store that can be attached, detached, saved to and loaded from. */
module CommandManager {
  import opened Outcomes
  import opened JavaTypes
  import opened Text
  import opened Errors
  import opened Files
  import opened TransactionUnit
  import opened Storage
  import opened Copier
  import RuntimeStorage
  import FileStorage
  import Validator
  import opened IdOrder

  /** The manager's state: the memory store and, once attached, the file
      store (`null` before any attach and after an unattach). */
  datatype Manager = Manager(memory: RuntimeStorage.Store, attached: Option<FileStorage.Store>)

  /** A new manager: an empty memory store and no file. */
  const Initial: Manager := Manager(RuntimeStorage.Empty, None)

  /** The state after a command that may throw, and how it ended. */
  datatype Step = Step(manager: Manager, outcome: Result<(), Error>)

  /** Every file operation starts here: `NotAttached` when no file is. */
  function EnsureAttached(m: Manager): (r: Result<FileStorage.Store, Error>)
    ensures r.Ok? <==> m.attached.Some?
    ensures r.Ok? ==> r.value == m.attached.value
    ensures r.Err? ==> r.error == NotAttached
  {
    match m.attached
    case None => Err(NotAttached)
    case Some(f) => Ok(f)
  }

  /** The catch of the "all" commands: any `NoTransactions` becomes
      "There are no transactions."; every other error passes through. */
  function RemapNone(e: Error): (r: Error)
    ensures e.NoTransactions? ==> r == NoTransactions(NoTransactionsAtAll)
    ensures !e.NoTransactions? ==> r == e
  {
    if e.NoTransactions? then NoTransactions(NoTransactionsAtAll) else e
  }

  // ---------------------------------------------------------------------------
  // The memory store

  /** `addTransaction`: build a record (negative sums become zero) and add it
      to the memory store under its counter. The file is not touched. */
  function AddTransaction(m: Manager, dateTime: Timestamp, kind: Kind, sum: Decimal): (r: Manager)
    ensures r.attached == m.attached
    ensures r.memory.transactions.Keys == m.memory.transactions.Keys + {m.memory.lastFreeId}
    ensures r.memory.transactions[m.memory.lastFreeId].dateTime == dateTime
    ensures r.memory.transactions[m.memory.lastFreeId].kind == kind
    ensures r.memory.transactions[m.memory.lastFreeId].sum == Clamp(sum)
    ensures forall id :: id in m.memory.transactions && id != m.memory.lastFreeId ==>
              r.memory.transactions[id] == m.memory.transactions[id]
  {
    m.(memory := RuntimeStorage.Add(m.memory, New(dateTime, kind, sum)))
  }

  /** `getTransactionById`, on the memory store. */
  function GetTransactionById(m: Manager, id: Int32): (r: Result<Transaction, Error>)
    ensures r.Ok? <==> id in m.memory.transactions
    ensures r.Ok? ==> r.value == m.memory.transactions[id]
    ensures r.Err? ==> r.error == NoTransactions(NoSuchId(id))
  {
    RuntimeStorage.GetById(m.memory, id)
  }

  /** `getTransactionsBetweenDates`, on the memory store. */
  function GetTransactionsBetweenDates(m: Manager, start: Timestamp, end: Timestamp): (r: Result<map<Int32, Transaction>, Error>)
    ensures r.Ok? ==> r.value != map[]
    ensures r.Ok? ==> forall id :: id in r.value <==> id in m.memory.transactions && start < m.memory.transactions[id].dateTime < end
    ensures r.Ok? ==> forall id :: id in r.value ==> r.value[id] == m.memory.transactions[id]
    ensures r.Err? ==> r.error == NoTransactions(NothingBetween(start, end))
  {
    RuntimeStorage.GetBetween(m.memory, start, end)
  }

  /** `getAllTransactions`: the range query from `LocalDateTime.MIN` to
      `LocalDateTime.MAX`, with its error replaced by "There are no
      transactions.". */
  function GetAllTransactions(m: Manager): (r: Result<map<Int32, Transaction>, Error>)
    ensures r.Ok? ==> forall id :: id in r.value ==> id in m.memory.transactions && r.value[id] == m.memory.transactions[id]
    ensures r.Err? ==> r.error == NoTransactions(NoTransactionsAtAll)
  {
    match RuntimeStorage.GetBetween(m.memory, MinTimestamp, MaxTimestamp)
    case Ok(found) => Ok(found)
    case Err(e) => Err(RemapNone(e))
  }

  /** A transaction added through the manager reads back by the id the
      counter gave it, with a sum that is never negative. */
  lemma AddThenGetById(m: Manager, dateTime: Timestamp, kind: Kind, sum: Decimal)
    ensures GetTransactionById(AddTransaction(m, dateTime, kind, sum), m.memory.lastFreeId) == Ok(New(dateTime, kind, sum))
    ensures Value(GetTransactionById(AddTransaction(m, dateTime, kind, sum), m.memory.lastFreeId).value.sum) >= 0.0
  {
  }

  /** The bounds of the "all" query are exclusive: it returns every
      transaction except those dated exactly `LocalDateTime.MIN` or
      `LocalDateTime.MAX`, and reports none only when every transaction is
      dated at one of the two. */
  lemma GetAllMissesOnlyExtremes(m: Manager)
    ensures GetAllTransactions(m).Ok? ==>
              forall id :: id in GetAllTransactions(m).value <==>
                id in m.memory.transactions
                && m.memory.transactions[id].dateTime != MinTimestamp
                && m.memory.transactions[id].dateTime != MaxTimestamp
    ensures GetAllTransactions(m).Err? <==>
              forall id :: id in m.memory.transactions ==>
                m.memory.transactions[id].dateTime == MinTimestamp || m.memory.transactions[id].dateTime == MaxTimestamp
  {
  }

  // ---------------------------------------------------------------------------
  // Attaching a file

  /** `attachFile`: construct a file store on the path. When the constructor
      throws, the previous attachment, if any, stays. */
  function AttachFile(c: Codec, m: Manager, path: string, file: FileState): (r: Step)
    ensures r.outcome.Ok? <==> file.creatable && FileStorage.Valid(c, FileStorage.Store(path, CreateIfMissing(file)))
    ensures r.outcome.Ok? ==> r.manager == m.(attached := Some(FileStorage.Store(path, CreateIfMissing(file))))
    ensures r.outcome.Err? ==> r.manager == m
  {
    match FileStorage.Open(c, path, file)
    case Err(e) => Step(m, Err(e))
    case Ok(f) => Step(m.(attached := Some(f)), Ok(()))
  }

  /** `unattachFile`: forget the file store; memory is kept. */
  function UnattachFile(m: Manager): (r: Manager)
    ensures r.attached.None?
    ensures r.memory == m.memory
    ensures EnsureAttached(r) == Err(NotAttached)
  {
    m.(attached := None)
  }

  // ---------------------------------------------------------------------------
  // Saving to and loading from the attached file

  /** Apply a copy into the file: the memory store is the source and stays
      as it was. */
  function Saved(m: Manager, copy: Copy): (r: Step)
    requires copy.target.OnFile?
    ensures r.manager.memory == m.memory && r.manager.attached == Some(copy.target.file)
    ensures r.outcome == copy.outcome
  {
    Step(m.(attached := Some(copy.target.file)), copy.outcome)
  }

  /** Apply a copy into memory: the file is the source and stays as it was. */
  function Loaded(m: Manager, copy: Copy): (r: Step)
    requires copy.target.InMemory?
    ensures r.manager.attached == m.attached && r.manager.memory == copy.target.memory
    ensures r.outcome == copy.outcome
  {
    Step(m.(memory := copy.target.memory), copy.outcome)
  }

  /** `saveTransactionByIdToFile`. */
  function SaveById(c: Codec, m: Manager, id: Int32): (r: Step)
    ensures m.attached.None? ==> r == Step(m, Err(NotAttached))
    ensures r.manager.memory == m.memory
    ensures r.manager.attached.Some? == m.attached.Some?
    ensures m.attached.Some? ==> r.manager.attached.value.path == m.attached.value.path
    ensures id !in m.memory.transactions ==> r.manager == m && r.outcome.Err?
    ensures r.outcome.Err? ==> r.outcome.error in {NotAttached, NoTransactions(NoSuchId(id))} || r.outcome.error.Runtime?
  {
    match EnsureAttached(m)
    case Err(e) => Step(m, Err(e))
    case Ok(f) => Saved(m, CopyById(c, id, InMemory(m.memory), OnFile(f)))
  }

  /** `saveTransactionsBetweenDatesToFile`. */
  function SaveBetween(c: Codec, m: Manager, start: Timestamp, end: Timestamp): (r: Step)
    ensures m.attached.None? ==> r == Step(m, Err(NotAttached))
    ensures r.manager.memory == m.memory
    ensures r.manager.attached.Some? == m.attached.Some?
    ensures GetTransactionsBetweenDates(m, start, end).Err? ==> r.manager == m && r.outcome.Err?
    ensures r.outcome.Err? ==> r.outcome.error in {NotAttached, NoTransactions(NothingBetween(start, end))} || r.outcome.error.Runtime?
  {
    match EnsureAttached(m)
    case Err(e) => Step(m, Err(e))
    case Ok(f) => Saved(m, CopyBetween(c, start, end, InMemory(m.memory), OnFile(f)))
  }

  /** `saveAllTransactionsToFile`: the range `MIN`..`MAX`, with an empty
      range reported as "There are no transactions.". */
  function SaveAll(c: Codec, m: Manager): (r: Step)
    ensures m.attached.None? ==> r == Step(m, Err(NotAttached))
    ensures r.manager.memory == m.memory
    ensures r.manager.attached.Some? == m.attached.Some?
    ensures GetAllTransactions(m).Err? ==> r.manager == m && r.outcome.Err?
    ensures r.outcome.Err? ==> r.outcome.error in {NotAttached, NoTransactions(NoTransactionsAtAll)} || r.outcome.error.Runtime?
  {
    match EnsureAttached(m)
    case Err(e) => Step(m, Err(e))
    case Ok(f) =>
      var copy := CopyBetween(c, MinTimestamp, MaxTimestamp, InMemory(m.memory), OnFile(f));
      Saved(m, copy.(outcome := if copy.outcome.Err? then Err(RemapNone(copy.outcome.error)) else copy.outcome))
  }

  /** `loadTransactionByIdFromFile`. */
  function LoadById(c: Codec, m: Manager, id: Int32): (r: Step)
    ensures m.attached.None? ==> r == Step(m, Err(NotAttached))
    ensures r.manager.attached == m.attached
    ensures r.outcome.Err? ==> r.manager == m
    ensures r.outcome.Err? ==> r.outcome.error in {NotAttached, NoTransactions(NoSuchId(id))} || r.outcome.error.Runtime?
  {
    match EnsureAttached(m)
    case Err(e) => Step(m, Err(e))
    case Ok(f) => Loaded(m, CopyById(c, id, OnFile(f), InMemory(m.memory)))
  }

  /** `loadTransactionsBetweenDatesFromFile`. */
  function LoadBetween(c: Codec, m: Manager, start: Timestamp, end: Timestamp): (r: Step)
    ensures m.attached.None? ==> r == Step(m, Err(NotAttached))
    ensures r.manager.attached == m.attached
    ensures r.outcome.Err? ==> r.manager == m
    ensures r.outcome.Err? ==> r.outcome.error in {NotAttached, NoTransactions(NothingBetween(start, end))} || r.outcome.error.Runtime?
  {
    match EnsureAttached(m)
    case Err(e) => Step(m, Err(e))
    case Ok(f) => Loaded(m, CopyBetween(c, start, end, OnFile(f), InMemory(m.memory)))
  }

  /** `loadAllTransactionsFromFile`: the range `MIN`..`MAX`, with an empty
      range reported as "There are no transactions.". */
  function LoadAll(c: Codec, m: Manager): (r: Step)
    ensures m.attached.None? ==> r == Step(m, Err(NotAttached))
    ensures r.manager.attached == m.attached
    ensures r.outcome.Err? ==> r.manager == m
    ensures r.outcome.Err? ==> r.outcome.error in {NotAttached, NoTransactions(NoTransactionsAtAll)} || r.outcome.error.Runtime?
  {
    match EnsureAttached(m)
    case Err(e) => Step(m, Err(e))
    case Ok(f) =>
      var copy := CopyBetween(c, MinTimestamp, MaxTimestamp, OnFile(f), InMemory(m.memory));
      Loaded(m, copy.(outcome := if copy.outcome.Err? then Err(RemapNone(copy.outcome.error)) else copy.outcome))
  }

  // ---------------------------------------------------------------------------
  // Round trips through the attached file

  /** The attached file is valid and has room for one more id. */
  ghost predicate FileReady(c: Codec, m: Manager)
  {
    && m.attached.Some?
    && FileStorage.Valid(c, m.attached.value)
    && forall j :: 0 <= j < |m.attached.value.file.lines| ==> Validator.LeadingId(m.attached.value.file.lines[j]).value < MaxInt32
  }

  /** Saving a transaction the memory store holds succeeds on a ready file,
      keeps it valid, and the file then yields that transaction under the
      id it gave it. */
  lemma SaveByIdSpec(c: Codec, m: Manager, id: Int32)
    requires Sound(c) && FileReady(c, m) && id in m.memory.transactions
    ensures SaveById(c, m, id).outcome.Ok?
    ensures FileStorage.Valid(c, SaveById(c, m, id).manager.attached.value)
    ensures var fid := FileStorage.FindLastFreeId(m.attached.value.file.lines).value;
            FileStorage.GetById(c, SaveById(c, m, id).manager.attached.value, fid) == Ok(m.memory.transactions[id])
  {
    CopyByIdIntoFile(c, id, InMemory(m.memory), OnFile(m.attached.value));
  }

  /** Saving a transaction to the file and loading it back by the id the
      file gave it puts an equal transaction into memory under the memory
      store's counter. */
  lemma SaveThenLoadById(c: Codec, m: Manager, id: Int32)
    requires Sound(c) && FileReady(c, m) && id in m.memory.transactions
    requires RuntimeStorage.Valid(m.memory) && m.memory.lastFreeId < MaxInt32
    ensures var saved := SaveById(c, m, id);
            var fid := FileStorage.FindLastFreeId(m.attached.value.file.lines).value;
            var loaded := LoadById(c, saved.manager, fid);
            && saved.outcome.Ok? && loaded.outcome.Ok?
            && loaded.manager.memory.transactions[m.memory.lastFreeId] == m.memory.transactions[id]
            && (forall k :: k in m.memory.transactions ==> loaded.manager.memory.transactions[k] == m.memory.transactions[k])
  {
    var saved := SaveById(c, m, id);
    var fid := FileStorage.FindLastFreeId(m.attached.value.file.lines).value;
    SaveByIdSpec(c, m, id);
    var f' := saved.manager.attached.value;
    CopyByIdIntoMemory(c, fid, OnFile(f'), m.memory);
    RuntimeStorage.AddKeepsValid(m.memory, m.memory.transactions[id]);
  }

  /** `loaded` is valid memory holding what `mem` held, followed by the
      values of `found` in ascending order of their ids under the next
      consecutive ids. */
  ghost predicate AppendedInOrder(mem: RuntimeStorage.Store, loaded: RuntimeStorage.Store, found: map<Int32, Transaction>)
  {
    && RuntimeStorage.Valid(loaded)
    && loaded.lastFreeId == mem.lastFreeId + |found|
    && (forall k :: k in mem.transactions ==> k in loaded.transactions && loaded.transactions[k] == mem.transactions[k])
    && (forall j :: 0 <= j < |found| ==>
          && mem.lastFreeId + j in loaded.transactions
          && SortedIds(found.Keys)[j] in found
          && loaded.transactions[mem.lastFreeId + j] == found[SortedIds(found.Keys)[j]])
  }

  /** Loading every transaction of a valid file into memory succeeds and
      appends the file's transactions dated strictly between `MIN` and `MAX`
      under new consecutive ids, in ascending order of their file ids,
      keeping what memory held. */
  lemma LoadAllSpec(c: Codec, m: Manager)
    requires m.attached.Some? && RuntimeStorage.Valid(m.memory)
    requires var q := FileStorage.GetBetween(c, m.attached.value, MinTimestamp, MaxTimestamp);
             q.Ok? && m.memory.lastFreeId + |q.value| <= MaxInt32
    ensures var q := FileStorage.GetBetween(c, m.attached.value, MinTimestamp, MaxTimestamp);
            var loaded := RuntimeStorage.AddAll(m.memory, ValuesInOrder(q.value));
            && LoadAll(c, m) == Step(m.(memory := loaded), Ok(()))
            && AppendedInOrder(m.memory, loaded, q.value)
  {
    var q := FileStorage.GetBetween(c, m.attached.value, MinTimestamp, MaxTimestamp);
    LoadAllAddsAll(c, m);
    AddAllInOrder(m.memory, q.value);
  }

  /** Adding a map's values in ascending id order to valid memory appends
      them in that order. */
  lemma AddAllInOrder(mem: RuntimeStorage.Store, found: map<Int32, Transaction>)
    requires RuntimeStorage.Valid(mem) && mem.lastFreeId + |found| <= MaxInt32
    ensures AppendedInOrder(mem, RuntimeStorage.AddAll(mem, ValuesInOrder(found)), found)
  {
    AddAllKeepsEntries(mem, ValuesInOrder(found));
    AddAllPlacesValues(mem, found);
  }

  /** The part of `RuntimeStorage.AddAllSpec` about what is kept, with the
      membership of every old id spelled out; leaving its per-index clause
      out keeps that quantifier away from `AddAllPlacesValues`'s. */
  lemma AddAllKeepsEntries(mem: RuntimeStorage.Store, ts: seq<Transaction>)
    requires RuntimeStorage.Valid(mem) && mem.lastFreeId + |ts| <= MaxInt32
    ensures var loaded := RuntimeStorage.AddAll(mem, ts);
            && RuntimeStorage.Valid(loaded)
            && loaded.lastFreeId == mem.lastFreeId + |ts|
            && (forall k :: k in mem.transactions ==> k in loaded.transactions && loaded.transactions[k] == mem.transactions[k])
  {
    RuntimeStorage.AddAllSpec(mem, ts);
  }

  lemma AddAllPlacesValues(mem: RuntimeStorage.Store, found: map<Int32, Transaction>)
    requires RuntimeStorage.Valid(mem) && mem.lastFreeId + |found| <= MaxInt32
    ensures var loaded := RuntimeStorage.AddAll(mem, ValuesInOrder(found));
            forall j :: 0 <= j < |found| ==>
              && mem.lastFreeId + j in loaded.transactions
              && SortedIds(found.Keys)[j] in found
              && loaded.transactions[mem.lastFreeId + j] == found[SortedIds(found.Keys)[j]]
  {
    var ts := ValuesInOrder(found);
    var loaded := RuntimeStorage.AddAll(mem, ts);
    RuntimeStorage.AddAllSpec(mem, ts);
    forall j | 0 <= j < |found|
      ensures && mem.lastFreeId + j in loaded.transactions
              && SortedIds(found.Keys)[j] in found
              && loaded.transactions[mem.lastFreeId + j] == found[SortedIds(found.Keys)[j]]
    {
      assert loaded.transactions[mem.lastFreeId + j] == ts[j];
    }
  }

  /** With a file attached whose range `MIN`..`MAX` is not empty, loading
      everything is `addTransaction` on memory once per found transaction. */
  lemma LoadAllAddsAll(c: Codec, m: Manager)
    requires m.attached.Some?
    requires FileStorage.GetBetween(c, m.attached.value, MinTimestamp, MaxTimestamp).Ok?
    ensures var q := FileStorage.GetBetween(c, m.attached.value, MinTimestamp, MaxTimestamp);
            LoadAll(c, m) == Step(m.(memory := RuntimeStorage.AddAll(m.memory, ValuesInOrder(q.value))), Ok(()))
  {
    var f := m.attached.value;
    var q := FileStorage.GetBetween(c, f, MinTimestamp, MaxTimestamp);
    assert Storage.GetBetween(c, OnFile(f), MinTimestamp, MaxTimestamp) == q;
    AddEachIntoMemory(c, m.memory, ValuesInOrder(q.value));
  }

  /** When a valid attached file holds no transaction strictly between
      `MIN` and `MAX`, loading everything reports "There are no
      transactions." and changes nothing. */
  lemma LoadAllFromEmpty(c: Codec, m: Manager)
    requires m.attached.Some? && FileStorage.Valid(c, m.attached.value)
    requires FileStorage.GetBetween(c, m.attached.value, MinTimestamp, MaxTimestamp).Err?
    ensures LoadAll(c, m) == Step(m, Err(NoTransactions(NoTransactionsAtAll)))
  {
    FileStorage.GetBetweenSpec(c, m.attached.value, MinTimestamp, MaxTimestamp);
  }

  /** Saving everything to a valid file with room for the new ids adds one
      line per transaction `getAllTransactions` reports, keeping the file's
      lines; with nothing to report, it fails with "There are no
      transactions." and changes nothing. */
  lemma SaveAllSpec(c: Codec, m: Manager)
    requires Sound(c) && m.attached.Some? && FileStorage.Valid(c, m.attached.value)
    ensures GetAllTransactions(m).Err? ==> SaveAll(c, m) == Step(m, Err(NoTransactions(NoTransactionsAtAll)))
    ensures var all := GetAllTransactions(m);
            var f := m.attached.value;
            all.Ok? && |all.value| < MaxInt32 && RoomFor(f, |all.value|) ==>
              && SaveAll(c, m).outcome.Ok?
              && FileStorage.Valid(c, SaveAll(c, m).manager.attached.value)
              && |SaveAll(c, m).manager.attached.value.file.lines| == |f.file.lines| + |all.value|
              && SaveAll(c, m).manager.attached.value.file.lines[..|f.file.lines|] == f.file.lines
    ensures var all := GetAllTransactions(m);
            var f := m.attached.value;
            all.Ok? && |all.value| < MaxInt32 && RoomFor(f, |all.value|) ==>
              var saved := SaveAll(c, m).manager.attached.value;
              var first := FileStorage.FindLastFreeId(f.file.lines).value;
              && LinesAppended(c, f.file.lines, saved.file.lines, first, ValuesInOrder(all.value))
              && ReadsBackInOrder(c, saved, first, ValuesInOrder(all.value))
  {
    var all := GetAllTransactions(m);
    var f := m.attached.value;
    if all.Ok? && |all.value| < MaxInt32 && RoomFor(f, |all.value|) {
      CopyBetweenIntoFile(c, MinTimestamp, MaxTimestamp, InMemory(m.memory), f);
    }
  }

  /** Saving a range to a valid file with room for the new ids writes the
      transactions `getTransactionsBetweenDates` reports, in ascending order
      of their memory ids, under consecutive ids from the file's next free
      id, each of which reads back; an empty range fails with "No
      transactions between" the two dates and changes nothing. */
  lemma SaveBetweenSpec(c: Codec, m: Manager, start: Timestamp, end: Timestamp)
    requires Sound(c) && m.attached.Some? && FileStorage.Valid(c, m.attached.value)
    ensures GetTransactionsBetweenDates(m, start, end).Err? ==>
              SaveBetween(c, m, start, end) == Step(m, Err(NoTransactions(NothingBetween(start, end))))
    ensures var found := GetTransactionsBetweenDates(m, start, end);
            var f := m.attached.value;
            found.Ok? && |found.value| < MaxInt32 && RoomFor(f, |found.value|) ==>
              var saved := SaveBetween(c, m, start, end).manager.attached.value;
              var first := FileStorage.FindLastFreeId(f.file.lines).value;
              && SaveBetween(c, m, start, end).outcome.Ok?
              && FileStorage.Valid(c, saved)
              && |saved.file.lines| == |f.file.lines| + |found.value|
              && LinesAppended(c, f.file.lines, saved.file.lines, first, ValuesInOrder(found.value))
              && ReadsBackInOrder(c, saved, first, ValuesInOrder(found.value))
  {
    var found := GetTransactionsBetweenDates(m, start, end);
    var f := m.attached.value;
    if found.Ok? && |found.value| < MaxInt32 && RoomFor(f, |found.value|) {
      CopyBetweenIntoFile(c, start, end, InMemory(m.memory), f);
    }
  }
}
