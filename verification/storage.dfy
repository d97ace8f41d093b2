/** `TransactionStorage`: the one contract both stores keep. A store is
    either the in-memory one or the file-backed one; each operation passes
    to the store it is given. */
module Storage {
  import opened Outcomes
  import opened JavaTypes
  import opened Text
  import opened Errors
  import opened TransactionUnit
  import RuntimeStorage
  import FileStorage
  import Validator

  datatype Store =
    | InMemory(memory: RuntimeStorage.Store)
    | OnFile(file: FileStorage.Store)

  /** What a store needs for its reads to describe its contents: nothing for
      memory, a file that passes every check for a file. */
  ghost predicate Valid(c: Codec, s: Store)
  {
    s.OnFile? ==> FileStorage.Valid(c, s.file)
  }

  /** `addTransaction`. The memory store never fails; the file store fails
      only with an unchecked error. Either way the store stays the same kind. */
  function Add(c: Codec, s: Store, t: Transaction): (r: Result<Store, Error>)
    ensures s.InMemory? ==> r.Ok?
    ensures r.Ok? ==> r.value.InMemory? == s.InMemory?
    ensures r.Ok? && s.OnFile? ==> r.value.file.path == s.file.path
    ensures r.Err? ==> r.error.Runtime?
  {
    match s
    case InMemory(m) => Ok(InMemory(RuntimeStorage.Add(m, t)))
    case OnFile(f) =>
      match FileStorage.Add(c, f, t)
      case Err(e) => Err(e)
      case Ok(f') => Ok(OnFile(f'))
  }

  /** `getTransactionById`: the transaction, or `NoTransactions` for an id
      the store does not hold; a file store may also fail unchecked. */
  function GetById(c: Codec, s: Store, id: Int32): (r: Result<Transaction, Error>)
    ensures r.Err? ==> r.error == NoTransactions(NoSuchId(id)) || r.error.Runtime?
    ensures s.InMemory? ==> (r.Ok? <==> id in s.memory.transactions)
  {
    match s
    case InMemory(m) => RuntimeStorage.GetById(m, id)
    case OnFile(f) => FileStorage.GetById(c, f, id)
  }

  /** `getTransactionsBetweenDates`: a non-empty map, or `NoTransactions`
      naming the bounds; a file store may also fail unchecked. */
  function GetBetween(c: Codec, s: Store, start: Timestamp, end: Timestamp): (r: Result<map<Int32, Transaction>, Error>)
    ensures r.Ok? ==> r.value != map[]
    ensures r.Err? ==> r.error == NoTransactions(NothingBetween(start, end)) || r.error.Runtime?
  {
    match s
    case InMemory(m) => RuntimeStorage.GetBetween(m, start, end)
    case OnFile(f) => FileStorage.GetBetween(c, f, start, end)
  }

  /** The shared promise of the range query: for either store, every
      transaction it returns is dated strictly between the bounds. */
  lemma GetBetweenInRange(c: Codec, s: Store, start: Timestamp, end: Timestamp)
    requires Valid(c, s)
    ensures GetBetween(c, s, start, end).Ok? ==>
              forall id :: id in GetBetween(c, s, start, end).value ==>
                start < GetBetween(c, s, start, end).value[id].dateTime < end
  {
    if s.OnFile? {
      var lines := s.file.file.lines;
      FileStorage.GetBetweenSpec(c, s.file, start, end);
      var r := GetBetween(c, s, start, end);
      if r.Ok? {
        forall id | id in r.value
          ensures start < r.value[id].dateTime < end
        {
          var j :| 0 <= j < |lines| && FileStorage.Hit(c, lines[j], start, end) && Validator.LeadingId(lines[j]) == Some(id);
          assert r.value[id] == FileStorage.RecordAt(c, lines[j]);
        }
      }
    }
  }

  /** The shared promise of the lookup by id: an added transaction reads
      back under the id the store gave it. For memory that id is the
      counter; for a file it is one past the largest id in the file. */
  lemma AddThenGet(c: Codec, s: Store, t: Transaction)
    requires s.OnFile? ==> Sound(c)
    requires Valid(c, s)
    requires s.InMemory? ==> RuntimeStorage.Valid(s.memory) && s.memory.lastFreeId < MaxInt32
    requires s.OnFile? ==> forall j :: 0 <= j < |s.file.file.lines| ==> Validator.LeadingId(s.file.file.lines[j]).value < MaxInt32
    ensures Add(c, s, t).Ok?
    ensures Valid(c, Add(c, s, t).value)
    ensures s.InMemory? ==> GetById(c, Add(c, s, t).value, s.memory.lastFreeId) == Ok(t)
    ensures s.OnFile? ==> GetById(c, Add(c, s, t).value, FileStorage.FindLastFreeId(s.file.file.lines).value) == Ok(t)
  {
    if s.OnFile? {
      FileStorage.AddSpec(c, s.file, t);
      FileStorage.AddThenGetById(c, s.file, t);
    }
  }
}
