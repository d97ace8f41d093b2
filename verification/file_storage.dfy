/** `FileTransactionStorage`: transactions kept as lines `id,date,TYPE,sum`
    of a CSV file that is re-validated before every read and write. */
module FileStorage {
  import opened Outcomes
  import opened JavaTypes
  import opened Text
  import opened Errors
  import opened Files
  import opened Validator
  import opened TransactionUnit

  /** A file store: the path it was constructed with and that file's state. */
  datatype Store = Store(path: string, file: FileState)

  /** What every successful validation establishes about the attached file. */
  ghost predicate Valid(c: Codec, s: Store)
  {
    && CanWrite(s.file) && CanRead(s.file) && HasCorrectType(s.path)
    && WellFormed(c, s.file.lines)
  }

  /** The constructor: create the file if it is missing, then check its
      properties and its values. */
  function Open(c: Codec, path: string, file: FileState): (r: Result<Store, Error>)
    ensures r.Ok? <==> file.creatable && Valid(c, Store(path, CreateIfMissing(file)))
    ensures r.Ok? ==> r.value == Store(path, CreateIfMissing(file))
    ensures !file.creatable ==> r == Err(FileCreation)
  {
    CheckValuesVerdict(c, CreateIfMissing(file).lines);
    match CreateFileIfNotExists(file)
    case Err(e) => Err(e)
    case Ok(created) =>
      match CheckProperties(path, created)
      case Err(e) => Err(e)
      case Ok(_) =>
        match CheckValues(c, created.lines)
        case Err(e) => Err(e)
        case Ok(_) => Ok(Store(path, created))
  }

  /** The checks every operation repeats. A failure means the file changed
      while the program ran and becomes an unchecked error; an index failure
      of the value check passes through as it is. */
  function Revalidate(c: Codec, s: Store): (r: Result<(), Error>)
    ensures r.Ok? <==> Valid(c, s)
    ensures r.Err? ==> r.error.Runtime?
  {
    CheckValuesVerdict(c, s.file.lines);
    match CheckProperties(s.path, s.file)
    case Err(e) => Err(Runtime(ModifiedDuringRun(e.problem)))
    case Ok(_) =>
      match CheckValues(c, s.file.lines)
      case Err(FileFormat(p)) => Err(Runtime(ModifiedDuringRun(p)))
      case Err(e) => Err(e)
      case Ok(_) => Ok(())
  }

  // ---------------------------------------------------------------------------
  // The next free id

  /** The largest leading id of `lines`, or `None` for no lines; a line whose
      first field is missing or not an `int` throws. */
  function MaxLeadingId(lines: seq<string>): (r: Result<Option<Int32>, Error>)
    ensures r.Ok? ==> forall i :: 0 <= i < |lines| ==> LeadingId(lines[i]).Some?
    ensures r.Ok? ==> (r.value.None? <==> lines == [])
    ensures r.Ok? && r.value.Some? ==>
              (forall i :: 0 <= i < |lines| ==> LeadingId(lines[i]).value <= r.value.value)
              && exists i :: 0 <= i < |lines| && LeadingId(lines[i]) == r.value
    ensures (forall i :: 0 <= i < |lines| ==> LeadingId(lines[i]).Some?) ==> r.Ok?
  {
    if |lines| == 0 then Ok(None)
    else
      var f := Split(lines[0]);
      if |f| == 0 then Err(Runtime(IndexOutOfBounds))
      else match ParseInt(f[0])
        case None => Err(Runtime(ParseFailure))
        case Some(id) =>
          assert LeadingId(lines[0]) == Some(id);
          match MaxLeadingId(lines[1..])
          case Err(e) => Err(e)
          case Ok(None) => Ok(Some(id))
          case Ok(Some(m)) =>
            assert forall i :: 1 <= i < |lines| ==> lines[i] == lines[1..][i - 1];
            var k :| 0 <= k < |lines[1..]| && LeadingId(lines[1..][k]) == Some(m);
            assert LeadingId(lines[k + 1]) == Some(m);
            Ok(Some(if id < m then m else id))
  }

  /** `findLastFreeId`: one more than the largest leading id, computed in
      `int` arithmetic, or 0 for an empty file. */
  function FindLastFreeId(lines: seq<string>): (r: Result<Int32, Error>)
    ensures r.Ok? <==> forall i :: 0 <= i < |lines| ==> LeadingId(lines[i]).Some?
    ensures r.Ok? && lines == [] ==> r.value == 0
    ensures r.Ok? && (forall i :: 0 <= i < |lines| ==> LeadingId(lines[i]).value < MaxInt32) ==>
              forall i :: 0 <= i < |lines| ==> LeadingId(lines[i]).value < r.value
    ensures r.Ok? && (forall i :: 0 <= i < |lines| ==> 0 <= LeadingId(lines[i]).value < MaxInt32) ==>
              r.value >= 0
    ensures r.Ok? && lines != [] ==>
              exists i :: 0 <= i < |lines| && r.value == Increment(LeadingId(lines[i]).value)
                && forall j :: 0 <= j < |lines| ==> LeadingId(lines[j]).value <= LeadingId(lines[i]).value
  {
    match MaxLeadingId(lines)
    case Err(e) => Err(e)
    case Ok(None) => Ok(0)
    case Ok(Some(m)) =>
      var i :| 0 <= i < |lines| && LeadingId(lines[i]) == Some(m);
      Ok(Increment(m))
  }

  /** The id is a Java `int`: when the largest id in the file is 2147483647,
      the next id wraps round to -2147483648. */
  lemma NextIdWraps(lines: seq<string>, i: nat)
    requires i < |lines| && LeadingId(lines[i]) == Some(MaxInt32)
    requires forall j :: 0 <= j < |lines| ==> LeadingId(lines[j]).Some?
    ensures FindLastFreeId(lines) == Ok(MinInt32)
  {
    var m := MaxLeadingId(lines);
    assert m.value.value == MaxInt32;
  }

  /** After a line whose id exceeds every id of the file is appended, the
      next free id is one more than that line's id. */
  lemma NextIdAfterAppend(lines: seq<string>, line: string, id: Int32)
    requires forall j :: 0 <= j < |lines| ==> LeadingId(lines[j]).Some? && LeadingId(lines[j]).value < id
    requires LeadingId(line) == Some(id) && id < MaxInt32
    ensures FindLastFreeId(lines + [line]) == Ok(id + 1)
  {
    var next := lines + [line];
    IdsAtMost(lines, line, id);
    assert LeadingId(next[|lines|]) == Some(id);
    NextIdOfMax(next, id, |lines|);
  }

  /** When the largest id of a file is below the largest `int`, the next
      free id is one more than it. */
  lemma NextIdOfMax(lines: seq<string>, id: Int32, k: nat)
    requires k < |lines| && LeadingId(lines[k]) == Some(id) && id < MaxInt32
    requires forall j :: 0 <= j < |lines| ==> LeadingId(lines[j]).Some? && LeadingId(lines[j]).value <= id
    ensures FindLastFreeId(lines) == Ok(id + 1)
  {
    var r := FindLastFreeId(lines);
    var i :| 0 <= i < |lines| && r.value == Increment(LeadingId(lines[i]).value)
               && forall j :: 0 <= j < |lines| ==> LeadingId(lines[j]).value <= LeadingId(lines[i]).value;
    assert LeadingId(lines[i]).value == id;
    assert Increment(id) == id + 1;
  }

  /** Every id of the lengthened file is at most the appended line's id. */
  lemma IdsAtMost(lines: seq<string>, line: string, id: Int32)
    requires forall j :: 0 <= j < |lines| ==> LeadingId(lines[j]).Some? && LeadingId(lines[j]).value < id
    requires LeadingId(line) == Some(id)
    ensures forall j :: 0 <= j < |lines + [line]| ==>
              LeadingId((lines + [line])[j]).Some? && LeadingId((lines + [line])[j]).value <= id
  {
    var next := lines + [line];
    forall j | 0 <= j < |next|
      ensures LeadingId(next[j]).Some? && LeadingId(next[j]).value <= id
    {
      if j < |lines| {
        assert next[j] == lines[j];
      }
    }
  }

  // ---------------------------------------------------------------------------
  // Operations

  /** The line `addTransaction` appends for a transaction under `id`. */
  function AddedLine(c: Codec, id: Int32, t: Transaction): (r: string)
    ensures Plain(c.isoDateText(t.dateTime)) && Plain(c.amountText(t.sum)) ==>
              Split(r) == [IntText(id), c.isoDateText(t.dateTime), Name(t.kind), c.amountText(t.sum)]
  {
    var line := IntText(id) + "," + ReplaceSpaces(ToString(c, t));
    assert Plain(c.isoDateText(t.dateTime)) && Plain(c.amountText(t.sum)) ==>
             Split(line) == [IntText(id), c.isoDateText(t.dateTime), Name(t.kind), c.amountText(t.sum)] by {
      var d, n, a := c.isoDateText(t.dateTime), Name(t.kind), c.amountText(t.sum);
      if Plain(d) && Plain(a) {
        NamePlain(t.kind);
        ReplaceSpacesOfSpaced(d, n, a);
        ParseIntText(id);
        var fields := [IntText(id), d, n, a];
        assert fields[1..] == [d, n, a];
        assert Join(fields) == line;
        SplitJoin(fields);
      }
    }
    line
  }

  /** Whether `new FileWriter(path, true)` opens: an existing file must be
      writable, and a missing one is created when its directory allows it. */
  predicate CanAppend(f: FileState)
  {
    if f.present then f.writable else f.creatable
  }

  /** `addTransaction`: open the file for appending, which creates it when
      it is missing, re-validate it, then append one line under the next
      free id. */
  function Add(c: Codec, s: Store, t: Transaction): (r: Result<Store, Error>)
    ensures r.Ok? <==> CanAppend(s.file) && Valid(c, s.(file := CreateIfMissing(s.file)))
    ensures r.Ok? ==> r.value.path == s.path
    ensures r.Ok? ==> |r.value.file.lines| == |CreateIfMissing(s.file).lines| + 1
    ensures r.Ok? ==> r.value.file.lines[..|CreateIfMissing(s.file).lines|] == CreateIfMissing(s.file).lines
    ensures r.Ok? ==> r.value.file == CreateIfMissing(s.file).(lines := r.value.file.lines)
    ensures r.Ok? && !s.file.present ==> r.value.file.lines == [AddedLine(c, 0, t)]
    ensures r.Err? ==> r.error.Runtime?
  {
    if !CanAppend(s.file) then Err(Runtime(UnexpectedIo))
    else
      var written := s.(file := CreateIfMissing(s.file));
      match Revalidate(c, written)
      case Err(e) => Err(e)
      case Ok(_) =>
        assert forall i :: 0 <= i < |written.file.lines| ==> LineWellFormed(c, written.file.lines[i]);
        match FindLastFreeId(written.file.lines)
        case Err(e) => Err(e)
        case Ok(id) =>
          var lines := written.file.lines + [AddedLine(c, id, t)];
          assert lines[..|written.file.lines|] == written.file.lines;
          Ok(written.(file := written.file.(lines := lines)))
  }

  /** Adding to a missing file in a directory that allows creating it
      creates the file with the one line, under id 0. */
  lemma AddCreatesMissingFile(c: Codec, s: Store, t: Transaction)
    requires !s.file.present && s.file.creatable && s.file.readable && s.file.writable
    requires HasCorrectType(s.path)
    ensures Add(c, s, t) == Ok(Store(s.path, FileState(true, true, true, true, [AddedLine(c, 0, t)])))
  {
    assert WellFormed(c, CreateIfMissing(s.file).lines);
  }

  /** The transaction the file store builds from the fields of a line:
      date, type and sum from fields 1 to 3. */
  function ParseRecord(c: Codec, f: seq<string>): (r: Result<Transaction, Error>)
    ensures r.Err? ==> r.error.Runtime?
  {
    if |f| < 2 then Err(Runtime(IndexOutOfBounds))
    else match c.parseDate(f[1])
      case None => Err(Runtime(ParseFailure))
      case Some(date) =>
        if |f| < 3 then Err(Runtime(IndexOutOfBounds))
        else match ValueOf(f[2])
          case None => Err(Runtime(ParseFailure))
          case Some(kind) =>
            if |f| < 4 then Err(Runtime(IndexOutOfBounds))
            else match c.parseAmount(f[3])
              case None => Err(Runtime(ParseFailure))
              case Some(sum) => Ok(New(date, kind, sum))
  }

  /** The transaction a well-formed line stands for. */
  function RecordAt(c: Codec, line: string): Transaction
    requires LineWellFormed(c, line)
  {
    var f := Split(line);
    New(c.parseDate(f[1]).value, ValueOf(f[2]).value, c.parseAmount(f[3]).value)
  }

  /** The date of a well-formed line. */
  function DateAt(c: Codec, line: string): Timestamp
    requires LineWellFormed(c, line)
  {
    c.parseDate(Split(line)[1]).value
  }

  /** The reading loop of `getTransactionById` from line `i` on: the first
      line whose id equals `id`, if any. */
  function FindById(c: Codec, lines: seq<string>, i: nat, id: Int32): (r: Result<Option<Transaction>, Error>)
    requires i <= |lines|
    ensures r.Err? ==> r.error.Runtime?
    decreases |lines| - i
  {
    if i == |lines| then Ok(None)
    else
      var f := Split(lines[i]);
      if |f| == 0 then Err(Runtime(IndexOutOfBounds))
      else match ParseInt(f[0])
        case None => Err(Runtime(ParseFailure))
        case Some(x) =>
          if x == id then
            match ParseRecord(c, f)
            case Ok(t) => Ok(Some(t))
            case Err(e) => Err(e)
          else FindById(c, lines, i + 1, id)
  }

  /** `getTransactionById`. */
  function GetById(c: Codec, s: Store, id: Int32): (r: Result<Transaction, Error>)
    ensures r.Err? ==> r.error.Runtime? || r.error == NoTransactions(NoSuchId(id))
    ensures !Valid(c, s) ==> r.Err? && r.error.Runtime?
  {
    if !CanRead(s.file) then Err(Runtime(UnexpectedIo))
    else match Revalidate(c, s)
      case Err(e) => Err(e)
      case Ok(_) =>
        match FindById(c, s.file.lines, 0, id)
        case Err(e) => Err(e)
        case Ok(None) => Err(NoTransactions(NoSuchId(id)))
        case Ok(Some(t)) => Ok(t)
  }

  /** The reading loop of `getTransactionsBetweenDates` from line `i` on,
      with the entries found so far in `found`; a later line with the same id
      would replace an earlier one. */
  function ScanBetween(c: Codec, lines: seq<string>, i: nat, start: Timestamp, end: Timestamp,
                       found: map<Int32, Transaction>): (r: Result<map<Int32, Transaction>, Error>)
    requires i <= |lines|
    ensures r.Err? ==> r.error.Runtime?
    decreases |lines| - i
  {
    if i == |lines| then Ok(found)
    else
      var f := Split(lines[i]);
      if |f| < 2 then Err(Runtime(IndexOutOfBounds))
      else match c.parseDate(f[1])
        case None => Err(Runtime(ParseFailure))
        case Some(date) =>
          if start < date && end > date then
            match ParseInt(f[0])
            case None => Err(Runtime(ParseFailure))
            case Some(id) =>
              match ParseRecord(c, f)
              case Err(e) => Err(e)
              case Ok(t) => ScanBetween(c, lines, i + 1, start, end, found[id := t])
          else ScanBetween(c, lines, i + 1, start, end, found)
  }

  /** `getTransactionsBetweenDates`. */
  function GetBetween(c: Codec, s: Store, start: Timestamp, end: Timestamp): (r: Result<map<Int32, Transaction>, Error>)
    ensures r.Ok? ==> r.value != map[]
    ensures r.Err? ==> r.error.Runtime? || r.error == NoTransactions(NothingBetween(start, end))
    ensures !Valid(c, s) ==> r.Err? && r.error.Runtime?
  {
    if !CanRead(s.file) then Err(Runtime(UnexpectedIo))
    else match Revalidate(c, s)
      case Err(e) => Err(e)
      case Ok(_) =>
        match ScanBetween(c, s.file.lines, 0, start, end, map[])
        case Err(e) => Err(e)
        case Ok(found) =>
          if found == map[] then Err(NoTransactions(NothingBetween(start, end))) else Ok(found)
  }

  // ---------------------------------------------------------------------------
  // What the operations compute on a valid file

  lemma ParseRecordOfWellFormed(c: Codec, line: string)
    requires LineWellFormed(c, line)
    ensures ParseRecord(c, Split(line)) == Ok(RecordAt(c, line))
  {
  }

  lemma {:induction false} FindByIdSpec(c: Codec, lines: seq<string>, i: nat, id: Int32)
    requires WellFormed(c, lines) && i <= |lines|
    ensures FindById(c, lines, i, id).Ok?
    ensures FindById(c, lines, i, id).value.Some? <==>
              exists j :: i <= j < |lines| && LeadingId(lines[j]) == Some(id)
    ensures forall j :: i <= j < |lines| && LeadingId(lines[j]) == Some(id) ==>
              FindById(c, lines, i, id) == Ok(Some(RecordAt(c, lines[j])))
    decreases |lines| - i
  {
    if i < |lines| {
      var line := lines[i];
      assert LineWellFormed(c, line);
      ParseRecordOfWellFormed(c, line);
      FindByIdSpec(c, lines, i + 1, id);
      if LeadingId(line) == Some(id) {
        assert FindById(c, lines, i, id) == Ok(Some(RecordAt(c, line)));
        forall j | i < j < |lines|
          ensures LeadingId(lines[j]) != Some(id)
        {
          assert LeadingId(lines[i]) != LeadingId(lines[j]);
        }
      } else {
        assert FindById(c, lines, i, id) == FindById(c, lines, i + 1, id);
      }
    }
  }

  /** On a valid file, `getTransactionById` finds `id` exactly when some line
      carries it, and then returns that line's transaction; otherwise it fails
      with `NoTransactions`. */
  lemma GetByIdSpec(c: Codec, s: Store, id: Int32)
    requires Valid(c, s)
    ensures GetById(c, s, id).Ok? <==> exists j :: 0 <= j < |s.file.lines| && LeadingId(s.file.lines[j]) == Some(id)
    ensures forall j :: 0 <= j < |s.file.lines| && LeadingId(s.file.lines[j]) == Some(id) ==>
              GetById(c, s, id) == Ok(RecordAt(c, s.file.lines[j]))
    ensures GetById(c, s, id).Err? ==> GetById(c, s, id).error == NoTransactions(NoSuchId(id))
  {
    FindByIdSpec(c, s.file.lines, 0, id);
  }

  /** A well-formed line dated strictly between the bounds. */
  predicate Hit(c: Codec, line: string, start: Timestamp, end: Timestamp)
  {
    LineWellFormed(c, line) && start < DateAt(c, line) < end
  }

  /** `m` holds exactly the entries of lines before `n` dated strictly between
      the bounds, each under the line's own id. */
  ghost predicate Collected(c: Codec, lines: seq<string>, n: nat, start: Timestamp, end: Timestamp,
                            m: map<Int32, Transaction>)
    requires n <= |lines|
  {
    && (forall id :: id in m ==> exists j :: 0 <= j < n && Hit(c, lines[j], start, end) && LeadingId(lines[j]) == Some(id))
    && (forall j :: 0 <= j < n && Hit(c, lines[j], start, end) ==>
          LeadingId(lines[j]).value in m && m[LeadingId(lines[j]).value] == RecordAt(c, lines[j]))
  }

  lemma CollectedSkip(c: Codec, lines: seq<string>, i: nat, start: Timestamp, end: Timestamp,
                      found: map<Int32, Transaction>)
    requires i < |lines|
    requires Collected(c, lines, i, start, end, found)
    requires !Hit(c, lines[i], start, end)
    ensures Collected(c, lines, i + 1, start, end, found)
  {
    forall id | id in found
      ensures exists j :: 0 <= j < i + 1 && Hit(c, lines[j], start, end) && LeadingId(lines[j]) == Some(id)
    {
      var j :| 0 <= j < i && Hit(c, lines[j], start, end) && LeadingId(lines[j]) == Some(id);
    }
  }

  lemma CollectedTake(c: Codec, lines: seq<string>, i: nat, start: Timestamp, end: Timestamp,
                      found: map<Int32, Transaction>)
    requires WellFormed(c, lines) && i < |lines|
    requires Collected(c, lines, i, start, end, found)
    requires Hit(c, lines[i], start, end)
    ensures Collected(c, lines, i + 1, start, end, found[LeadingId(lines[i]).value := RecordAt(c, lines[i])])
  {
    TakenKeysHit(c, lines, i, start, end, found);
    TakenHitsKept(c, lines, i, start, end, found);
  }

  lemma TakenKeysHit(c: Codec, lines: seq<string>, i: nat, start: Timestamp, end: Timestamp,
                     found: map<Int32, Transaction>)
    requires i < |lines| && Collected(c, lines, i, start, end, found)
    requires Hit(c, lines[i], start, end)
    ensures var next := found[LeadingId(lines[i]).value := RecordAt(c, lines[i])];
            forall k :: k in next ==> exists j :: 0 <= j < i + 1 && Hit(c, lines[j], start, end) && LeadingId(lines[j]) == Some(k)
  {
    var id := LeadingId(lines[i]).value;
    var next := found[id := RecordAt(c, lines[i])];
    forall k | k in next
      ensures exists j :: 0 <= j < i + 1 && Hit(c, lines[j], start, end) && LeadingId(lines[j]) == Some(k)
    {
      if k != id {
        var j :| 0 <= j < i && Hit(c, lines[j], start, end) && LeadingId(lines[j]) == Some(k);
      }
    }
  }

  lemma TakenHitsKept(c: Codec, lines: seq<string>, i: nat, start: Timestamp, end: Timestamp,
                      found: map<Int32, Transaction>)
    requires WellFormed(c, lines) && i < |lines| && Collected(c, lines, i, start, end, found)
    requires Hit(c, lines[i], start, end)
    ensures var next := found[LeadingId(lines[i]).value := RecordAt(c, lines[i])];
            forall j :: 0 <= j < i + 1 && Hit(c, lines[j], start, end) ==>
              LeadingId(lines[j]).value in next && next[LeadingId(lines[j]).value] == RecordAt(c, lines[j])
  {
    var next := found[LeadingId(lines[i]).value := RecordAt(c, lines[i])];
    forall j | 0 <= j < i + 1 && Hit(c, lines[j], start, end)
      ensures LeadingId(lines[j]).value in next && next[LeadingId(lines[j]).value] == RecordAt(c, lines[j])
    {
      if j < i {
        assert LeadingId(lines[j]) != LeadingId(lines[i]);
      }
    }
  }

  /** On a well-formed line the scan takes the line's record when the line
      is a hit and skips it otherwise. */
  lemma ScanStep(c: Codec, lines: seq<string>, i: nat, start: Timestamp, end: Timestamp,
                 found: map<Int32, Transaction>)
    requires i < |lines| && LineWellFormed(c, lines[i])
    ensures ScanBetween(c, lines, i, start, end, found) ==
              ScanBetween(c, lines, i + 1, start, end,
                          if Hit(c, lines[i], start, end) then found[LeadingId(lines[i]).value := RecordAt(c, lines[i])]
                          else found)
  {
    ParseRecordOfWellFormed(c, lines[i]);
  }

  lemma {:induction false} ScanBetweenSpec(c: Codec, lines: seq<string>, i: nat, start: Timestamp, end: Timestamp,
                                           found: map<Int32, Transaction>)
    requires WellFormed(c, lines) && i <= |lines|
    requires Collected(c, lines, i, start, end, found)
    ensures ScanBetween(c, lines, i, start, end, found).Ok?
    ensures Collected(c, lines, |lines|, start, end, ScanBetween(c, lines, i, start, end, found).value)
    decreases |lines| - i
  {
    if i < |lines| {
      assert LineWellFormed(c, lines[i]);
      ScanStep(c, lines, i, start, end, found);
      if Hit(c, lines[i], start, end) {
        CollectedTake(c, lines, i, start, end, found);
        ScanBetweenSpec(c, lines, i + 1, start, end, found[LeadingId(lines[i]).value := RecordAt(c, lines[i])]);
      } else {
        CollectedSkip(c, lines, i, start, end, found);
        ScanBetweenSpec(c, lines, i + 1, start, end, found);
      }
    }
  }

  /** On a valid file, the range query returns exactly the lines dated
      strictly between the bounds, keyed by the file's ids, and fails with
      `NoTransactions` exactly when there is no such line. */
  lemma GetBetweenSpec(c: Codec, s: Store, start: Timestamp, end: Timestamp)
    requires Valid(c, s)
    ensures GetBetween(c, s, start, end).Ok? ==>
              Collected(c, s.file.lines, |s.file.lines|, start, end, GetBetween(c, s, start, end).value)
    ensures GetBetween(c, s, start, end).Err? <==>
              forall j :: 0 <= j < |s.file.lines| ==> !Hit(c, s.file.lines[j], start, end)
    ensures GetBetween(c, s, start, end).Err? ==>
              GetBetween(c, s, start, end).error == NoTransactions(NothingBetween(start, end))
  {
    var lines := s.file.lines;
    ScanBetweenSpec(c, lines, 0, start, end, map[]);
    var found := ScanBetween(c, lines, 0, start, end, map[]).value;
    assert GetBetween(c, s, start, end) == (if found == map[] then Err(NoTransactions(NothingBetween(start, end))) else Ok(found));
    forall j | 0 <= j < |lines| && Hit(c, lines[j], start, end)
      ensures LeadingId(lines[j]).value in found
    {
    }
    if found != map[] {
      var id :| id in found;
      var j :| 0 <= j < |lines| && Hit(c, lines[j], start, end) && LeadingId(lines[j]) == Some(id);
    }
  }

  /** The line written for a transaction under a non-negative id is well formed
      and reads back as that id and that transaction. */
  lemma AddedLineReadsBack(c: Codec, id: Int32, t: Transaction)
    requires Sound(c) && id >= 0
    ensures LineWellFormed(c, AddedLine(c, id, t))
    ensures LeadingId(AddedLine(c, id, t)) == Some(id)
    ensures RecordAt(c, AddedLine(c, id, t)) == t
  {
    var d, a := c.isoDateText(t.dateTime), c.amountText(t.sum);
    assert Plain(d) && Plain(a);
    NamePlain(t.kind);
    ParseIntText(id);
  }

  /** Appending a well-formed line whose id exceeds every id of a
      well-formed file keeps it well formed. */
  lemma AppendKeepsWellFormed(c: Codec, lines: seq<string>, line: string)
    requires WellFormed(c, lines) && LineWellFormed(c, line)
    requires forall j :: 0 <= j < |lines| ==> LeadingId(lines[j]).value < LeadingId(line).value
    ensures WellFormed(c, lines + [line])
  {
    var lines' := lines + [line];
    assert forall j :: 0 <= j < |lines| ==> lines'[j] == lines[j];
    assert lines'[|lines|] == line;
  }

  /** On a valid file whose ids are all below the largest `int`, `add`
      succeeds, appends one line under a non-negative id no line had, and
      keeps the file valid. */
  lemma AddSpec(c: Codec, s: Store, t: Transaction)
    requires Sound(c) && Valid(c, s)
    requires forall j :: 0 <= j < |s.file.lines| ==> LeadingId(s.file.lines[j]).value < MaxInt32
    ensures Add(c, s, t).Ok?
    ensures var id := FindLastFreeId(s.file.lines).value;
            && id >= 0
            && (forall j :: 0 <= j < |s.file.lines| ==> LeadingId(s.file.lines[j]) != Some(id))
            && Add(c, s, t).value.file.lines == s.file.lines + [AddedLine(c, id, t)]
            && Valid(c, Add(c, s, t).value)
  {
    var lines := s.file.lines;
    var id := FindLastFreeId(lines).value;
    assert forall j :: 0 <= j < |lines| ==> LeadingId(lines[j]).value < id;
    var line := AddedLine(c, id, t);
    AddedLineReadsBack(c, id, t);
    AppendKeepsWellFormed(c, lines, line);
  }

  /** On a valid file, the id of any line reads back as that line's record. */
  lemma GetByIdAt(c: Codec, s: Store, k: nat)
    requires Valid(c, s) && k < |s.file.lines|
    ensures LeadingId(s.file.lines[k]).Some?
    ensures GetById(c, s, LeadingId(s.file.lines[k]).value) == Ok(RecordAt(c, s.file.lines[k]))
  {
    assert LineWellFormed(c, s.file.lines[k]);
    GetByIdSpec(c, s, LeadingId(s.file.lines[k]).value);
  }

  /** On a valid file, a line written for `t` under `id` makes `id` read
      back as `t`. */
  lemma AddedLineFound(c: Codec, s: Store, k: nat, id: Int32, t: Transaction)
    requires Sound(c) && Valid(c, s) && id >= 0
    requires k < |s.file.lines| && s.file.lines[k] == AddedLine(c, id, t)
    ensures GetById(c, s, id) == Ok(t)
  {
    AddedLineReadsBack(c, id, t);
    GetByIdAt(c, s, k);
  }

  /** After such an add, the new id reads back as the added transaction. */
  lemma AddThenGetById(c: Codec, s: Store, t: Transaction)
    requires Sound(c) && Valid(c, s)
    requires forall j :: 0 <= j < |s.file.lines| ==> LeadingId(s.file.lines[j]).value < MaxInt32
    ensures Add(c, s, t).Ok?
    ensures GetById(c, Add(c, s, t).value, FindLastFreeId(s.file.lines).value) == Ok(t)
  {
    AddSpec(c, s, t);
    var lines := s.file.lines;
    var id := FindLastFreeId(lines).value;
    AddedLineReadsBack(c, id, t);
    var s' := Add(c, s, t).value;
    GetByIdSpec(c, s', id);
    assert LeadingId(s'.file.lines[|lines|]) == Some(id);
  }
}
