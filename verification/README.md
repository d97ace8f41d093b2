# Console Finance Tracker — transaction storage and bookkeeping

This project models the transaction storage and bookkeeping of a Java console
finance tracker. It is written in Dafny, and every contract and lemma is
proved by the verifier. The repository holds parallel package trees, and the
model follows each modelled file as written.

- **The balance ledger** (`domain/FinanceTracker.java`, `domain/Transaction.java`).
  - It holds a map from ids to transactions, an id counter and a running balance.
  - `addTransaction` refuses an expense larger than the balance.
  - The ledger can bulk-append from a three-field CSV file or bulk-replace its contents with one. Both read the file line by line and roll back on the first bad line.
  - It can save its transactions back to a file.
  - Module `Ledger` models it, with `DomainTransaction` for the transaction class.
  - Module `LineLoop` holds the shape of the reading loop: step each line, stop at the first failure.
- **Two stores with one contract** (`TransactionStorage`).
  - The in-memory store (module `RuntimeStorage`) is a map plus a counter that starts at 0.
  - The file store (module `FileStorage`) keeps lines `id,date,TYPE,sum`. It re-validates the file before every operation. The next id is one past the largest id in the file.
  - Module `Storage` is the shared contract. It is a datatype with one constructor per store, and each operation dispatches to the store it is given.
  - `TransactionUnit` is the record both stores keep.
- **The file validator** (module `Validator`).
  - It checks the file's properties: writable, readable, a `.csv` path.
  - It checks the values line by line. It reports the 0-based index of the first bad line, or it lets an index failure escape its `catch`.
- **The copier and the command manager** (modules `Copier` and `CommandManager`).
  - The copier copies one transaction, or a date range, from one store into another.
  - The command manager always has an in-memory store and a file store that can be attached or detached. It saves and loads in both directions and remaps "nothing found" errors.
  - The two `TransactionCopier.java` files differ only in their package and imports, so module `Copier` models both.

The shared vocabulary has its own modules:

- `JavaTypes`:
  - Java `int` with its wrap-around;
  - `LocalDateTime` as nanoseconds between `LocalDateTime.MIN` and `MAX`;
  - `BigDecimal` as an unscaled integer and a scale, with the stored amounts the non-negative ones;
  - `TransactionType`.
- `Text`: `String.split(",")` with Java's trailing-empty-field rule, `replace(" ", ",")`, `endsWith`, `Integer.parseInt` and `Integer.toString`.
- `Text.Codec`: the date and amount text forms. They are passed in as parameters.
  - `Text.Sound` states the round trips the Java library guarantees for them: every date and every non-negative decimal prints as a plain token that parses back to itself.
  - `Text.DigitsCodec` is one codec that meets `Sound` (`Text.DigitsCodecSound`). So `Sound` can hold, and the lemmas that assume it are not vacuous.
- `Files`: one file as the answers of the filesystem probes plus its lines.
- `Errors`: the exceptions, as one error type.
- `IdOrder`: the iteration order of a `HashMap<Integer, …>`. Java's order depends on the table's capacity; the model fixes it as ascending ids.

Every exception the code throws is a `Result` error. Every method that mutates state is a pure function from the old state to the new one.

## Model

| member | source | states |
|---|---|---|
| JavaTypes.TruncateToSeconds | src/main/java/domain/Transaction.java:13 | The result is the whole second at or before the given time, less than one second earlier. |
| JavaTypes.TruncateIdempotent | src/main/java/domain/Transaction.java:13 | Truncating twice to seconds is the same as truncating once. |
| JavaTypes.Increment | src/main/java/com/data/transactionsstoring/RuntimeTransactionStorage.java:16 | `lastFreeID++` is addition of one modulo 2^32 in the range of `int`. |
| JavaTypes.Value | src/main/java/domain/Transaction.java:16 | A decimal's value is below zero exactly when its unscaled integer is. |
| JavaTypes.Clamp | src/main/java/domain/Transaction.java:16-19 | A sum whose value is negative becomes zero. Any other sum is kept, scale included. The result is never negative. |
| JavaTypes.ValueOf | src/main/java/domain/FinanceTracker.java:128 | `valueOf` accepts exactly the two constant names. What it returns has the name it was given. |
| JavaTypes.ValueOfName | src/main/java/domain/Transaction.java:41 | `valueOf` inverts `name()` for both types. |
| Files.CreateIfMissing | src/main/java/com/FinanceTracker/data/transactionsstoring/FileTransactionStorageValidator.java:27-30 | Afterwards the file exists. An existing file is untouched, and a created one is empty. |
| Text.Split | src/main/java/com/FinanceTracker/data/transactionsstoring/FileTransactionStorageValidator.java:73 | No field that `split(",")` returns contains a comma. |
| Text.DropTrailingEmpty | src/main/java/com/FinanceTracker/data/transactionsstoring/FileTransactionStorageValidator.java:73 | The result is a prefix of the input, without its trailing empty fields. Everything dropped was empty. |
| Text.SplitJoin | src/main/java/com/data/transactionsstoring/FileTransactionStorage.java:35 | Comma-joined fields split back into the same fields. This needs fields without commas and, when there are several, a non-empty last field. |
| Text.ReplaceSpaces | src/main/java/domain/FinanceTracker.java:158 | `replace(" ", ",")` keeps the length, turns every space into a comma and changes no other character. |
| Text.SplitSpaced | src/main/java/domain/FinanceTracker.java:158 | Three plain fields joined by spaces, with spaces then replaced by commas, split back into those three fields. |
| Text.ReplaceSpacesOfSpaced | src/main/java/com/data/transactionsstoring/FileTransactionStorage.java:35 | Replacing the spaces of three space-separated plain fields gives the same fields joined by commas. |
| Text.EndsWithStem | src/main/java/domain/FinanceTracker.java:95-98 | `endsWith` holds exactly when the string is some stem followed by the suffix. |
| Text.NatText | src/main/java/com/data/transactionsstoring/FileTransactionStorage.java:35 | The decimal text of a natural number is a non-empty string of digits. |
| Text.ParseInteger | src/main/java/com/FinanceTracker/data/transactionsstoring/FileTransactionStorageValidator.java:78 | Only a plain token can be read as an integer. |
| Text.ParseInt | src/main/java/com/FinanceTracker/data/transactionsstoring/FileTransactionStorageValidator.java:78 | `parseInt` accepts only a plain token, and accepts exactly the integer texts whose value fits in an `int`. |
| Text.IntText | src/main/java/com/data/transactionsstoring/FileTransactionStorage.java:35 | An integer's text is non-empty. It starts with a minus sign exactly when the number is negative, and every other character is a digit. |
| Text.ParseIntegerText | src/main/java/com/data/transactionsstoring/FileTransactionStorage.java:35 | Every integer's text is plain and reads back as that integer. |
| Text.ParseIntText | src/main/java/com/data/transactionsstoring/FileTransactionStorage.java:35 | The text of any `int` id is a plain token, and `Integer.parseInt` reads it back as the same `int`. |
| Text.ParseIntOutOfRange | src/main/java/com/FinanceTracker/data/transactionsstoring/FileTransactionStorageValidator.java:78 | The text of a number outside the `int` range is refused. It does not wrap round. |
| IdOrder.SortedIds | src/main/java/domain/FinanceTracker.java:157 | Lists every id of the map once, in strictly ascending order. |
| IdOrder.ValuesInOrder | src/main/java/com/logic/TransactionCopier.java:27 | One value per key. The i-th is the value under the i-th smallest key. |
| DomainTransaction.New | src/main/java/domain/Transaction.java:12-21 | The date is truncated to a whole second and the type is kept. A negative sum becomes zero, and a non-negative one is kept. |
| DomainTransaction.NewOfNormal | src/main/java/domain/Transaction.java:12-21 | Constructing from a constructed transaction's own fields gives it back. |
| DomainTransaction.NewIdempotent | src/main/java/domain/Transaction.java:12-21 | Constructing twice is the same as constructing once. |
| DomainTransaction.Copy | src/main/java/domain/Transaction.java:35-37 | The copy is a constructed transaction. For a constructed transaction, the copy has identical date, type and sum. |
| DomainTransaction.ToString | src/main/java/domain/Transaction.java:40-42 | When the date and sum texts are plain tokens, `toString` with spaces replaced by commas splits into exactly the date, the type name and the sum. |
| DomainTransaction.ToStringFields | src/main/java/domain/Transaction.java:40-42 | With spaces replaced by commas, `toString` splits into exactly three fields: date, type name and sum. Each parses back to the transaction's component. |
| TransactionUnit.New | src/main/java/com/FinanceTracker/data/transactionunit/Transaction.java:7-12 | Date and type are stored as given, with no truncation. A negative sum becomes zero, and a non-negative one is kept. |
| TransactionUnit.NewOfComponents | src/main/java/com/FinanceTracker/data/transactionunit/Transaction.java:9-12 | Rebuilding a record from its own components gives the same record. |
| TransactionUnit.ToString | src/main/java/com/FinanceTracker/data/transactionunit/Transaction.java:14-17 | When the date and sum texts are plain tokens, `toString` with spaces replaced by commas splits into exactly the ISO date, the type name and the sum. |
| TransactionUnit.ToStringFields | src/main/java/com/FinanceTracker/data/transactionunit/Transaction.java:14-17 | With spaces replaced by commas, `toString` splits into ISO date, type name and sum, each of which parses back. |
| RuntimeStorage.Add | src/main/java/com/data/transactionsstoring/RuntimeTransactionStorage.java:14-17 | Stores under the current counter. Every other entry is unchanged. Below the largest `int`, the counter advances by one. |
| RuntimeStorage.AddKeepsValid | src/main/java/com/data/transactionsstoring/RuntimeTransactionStorage.java:14-17 | The counter's id is free, so an add overwrites nothing. The ids stay exactly 0 up to the counter. |
| RuntimeStorage.AddAllSpec | src/main/java/com/data/transactionsstoring/RuntimeTransactionStorage.java:11-17 | After n adds the counter has advanced by n. The i-th added transaction sits under the old counter plus i, and earlier entries are unchanged. |
| RuntimeStorage.AddsFromEmpty | src/main/java/com/data/transactionsstoring/RuntimeTransactionStorage.java:11-17 | After n adds to a new store, the ids are exactly 0 to n-1, and id i holds the i-th added transaction. |
| RuntimeStorage.GetById | src/main/java/com/data/transactionsstoring/RuntimeTransactionStorage.java:19-26 | Succeeds exactly for a stored id and returns its transaction. Otherwise it fails with "No transaction with this Id". |
| RuntimeStorage.GetBetween | src/main/java/com/data/transactionsstoring/RuntimeTransactionStorage.java:28-42 | Returns exactly the entries dated strictly between the bounds, under their own ids. It fails with NoTransactions exactly when there are none. |
| FileStorage.Open | src/main/java/com/data/transactionsstoring/FileTransactionStorage.java:21-27 | Succeeds exactly when the file can be created and the created-if-missing file passes every check. An uncreatable path fails with a creation error. |
| FileStorage.Revalidate | src/main/java/com/data/transactionsstoring/FileTransactionStorage.java:31-40 | Passes exactly on a valid file. Every failure is an unchecked error. |
| FileStorage.MaxLeadingId | src/main/java/com/data/transactionsstoring/FileTransactionStorage.java:48 | Succeeds exactly when every line has an `int` first field. It is empty only for no lines, and otherwise returns an id that some line has and that no line exceeds. |
| FileStorage.FindLastFreeId | src/main/java/com/data/transactionsstoring/FileTransactionStorage.java:47-49 | Gives 0 for an empty file. Otherwise it is the largest id plus one in `int` arithmetic, so it exceeds every id while the largest id is below the largest `int`. |
| FileStorage.NextIdWraps | src/main/java/com/data/transactionsstoring/FileTransactionStorage.java:48 | When a line has id 2147483647, the next id wraps to -2147483648. |
| FileStorage.AddedLine | src/main/java/com/data/transactionsstoring/FileTransactionStorage.java:35 | When the date and sum texts are plain tokens, the appended line splits into exactly the id's text, the ISO date, the type name and the sum. |
| FileStorage.Add | src/main/java/com/data/transactionsstoring/FileTransactionStorage.java:29-45 | Opening for append creates a missing file when its directory allows it. Add succeeds exactly when the file opens and the opened file is valid. It then appends exactly one line, keeping all earlier lines; a created file holds just that line, under id 0. Any failure is an unchecked error. |
| FileStorage.AddCreatesMissingFile | src/main/java/com/data/transactionsstoring/FileTransactionStorage.java:30-36 | Adding to a missing `.csv` file whose directory allows creating it yields the file with the one line under id 0. |
| FileStorage.ParseRecord | src/main/java/com/data/transactionsstoring/FileTransactionStorage.java:61-64 | Building a record from fields 1 to 3 fails only with an unchecked error. |
| FileStorage.FindById | src/main/java/com/data/transactionsstoring/FileTransactionStorage.java:58-67 | The reading loop fails only with an unchecked error. |
| FileStorage.GetById | src/main/java/com/data/transactionsstoring/FileTransactionStorage.java:51-80 | It fails only with an unchecked error or "No transaction with this Id". On an invalid file it fails unchecked. |
| FileStorage.ScanBetween | src/main/java/com/data/transactionsstoring/FileTransactionStorage.java:91-100 | The range loop fails only with an unchecked error. |
| FileStorage.GetBetween | src/main/java/com/data/transactionsstoring/FileTransactionStorage.java:82-112 | A success is never empty. A failure is NoTransactions for the bounds or an unchecked error, and an invalid file fails unchecked. |
| FileStorage.FindByIdSpec | src/main/java/com/data/transactionsstoring/FileTransactionStorage.java:58-67 | On a well-formed file the loop finds the id exactly when a line carries it, and returns that line's transaction. |
| FileStorage.GetByIdSpec | src/main/java/com/data/transactionsstoring/FileTransactionStorage.java:51-80 | On a valid file it succeeds exactly when some line carries the id, returning that line's transaction. Otherwise it fails with NoTransactions. |
| FileStorage.ScanBetweenSpec | src/main/java/com/data/transactionsstoring/FileTransactionStorage.java:91-100 | On a well-formed file the loop succeeds. It collects exactly the lines dated strictly between the bounds, under the file's ids. |
| FileStorage.GetBetweenSpec | src/main/java/com/data/transactionsstoring/FileTransactionStorage.java:82-112 | On a valid file it returns exactly the lines dated strictly between the bounds, keyed by the file's ids. It fails with NoTransactions exactly when there are none. |
| FileStorage.AddedLineReadsBack | src/main/java/com/data/transactionsstoring/FileTransactionStorage.java:35 | The appended line is well formed, and it reads back as the id and the transaction it was written from. |
| FileStorage.AppendKeepsWellFormed | src/main/java/com/data/transactionsstoring/FileTransactionStorage.java:34-36 | Appending a well-formed line whose id exceeds every id keeps the file well formed. |
| FileStorage.AddSpec | src/main/java/com/data/transactionsstoring/FileTransactionStorage.java:29-49 | On a valid file whose ids are below the largest `int`, add appends one line under a non-negative id that no line had. The file stays valid. |
| FileStorage.AddThenGetById | src/main/java/com/data/transactionsstoring/FileTransactionStorage.java:29-80 | After an add, the new id reads back as the added transaction. |
| FileStorage.NextIdAfterAppend | src/main/java/com/data/transactionsstoring/FileTransactionStorage.java:48 | After appending a line whose id exceeds every id in the file, the next free id is that id plus one. |
| FileStorage.GetByIdAt | src/main/java/com/data/transactionsstoring/FileTransactionStorage.java:51-80 | On a valid file, the id of any line reads back as that line's record. |
| FileStorage.AddedLineFound | src/main/java/com/data/transactionsstoring/FileTransactionStorage.java:35-80 | On a valid file, a line written for a transaction under an id makes that id read back as the transaction. |
| Validator.CreateFileIfNotExists | src/main/java/com/FinanceTracker/data/transactionsstoring/FileTransactionStorageValidator.java:24-45 | Fails with a creation error exactly when the temporary-file probe fails. Otherwise the file exists, with its old lines or none. |
| Validator.CorrectTypeIsCsvSuffix | src/main/java/com/FinanceTracker/data/transactionsstoring/FileTransactionStorageValidator.java:62-65 | The type check passes exactly for paths that are some stem followed by ".csv". |
| Validator.CheckProperties | src/main/java/com/FinanceTracker/data/transactionsstoring/FileTransactionStorageValidator.java:47-65 | Passes exactly when the file is writable, readable and has a `.csv` path. Otherwise it gives a format error naming which check failed. |
| Validator.CheckLine | src/main/java/com/FinanceTracker/data/transactionsstoring/FileTransactionStorageValidator.java:73-87 | Accepts exactly a well-formed line whose id is unseen. More than four fields, a negative id or a seen id is a format error. An index failure happens only with fewer than four fields. |
| Validator.CheckFrom | src/main/java/com/FinanceTracker/data/transactionsstoring/FileTransactionStorageValidator.java:72-93 | The loop fails only with a format error naming a line, or with an index failure. |
| Validator.CheckValues | src/main/java/com/FinanceTracker/data/transactionsstoring/FileTransactionStorageValidator.java:67-98 | An empty file passes. Failures are only a line-numbered format error or an escaping index failure. |
| Validator.WellFormedLineAccepted | src/main/java/com/FinanceTracker/data/transactionsstoring/FileTransactionStorageValidator.java:78-81 | Every line of a well-formed file is accepted given the ids before it, because accepted ids are distinct and non-negative. |
| Validator.PrefixWellFormed | src/main/java/com/FinanceTracker/data/transactionsstoring/FileTransactionStorageValidator.java:72-90 | Every prefix of a well-formed file is well formed. |
| Validator.CheckFromSpec | src/main/java/com/FinanceTracker/data/transactionsstoring/FileTransactionStorageValidator.java:72-93 | After a well-formed prefix, the loop passes exactly when the whole file is well formed. Otherwise it reports the first line it stops at. |
| Validator.FirstFailureUnique | src/main/java/com/FinanceTracker/data/transactionsstoring/FileTransactionStorageValidator.java:89-93 | Only one line can be the first line the check stops at. |
| Validator.CheckValuesVerdict | src/main/java/com/FinanceTracker/data/transactionsstoring/FileTransactionStorageValidator.java:67-98 | Passes exactly the well-formed files. Otherwise it reports the first failing line: a format error with its 0-based index, or an escaping index failure. |
| Validator.FirstFailureExists | src/main/java/com/FinanceTracker/data/transactionsstoring/FileTransactionStorageValidator.java:72-93 | A file that is not well formed has a first line that the check stops at. |
| Storage.Add | src/main/java/com/data/transactionsstoring/TransactionStorage.java:11 | Memory never fails. A store stays the same kind, and a file keeps its path. Failures are unchecked. |
| Storage.GetById | src/main/java/com/data/transactionsstoring/TransactionStorage.java:13 | Fails only with NoTransactions for the id or an unchecked error. Memory succeeds exactly for stored ids. |
| Storage.GetBetween | src/main/java/com/data/transactionsstoring/TransactionStorage.java:15 | A success is non-empty. A failure is NoTransactions for the bounds or an unchecked error. |
| Storage.GetBetweenInRange | src/main/java/com/data/transactionsstoring/TransactionStorage.java:15 | Either store returns only transactions dated strictly between the bounds. |
| Storage.AddThenGet | src/main/java/com/data/transactionsstoring/TransactionStorage.java:11-13 | For either store, an added transaction reads back under the id that store gave it. |
| Copier.AddEach | src/main/java/com/logic/TransactionCopier.java:27-28 | The loop keeps the target's kind. It never fails into memory, and only fails unchecked otherwise. |
| Copier.CopyById | src/main/java/com/FinanceTracker/logic/TransactionCopier.java:14-19 | A failed lookup propagates and leaves the target unchanged. Into memory, a found transaction is always added. |
| Copier.CopyBetween | src/main/java/com/FinanceTracker/logic/TransactionCopier.java:21-29 | A failed or empty range propagates before any add and leaves the target unchanged. Into memory, a found range is always added. |
| Copier.AddEachIntoMemory | src/main/java/com/logic/TransactionCopier.java:27-28 | Copying into memory is one memory add per transaction, in order. |
| Copier.CopyByIdIntoMemory | src/main/java/com/logic/TransactionCopier.java:17-18 | Into memory, the found transaction is stored once under the target's own counter and reads back unchanged. |
| Copier.CopyByIdIntoFile | src/main/java/com/FinanceTracker/logic/TransactionCopier.java:17-18 | Into a valid file it succeeds and the file stays valid. The transaction reads back under the id the file assigned. |
| Copier.CopyBetweenIntoMemory | src/main/java/com/logic/TransactionCopier.java:25-28 | Into memory, one add per found transaction, under consecutive new ids in ascending source-id order. Earlier entries are kept. |
| Copier.NextIdRoom | src/main/java/com/data/transactionsstoring/FileTransactionStorage.java:48 | If the file's ids leave room for k adds, the next id leaves room for k-1 more. |
| Copier.AddOneToFile | src/main/java/com/data/transactionsstoring/FileTransactionStorage.java:29-45 | One add to a valid file with room succeeds, appends one line, keeps the earlier ones and keeps room for the rest. |
| Copier.AddEachIntoFile | src/main/java/com/FinanceTracker/logic/TransactionCopier.java:27-28 | Into a valid file with room, every add succeeds. The file gains one line per transaction, keeping its old lines and its validity. |
| Copier.AddOneLine | src/main/java/com/data/transactionsstoring/FileTransactionStorage.java:29-48 | One add to a valid file with room appends exactly the line for that transaction under the next free id, and the next free id then goes up by one. |
| Copier.AddEachLines | src/main/java/com/FinanceTracker/logic/TransactionCopier.java:27-28 | Into a valid file with room, the final lines are the old lines followed by the added lines of the transactions, in order, under ids counting up from the file's next free id. |
| Copier.AddEachAppended | src/main/java/com/FinanceTracker/logic/TransactionCopier.java:27-28 | Line `|old| + j` of the final file is the added line of the j-th transaction under the next free id plus j. |
| Copier.AddEachReadsBack | src/main/java/com/FinanceTracker/logic/TransactionCopier.java:27-28 | After adding transactions into a valid file with room, the next free id plus j reads back as the j-th transaction. |
| Copier.NumberedAt | src/main/java/com/data/transactionsstoring/FileTransactionStorage.java:34-36 | The j-th of the lines written one after another from a starting id is the line for the j-th item under the starting id plus j. |
| Copier.AddedLineRead | src/main/java/com/data/transactionsstoring/FileTransactionStorage.java:35 | Under a sound codec, the added line of the j-th transaction is well formed, carries its id and reads back as that transaction. |
| Copier.AddedLinesRead | src/main/java/com/data/transactionsstoring/FileTransactionStorage.java:35 | The same for every added line after the old ones. |
| Copier.EveryLineReads | src/main/java/com/data/transactionsstoring/FileTransactionStorage.java:51-80 | On a valid file, every line's id reads back as that line's record. |
| Copier.ReadsBackAll | src/main/java/com/data/transactionsstoring/FileTransactionStorage.java:51-80 | A valid file holding the added lines of a sequence under consecutive ids yields each transaction under its id. |
| Copier.CopyBetweenIntoFile | src/main/java/com/FinanceTracker/logic/TransactionCopier.java:25-28 | Into a valid file with room, copying succeeds and keeps the old lines and validity. After them come the found transactions in ascending source-id order, each written as the line `addTransaction` builds under consecutive ids from the file's next free id. Each of those ids then reads back as its transaction. |
| CommandManager.EnsureAttached | src/main/java/com/FinanceTracker/logic/CommandManager.java:102-105 | Returns the attached file store, or fails with NotAttached exactly when none is attached. |
| CommandManager.RemapNone | src/main/java/com/FinanceTracker/logic/CommandManager.java:38-41 | Any NoTransactions becomes "There are no transactions.", and other errors pass through. |
| CommandManager.AddTransaction | src/main/java/com/FinanceTracker/logic/CommandManager.java:21-23 | Only memory changes. The clamped record goes under the counter, and other entries stay. |
| CommandManager.GetTransactionById | src/main/java/com/FinanceTracker/logic/CommandManager.java:25-27 | Reads memory only. It succeeds exactly for a stored id. |
| CommandManager.GetTransactionsBetweenDates | src/main/java/com/FinanceTracker/logic/CommandManager.java:29-33 | Reads memory only. It returns exactly the entries strictly between the bounds, or NoTransactions. |
| CommandManager.GetAllTransactions | src/main/java/com/FinanceTracker/logic/CommandManager.java:35-42 | Returns memory entries only. A failure is "There are no transactions.". |
| CommandManager.AddThenGetById | src/main/java/com/FinanceTracker/logic/CommandManager.java:21-27 | A transaction added through the manager reads back by its counter id, with a sum that is never negative. |
| CommandManager.GetAllMissesOnlyExtremes | src/main/java/com/FinanceTracker/logic/CommandManager.java:35-42 | The bounds are exclusive. It returns every transaction not dated exactly MIN or MAX, and fails exactly when all are. |
| CommandManager.AttachFile | src/main/java/com/FinanceTracker/logic/CommandManager.java:44-46 | Succeeds exactly when the store can be constructed, and then replaces any previous file. A failure leaves the manager unchanged. |
| CommandManager.UnattachFile | src/main/java/com/FinanceTracker/logic/CommandManager.java:48-50 | Returns to the no-file state and keeps memory. Every file command then fails with NotAttached. |
| CommandManager.Saved | src/main/java/com/FinanceTracker/logic/CommandManager.java:52-56 | A save leaves memory unchanged and keeps the file the copy produced. |
| CommandManager.Loaded | src/main/java/com/FinanceTracker/logic/CommandManager.java:77-81 | A load leaves the attachment unchanged and keeps the memory the copy produced. |
| CommandManager.SaveById | src/main/java/com/FinanceTracker/logic/CommandManager.java:52-56 | Fails with NotAttached and changes nothing when no file is attached. Memory is never changed. An unknown id changes nothing. |
| CommandManager.SaveBetween | src/main/java/com/FinanceTracker/logic/CommandManager.java:58-64 | Fails with NotAttached when no file is attached. Memory is never changed, and an empty range changes nothing. |
| CommandManager.SaveAll | src/main/java/com/FinanceTracker/logic/CommandManager.java:66-75 | Fails with NotAttached when no file is attached. Memory is never changed. An empty result is "There are no transactions." and changes nothing. |
| CommandManager.LoadById | src/main/java/com/FinanceTracker/logic/CommandManager.java:77-81 | Fails with NotAttached when no file is attached. The attachment never changes, and a failure changes nothing. |
| CommandManager.LoadBetween | src/main/java/com/FinanceTracker/logic/CommandManager.java:83-89 | Fails with NotAttached when no file is attached. The attachment never changes, and a failure changes nothing. |
| CommandManager.LoadAll | src/main/java/com/FinanceTracker/logic/CommandManager.java:91-100 | Fails with NotAttached when no file is attached. The attachment never changes, and a failure changes nothing. Only a NoTransactions failure is remapped to "There are no transactions."; NotAttached and unchecked errors pass through unchanged. |
| CommandManager.SaveByIdSpec | src/main/java/com/FinanceTracker/logic/CommandManager.java:52-56 | Saving a stored id to a ready file succeeds. The file stays valid and yields that transaction under its new id. |
| CommandManager.SaveThenLoadById | src/main/java/com/FinanceTracker/logic/CommandManager.java:52-81 | Saving by id and then loading by the file's id puts an equal transaction into memory under the counter. Earlier entries are kept. |
| CommandManager.LoadAllSpec | src/main/java/com/FinanceTracker/logic/CommandManager.java:91-100 | Loading a non-empty range from the file succeeds. Memory is then the old memory plus the found entries: the j-th smallest file id's transaction goes under the old counter plus j. Memory stays valid and keeps its entries. |
| CommandManager.LoadAllFromEmpty | src/main/java/com/FinanceTracker/logic/CommandManager.java:91-100 | With nothing strictly between MIN and MAX in the file, the load reports "There are no transactions." and changes nothing. |
| CommandManager.SaveAllSpec | src/main/java/com/FinanceTracker/logic/CommandManager.java:66-75 | With room in the file, saving succeeds and keeps the file valid with its old lines. After them come the transactions `getAllTransactions` reports, that is, those in memory not dated exactly MIN or MAX, in ascending id order under consecutive ids from the file's next free id; each reads back under its id. When `getAllTransactions` reports none, it fails with "There are no transactions." and changes nothing. |
| CommandManager.SaveBetweenSpec | src/main/java/com/FinanceTracker/logic/CommandManager.java:58-64 | With room in the file, saving a range succeeds. The file stays valid and gains one line per transaction found, in ascending memory-id order under consecutive ids from its next free id, and each reads back under its id. An empty range fails with NothingBetween and changes nothing. |
| LineLoop.Fold | src/main/java/domain/FinanceTracker.java:125-134 | A reported failing line lies within the lines read. |
| LineLoop.FirstFailure | src/main/java/domain/FinanceTracker.java:125-134 | Every line before the reported one was taken, and that line failed on the state those lines produced. |
| LineLoop.FoldKeeps | src/main/java/domain/FinanceTracker.java:125-134 | Any property that each successful step preserves holds of the loop's final state. |
| Ledger.GetTransactionById | src/main/java/domain/FinanceTracker.java:24-31 | Fails with NoTransactions exactly when the id is absent. Otherwise it returns the stored transaction. |
| Ledger.GetTransactionsBetweenDates | src/main/java/domain/FinanceTracker.java:33-46 | Fails exactly when start is after end. Otherwise it returns exactly the entries strictly between the bounds, possibly none. |
| Ledger.AddTransaction | src/main/java/domain/FinanceTracker.java:48-60 | Fails with InsufficientFunds exactly for an expense above the balance. Otherwise the transaction goes under the counter, other entries stay, and the counter advances. The balance moves by the signed sum and stays non-negative. |
| Ledger.AddKeepsValid | src/main/java/domain/FinanceTracker.java:53-54 | The counter's id is free. An add keeps the ids exactly 0 up to the counter. |
| Ledger.SignedSumRemove | src/main/java/domain/FinanceTracker.java:56-59 | The signed sum does not depend on which entry is taken out first. |
| Ledger.SignedSumAdd | src/main/java/domain/FinanceTracker.java:56-59 | Adding under a fresh key adds the transaction's signed amount. |
| Ledger.AddKeepsConsistent | src/main/java/domain/FinanceTracker.java:48-60 | Over adds alone, the balance stays the signed sum of the stored amounts. |
| Ledger.InitialInvariants | src/main/java/domain/FinanceTracker.java:16-18 | A new ledger is valid, solvent and consistent. |
| Ledger.ParseLine | src/main/java/domain/FinanceTracker.java:126-131 | A line parses exactly when its first three fields parse as date, type and sum. The result is a constructed transaction of that type. |
| Ledger.StepLine | src/main/java/domain/FinanceTracker.java:126-131 | A line is taken exactly when it parses and the ledger accepts the transaction. The result is that add's ledger. |
| Ledger.AddLines | src/main/java/domain/FinanceTracker.java:125-134 | The reading loop reports a line within the file, and a solvent ledger stays solvent. |
| Ledger.Snapshot | src/main/java/domain/FinanceTracker.java:110-117 | Same keys, each value a copy. |
| Ledger.SnapshotOfNormal | src/main/java/domain/FinanceTracker.java:110-117 | The snapshot of constructed transactions equals the map. |
| Ledger.SafelyAdd | src/main/java/domain/FinanceTracker.java:119-144 | It succeeds exactly when the loop reads every line, and then it is the loop's ledger. On failure the map and counter are the saved ones, the balance is the loop's, and the error names the loop's first failing line. The balance stays non-negative. |
| Ledger.LinePasses | src/main/java/domain/FinanceTracker.java:102 | The precheck as written passes a line exactly when it contains a comma. |
| Ledger.CheckSource | src/main/java/domain/FinanceTracker.java:86-108 | Passes exactly for a readable `.csv` file whose every line passes the precheck. A missing file is "doesn't exist", and other failures are format errors. |
| Ledger.AddTransactionsFromFile | src/main/java/domain/FinanceTracker.java:62-71 | A failed check changes nothing. After the checks, it succeeds exactly when the loop reads every line, giving the loop's ledger. A failed read restores the map and counter, keeps the loop's balance and names the loop's first failing line. The balance stays non-negative. |
| Ledger.ReplaceTransactionsWithFileTransactions | src/main/java/domain/FinanceTracker.java:73-84 | A failed check changes nothing. After the checks, it succeeds exactly when the loop from an empty map, counter 0 and the old balance reads every line, giving that loop's ledger. A failure restores the map and counter, keeps the loop's balance and names its first failing line. |
| Ledger.AddLinesFirstFailure | src/main/java/domain/FinanceTracker.java:125-139 | The reported line is the first failure: all earlier lines were added, and that line fails on the ledger they produced. |
| Ledger.AddLinesKeepInvariants | src/main/java/domain/FinanceTracker.java:125-134 | The loop keeps the ids exactly 0 up to the counter, and keeps balance equal to signed sum. A clean run advances the counter by the number of lines. |
| Ledger.StepKeepsInvariants | src/main/java/domain/FinanceTracker.java:131 | One taken line keeps validity and consistency, and advances the counter by one. |
| Ledger.SavedLines | src/main/java/domain/FinanceTracker.java:157-160 | A save writes one line per transaction. |
| Ledger.SaveTransactionsToFile | src/main/java/domain/FinanceTracker.java:146-165 | An empty ledger fails with NoTransactions before any file work. It succeeds exactly when creatable, writable and `.csv`, and then the file holds the saved lines. |
| Ledger.SavedLinesReadBack | src/main/java/domain/FinanceTracker.java:157-160 | Every saved line has three fields, passes the precheck and parses back to its transaction, in ascending id order. |
| Ledger.SavedLineReadsBack | src/main/java/domain/FinanceTracker.java:158 | One saved line has three fields and parses back to its transaction. |
| Ledger.ReplaceSpacesOfSpacedHasComma | src/main/java/domain/FinanceTracker.java:158 | A saved line contains a comma. |
| LedgerFixes.RollbackKeepsBalance | src/main/java/domain/FinanceTracker.java:135-139 | As written, a refused file leaves an income in the balance but not in the map. |
| LedgerFixes.SafelyAddFixed | src/main/java/domain/FinanceTracker.java:119-144 | Corrected: a failure restores the whole saved ledger, balance included. |
| LedgerFixes.AddTransactionsFromFileFixed | src/main/java/domain/FinanceTracker.java:62-71 | Corrected append: a failed check changes nothing. |
| LedgerFixes.AddFromFileFixedKeepsInvariants | src/main/java/domain/FinanceTracker.java:62-71 | Corrected append keeps validity and balance equal to signed sum, and a failure leaves the ledger exactly as it was. |
| LedgerFixes.ReplaceKeepsBalance | src/main/java/domain/FinanceTracker.java:80-81 | As written, a replace keeps the old balance, which then differs from the new map's signed sum. |
| LedgerFixes.ReplaceFixed | src/main/java/domain/FinanceTracker.java:73-84 | Corrected replace: a failed check changes nothing. |
| LedgerFixes.ReplaceFixedKeepsInvariants | src/main/java/domain/FinanceTracker.java:73-84 | Corrected replace ends valid and with balance equal to signed sum, under ids 0 upward. A failure leaves the ledger as it was. |
| LedgerFixes.PrecheckAcceptsTwoFields | src/main/java/domain/FinanceTracker.java:102 | As written, "a,b" passes the three-value precheck though it has two fields. |
| LedgerFixes.CheckSourceFixed | src/main/java/domain/FinanceTracker.java:100-108 | Corrected precheck: passes exactly when every line splits into three fields, and reports the line-count error exactly otherwise. |
| LedgerFixes.SavedLinesPassFixed | src/main/java/domain/FinanceTracker.java:157-160 | Every line a save writes passes the corrected precheck. |

## Left out

- User interfaces and entry points: `UserInterface.java`, `FinanceTrackerUserInterface.java` and the three `Program.java` files. They are console menu loops.
- `InputConverter.java`: thin wrappers over library parsers.
- Filesystem effects: the temporary-file probe, creation, and the exists/readable/writable answers are fields of `Files.FileState`. The file's contents are its lines.
  - Reader and writer plumbing is not modelled.
  - An `IOException` where the code says it cannot happen becomes an unchecked `UnexpectedIo`.
- Writing over an existing file in `saveTransactionsToFile` is modelled as replacing its lines. Partial writes are not modelled.
- `LocalDateTime`: the calendar and the text forms are not modelled. A date is an integer count of nanoseconds within `LocalDateTime.MIN` and `MAX`.
- Text forms of dates and amounts: these are the functions of a `Text.Codec` passed as a parameter. `Text.Sound` assumes the library's round trips rather than proving them for Java's own formats.
- `BigDecimal`: a value is its unscaled integer and scale, and only comparison, addition and subtraction are used. The ledger's balance is kept as its exact `real` value, so the balance's scale is not modelled.
- Text: `Integer.parseInt` is modelled for ASCII digits only, and `valueOf` only for the exact constant names.
- The ledger's counter is a `static` field shared by all ledgers. The model has one ledger and keeps the counter in its state, so sharing across instances is not modelled.
- Files edited by another process while an operation runs are not modelled. Each operation sees one file state.
- `HashMap` iteration order is modelled as ascending ids. Java's order depends on the table's capacity and differs for larger ids. The chosen order fixes the order of saved lines and of the copier's adds.
- The `TransactionStorage` interface is a datatype with one constructor per store, and each operation dispatches on it.
- The file that a failed `attachFile` may still create is not kept. A failed attach returns the manager unchanged, with no file state.
- `com/FinanceTracker/data/transactionsstoring/FileTransactionStorage.java` and `com/FinanceTracker/data/transactionsstoring/RuntimeTransactionStorage.java` are not part of this model. The command manager uses the `com/data` stores in their place.
- The validator of the `com/data` tree is not part of this model. The `com/FinanceTracker` validator is used in its place.
- `com/data/transactionunit/Transaction.java` is not part of this model. The `com/FinanceTracker` record is used in its place.
- Exception messages are modelled by which exception is thrown and the value it names, not by their text.
- RuntimeStorage.Add: the counter's wrap-around from the largest `int` is modelled, but the freshness and "nothing overwritten" results are stated only while the counter is below the largest `int`.
- Ledger.AddTransaction: the counter's wrap-around is modelled, but the counter's advance is stated only while it is below the largest `int`.
- Ledger.AddLinesKeepInvariants: stated only for files whose line count fits below the largest `int` from the current counter.
- FileStorage.FindLastFreeId: the "exceeds every id" result is stated only while every id is below the largest `int`. `FileStorage.NextIdWraps` states the wrap itself.
- FileStorage.Add: a file is modelled as a sequence of lines, each taken to end with a line terminator. `println` appends after the last byte, so on a file whose last line has no terminator the new text joins that line into one seven-field line, and the file fails validation afterwards. The model cannot represent that file, so `FileStorage.AddSpec`, the copy lemmas and the save lemmas do not cover it.
- FileStorage.Add: when the append creates a missing file and then fails validation, the created empty file is not kept; the failure returns no file state.
- FileStorage.GetById: its contract gives only the error shapes. `FileStorage.GetByIdSpec` states the result on a valid file.
- FileStorage.GetBetween: its contract gives only the error shapes. `FileStorage.GetBetweenSpec` states the result on a valid file.
- Ledger.SavedLines: its contract gives only the line count. `Ledger.SavedLinesReadBack` states each line's content.

## Findings

| source | as written | input that shows it | evidently intended | confidence | as-written member | corrected member |
|---|---|---|---|---|---|---|
| src/main/java/domain/FinanceTracker.java:135-139 | A failed bulk load restores the map and the counter, but not the balance. | An empty ledger loads the file "D,INCOME,1" / "x,y". The first line adds an income of 1, and the second fails. The map is empty again, but the balance stays 1. | A refused file leaves the ledger exactly as it was, so the balance stays the signed sum of the stored transactions. | not executed | LedgerFixes.RollbackKeepsBalance | LedgerFixes.AddFromFileFixedKeepsInvariants |
| src/main/java/domain/FinanceTracker.java:80-81 | Replace clears the map and the counter, but not the balance. | A ledger holds one income of 1 and is replaced by the file "D,EXPENSE,1". The result is that expense alone with a balance of 0, when the signed sum is -1. The expense was checked against the old balance. | Replace starts from an empty ledger with balance 0, and a failure puts the old ledger back. | not executed | LedgerFixes.ReplaceKeepsBalance | LedgerFixes.ReplaceFixedKeepsInvariants |
| src/main/java/domain/FinanceTracker.java:102 | The check that lines hold three values accepts any line that contains a comma. | The line "a,b" passes the precheck, though it splits into two fields. | A line passes only when it splits into exactly three fields. | not executed | LedgerFixes.PrecheckAcceptsTwoFields | LedgerFixes.CheckSourceFixed |

In the findings' examples, the date text "D" stands for the epoch and the amount text "1" for one (`LedgerFixes.Demo`).
