/** `FileTransactionStorageValidator`: the checks a transactions file must
    pass before the file store reads or writes it. */
module Validator {
  import opened Outcomes
  import opened JavaTypes
  import opened Text
  import opened Errors
  import opened Files

  /** `createFileIfNotExists`: the temporary-file probe in the parent
      directory, then creation of a missing file. */
  function CreateFileIfNotExists(f: FileState): (r: Result<FileState, Error>)
    ensures r.Err? <==> !f.creatable
    ensures r.Err? ==> r.error == FileCreation
    ensures r.Ok? ==> r.value.present && r.value.lines == (if f.present then f.lines else [])
  {
    if !f.creatable then Err(FileCreation) else Ok(CreateIfMissing(f))
  }

  /** `ensureFileHasCorrectType`. */
  predicate HasCorrectType(path: string)
  {
    EndsWith(path, ".csv")
  }

  /** The type check passes exactly for the paths that are some stem followed
      by ".csv". */
  lemma CorrectTypeIsCsvSuffix(path: string)
    ensures HasCorrectType(path) <==> exists stem :: path == stem + ".csv"
  {
    EndsWithStem(path, ".csv");
  }

  /** `ensureFileHasCorrectProperties`: writable, then readable, then the type. */
  function CheckProperties(path: string, f: FileState): (r: Result<(), Error>)
    ensures r.Ok? <==> CanWrite(f) && CanRead(f) && HasCorrectType(path)
    ensures r.Err? ==> r.error.FileFormat? && r.error.problem in {NotWritable, NotReadable, NotCsv}
  {
    if !CanWrite(f) then Err(FileFormat(NotWritable))
    else if !CanRead(f) then Err(FileFormat(NotReadable))
    else if !HasCorrectType(path) then Err(FileFormat(NotCsv))
    else Ok(())
  }

  // ---------------------------------------------------------------------------
  // Line values

  /** The id a line starts with, when its first field parses as an `int`. */
  function LeadingId(line: string): Option<Int32>
  {
    var fields := Split(line);
    if |fields| == 0 then None else ParseInt(fields[0])
  }

  /** A line the value check accepts on its own: exactly four fields, a
      non-negative id, a date, a type name and an amount. */
  predicate LineWellFormed(c: Codec, line: string)
  {
    var f := Split(line);
    && |f| == 4
    && ParseInt(f[0]).Some? && ParseInt(f[0]).value >= 0
    && c.parseDate(f[1]).Some?
    && ValueOf(f[2]).Some?
    && c.parseAmount(f[3]).Some?
  }

  /** A file the value check accepts: every line well formed, and no id on
      two lines. */
  ghost predicate WellFormed(c: Codec, lines: seq<string>)
  {
    && (forall i :: 0 <= i < |lines| ==> LineWellFormed(c, lines[i]))
    && (forall i, j :: 0 <= i < j < |lines| ==> LeadingId(lines[i]) != LeadingId(lines[j]))
  }

  /** The ids the check has collected after reading `lines`. */
  function IdsOf(lines: seq<string>): set<Int32>
  {
    if |lines| == 0 then {}
    else
      var last := LeadingId(lines[|lines| - 1]);
      IdsOf(lines[..|lines| - 1]) + (if last.Some? then {last.value} else {})
  }

  lemma {:induction false} IdsOfMembers(lines: seq<string>, x: Int32)
    ensures x in IdsOf(lines) <==> exists j :: 0 <= j < |lines| && LeadingId(lines[j]) == Some(x)
    decreases |lines|
  {
    if |lines| > 0 {
      var init := lines[..|lines| - 1];
      IdsOfMembers(init, x);
      assert forall j :: 0 <= j < |init| ==> init[j] == lines[j];
    }
  }

  /** How one line fares: accepted with its id, a format error, or an index
      failure that no catch clause handles. */
  datatype LineVerdict = LineOk(id: Int32) | LineBad | LineShort

  /** One pass of the reading loop of `ensureFileHasCorrectValues`, with the
      ids of the earlier lines in `seen`. The checks run in the code's order,
      so a field is indexed only after the fields before it passed. */
  function CheckLine(c: Codec, line: string, seen: set<Int32>): (r: LineVerdict)
    ensures |Split(line)| > 4 ==> r == LineBad
    ensures r == LineShort ==> |Split(line)| < 4
    ensures r.LineOk? <==> LineWellFormed(c, line) && LeadingId(line).value !in seen
    ensures r.LineOk? ==> LeadingId(line) == Some(r.id)
    ensures (&& LeadingId(line).Some?
             && (LeadingId(line).value < 0 || LeadingId(line).value in seen)
             && |Split(line)| <= 4) ==> r == LineBad
  {
    var f := Split(line);
    if |f| > 4 then LineBad
    else if |f| < 1 then LineShort
    else match ParseInt(f[0])
      case None => LineBad
      case Some(id) =>
        if id < 0 || id in seen then LineBad
        else if |f| < 2 then LineShort
        else if c.parseDate(f[1]).None? then LineBad
        else if |f| < 3 then LineShort
        else if ValueOf(f[2]).None? then LineBad
        else if |f| < 4 then LineShort
        else if c.parseAmount(f[3]).None? then LineBad
        else LineOk(id)
  }

  /** The reading loop from line `i` on. A format error names the line it
      occurred on; an index failure escapes the `catch` and carries no line. */
  function CheckFrom(c: Codec, lines: seq<string>, i: nat, seen: set<Int32>): (r: Result<(), Error>)
    requires i <= |lines|
    ensures r.Err? ==> (r.error.FileFormat? && r.error.problem.BadValuesOnLine?) || r.error == Runtime(IndexOutOfBounds)
    decreases |lines| - i
  {
    if i == |lines| then Ok(())
    else match CheckLine(c, lines[i], seen)
      case LineOk(id) => CheckFrom(c, lines, i + 1, seen + {id})
      case LineBad => Err(FileFormat(BadValuesOnLine(i)))
      case LineShort => Err(Runtime(IndexOutOfBounds))
  }

  /** `ensureFileHasCorrectValues`. */
  function CheckValues(c: Codec, lines: seq<string>): (r: Result<(), Error>)
    ensures lines == [] ==> r.Ok?
    ensures r.Err? ==> (r.error.FileFormat? && r.error.problem.BadValuesOnLine?) || r.error == Runtime(IndexOutOfBounds)
  {
    CheckFrom(c, lines, 0, {})
  }

  /** Line `n` is the first line the check stops at. */
  ghost predicate FirstFailure(c: Codec, lines: seq<string>, n: int)
  {
    && 0 <= n < |lines|
    && WellFormed(c, lines[..n])
    && !CheckLine(c, lines[n], IdsOf(lines[..n])).LineOk?
  }

  /** What the check reports when it stops at line `n`. */
  function FailureAt(c: Codec, lines: seq<string>, n: nat): Result<(), Error>
    requires n < |lines|
  {
    if CheckLine(c, lines[n], IdsOf(lines[..n])) == LineBad
    then Err(FileFormat(BadValuesOnLine(n)))
    else Err(Runtime(IndexOutOfBounds))
  }

  lemma ExtendAccepted(c: Codec, lines: seq<string>, i: nat)
    requires i < |lines|
    requires WellFormed(c, lines[..i])
    requires CheckLine(c, lines[i], IdsOf(lines[..i])).LineOk?
    ensures WellFormed(c, lines[..i + 1])
  {
    var pre := lines[..i];
    var id := CheckLine(c, lines[i], IdsOf(pre)).id;
    IdsOfMembers(pre, id);
    AppendWellFormed(c, pre, lines[i]);
    assert lines[..i + 1] == pre + [lines[i]];
  }

  /** Appending a well-formed line whose id no line has keeps a file well
      formed. */
  lemma AppendWellFormed(c: Codec, lines: seq<string>, line: string)
    requires WellFormed(c, lines) && LineWellFormed(c, line)
    requires forall j :: 0 <= j < |lines| ==> LeadingId(lines[j]) != LeadingId(line)
    ensures WellFormed(c, lines + [line])
  {
    var next := lines + [line];
    assert forall j :: 0 <= j < |lines| ==> next[j] == lines[j];
    assert next[|lines|] == line;
  }

  /** Every line of a well-formed file is accepted given the ids before it. */
  lemma WellFormedLineAccepted(c: Codec, lines: seq<string>, i: nat)
    requires i < |lines|
    requires WellFormed(c, lines)
    ensures CheckLine(c, lines[i], IdsOf(lines[..i])).LineOk?
  {
    var pre := lines[..i];
    var id := LeadingId(lines[i]).value;
    forall j | 0 <= j < |pre|
      ensures LeadingId(pre[j]) != Some(id)
    {
      assert pre[j] == lines[j];
    }
    IdsOfMembers(pre, id);
  }

  lemma PrefixWellFormed(c: Codec, lines: seq<string>, k: nat)
    requires k <= |lines|
    requires WellFormed(c, lines)
    ensures WellFormed(c, lines[..k])
  {
    assert forall j :: 0 <= j < k ==> lines[..k][j] == lines[j];
  }

  lemma {:induction false} CheckFromSpec(c: Codec, lines: seq<string>, i: nat)
    requires i <= |lines|
    requires WellFormed(c, lines[..i])
    ensures CheckFrom(c, lines, i, IdsOf(lines[..i])).Ok? <==> WellFormed(c, lines)
    ensures CheckFrom(c, lines, i, IdsOf(lines[..i])).Err? ==>
              exists n :: i <= n < |lines| && FirstFailure(c, lines, n)
                          && CheckFrom(c, lines, i, IdsOf(lines[..i])) == FailureAt(c, lines, n)
    decreases |lines| - i
  {
    if i == |lines| {
      assert lines[..i] == lines;
    } else if CheckLine(c, lines[i], IdsOf(lines[..i])).LineOk? {
      AcceptedStep(c, lines, i);
      CheckFromSpec(c, lines, i + 1);
    } else {
      RejectedStep(c, lines, i);
    }
  }

  /** An accepted line extends the well-formed prefix, and the check goes
      on with its id among the seen ones. */
  lemma AcceptedStep(c: Codec, lines: seq<string>, i: nat)
    requires i < |lines|
    requires WellFormed(c, lines[..i])
    requires CheckLine(c, lines[i], IdsOf(lines[..i])).LineOk?
    ensures WellFormed(c, lines[..i + 1])
    ensures CheckFrom(c, lines, i, IdsOf(lines[..i])) == CheckFrom(c, lines, i + 1, IdsOf(lines[..i + 1]))
  {
    var v := CheckLine(c, lines[i], IdsOf(lines[..i]));
    ExtendAccepted(c, lines, i);
    var next := lines[..i + 1];
    assert next[..i] == lines[..i];
    assert IdsOf(next) == IdsOf(lines[..i]) + {v.id};
  }

  /** A rejected line after a well-formed prefix is the first failure, the
      check reports it, and the file is not well formed. */
  lemma RejectedStep(c: Codec, lines: seq<string>, i: nat)
    requires i < |lines|
    requires WellFormed(c, lines[..i])
    requires !CheckLine(c, lines[i], IdsOf(lines[..i])).LineOk?
    ensures FirstFailure(c, lines, i)
    ensures CheckFrom(c, lines, i, IdsOf(lines[..i])) == FailureAt(c, lines, i)
    ensures !WellFormed(c, lines)
  {
    if WellFormed(c, lines) {
      WellFormedLineAccepted(c, lines, i);
      assert false;
    }
  }

  /** Two lines cannot both be the first the check stops at. */
  lemma FirstFailureUnique(c: Codec, lines: seq<string>, n: int, m: int)
    requires FirstFailure(c, lines, n) && FirstFailure(c, lines, m)
    ensures n == m
  {
    if n < m {
      assert lines[..m][..n] == lines[..n];
      WellFormedLineAccepted(c, lines[..m], n);
      assert false;
    } else if m < n {
      assert lines[..n][..m] == lines[..m];
      WellFormedLineAccepted(c, lines[..n], m);
      assert false;
    }
  }

  /** The value check accepts exactly the well-formed files, and otherwise
      reports the first line it stops at: a format error naming that line's
      0-based index, or an index failure that is not a format error. */
  lemma CheckValuesVerdict(c: Codec, lines: seq<string>)
    ensures CheckValues(c, lines).Ok? <==> WellFormed(c, lines)
    ensures forall n :: FirstFailure(c, lines, n) ==> CheckValues(c, lines) == FailureAt(c, lines, n)
  {
    assert lines[..0] == [];
    CheckFromSpec(c, lines, 0);
    forall n | FirstFailure(c, lines, n)
      ensures CheckValues(c, lines) == FailureAt(c, lines, n)
    {
      if WellFormed(c, lines) {
        WellFormedLineAccepted(c, lines, n);
        assert false;
      }
      var m :| 0 <= m < |lines| && FirstFailure(c, lines, m) && CheckValues(c, lines) == FailureAt(c, lines, m);
      FirstFailureUnique(c, lines, n, m);
    }
  }

  /** A file that is not well formed has a first line the check stops at. */
  lemma FirstFailureExists(c: Codec, lines: seq<string>)
    requires !WellFormed(c, lines)
    ensures exists n :: FirstFailure(c, lines, n)
  {
    assert lines[..0] == [];
    CheckFromSpec(c, lines, 0);
  }
}
