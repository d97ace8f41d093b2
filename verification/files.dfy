/** What the model knows of one file on disk: the answers of the filesystem
    probes the code makes, and its lines as `BufferedReader.readLine` yields
    them. */
module Files {

  datatype FileState = FileState(
    creatable: bool,   // a temporary file can be created in the parent directory
    present: bool,
    readable: bool,
    writable: bool,
    lines: seq<string>)

  /** `Files.isReadable`: false for a missing file. */
  predicate CanRead(f: FileState)
  {
    f.present && f.readable
  }

  /** `Files.isWritable`: false for a missing file. */
  predicate CanWrite(f: FileState)
  {
    f.present && f.writable
  }

  /** `Files.createFile` when `Files.notExists`: a new file has no lines. */
  function CreateIfMissing(f: FileState): (r: FileState)
    ensures r.present
    ensures f.present ==> r == f
    ensures !f.present ==> r.lines == []
  {
    if f.present then f else f.(present := true, lines := [])
  }
}
