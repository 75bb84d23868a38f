/**
 * The file system as the folder digest sees it: a tree of named entries, the
 * entries a directory walk reports, and a file handle whose `read` returns
 * between 1 and buffer-size bytes per call (0 only at end of file) or fails.
 */
module FileSystem {
  import opened Wrappers
  import opened Hashing

  /** A file name, as the bytes `to_string_lossy` yields for it. */
  type Name = seq<byte>

  /** A path as its sequence of components. */
  type Path = seq<Name>

  /** The I/O failures that abort a folder digest. */
  datatype IoError = MetadataFailed | OpenFailed | ReadFailed

  /**
   * What one `read` call does: deliver up to `n` bytes (at least one, when
   * bytes remain) or fail.
   */
  datatype ReadStep = Deliver(n: nat) | Fail

  /**
   * A regular file: its bytes, whether `File::open` succeeds on it, and the
   * behaviour of successive `read` calls on it; once `steps` runs out every
   * read fills the whole buffer.
   */
  datatype FileData = FileData(bytes: seq<byte>, opens: bool, steps: seq<ReadStep>)

  /**
   * A directory tree. A directory's `children` are in the order the operating
   * system lists them. `Symlink` holds the regular file its target resolves
   * to, if any. `Unreadable` is an entry the walker reports as an error;
   * `Vanished` is one it lists but whose metadata can no longer be queried.
   */
  datatype Node =
    | File(name: Name, data: FileData)
    | Dir(name: Name, children: seq<Node>)
    | Symlink(name: Name, target: Option<FileData>)
    | Special(name: Name)
    | Unreadable(name: Name)
    | Vanished(name: Name)

  /** The file type read from an entry's own metadata (links are not followed). */
  datatype FileType = RegularFile | Directory | SymbolicLink | OtherType

  /**
   * A walk entry: its path, its own metadata (`None` when the query fails),
   * and the regular file its path resolves to when links are followed (what
   * `path.is_file()` tests and `File::open(path)` opens).
   */
  datatype Entry = Entry(path: Path, meta: Option<FileType>, resolved: Option<FileData>)

  datatype WalkError = WalkError

  /** One item of a directory walk. */
  type WalkItem = Result<Entry, WalkError>

  /** The size of the read buffer of `calculate_file_hash`: 64 KiB. */
  const BufferSize: nat := 65536

  function Min(a: nat, b: nat): nat {
    if a <= b then a else b
  }

  /**
   * How many bytes the next successful `read` delivers into a buffer of
   * `cap` bytes when `remaining` bytes are left.
   */
  function Grant(steps: seq<ReadStep>, remaining: nat, cap: nat): (k: nat)
    ensures k <= remaining && k <= cap
    ensures k == 0 <==> remaining == 0 || cap == 0
  {
    var want := if |steps| > 0 && steps[0].Deliver? && steps[0].n > 0 then steps[0].n else cap;
    Min(want, Min(cap, remaining))
  }

  /** The steps left after one `read` call. */
  function Rest(steps: seq<ReadStep>): seq<ReadStep> {
    if |steps| > 0 then steps[1..] else []
  }

  /**
   * Whether repeated reads, with `remaining` bytes left, reach the end of the
   * file (a zero-length read) before any read fails.
   */
  predicate ReadsToEnd(remaining: nat, steps: seq<ReadStep>, cap: nat)
    requires cap > 0
    decreases remaining
  {
    if |steps| > 0 && steps[0].Fail? then false
    else
      var k := Grant(steps, remaining, cap);
      k == 0 || ReadsToEnd(remaining - k, Rest(steps), cap)
  }

  /** A file none of whose reads fail is read to its end. */
  lemma {:induction false} NoFailureReadsToEnd(remaining: nat, steps: seq<ReadStep>, cap: nat)
    requires cap > 0
    requires forall i | 0 <= i < |steps| :: steps[i].Deliver?
    ensures ReadsToEnd(remaining, steps, cap)
  {
    var k := Grant(steps, remaining, cap);
    if k > 0 {
      NoFailureReadsToEnd(remaining - k, Rest(steps), cap);
    }
  }

  /** An open file handle. */
  class FileReader {
    const data: FileData
    var pos: nat
    var steps: seq<ReadStep>

    ghost predicate Valid()
      reads this
    {
      pos <= |data.bytes|
    }

    /** `File::open` on a file that opens. */
    constructor Open(d: FileData)
      requires d.opens
      ensures Valid() && data == d && pos == 0 && steps == d.steps
    {
      data := d;
      pos := 0;
      steps := d.steps;
    }

    /**
     * `read(&mut buf)`: fails, or copies the next `n` bytes of the file into
     * the front of `buf`, where `n` is 0 exactly at end of file.
     */
    method Read(buf: array<byte>) returns (r: Result<nat, IoError>)
      requires Valid()
      modifies this, buf
      ensures Valid()
      ensures steps == Rest(old(steps))
      ensures r.Err? <==> |old(steps)| > 0 && old(steps)[0].Fail?
      ensures r.Err? ==> r.error == ReadFailed && pos == old(pos) && buf[..] == old(buf[..])
      ensures r.Ok? ==> && r.value == Grant(old(steps), |data.bytes| - old(pos), buf.Length)
                        && pos == old(pos) + r.value
                        && buf[..r.value] == data.bytes[old(pos)..pos]
    {
      if |steps| > 0 && steps[0].Fail? {
        steps := steps[1..];
        return Err(ReadFailed);
      }
      var k := Grant(steps, |data.bytes| - pos, buf.Length);
      forall i | 0 <= i < k {
        buf[i] := data.bytes[pos + i];
      }
      pos := pos + k;
      steps := Rest(steps);
      return Ok(k);
    }
  }
}
