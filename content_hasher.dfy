/**
 * `calculate_file_hash`: hash a file by reading it through a 64 KiB buffer
 * and feeding each chunk read to an incremental hasher until a read returns
 * zero bytes. Both source files define it with the same code.
 */
module ContentHasher {
  import opened Wrappers
  import opened Hashing
  import opened FileSystem

  /** The concatenation of chunks, in order. */
  function Concat(chunks: seq<seq<byte>>): seq<byte> {
    if chunks == [] then [] else Concat(chunks[..|chunks| - 1]) + chunks[|chunks| - 1]
  }

  /**
   * What `calculate_file_hash` returns for the file a path resolves to:
   * an open failure (also when the path no longer resolves to a regular
   * file), a read failure, or the digest of the file's bytes.
   */
  function FileDigest(target: Option<FileData>, sha: Sha256): (r: Result<Digest, IoError>)
    ensures target.None? ==> r == Err(OpenFailed)
    ensures r.Err? ==> r.error == OpenFailed || r.error == ReadFailed
    ensures r.Ok? ==> target.Some? && r.value == sha(target.value.bytes)
  {
    if target.None? || !target.value.opens then Err(OpenFailed)
    else if !ReadsToEnd(|target.value.bytes|, target.value.steps, BufferSize) then Err(ReadFailed)
    else Ok(sha(target.value.bytes))
  }

  /** A file that opens and whose reads never fail hashes to the digest of its bytes. */
  lemma ReadableFileDigest(f: FileData, sha: Sha256)
    requires f.opens
    requires forall i | 0 <= i < |f.steps| :: f.steps[i].Deliver?
    ensures FileDigest(Some(f), sha) == Ok(sha(f.bytes))
  {
    NoFailureReadsToEnd(|f.bytes|, f.steps, BufferSize);
  }

  /** Every chunk is non-empty and fits the 64 KiB buffer. */
  predicate Bounded(chunks: seq<seq<byte>>) {
    forall i | 0 <= i < |chunks| :: 0 < |chunks[i]| <= BufferSize
  }

  lemma BoundedSnoc(chunks: seq<seq<byte>>, c: seq<byte>)
    requires Bounded(chunks) && 0 < |c| <= BufferSize
    ensures Bounded(chunks + [c])
  {
    var all := chunks + [c];
    forall i | 0 <= i < |all| ensures 0 < |all[i]| <= BufferSize {
      if i < |chunks| { assert all[i] == chunks[i]; }
    }
  }

  lemma ConcatSnoc(chunks: seq<seq<byte>>, c: seq<byte>)
    ensures Concat(chunks + [c]) == Concat(chunks) + c
  {
    assert (chunks + [c])[..|chunks|] == chunks;
  }

  lemma PrefixExtend(bytes: seq<byte>, p: nat, q: nat)
    requires p <= q <= |bytes|
    ensures bytes[..q] == bytes[..p] + bytes[p..q]
  {
  }

  /** One read of the schedule: a failure, the end of the file, or `k` more bytes. */
  lemma ReadStep(remaining: nat, steps: seq<ReadStep>, cap: nat)
    requires cap > 0
    ensures |steps| > 0 && steps[0].Fail? ==> !ReadsToEnd(remaining, steps, cap)
    ensures !(|steps| > 0 && steps[0].Fail?) && Grant(steps, remaining, cap) == 0 ==> ReadsToEnd(remaining, steps, cap)
    ensures !(|steps| > 0 && steps[0].Fail?) && Grant(steps, remaining, cap) > 0 ==>
              ReadsToEnd(remaining, steps, cap) == ReadsToEnd(remaining - Grant(steps, remaining, cap), Rest(steps), cap)
  {
  }

  /**
   * The read loop. On success the chunks fed to the hasher are non-empty, at
   * most 64 KiB each, and concatenate to exactly the file's bytes.
   */
  method CalculateFileHash(target: Option<FileData>, sha: Sha256)
    returns (r: Result<Digest, IoError>, ghost chunks: seq<seq<byte>>)
    ensures r == FileDigest(target, sha)
    ensures r.Ok? ==> target.Some? && Concat(chunks) == target.value.bytes
    ensures Bounded(chunks)
  {
    chunks := [];
    if target.None? || !target.value.opens {
      return Err(OpenFailed), chunks;
    }
    var file := new FileReader.Open(target.value);
    var hasher := new Hasher(sha);
    var buffer := new byte[BufferSize];
    ghost var bytes := target.value.bytes;
    ghost var goal := ReadsToEnd(|bytes|, target.value.steps, BufferSize);
    ghost var left: nat, plan := |bytes|, target.value.steps;
    while true
      invariant file.Valid() && file.data == target.value
      invariant hasher.sha == sha
      invariant left == |bytes| - file.pos && plan == file.steps
      invariant hasher.fed == bytes[..file.pos]
      invariant Concat(chunks) == hasher.fed
      invariant Bounded(chunks)
      invariant ReadsToEnd(left, plan, BufferSize) == goal
      decreases left
    {
      ghost var pos0 := file.pos;
      ReadStep(left, plan, BufferSize);
      var n := file.Read(buffer);
      if n.Err? {
        return Err(n.error), chunks;
      }
      ghost var k := Grant(plan, left, BufferSize);
      assert n.value == k;
      if n.value == 0 {
        break;
      }
      left, plan := left - k, Rest(plan);
      var chunk := buffer[..n.value];
      PrefixExtend(bytes, pos0, file.pos);
      ConcatSnoc(chunks, chunk);
      BoundedSnoc(chunks, chunk);
      hasher.Update(chunk);
      chunks := chunks + [chunk];
    }
    assert bytes[..file.pos] == bytes;
    var d := hasher.Finalize();
    return Ok(d), chunks;
  }
}
