/**
 * What a folder-digest run feeds into its running hasher: the bytes fed, in
 * order, and the I/O error that stopped the run early, if one did.
 */
module Streams {
  import opened Wrappers
  import opened Hashing
  import opened FileSystem

  datatype Feed = Feed(stream: seq<byte>, abort: Option<IoError>)

  /** Bytes fed without an abort. */
  function Fed(bytes: seq<byte>): Feed {
    Feed(bytes, None)
  }

  /** Sequencing: `b` runs only if `a` did not abort. */
  function Then(a: Feed, b: Feed): Feed {
    if a.abort.Some? then a else Feed(a.stream + b.stream, b.abort)
  }

  /** A step that feeds nothing and does not abort changes nothing. */
  lemma ThenNothing(b: Feed)
    ensures Then(Fed([]), b) == b
  {
    assert [] + b.stream == b.stream;
  }

  lemma ThenAssociative(a: Feed, b: Feed, c: Feed)
    ensures Then(Then(a, b), c) == Then(a, Then(b, c))
  {
  }

  /**
   * One more step after the bytes `fed`: when the step does not abort the
   * run goes on from `fed` and the step's bytes; when it does, the run ends
   * there with the step's error.
   */
  lemma FedThen(fed: seq<byte>, step: Feed, later: Feed)
    ensures step.abort.None? ==> Then(Fed(fed), Then(step, later)) == Then(Fed(fed + step.stream), later)
    ensures step.abort.Some? ==> Then(Fed(fed), Then(step, later)) == Feed(fed + step.stream, step.abort)
  {
    if step.abort.None? {
      assert fed + (step.stream + later.stream) == fed + step.stream + later.stream;
    }
  }

  /**
   * The value a run returns: the error that aborted it, or the lowercase hex
   * text of the digest of everything fed.
   */
  function Finish(f: Feed, sha: Sha256): (r: Result<string, IoError>)
    ensures r.Err? <==> f.abort.Some?
    ensures r.Err? ==> r.error == f.abort.value
    ensures r.Ok? ==> |r.value| == 64 && forall i | 0 <= i < 64 :: IsLowerHex(r.value[i])
  {
    if f.abort.Some? then Err(f.abort.value) else Ok(HexEncode(sha(f.stream)))
  }
}
