/**
 * How the sorted digest of `src/main.rs` and the legacy digest of
 * `src/hash_calc.rs` relate: where they treat entries differently, and when
 * they feed the same bytes.
 */
module Variants {
  import opened Wrappers
  import opened Hashing
  import opened FileSystem
  import opened WalkDir
  import opened ContentHasher
  import opened Streams
  import FolderHash
  import HashCalc

  /**
   * A link to a readable regular file: the sorted variant reads the link's
   * own metadata and skips it, the legacy variant follows it and hashes the
   * target under the link's name.
   */
  lemma SymlinkTreatment(p: Path, target: FileData, base: Path, salt: seq<byte>, sha: Sha256, h: Digest)
    requires |p| > 0 && FileDigest(Some(target), sha) == Ok(h)
    ensures var item := Ok(Entry(p, Some(SymbolicLink), Some(target)));
            && FolderHash.EntryFeed(item, base, salt, sha) == Fed([])
            && HashCalc.EntryFeed(item, sha) == Fed(p[|p| - 1] + h)
  {
  }

  /**
   * An entry whose metadata cannot be read: the sorted variant aborts with
   * the error, the legacy variant (`is_file` is false) goes on.
   */
  lemma VanishedTreatment(p: Path, base: Path, salt: seq<byte>, sha: Sha256)
    ensures var item := Ok(Entry(p, None, None));
            && FolderHash.EntryFeed(item, base, salt, sha) == Feed([], Some(MetadataFailed))
            && HashCalc.EntryFeed(item, sha) == Fed([])
  {
  }

  /**
   * A walk item both variants treat alike when the salt is empty: an error,
   * a readable regular file directly inside `base`, or a directory or
   * special file.
   */
  predicate FlatItem(item: WalkItem, base: Path, sha: Sha256) {
    item.Ok? ==>
      var e := item.value;
      || (e.meta == Some(RegularFile) && |e.path| == |base| + 1 && e.path[..|base|] == base
          && FileDigest(e.resolved, sha).Ok?)
      || ((e.meta == Some(Directory) || e.meta == Some(OtherType)) && e.resolved.None?)
  }

  lemma FlatItemAgrees(item: WalkItem, base: Path, sha: Sha256)
    requires FlatItem(item, base, sha)
    ensures item.Ok? && item.value.resolved.Some? ==> |item.value.path| > 0
    ensures FolderHash.EntryFeed(item, base, [], sha) == HashCalc.EntryFeed(item, sha)
  {
    if item.Ok? && item.value.meta == Some(RegularFile) {
      var p := item.value.path;
      assert p[|base|..] == [p[|base|]];
      assert FolderHash.StripPrefix(base, p) == Some([p[|base|]]);
      assert FolderHash.RelativeBytes(base, p) == p[|base|];
    }
  }

  /**
   * With an empty salt, a walk of a flat folder (readable files directly
   * inside it, no links, no metadata failures) feeds the same bytes under both
   * variants: the relative path is then the base name.
   */
  lemma {:induction false} VariantsAgreeOnFlatFolders(items: seq<WalkItem>, base: Path, sha: Sha256)
    requires forall k | 0 <= k < |items| :: FlatItem(items[k], base, sha)
    ensures HashCalc.Named(items)
    ensures FolderHash.WalkFeed(items, base, [], sha) == HashCalc.WalkFeed(items, sha)
  {
    assert HashCalc.Named(items) by {
      forall k | 0 <= k < |items| && items[k].Ok? && items[k].value.resolved.Some?
        ensures |items[k].value.path| > 0
      {
        FlatItemAgrees(items[k], base, sha);
      }
    }
    if items != [] {
      assert forall k | 0 <= k < |items[1..]| :: items[1..][k] == items[k + 1];
      VariantsAgreeOnFlatFolders(items[1..], base, sha);
      FlatItemAgrees(items[0], base, sha);
    }
  }

  /** Sibling files, each of which reads to its end. */
  predicate ReadableFiles(cs: seq<Node>, sha: Sha256) {
    forall i | 0 <= i < |cs| :: cs[i].File? && FileDigest(Some(cs[i].data), sha).Ok?
  }

  lemma {:induction false} WalkAllOfReadableFiles(cs: seq<Node>, parent: Path, sha: Sha256)
    requires ReadableFiles(cs, sha)
    ensures forall k | 0 <= k < |WalkAll(cs, parent)| :: FlatItem(WalkAll(cs, parent)[k], parent, sha)
  {
    if cs != [] {
      var p := parent + [cs[0].name];
      assert p[..|parent|] == parent;
      assert ReadableFiles(cs[1..], sha) by {
        forall i | 0 <= i < |cs[1..]| ensures cs[1..][i] == cs[i + 1] {}
      }
      WalkAllOfReadableFiles(cs[1..], parent, sha);
      var rest := WalkAll(cs[1..], parent);
      assert WalkAll(cs, parent) == [Ok(EntryOf(cs[0], p))] + rest;
      forall k | 0 <= k < |WalkAll(cs, parent)| ensures FlatItem(WalkAll(cs, parent)[k], parent, sha) {
        if k > 0 {
          assert WalkAll(cs, parent)[k] == rest[k - 1];
        }
      }
    }
  }

  /**
   * A folder of readable files only, listed in name order, hashed with an
   * empty salt, digests alike under both variants.
   */
  lemma VariantsAgreeOnSortedFlatFolder(root: Name, cs: seq<Node>, folderPath: Path, sha: Sha256)
    requires ReadableFiles(cs, sha) && SortedByName(cs)
    ensures FolderHash.FolderFeed(Dir(root, cs), folderPath, [], sha) == HashCalc.FolderFeed(Dir(root, cs), folderPath, [], sha)
  {
    var n := Dir(root, cs);
    assert TreeSorted(n);
    SortedWalkOfOrderedListing(n, folderPath);
    FlatFolderWalk(root, cs, folderPath, sha);
    VariantsAgreeOnFlatFolders(Walk(n, folderPath), folderPath, sha);
  }

  /** Every item of the walk of a folder of readable files is flat. */
  lemma FlatFolderWalk(root: Name, cs: seq<Node>, folderPath: Path, sha: Sha256)
    requires ReadableFiles(cs, sha)
    ensures var items := Walk(Dir(root, cs), folderPath);
            forall k | 0 <= k < |items| :: FlatItem(items[k], folderPath, sha)
  {
    var n := Dir(root, cs);
    var items, below := Walk(n, folderPath), WalkAll(cs, folderPath);
    WalkAllOfReadableFiles(cs, folderPath, sha);
    assert items == [Ok(EntryOf(n, folderPath))] + below;
    forall k | 0 <= k < |items| ensures FlatItem(items[k], folderPath, sha) {
      if k > 0 {
        assert items[k] == below[k - 1];
      }
    }
  }

  /** A file that opens and reads without failure. */
  function Readable(bytes: seq<byte>): (f: FileData)
    ensures f.opens && f.bytes == bytes
    ensures forall i | 0 <= i < |f.steps| :: f.steps[i].Deliver?
  {
    FileData(bytes, true, [])
  }

  /**
   * The legacy stream depends on the listing order: two files `1` and `2`
   * of equal content, listed either way round, give different streams,
   * while the sorted variant gives the same one.
   */
  lemma ListingOrderMattersOnlyToLegacy(root: Name, bytes: seq<byte>, folderPath: Path, salt: seq<byte>, sha: Sha256)
    ensures var one, two := File([1], Readable(bytes)), File([2], Readable(bytes));
            && HashCalc.FolderFeed(Dir(root, [one, two]), folderPath, salt, sha).stream
               != HashCalc.FolderFeed(Dir(root, [two, one]), folderPath, salt, sha).stream
            && FolderHash.FolderFeed(Dir(root, [one, two]), folderPath, salt, sha)
               == FolderHash.FolderFeed(Dir(root, [two, one]), folderPath, salt, sha)
  {
    var d := Readable(bytes);
    var one, two := File([1], d), File([2], d);
    ReadableFileDigest(d, sha);
    var h := sha(bytes);
    var first := LegacyPairStream(root, one, two, folderPath, salt, sha, h, h);
    var second := LegacyPairStream(root, two, one, folderPath, salt, sha, h, h);
    assert first[|salt|] == 1 && second[|salt|] == 2;
    SwappedPairSortsAlike(root, one, two);
  }

  /** Two entries with different names, listed either way round, sort alike. */
  lemma SwappedPairSortsAlike(root: Name, f: Node, g: Node)
    requires f.name != g.name
    ensures SortTree(Dir(root, [f, g])) == SortTree(Dir(root, [g, f]))
  {
    var cs, cs' := [f, g], [g, f];
    SwapPermutes(f, g);
    SortEachPermutation(cs, cs');
    PairDistinct(f, g);
    ListingOrderIrrelevant(root, cs, cs');
  }

  lemma SwapPermutes<T>(a: T, b: T)
    ensures multiset([a, b]) == multiset([b, a])
  {
  }

  lemma PairDistinct(f: Node, g: Node)
    requires f.name != g.name
    ensures DistinctNames([f, g])
  {
    var cs := [f, g];
    forall i, j | 0 <= i < j < |cs| ensures cs[i].name != cs[j].name {
      assert i == 0 && j == 1;
    }
  }

  /** The legacy stream of a folder holding two files that hash without failure. */
  lemma LegacyPairStream(root: Name, f: Node, g: Node, folderPath: Path, salt: seq<byte>, sha: Sha256, hf: Digest, hg: Digest)
    returns (s: seq<byte>)
    requires f.File? && g.File?
    requires FileDigest(Some(f.data), sha) == Ok(hf) && FileDigest(Some(g.data), sha) == Ok(hg)
    ensures s == HashCalc.FolderFeed(Dir(root, [f, g]), folderPath, salt, sha).stream
    ensures s == salt + f.name + hf + g.name + hg
  {
    PairWalk(root, f, g, folderPath);
    PairFeed(f, g, folderPath, sha, hf, hg);
    s := salt + f.name + hf + g.name + hg;
  }

  /** The walk of a folder holding two files. */
  lemma PairWalk(root: Name, f: Node, g: Node, folderPath: Path)
    requires f.File? && g.File?
    ensures Walk(Dir(root, [f, g]), folderPath)
         == [Ok(Entry(folderPath, Some(Directory), None)),
             Ok(Entry(folderPath + [f.name], Some(RegularFile), Some(f.data))),
             Ok(Entry(folderPath + [g.name], Some(RegularFile), Some(g.data)))]
  {
    assert [f, g][1..] == [g] && [g][1..] == [];
    var tail := WalkAll([g], folderPath);
    assert tail == Walk(g, folderPath + [g.name]) + WalkAll([], folderPath);
    assert WalkAll([f, g], folderPath) == Walk(f, folderPath + [f.name]) + tail;
  }

  /** What the legacy loop feeds for that walk. */
  lemma PairFeed(f: Node, g: Node, folderPath: Path, sha: Sha256, hf: Digest, hg: Digest)
    requires f.File? && g.File?
    requires FileDigest(Some(f.data), sha) == Ok(hf) && FileDigest(Some(g.data), sha) == Ok(hg)
    ensures var items := [Ok(Entry(folderPath, Some(Directory), None)),
                          Ok(Entry(folderPath + [f.name], Some(RegularFile), Some(f.data))),
                          Ok(Entry(folderPath + [g.name], Some(RegularFile), Some(g.data)))];
            HashCalc.Named(items) && HashCalc.WalkFeed(items, sha) == Fed(f.name + hf + g.name + hg)
  {
    var i0, i1, i2 := Ok(Entry(folderPath, Some(Directory), None)),
                      Ok(Entry(folderPath + [f.name], Some(RegularFile), Some(f.data))),
                      Ok(Entry(folderPath + [g.name], Some(RegularFile), Some(g.data)));
    var items: seq<WalkItem> := [i0, i1, i2];
    var none: seq<WalkItem> := [];
    assert HashCalc.Named(items);
    assert items[1..] == [i1, i2] && [i1, i2][1..] == [i2] && [i2][1..] == none;
    assert HashCalc.EntryFeed(i2, sha) == Fed(g.name + hg);
    assert HashCalc.WalkFeed([i2], sha) == Fed(g.name + hg);
    assert HashCalc.EntryFeed(i1, sha) == Fed(f.name + hf);
    assert HashCalc.WalkFeed([i1, i2], sha) == Fed(f.name + hf + (g.name + hg));
    assert f.name + hf + (g.name + hg) == f.name + hf + g.name + hg;
  }
}
