/**
 * The sorted folder digest of `src/main.rs`: the salt, then for every regular
 * file in sorted walk order its root-relative path, the salt again and its
 * 32-byte content hash, all fed into one running SHA-256.
 */
module FolderHash {
  import opened Wrappers
  import opened Hashing
  import opened FileSystem
  import opened WalkDir
  import opened ContentHasher
  import opened Streams

  /** The path separator `/`. */
  const Slash: byte := 47

  /**
   * `to_string_lossy` of a relative path: its components joined by `/`.
   * The empty path gives no bytes; otherwise the text starts with the first
   * component, followed by a slash when more components come.
   */
  function PathBytes(p: Path): (r: seq<byte>)
    ensures |p| == 0 ==> r == []
    ensures |p| > 0 ==> |p[0]| <= |r| && r[..|p[0]|] == p[0]
    ensures |p| > 1 ==> |p[0]| < |r| && r[|p[0]|] == Slash
  {
    if |p| == 0 then []
    else if |p| == 1 then p[0]
    else p[0] + [Slash] + PathBytes(p[1..])
  }

  /** Path components as a file system names them: non-empty and free of `/`. */
  predicate PlainComponents(p: Path) {
    forall i | 0 <= i < |p| :: |p[i]| > 0 && Slash !in p[i]
  }

  /** Different paths of plain components give different path texts. */
  lemma {:induction false} PathBytesInjective(p: Path, q: Path)
    requires PlainComponents(p) && PlainComponents(q)
    requires PathBytes(p) == PathBytes(q)
    ensures p == q
    decreases |p|
  {
    if p != [] && q != [] {
      var r := PathBytes(p);
      var a, b := p[0], q[0];
      assert |p| == 1 ==> r == a;
      assert |q| == 1 ==> r == b;
      EndsAtSlash(r, a, b);
      if |p| > 1 && |q| > 1 {
        assert r == a + [Slash] + PathBytes(p[1..]);
        assert r == b + [Slash] + PathBytes(q[1..]);
        assert PathBytes(p[1..]) == r[|a| + 1..] == PathBytes(q[1..]);
        PathBytesInjective(p[1..], q[1..]);
        assert p == [a] + p[1..] && q == [b] + q[1..];
      }
    }
  }

  /** Two slash-free prefixes of `r`, each ending where `r` ends or at a slash, are equal. */
  lemma EndsAtSlash(r: seq<byte>, a: seq<byte>, b: seq<byte>)
    requires |a| <= |r| && r[..|a|] == a && (|a| == |r| || r[|a|] == Slash) && Slash !in a
    requires |b| <= |r| && r[..|b|] == b && (|b| == |r| || r[|b|] == Slash) && Slash !in b
    ensures a == b
  {
  }

  /** `path.strip_prefix(base)`: the rest of `p` after the components of `base`, if `p` starts with them. */
  function StripPrefix(base: Path, p: Path): (r: Option<Path>)
    ensures r.Some? <==> |base| <= |p| && p[..|base|] == base
    ensures r.Some? ==> base + r.value == p
  {
    if |base| <= |p| && p[..|base|] == base then
      assert base + p[|base|..] == p;
      Some(p[|base|..])
    else None
  }

  /** The path bytes fed for an entry: nothing when `strip_prefix` fails. */
  function RelativeBytes(base: Path, p: Path): (r: seq<byte>)
    ensures |base| <= |p| && p[..|base|] == base ==> r == PathBytes(p[|base|..])
    ensures !(|base| <= |p| && p[..|base|] == base) ==> r == []
  {
    match StripPrefix(base, p)
    case Some(rel) => PathBytes(rel)
    case None => []
  }

  /**
   * What one walk item feeds (one turn of the `for` loop). Only a regular
   * file or a failed metadata query has any effect, and a regular file's
   * bytes start with its relative path and the salt.
   */
  function EntryFeed(item: WalkItem, base: Path, salt: seq<byte>, sha: Sha256): (r: Feed)
    ensures r.stream != [] || r.abort.Some? ==>
              item.Ok? && (item.value.meta.None? || item.value.meta == Some(RegularFile))
    ensures item.Ok? && item.value.meta == Some(RegularFile) ==>
              var head := RelativeBytes(base, item.value.path) + salt;
              |head| <= |r.stream| && r.stream[..|head|] == head
  {
    match item
    case Err(_) => Fed([])
    case Ok(e) =>
      match e.meta
      case None => Feed([], Some(MetadataFailed))
      case Some(t) =>
        if t != RegularFile then Fed([])
        else
          var head := RelativeBytes(base, e.path) + salt;
          match FileDigest(e.resolved, sha)
          case Err(err) => Feed(head, Some(err))
          case Ok(h) => Fed(head + h)
  }

  /** What the walk items feed, in order, until one aborts; no item aborts in a run that finishes. */
  function WalkFeed(items: seq<WalkItem>, base: Path, salt: seq<byte>, sha: Sha256): (r: Feed)
    ensures r.abort.None? ==> forall k | 0 <= k < |items| :: EntryFeed(items[k], base, salt, sha).abort.None?
  {
    if items == [] then Fed([])
    else Then(EntryFeed(items[0], base, salt, sha), WalkFeed(items[1..], base, salt, sha))
  }

  /** The whole run: the salt, then the sorted walk of the folder. */
  function FolderFeed(root: Node, folderPath: Path, salt: seq<byte>, sha: Sha256): (r: Feed)
    ensures |salt| <= |r.stream| && r.stream[..|salt|] == salt
  {
    Then(Fed(salt), WalkFeed(SortedWalk(root, folderPath), folderPath, salt, sha))
  }

  /**
   * One turn of the `for` loop for an entry the walk delivered: feeds what
   * `EntryFeed` says and reports the error that ends the run, if any.
   */
  method FeedEntry(hasher: Hasher, entry: Entry, folderPath: Path, salt: seq<byte>)
    returns (err: Option<IoError>)
    modifies hasher
    ensures hasher.fed == old(hasher.fed) + EntryFeed(Ok(entry), folderPath, salt, hasher.sha).stream
    ensures err == EntryFeed(Ok(entry), folderPath, salt, hasher.sha).abort
  {
    if entry.meta.None? {
      return Some(MetadataFailed);
    }
    if entry.meta.value == RegularFile {
      ghost var before := hasher.fed;
      var rel := StripPrefix(folderPath, entry.path);
      if rel.Some? {
        hasher.Update(PathBytes(rel.value));
      }
      hasher.Update(salt);
      ghost var head := RelativeBytes(folderPath, entry.path) + salt;
      assert hasher.fed == before + head;
      var fileHash;
      ghost var chunks;
      fileHash, chunks := CalculateFileHash(entry.resolved, hasher.sha);
      if fileHash.Err? {
        return Some(fileHash.error);
      }
      hasher.Update(fileHash.value);
      assert hasher.fed == before + (head + fileHash.value);
    }
    return None;
  }

  /**
   * The `for` loop over the walk: feeds every item in turn and stops at the
   * first error.
   */
  method FeedWalk(hasher: Hasher, items: seq<WalkItem>, folderPath: Path, salt: seq<byte>)
    returns (err: Option<IoError>)
    modifies hasher
    ensures hasher.fed == old(hasher.fed) + WalkFeed(items, folderPath, salt, hasher.sha).stream
    ensures err == WalkFeed(items, folderPath, salt, hasher.sha).abort
  {
    ghost var sha, fed0 := hasher.sha, hasher.fed;
    ghost var goal := Then(Fed(fed0), WalkFeed(items, folderPath, salt, sha));
    assert items[0..] == items;
    var i := 0;
    while i < |items|
      invariant 0 <= i <= |items|
      invariant Then(Fed(hasher.fed), WalkFeed(items[i..], folderPath, salt, sha)) == goal
    {
      var item := items[i];
      ghost var step := EntryFeed(item, folderPath, salt, sha);
      WalkFeedAt(items, i, folderPath, salt, sha);
      FedThen(hasher.fed, step, WalkFeed(items[i + 1..], folderPath, salt, sha));
      i := i + 1;
      if item.Err? {
        assert hasher.fed + step.stream == hasher.fed;
        continue;
      }
      err := FeedEntry(hasher, item.value, folderPath, salt);
      if err.Some? {
        return;
      }
    }
    return None;
  }

  /**
   * `calculate_folder_hash_with_salt`. `fed` is what the running hasher had
   * received when the function returned.
   */
  method CalculateFolderHashWithSalt(root: Node, folderPath: Path, salt: seq<byte>, sha: Sha256)
    returns (r: Result<string, IoError>, ghost fed: seq<byte>)
    ensures fed == FolderFeed(root, folderPath, salt, sha).stream
    ensures r == Finish(FolderFeed(root, folderPath, salt, sha), sha)
  {
    var hasher := new Hasher(sha);
    hasher.Update(salt);
    assert hasher.fed == salt;
    var items := SortedWalk(root, folderPath);
    ghost var walk := WalkFeed(items, folderPath, salt, sha);
    assert FolderFeed(root, folderPath, salt, sha) == Then(Fed(salt), walk);
    var err := FeedWalk(hasher, items, folderPath, salt);
    if err.Some? {
      return Err(err.value), hasher.fed;
    }
    assert hasher.fed == Then(Fed(salt), walk).stream;
    var d := hasher.Finalize();
    return Ok(HexEncode(d)), hasher.fed;
  }

  /** What the walk feeds from item `i` on: that item, then the rest. */
  lemma WalkFeedAt(items: seq<WalkItem>, i: nat, base: Path, salt: seq<byte>, sha: Sha256)
    requires i < |items|
    ensures WalkFeed(items[i..], base, salt, sha)
         == Then(EntryFeed(items[i], base, salt, sha), WalkFeed(items[i + 1..], base, salt, sha))
  {
    assert items[i..][1..] == items[i + 1..];
  }

  /** Feeding walk items one list after another is feeding the two lists in turn. */
  lemma {:induction false} WalkFeedAppend(xs: seq<WalkItem>, ys: seq<WalkItem>, base: Path, salt: seq<byte>, sha: Sha256)
    ensures WalkFeed(xs + ys, base, salt, sha) == Then(WalkFeed(xs, base, salt, sha), WalkFeed(ys, base, salt, sha))
  {
    if xs == [] {
      assert xs + ys == ys;
    } else {
      WalkFeedAt(xs, 0, base, salt, sha);
      WalkFeedAt(xs + ys, 0, base, salt, sha);
      assert xs[0..] == xs && (xs + ys)[0..] == xs + ys;
      assert (xs + ys)[1..] == xs[1..] + ys;
      WalkFeedAppend(xs[1..], ys, base, salt, sha);
      ThenAssociative(EntryFeed(xs[0], base, salt, sha), WalkFeed(xs[1..], base, salt, sha), WalkFeed(ys, base, salt, sha));
    }
  }

  /** The feed of `xs + [item] + ys`: `xs`, then the item, then `ys`, stopping at the first abort. */
  lemma WalkFeedAround(xs: seq<WalkItem>, item: WalkItem, ys: seq<WalkItem>, base: Path, salt: seq<byte>, sha: Sha256)
    ensures WalkFeed(xs + [item] + ys, base, salt, sha)
         == Then(WalkFeed(xs, base, salt, sha), Then(EntryFeed(item, base, salt, sha), WalkFeed(ys, base, salt, sha)))
  {
    WalkFeedAppend(xs, [item] + ys, base, salt, sha);
    assert xs + [item] + ys == xs + ([item] + ys);
    assert ([item] + ys)[1..] == ys;
  }

  /** The run feeds the salt exactly once before anything of the walk. */
  lemma SaltFirst(root: Node, folderPath: Path, salt: seq<byte>, sha: Sha256)
    ensures var walk := WalkFeed(SortedWalk(root, folderPath), folderPath, salt, sha);
            FolderFeed(root, folderPath, salt, sha) == Feed(salt + walk.stream, walk.abort)
  {
  }

  /** A walk error is skipped: the walk goes on as if the item were not there. */
  lemma WalkErrorSkipped(xs: seq<WalkItem>, e: WalkError, ys: seq<WalkItem>, base: Path, salt: seq<byte>, sha: Sha256)
    ensures WalkFeed(xs + [Err(e)] + ys, base, salt, sha) == WalkFeed(xs + ys, base, salt, sha)
  {
    WalkFeedAround(xs, Err(e), ys, base, salt, sha);
    ThenNothing(WalkFeed(ys, base, salt, sha));
    WalkFeedAppend(xs, ys, base, salt, sha);
  }

  /**
   * Directories, symbolic links (whose own metadata is read, not their
   * target's) and other non-regular entries feed nothing.
   */
  lemma NonRegularIgnored(xs: seq<WalkItem>, e: Entry, ys: seq<WalkItem>, base: Path, salt: seq<byte>, sha: Sha256)
    requires e.meta.Some? && e.meta.value != RegularFile
    ensures WalkFeed(xs + [Ok(e)] + ys, base, salt, sha) == WalkFeed(xs + ys, base, salt, sha)
  {
    WalkFeedAround(xs, Ok(e), ys, base, salt, sha);
    ThenNothing(WalkFeed(ys, base, salt, sha));
    WalkFeedAppend(xs, ys, base, salt, sha);
  }

  /** A metadata failure ends the run with that error after what came before. */
  lemma MetadataFailureAborts(xs: seq<WalkItem>, e: Entry, ys: seq<WalkItem>, base: Path, salt: seq<byte>, sha: Sha256)
    requires e.meta.None?
    requires WalkFeed(xs, base, salt, sha).abort.None?
    ensures WalkFeed(xs + [Ok(e)] + ys, base, salt, sha) == Feed(WalkFeed(xs, base, salt, sha).stream, Some(MetadataFailed))
  {
    WalkFeedAround(xs, Ok(e), ys, base, salt, sha);
  }

  /**
   * A regular file whose content hash is `h` feeds its relative path bytes,
   * the salt and `h`, in that order, between what comes before and after.
   */
  lemma RegularFileFeeds(xs: seq<WalkItem>, e: Entry, ys: seq<WalkItem>, base: Path, salt: seq<byte>, sha: Sha256, h: Digest)
    requires e.meta == Some(RegularFile)
    requires FileDigest(e.resolved, sha) == Ok(h)
    ensures WalkFeed(xs + [Ok(e)] + ys, base, salt, sha)
         == Then(WalkFeed(xs, base, salt, sha), Then(Fed(RelativeBytes(base, e.path) + salt + h), WalkFeed(ys, base, salt, sha)))
  {
    WalkFeedAround(xs, Ok(e), ys, base, salt, sha);
  }

  /**
   * A regular file that cannot be opened or read ends the run with that
   * error; its path and the salt were already fed.
   */
  lemma FileFailureAborts(xs: seq<WalkItem>, e: Entry, ys: seq<WalkItem>, base: Path, salt: seq<byte>, sha: Sha256, err: IoError)
    requires e.meta == Some(RegularFile)
    requires FileDigest(e.resolved, sha) == Err(err)
    requires WalkFeed(xs, base, salt, sha).abort.None?
    ensures WalkFeed(xs + [Ok(e)] + ys, base, salt, sha)
         == Feed(WalkFeed(xs, base, salt, sha).stream + RelativeBytes(base, e.path) + salt, Some(err))
  {
    WalkFeedAround(xs, Ok(e), ys, base, salt, sha);
  }

  /** When `strip_prefix` fails the entry still feeds the salt and its content hash. */
  lemma StripFailureFeedsSaltAndHash(e: Entry, base: Path, salt: seq<byte>, sha: Sha256, h: Digest)
    requires e.meta == Some(RegularFile) && StripPrefix(base, e.path).None?
    requires FileDigest(e.resolved, sha) == Ok(h)
    ensures EntryFeed(Ok(e), base, salt, sha) == Fed(salt + h)
  {
  }

  /** In a real walk `strip_prefix` never fails, so every file's relative path is fed. */
  lemma WalkPathsStrip(root: Node, folderPath: Path, k: nat)
    requires k < |SortedWalk(root, folderPath)| && SortedWalk(root, folderPath)[k].Ok?
    ensures var p := SortedWalk(root, folderPath)[k].value.path;
            |folderPath| <= |p| && RelativeBytes(folderPath, p) == PathBytes(p[|folderPath|..])
  {
    assert Under(SortedWalk(root, folderPath), folderPath);
  }

  /** A tree holding no regular file and no entry whose metadata fails. */
  predicate NoRegularFiles(n: Node) {
    match n
    case File(_, _) => false
    case Vanished(_) => false
    case Dir(_, cs) => forall i | 0 <= i < |cs| :: NoRegularFiles(cs[i])
    case _ => true
  }

  lemma {:induction false} SortTreeKeepsNoRegularFiles(n: Node)
    requires NoRegularFiles(n)
    ensures NoRegularFiles(SortTree(n))
  {
    if n.Dir? {
      var each := SortEach(n.children);
      var cs := SortByName(each);
      forall i | 0 <= i < |cs| ensures NoRegularFiles(cs[i]) {
        assert cs[i] in multiset(each);
        var j :| 0 <= j < |each| && each[j] == cs[i];
        SortTreeKeepsNoRegularFiles(n.children[j]);
      }
    }
  }

  lemma {:induction false} WalkOfNoRegularFiles(n: Node, path: Path, base: Path, salt: seq<byte>, sha: Sha256)
    requires NoRegularFiles(n)
    ensures WalkFeed(Walk(n, path), base, salt, sha) == Fed([])
    decreases n
  {
    var first := Walk(n, path)[0];
    assert EntryFeed(first, base, salt, sha) == Fed([]);
    if n.Dir? {
      WalkAllOfNoRegularFiles(n.children, path, base, salt, sha);
      WalkFeedAppend([first], WalkAll(n.children, path), base, salt, sha);
    }
  }

  lemma {:induction false} WalkAllOfNoRegularFiles(cs: seq<Node>, parent: Path, base: Path, salt: seq<byte>, sha: Sha256)
    requires forall i | 0 <= i < |cs| :: NoRegularFiles(cs[i])
    ensures WalkFeed(WalkAll(cs, parent), base, salt, sha) == Fed([])
    decreases cs
  {
    if cs != [] {
      WalkOfNoRegularFiles(cs[0], parent + [cs[0].name], base, salt, sha);
      WalkAllOfNoRegularFiles(cs[1..], parent, base, salt, sha);
      WalkFeedAppend(Walk(cs[0], parent + [cs[0].name]), WalkAll(cs[1..], parent), base, salt, sha);
    }
  }

  /**
   * A folder without regular files digests to the hex text of SHA-256 of
   * the salt alone.
   */
  lemma NoRegularFilesDigestsSalt(root: Node, folderPath: Path, salt: seq<byte>, sha: Sha256)
    requires NoRegularFiles(root)
    ensures FolderFeed(root, folderPath, salt, sha) == Fed(salt)
    ensures Finish(FolderFeed(root, folderPath, salt, sha), sha) == Ok(HexEncode(sha(salt)))
  {
    SortTreeKeepsNoRegularFiles(root);
    WalkOfNoRegularFiles(SortTree(root), folderPath, folderPath, salt, sha);
  }

  /** An empty folder digests to the hex text of SHA-256 of the salt. */
  lemma EmptyFolderDigestsSalt(name: Name, folderPath: Path, salt: seq<byte>, sha: Sha256)
    ensures Finish(FolderFeed(Dir(name, []), folderPath, salt, sha), sha) == Ok(HexEncode(sha(salt)))
  {
    NoRegularFilesDigestsSalt(Dir(name, []), folderPath, salt, sha);
  }

  /**
   * Determinism: two trees that differ only in the order in which their
   * directories, at any depth, list their entries give the same digest
   * input and the same result.
   */
  lemma DigestIgnoresListingOrder(root: Node, root': Node, folderPath: Path, salt: seq<byte>, sha: Sha256)
    requires SameUpToListing(root, root')
    ensures FolderFeed(root, folderPath, salt, sha) == FolderFeed(root', folderPath, salt, sha)
    ensures Finish(FolderFeed(root, folderPath, salt, sha), sha) == Finish(FolderFeed(root', folderPath, salt, sha), sha)
  {
    SortTreeUpToListing(root, root');
  }

  /** Sorting the example folder puts directory `a` before file `a-b`. */
  lemma ExampleSorted(root: Name, d: FileData)
    ensures var a, x, ab := [97 as byte], [120 as byte], [97 as byte, 45, 98];
            SortTree(Dir(root, [File(ab, d), Dir(a, [File(x, d)])])) == Dir(root, [Dir(a, [File(x, d)]), File(ab, d)])
  {
    var a, x, ab := [97 as byte], [120 as byte], [97 as byte, 45, 98];
    var fileX := File(x, d);
    var fileAb, dirA := File(ab, d), Dir(a, [fileX]);
    assert NameLe(a, ab) && !NameLe(ab, a);
    assert SortEach([fileX]) == [fileX];
    assert SortByName([fileX]) == [fileX];
    assert SortTree(dirA) == dirA;
    assert SortEach([fileAb, dirA]) == [fileAb, dirA];
    assert SortByName([dirA]) == [dirA];
    assert Insert(fileAb, [dirA]) == [dirA, fileAb];
    assert SortByName([fileAb, dirA]) == [dirA, fileAb];
  }

  /** The walk of the sorted example folder. */
  lemma ExampleWalk(root: Name, d: FileData, folderPath: Path)
    ensures var a, x, ab := [97 as byte], [120 as byte], [97 as byte, 45, 98];
            var items := Walk(Dir(root, [Dir(a, [File(x, d)]), File(ab, d)]), folderPath);
            && |items| == 4
            && items[2] == Ok(Entry(folderPath + [a, x], Some(RegularFile), Some(d)))
            && items[3] == Ok(Entry(folderPath + [ab], Some(RegularFile), Some(d)))
  {
    var a, x, ab := [97 as byte], [120 as byte], [97 as byte, 45, 98];
    var fileX := File(x, d);
    var fileAb, dirA := File(ab, d), Dir(a, [fileX]);
    assert [fileX][1..] == [] && [fileAb][1..] == [] && [dirA, fileAb][1..] == [fileAb];
    assert folderPath + [a] + [x] == folderPath + [a, x];
    assert WalkAll([fileX], folderPath + [a]) == Walk(fileX, folderPath + [a, x]) + WalkAll([], folderPath + [a]);
    var underA := Walk(dirA, folderPath + [a]);
    assert underA == [Ok(EntryOf(dirA, folderPath + [a])), Ok(EntryOf(fileX, folderPath + [a, x]))];
    var last := WalkAll([fileAb], folderPath);
    assert last == Walk(fileAb, folderPath + [ab]) + WalkAll([], folderPath);
    assert WalkAll([dirA, fileAb], folderPath) == underA + last;
  }

  /** As text, `a-b` sorts before `a/x`. */
  lemma ExamplePathText()
    ensures var a, x, ab := [97 as byte], [120 as byte], [97 as byte, 45, 98];
            NameLe(PathBytes([ab]), PathBytes([a, x])) && !NameLe(PathBytes([a, x]), PathBytes([ab]))
  {
    var a, x, ab := [97 as byte], [120 as byte], [97 as byte, 45, 98];
    assert [a, x][1..] == [x];
    assert PathBytes([a, x]) == [97, 47, 120];
    assert PathBytes([ab]) == ab;
    var t: seq<byte> := [97, 47, 120];
    assert ab[1..] == [45, 98] && t[1..] == [47, 120];
    assert NameLe([45, 98], [47, 120]);
    assert !NameLe([47, 120], [45, 98]);
  }

  /**
   * Walk order is not the order of whole relative paths. A folder holding
   * file `a-b` and directory `a` with file `x` is walked `a`, `a/x`, `a-b`
   * (name `a` sorts before `a-b`), although the text `a-b` sorts before
   * `a/x` because `-` (45) is below `/` (47).
   */
  lemma SiblingOrderIsNotPathOrder(root: Name, d: FileData, folderPath: Path)
    ensures var a, x, ab := [97 as byte], [120 as byte], [97 as byte, 45, 98];
            var items := SortedWalk(Dir(root, [File(ab, d), Dir(a, [File(x, d)])]), folderPath);
            && |items| == 4
            && items[2] == Ok(Entry(folderPath + [a, x], Some(RegularFile), Some(d)))
            && items[3] == Ok(Entry(folderPath + [ab], Some(RegularFile), Some(d)))
            && NameLe(PathBytes([ab]), PathBytes([a, x]))
            && !NameLe(PathBytes([a, x]), PathBytes([ab]))
  {
    ExampleSorted(root, d);
    ExampleWalk(root, d, folderPath);
    ExamplePathText();
  }
}
