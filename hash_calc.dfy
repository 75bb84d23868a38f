/**
 * The legacy folder digest of `src/hash_calc.rs`: the salt, then for every
 * walk entry whose path resolves to a regular file (links followed) its base
 * name and its content hash, in the walk's unsorted order. Walk errors are
 * dropped; the content hash is computed before the name is fed.
 */
module HashCalc {
  import opened Wrappers
  import opened Hashing
  import opened FileSystem
  import opened WalkDir
  import opened ContentHasher
  import opened Streams

  /**
   * Every entry of the walk whose path resolves to a regular file has a last
   * path component, so `file_name().unwrap()` does not panic on it.
   */
  ghost predicate Named(items: seq<WalkItem>) {
    forall k | 0 <= k < |items| && items[k].Ok? && items[k].value.resolved.Some? :: |items[k].value.path| > 0
  }

  /**
   * The folder path has a last component unless the root is not a file:
   * the empty path stands for `.`, which names no file.
   */
  predicate NamedRoot(root: Node, folderPath: Path) {
    |folderPath| > 0 || !(root.File? || (root.Symlink? && root.target.Some?))
  }

  /** `path.file_name()`: the last component. */
  function BaseName(p: Path): (r: Name)
    requires |p| > 0
    ensures p == p[..|p| - 1] + [r]
  {
    p[|p| - 1]
  }

  /**
   * What one walk item feeds (one turn of the `for` loop). Only an entry
   * that resolves to a regular file has any effect, and the file is hashed
   * before its name is fed, so an abort feeds nothing.
   */
  function EntryFeed(item: WalkItem, sha: Sha256): (r: Feed)
    requires item.Ok? && item.value.resolved.Some? ==> |item.value.path| > 0
    ensures r.stream != [] || r.abort.Some? ==> item.Ok? && item.value.resolved.Some?
    ensures r.abort.Some? ==> r.stream == []
  {
    match item
    case Err(_) => Fed([])
    case Ok(e) =>
      if e.resolved.None? then Fed([])
      else
        match FileDigest(e.resolved, sha)
        case Err(err) => Feed([], Some(err))
        case Ok(h) => Fed(BaseName(e.path) + h)
  }

  /** What the walk items feed, in order, until one aborts; no item aborts in a run that finishes. */
  function WalkFeed(items: seq<WalkItem>, sha: Sha256): (r: Feed)
    requires Named(items)
    ensures r.abort.None? ==> forall k | 0 <= k < |items| :: EntryFeed(items[k], sha).abort.None?
  {
    if items == [] then Fed([])
    else Then(EntryFeed(items[0], sha), WalkFeed(items[1..], sha))
  }

  /** A walk from a folder path that names its root, when it must, is named. */
  lemma WalkNamed(root: Node, folderPath: Path)
    requires NamedRoot(root, folderPath)
    ensures Named(Walk(root, folderPath))
  {
    var items := Walk(root, folderPath);
    if root.Dir? {
      var below := WalkAll(root.children, folderPath);
      WalkAllBelow(root.children, folderPath);
      assert items == [items[0]] + below;
      forall k | 0 <= k < |items| && items[k].Ok? && items[k].value.resolved.Some?
        ensures |items[k].value.path| > 0
      {
        if k > 0 {
          assert items[k] == below[k - 1];
          assert Below(below, folderPath);
        }
      }
    }
  }

  /** The whole run: the salt, then the walk of the folder in listing order. */
  function FolderFeed(root: Node, folderPath: Path, salt: seq<byte>, sha: Sha256): (r: Feed)
    requires NamedRoot(root, folderPath)
    ensures |salt| <= |r.stream| && r.stream[..|salt|] == salt
  {
    WalkNamed(root, folderPath);
    Then(Fed(salt), WalkFeed(Walk(root, folderPath), sha))
  }

  /** One turn of the `for` loop for an entry the walk delivered. */
  method FeedEntry(hasher: Hasher, entry: Entry) returns (err: Option<IoError>)
    requires entry.resolved.Some? ==> |entry.path| > 0
    modifies hasher
    ensures hasher.fed == old(hasher.fed) + EntryFeed(Ok(entry), hasher.sha).stream
    ensures err == EntryFeed(Ok(entry), hasher.sha).abort
  {
    if entry.resolved.Some? {
      var fileHash;
      ghost var chunks;
      fileHash, chunks := CalculateFileHash(entry.resolved, hasher.sha);
      if fileHash.Err? {
        return Some(fileHash.error);
      }
      hasher.Update(BaseName(entry.path));
      hasher.Update(fileHash.value);
    }
    return None;
  }

  /**
   * The `for` loop over the walk: drops walk errors, feeds every other item
   * in turn and stops at the first error.
   */
  method FeedWalk(hasher: Hasher, items: seq<WalkItem>) returns (err: Option<IoError>)
    requires Named(items)
    modifies hasher
    ensures hasher.fed == old(hasher.fed) + WalkFeed(items, hasher.sha).stream
    ensures err == WalkFeed(items, hasher.sha).abort
  {
    ghost var sha, fed0 := hasher.sha, hasher.fed;
    ghost var goal := Then(Fed(fed0), WalkFeed(items, sha));
    assert items[0..] == items;
    var i := 0;
    while i < |items|
      invariant 0 <= i <= |items|
      invariant Named(items[i..])
      invariant Then(Fed(hasher.fed), WalkFeed(items[i..], sha)) == goal
    {
      var item := items[i];
      ghost var step := EntryFeed(item, sha);
      WalkFeedAt(items, i, sha);
      FedThen(hasher.fed, step, WalkFeed(items[i + 1..], sha));
      i := i + 1;
      if item.Err? {
        assert hasher.fed + step.stream == hasher.fed;
        continue;
      }
      err := FeedEntry(hasher, item.value);
      if err.Some? {
        return;
      }
    }
    return None;
  }

  /** What the walk feeds from item `i` on: that item, then the rest. */
  lemma WalkFeedAt(items: seq<WalkItem>, i: nat, sha: Sha256)
    requires i < |items| && Named(items[i..])
    ensures Named(items[i + 1..]) && (items[i].Ok? && items[i].value.resolved.Some? ==> |items[i].value.path| > 0)
    ensures WalkFeed(items[i..], sha) == Then(EntryFeed(items[i], sha), WalkFeed(items[i + 1..], sha))
  {
    assert items[i..][1..] == items[i + 1..];
    assert items[i..][0] == items[i];
    var whole, rest := items[i..], items[i + 1..];
    forall k | 0 <= k < |rest| ensures rest[k] == whole[k + 1] {}
  }

  /**
   * `calculate_folder_hash_with_salt`. `fed` is what the running hasher had
   * received when the function returned.
   */
  method CalculateFolderHashWithSalt(root: Node, folderPath: Path, salt: seq<byte>, sha: Sha256)
    returns (r: Result<string, IoError>, ghost fed: seq<byte>)
    requires NamedRoot(root, folderPath)
    ensures fed == FolderFeed(root, folderPath, salt, sha).stream
    ensures r == Finish(FolderFeed(root, folderPath, salt, sha), sha)
  {
    var hasher := new Hasher(sha);
    hasher.Update(salt);
    assert hasher.fed == salt;
    var items := Walk(root, folderPath);
    WalkNamed(root, folderPath);
    ghost var walk := WalkFeed(items, sha);
    assert FolderFeed(root, folderPath, salt, sha) == Then(Fed(salt), walk);
    var err := FeedWalk(hasher, items);
    if err.Some? {
      return Err(err.value), hasher.fed;
    }
    assert hasher.fed == Then(Fed(salt), walk).stream;
    var d := hasher.Finalize();
    return Ok(HexEncode(d)), hasher.fed;
  }

  /** Joining two named lists gives a named list. */
  lemma NamedAppend(xs: seq<WalkItem>, ys: seq<WalkItem>)
    requires Named(xs) && Named(ys)
    ensures Named(xs + ys)
  {
    forall k | 0 <= k < |xs + ys| && (xs + ys)[k].Ok? && (xs + ys)[k].value.resolved.Some?
      ensures |(xs + ys)[k].value.path| > 0
    {
      if k >= |xs| {
        assert (xs + ys)[k] == ys[k - |xs|];
      }
    }
  }

  /** Feeding walk items one list after another is feeding the two lists in turn. */
  lemma {:induction false} WalkFeedAppend(xs: seq<WalkItem>, ys: seq<WalkItem>, sha: Sha256)
    requires Named(xs) && Named(ys)
    ensures Named(xs + ys)
    ensures WalkFeed(xs + ys, sha) == Then(WalkFeed(xs, sha), WalkFeed(ys, sha))
  {
    NamedAppend(xs, ys);
    if xs == [] {
      assert xs + ys == ys;
    } else {
      var tail, all := xs[1..], xs + ys;
      assert xs[0..] == xs && all[0..] == all;
      assert all[1..] == tail + ys && all[0] == xs[0];
      WalkFeedAt(xs, 0, sha);
      WalkFeedAt(all, 0, sha);
      WalkFeedAppend(tail, ys, sha);
      var e := EntryFeed(xs[0], sha);
      ThenAssociative(e, WalkFeed(tail, sha), WalkFeed(ys, sha));
      assert WalkFeed(xs, sha) == Then(e, WalkFeed(tail, sha));
      assert WalkFeed(all, sha) == Then(e, WalkFeed(tail + ys, sha));
    }
  }

  /** The feed of `xs + [item] + ys`: `xs`, then the item, then `ys`, stopping at the first abort. */
  lemma WalkFeedAround(xs: seq<WalkItem>, item: WalkItem, ys: seq<WalkItem>, sha: Sha256)
    requires Named(xs) && Named(ys)
    requires item.Ok? && item.value.resolved.Some? ==> |item.value.path| > 0
    ensures Named(xs + [item] + ys)
    ensures WalkFeed(xs + [item] + ys, sha) == Then(WalkFeed(xs, sha), Then(EntryFeed(item, sha), WalkFeed(ys, sha)))
  {
    assert Named([item]);
    WalkFeedAppend([item], ys, sha);
    assert ([item] + ys)[1..] == ys;
    WalkFeedAppend(xs, [item] + ys, sha);
    assert xs + [item] + ys == xs + ([item] + ys);
  }

  /** The run feeds the salt exactly once before anything of the walk. */
  lemma SaltFirst(root: Node, folderPath: Path, salt: seq<byte>, sha: Sha256)
    requires NamedRoot(root, folderPath)
    ensures Named(Walk(root, folderPath))
    ensures var walk := WalkFeed(Walk(root, folderPath), sha);
            FolderFeed(root, folderPath, salt, sha) == Feed(salt + walk.stream, walk.abort)
  {
    WalkNamed(root, folderPath);
  }

  /** `filter_map(|e| e.ok())`: a walk error is dropped and never aborts the run. */
  lemma WalkErrorDropped(xs: seq<WalkItem>, e: WalkError, ys: seq<WalkItem>, sha: Sha256)
    requires Named(xs) && Named(ys)
    ensures Named(xs + [Err(e)] + ys) && Named(xs + ys)
    ensures WalkFeed(xs + [Err(e)] + ys, sha) == WalkFeed(xs + ys, sha)
  {
    WalkFeedAround(xs, Err(e), ys, sha);
    ThenNothing(WalkFeed(ys, sha));
    WalkFeedAppend(xs, ys, sha);
  }

  /**
   * `path.is_file()` follows links and is false when the metadata cannot be
   * read: directories, special files, vanished entries and links that do
   * not lead to a regular file feed nothing and never abort.
   */
  lemma NonFileDropped(xs: seq<WalkItem>, e: Entry, ys: seq<WalkItem>, sha: Sha256)
    requires Named(xs) && Named(ys)
    requires e.resolved.None?
    ensures Named(xs + [Ok(e)] + ys) && Named(xs + ys)
    ensures WalkFeed(xs + [Ok(e)] + ys, sha) == WalkFeed(xs + ys, sha)
  {
    WalkFeedAround(xs, Ok(e), ys, sha);
    ThenNothing(WalkFeed(ys, sha));
    WalkFeedAppend(xs, ys, sha);
  }

  /**
   * A file (reached directly or through a link) whose content hash is `h`
   * feeds its base name and then `h`, with no salt, between what comes
   * before and after.
   */
  lemma FileFeedsNameAndHash(xs: seq<WalkItem>, e: Entry, ys: seq<WalkItem>, sha: Sha256, h: Digest)
    requires Named(xs) && Named(ys) && |e.path| > 0
    requires FileDigest(e.resolved, sha) == Ok(h)
    ensures Named(xs + [Ok(e)] + ys)
    ensures WalkFeed(xs + [Ok(e)] + ys, sha)
         == Then(WalkFeed(xs, sha), Then(Fed(BaseName(e.path) + h), WalkFeed(ys, sha)))
  {
    WalkFeedAround(xs, Ok(e), ys, sha);
  }

  /**
   * The content hash is computed before the name is fed: a file that cannot
   * be opened or read ends the run with that error, and its name never
   * enters the stream.
   */
  lemma ReadErrorBeforeName(xs: seq<WalkItem>, e: Entry, ys: seq<WalkItem>, sha: Sha256, err: IoError)
    requires Named(xs) && Named(ys) && |e.path| > 0
    requires e.resolved.Some? && FileDigest(e.resolved, sha) == Err(err)
    requires WalkFeed(xs, sha).abort.None?
    ensures Named(xs + [Ok(e)] + ys)
    ensures WalkFeed(xs + [Ok(e)] + ys, sha) == Feed(WalkFeed(xs, sha).stream, Some(err))
  {
    WalkFeedAround(xs, Ok(e), ys, sha);
  }

  /** Two entries that agree on what they resolve to and, for files, on their base name. */
  predicate SameBaseEntry(a: WalkItem, b: WalkItem) {
    && a.Ok? == b.Ok?
    && (a.Ok? ==> && a.value.resolved == b.value.resolved
                  && (a.value.resolved.Some? ==>
                        && |a.value.path| > 0 && |b.value.path| > 0
                        && BaseName(a.value.path) == BaseName(b.value.path)))
  }

  /**
   * Only the base name is used: moving files between directories without
   * changing their base names or their places in the walk leaves the stream
   * unchanged.
   */
  lemma {:induction false} BaseNameOnly(xs: seq<WalkItem>, ys: seq<WalkItem>, sha: Sha256)
    requires |xs| == |ys|
    requires forall k | 0 <= k < |xs| :: SameBaseEntry(xs[k], ys[k])
    ensures Named(xs) && Named(ys)
    ensures WalkFeed(xs, sha) == WalkFeed(ys, sha)
  {
    assert Named(xs) && Named(ys) by {
      forall k | 0 <= k < |xs| && xs[k].Ok? && xs[k].value.resolved.Some? ensures |xs[k].value.path| > 0 {
        assert SameBaseEntry(xs[k], ys[k]);
      }
      forall k | 0 <= k < |ys| && ys[k].Ok? && ys[k].value.resolved.Some? ensures |ys[k].value.path| > 0 {
        assert SameBaseEntry(xs[k], ys[k]);
      }
    }
    if xs != [] {
      assert SameBaseEntry(xs[0], ys[0]);
      assert forall k | 0 <= k < |xs[1..]| :: xs[1..][k] == xs[k + 1] && ys[1..][k] == ys[k + 1];
      BaseNameOnly(xs[1..], ys[1..], sha);
      assert EntryFeed(xs[0], sha) == EntryFeed(ys[0], sha);
    }
  }

  /** A tree in which nothing resolves to a regular file. */
  predicate NoFiles(n: Node) {
    match n
    case File(_, _) => false
    case Symlink(_, t) => t.None?
    case Dir(_, cs) => forall i | 0 <= i < |cs| :: NoFiles(cs[i])
    case _ => true
  }

  lemma {:induction false} WalkOfNoFiles(n: Node, path: Path, sha: Sha256)
    requires NoFiles(n)
    ensures Named(Walk(n, path))
    ensures WalkFeed(Walk(n, path), sha) == Fed([])
    decreases n
  {
    var first := Walk(n, path)[0];
    assert Named([first]);
    assert EntryFeed(first, sha) == Fed([]);
    if n.Dir? {
      WalkAllOfNoFiles(n.children, path, sha);
      WalkFeedAppend([first], WalkAll(n.children, path), sha);
    }
  }

  lemma {:induction false} WalkAllOfNoFiles(cs: seq<Node>, parent: Path, sha: Sha256)
    requires forall i | 0 <= i < |cs| :: NoFiles(cs[i])
    ensures Named(WalkAll(cs, parent))
    ensures WalkFeed(WalkAll(cs, parent), sha) == Fed([])
    decreases cs
  {
    if cs != [] {
      WalkOfNoFiles(cs[0], parent + [cs[0].name], sha);
      WalkAllOfNoFiles(cs[1..], parent, sha);
      WalkFeedAppend(Walk(cs[0], parent + [cs[0].name]), WalkAll(cs[1..], parent), sha);
    }
  }

  /** A folder in which nothing resolves to a regular file digests to the hex text of SHA-256 of the salt. */
  lemma NoFilesDigestsSalt(root: Node, folderPath: Path, salt: seq<byte>, sha: Sha256)
    requires NoFiles(root)
    ensures FolderFeed(root, folderPath, salt, sha) == Fed(salt)
    ensures Finish(FolderFeed(root, folderPath, salt, sha), sha) == Ok(HexEncode(sha(salt)))
  {
    WalkOfNoFiles(root, folderPath, sha);
  }
}
