/**
 * The directory walk: depth-first pre-order from the root, each directory
 * entry reported before its contents. Unsorted, siblings come in the order
 * the operating system lists them; with `sort_by_file_name`, siblings are
 * visited in byte-wise order of their file names.
 */
module WalkDir {
  import opened Wrappers
  import opened Hashing
  import opened FileSystem

  /** Byte-wise lexicographic order on names (a proper prefix comes first). */
  predicate NameLe(a: Name, b: Name)
    decreases |a|
  {
    |a| == 0 || (|b| > 0 && (a[0] < b[0] || (a[0] == b[0] && NameLe(a[1..], b[1..]))))
  }

  lemma {:induction false} NameLeTotal(a: Name, b: Name)
    ensures NameLe(a, b) || NameLe(b, a)
  {
    if |a| > 0 && |b| > 0 && a[0] == b[0] {
      NameLeTotal(a[1..], b[1..]);
    }
  }

  lemma {:induction false} NameLeTransitive(a: Name, b: Name, c: Name)
    requires NameLe(a, b) && NameLe(b, c)
    ensures NameLe(a, c)
  {
    if |a| > 0 && a[0] == b[0] && b[0] == c[0] {
      NameLeTransitive(a[1..], b[1..], c[1..]);
    }
  }

  lemma {:induction false} NameLeAntisymmetric(a: Name, b: Name)
    requires NameLe(a, b) && NameLe(b, a)
    ensures a == b
  {
    if |a| > 0 {
      NameLeAntisymmetric(a[1..], b[1..]);
      assert a == [a[0]] + a[1..] && b == [b[0]] + b[1..];
    }
  }

  /** Siblings in non-decreasing name order. */
  ghost predicate SortedByName(s: seq<Node>) {
    forall i, j | 0 <= i < j < |s| :: NameLe(s[i].name, s[j].name)
  }

  /** Inserts `x` before the first node whose name is not smaller. */
  function Insert(x: Node, s: seq<Node>): (r: seq<Node>)
    ensures multiset(r) == multiset(s) + multiset{x}
  {
    if s == [] then [x]
    else if NameLe(x.name, s[0].name) then [x] + s
    else
      assert s == [s[0]] + s[1..];
      [s[0]] + Insert(x, s[1..])
  }

  /** Every node of `Insert(x, s)` is `x` or a node of `s`. */
  lemma InsertFrom(x: Node, s: seq<Node>, k: nat)
    requires k < |Insert(x, s)|
    ensures Insert(x, s)[k] == x || exists j | 0 <= j < |s| :: Insert(x, s)[k] == s[j]
  {
    var y := Insert(x, s)[k];
    assert y in multiset(Insert(x, s));
    if y != x {
      assert y in multiset(s);
    }
  }

  /** Inserting into sorted siblings keeps them sorted. */
  lemma {:induction false} InsertSorted(x: Node, s: seq<Node>)
    requires SortedByName(s)
    ensures SortedByName(Insert(x, s))
  {
    if s == [] {
    } else if NameLe(x.name, s[0].name) {
      forall j | 0 <= j < |s| ensures NameLe(x.name, s[j].name) {
        if j > 0 { NameLeTransitive(x.name, s[0].name, s[j].name); }
      }
      assert Insert(x, s) == [x] + s;
    } else {
      var tail := s[1..];
      assert SortedByName(tail) by {
        forall i, j | 0 <= i < j < |tail| ensures NameLe(tail[i].name, tail[j].name) {
          assert tail[i] == s[i + 1] && tail[j] == s[j + 1];
        }
      }
      InsertSorted(x, tail);
      var t := Insert(x, tail);
      NameLeTotal(x.name, s[0].name);
      forall k | 0 <= k < |t| ensures NameLe(s[0].name, t[k].name) {
        InsertFrom(x, tail, k);
        if t[k] != x {
          var j :| 0 <= j < |tail| && t[k] == tail[j];
          assert tail[j] == s[j + 1];
        }
      }
      assert Insert(x, s) == [s[0]] + t;
    }
  }

  /** A stable insertion sort by file name. */
  function SortByName(s: seq<Node>): (r: seq<Node>)
    ensures multiset(r) == multiset(s)
    ensures SortedByName(r)
  {
    if s == [] then [] else
      assert s == [s[0]] + s[1..];
      InsertSorted(s[0], SortByName(s[1..]));
      Insert(s[0], SortByName(s[1..]))
  }

  /** The tree with every directory's children in name order (`sort_by_file_name`). */
  function SortTree(n: Node): (r: Node)
    ensures r.name == n.name
    ensures r.Dir? <==> n.Dir?
    ensures !n.Dir? ==> r == n
  {
    match n
    case Dir(name, cs) => Dir(name, SortByName(SortEach(cs)))
    case _ => n
  }

  function SortEach(cs: seq<Node>): (r: seq<Node>)
    ensures |r| == |cs|
    ensures forall i | 0 <= i < |cs| :: r[i] == SortTree(cs[i])
  {
    if cs == [] then [] else [SortTree(cs[0])] + SortEach(cs[1..])
  }

  /**
   * The walk entry of a node at `path`; an unreadable node has none. The
   * metadata is the node's own (a link reports itself, not its target),
   * while the resolved file is what opening the path reaches.
   */
  function EntryOf(n: Node, path: Path): (r: Entry)
    requires !n.Unreadable?
    ensures r.path == path
    ensures r.meta.None? <==> n.Vanished?
    ensures r.meta == Some(RegularFile) <==> n.File?
    ensures r.meta == Some(SymbolicLink) <==> n.Symlink?
    ensures r.resolved.Some? <==> n.File? || (n.Symlink? && n.target.Some?)
  {
    match n
    case File(_, d) => Entry(path, Some(RegularFile), Some(d))
    case Dir(_, _) => Entry(path, Some(Directory), None)
    case Symlink(_, t) => Entry(path, Some(SymbolicLink), t)
    case Special(_) => Entry(path, Some(OtherType), None)
    case Vanished(_) => Entry(path, None, None)
  }

  /** Every entry's path extends `base`. */
  ghost predicate Under(items: seq<WalkItem>, base: Path) {
    forall k | 0 <= k < |items| && items[k].Ok? ::
      |base| <= |items[k].value.path| && items[k].value.path[..|base|] == base
  }

  /**
   * The walk of the tree rooted at `n`, reached at `path`: the node's own
   * item, then, for a directory, the walks of its children in listed order.
   */
  function Walk(n: Node, path: Path): (r: seq<WalkItem>)
    ensures |r| > 0 && r[0] == (if n.Unreadable? then Err(WalkError) else Ok(EntryOf(n, path)))
    ensures Under(r, path)
  {
    match n
    case Unreadable(_) => [Err(WalkError)]
    case Dir(_, cs) =>
      [Ok(EntryOf(n, path))] + WalkAll(cs, path)
    case _ => [Ok(EntryOf(n, path))]
  }

  /** The walks of sibling nodes under `parent`, one after another. */
  function WalkAll(cs: seq<Node>, parent: Path): (r: seq<WalkItem>)
    ensures Under(r, parent)
  {
    if cs == [] then []
    else
      var p := parent + [cs[0].name];
      var first, rest := Walk(cs[0], p), WalkAll(cs[1..], parent);
      assert Under(first + rest, parent) by {
        forall k | 0 <= k < |first + rest| && (first + rest)[k].Ok?
          ensures |parent| <= |(first + rest)[k].value.path|
          ensures (first + rest)[k].value.path[..|parent|] == parent
        {
          if k < |first| {
            var q := first[k].value.path;
            assert q[..|p|] == p;
            assert q[..|parent|] == p[..|parent|];
          } else {
            assert (first + rest)[k] == rest[k - |first|];
          }
        }
      }
      first + rest
  }

  /** Every entry's path is longer than `parent`. */
  ghost predicate Below(items: seq<WalkItem>, parent: Path) {
    forall k | 0 <= k < |items| && items[k].Ok? :: |items[k].value.path| > |parent|
  }

  /** Every entry below a directory has a longer path than the directory. */
  lemma {:induction false} WalkAllBelow(cs: seq<Node>, parent: Path)
    ensures Below(WalkAll(cs, parent), parent)
    decreases cs
  {
    if cs != [] {
      var p := parent + [cs[0].name];
      var first, rest := Walk(cs[0], p), WalkAll(cs[1..], parent);
      WalkAllBelow(cs[1..], parent);
      assert Under(first, p);
      var r := WalkAll(cs, parent);
      assert r == first + rest;
      forall k | 0 <= k < |r| && r[k].Ok? ensures |r[k].value.path| > |parent| {
        if k < |first| {
          assert r[k] == first[k];
          assert |p| <= |first[k].value.path|;
        } else {
          assert r[k] == rest[k - |first|];
          assert Below(rest, parent);
        }
      }
    }
  }

  /** The walk with `sort_by_file_name`. */
  function SortedWalk(root: Node, path: Path): (r: seq<WalkItem>)
    ensures |r| > 0 && r[0] == Walk(root, path)[0]
    ensures Under(r, path)
  {
    Walk(SortTree(root), path)
  }

  /** Every directory of the tree lists its children in name order. */
  ghost predicate TreeSorted(n: Node) {
    match n
    case Dir(_, cs) => SortedByName(cs) && forall i | 0 <= i < |cs| :: TreeSorted(cs[i])
    case _ => true
  }

  /** Siblings with pairwise different names, as in any real directory. */
  ghost predicate DistinctNames(s: seq<Node>) {
    forall i, j | 0 <= i < j < |s| :: s[i].name != s[j].name
  }

  /** After `sort_by_file_name`, every directory's children are in name order. */
  lemma {:induction false} SortTreeSorted(n: Node)
    ensures TreeSorted(SortTree(n))
  {
    if n.Dir? {
      var each := SortEach(n.children);
      var cs := SortByName(each);
      forall i | 0 <= i < |cs| ensures TreeSorted(cs[i]) {
        assert cs[i] in multiset(each);
        var j :| 0 <= j < |each| && each[j] == cs[i];
        SortTreeSorted(n.children[j]);
      }
    }
  }

  /** Sorting a sequence already in name order changes nothing. */
  lemma {:induction false} SortByNameOfSorted(s: seq<Node>)
    requires SortedByName(s)
    ensures SortByName(s) == s
  {
    if s != [] {
      var t := s[1..];
      TailSorted(s);
      SortByNameOfSorted(t);
      assert SortByName(s) == Insert(s[0], t);
      if t != [] {
        assert t[0] == s[1];
        assert NameLe(s[0].name, t[0].name);
      }
      assert Insert(s[0], t) == [s[0]] + t;
      assert s == [s[0]] + t;
    }
  }

  /** Sorting a tree whose directories are already in name order changes nothing. */
  lemma {:induction false} SortTreeOfSorted(n: Node)
    requires TreeSorted(n)
    ensures SortTree(n) == n
  {
    if n.Dir? {
      var cs := n.children;
      forall i | 0 <= i < |cs| ensures SortTree(cs[i]) == cs[i] {
        SortTreeOfSorted(cs[i]);
      }
      assert SortEach(cs) == cs;
      SortByNameOfSorted(cs);
    }
  }

  /** Sorting twice is sorting once. */
  lemma SortTreeIdempotent(n: Node)
    ensures SortTree(SortTree(n)) == SortTree(n)
  {
    SortTreeSorted(n);
    SortTreeOfSorted(SortTree(n));
  }

  /**
   * When the operating system already lists every directory in name order,
   * the sorted and the unsorted walk visit the same entries in the same order.
   */
  lemma SortedWalkOfOrderedListing(root: Node, path: Path)
    requires TreeSorted(root)
    ensures SortedWalk(root, path) == Walk(root, path)
  {
    SortTreeOfSorted(root);
  }

  lemma HeadsEqual(x: seq<Node>, y: seq<Node>)
    requires SortedByName(x) && SortedByName(y) && DistinctNames(x)
    requires multiset(x) == multiset(y) && x != [] && y != []
    ensures x[0] == y[0]
  {
    assert y[0] in multiset(x) && x[0] in multiset(y);
    var i :| 0 <= i < |x| && x[i] == y[0];
    var j :| 0 <= j < |y| && y[j] == x[0];
    if i > 0 && j > 0 {
      NameLeAntisymmetric(x[0].name, y[0].name);
      assert false;
    }
  }

  /** Two name-sorted permutations of the same siblings with distinct names are equal. */
  lemma {:induction false} SortedPermutationsEqual(x: seq<Node>, y: seq<Node>)
    requires SortedByName(x) && SortedByName(y) && DistinctNames(x)
    requires multiset(x) == multiset(y)
    ensures x == y
    decreases |x|
  {
    SameHeads(x, y);
    if x != [] {
      SortedPermutationsEqual(x[1..], y[1..]);
      assert x == [x[0]] + x[1..] && y == [y[0]] + y[1..];
    }
  }

  /** The heads of two such permutations agree, and their tails are such permutations again. */
  lemma SameHeads(x: seq<Node>, y: seq<Node>)
    requires SortedByName(x) && SortedByName(y) && DistinctNames(x)
    requires multiset(x) == multiset(y)
    ensures x == [] <==> y == []
    ensures x != [] ==> && x[0] == y[0] && multiset(x[1..]) == multiset(y[1..])
                        && SortedByName(x[1..]) && SortedByName(y[1..]) && DistinctNames(x[1..])
  {
    SameLength(x, y);
    if x != [] {
      HeadsEqual(x, y);
      TailPermutation(x, y);
      TailSorted(x);
      TailSorted(y);
      TailDistinct(x);
    }
  }

  /** Permutations have the same length. */
  lemma SameLength<T>(x: seq<T>, y: seq<T>)
    requires multiset(x) == multiset(y)
    ensures |x| == |y|
  {
    assert |x| == |multiset(x)| && |y| == |multiset(y)|;
  }

  /** Dropping the first sibling keeps the name order. */
  lemma TailSorted(s: seq<Node>)
    requires s != [] && SortedByName(s)
    ensures SortedByName(s[1..])
  {
    var t := s[1..];
    forall i, j | 0 <= i < j < |t| ensures NameLe(t[i].name, t[j].name) {
      assert t[i] == s[i + 1] && t[j] == s[j + 1];
    }
  }

  /** Dropping the first sibling keeps the names distinct. */
  lemma TailDistinct(s: seq<Node>)
    requires s != [] && DistinctNames(s)
    ensures DistinctNames(s[1..])
  {
    var t := s[1..];
    forall i, j | 0 <= i < j < |t| ensures t[i].name != t[j].name {
      assert t[i] == s[i + 1] && t[j] == s[j + 1];
    }
  }

  /** In a sequence with distinct names every element occurs once. */
  lemma OccursOnce(e: seq<Node>, a: nat)
    requires DistinctNames(e) && a < |e|
    ensures multiset(e)[e[a]] == 1
  {
    WithoutOne(e, a);
    var rest := e[..a] + e[a + 1..];
    forall k | 0 <= k < |rest| ensures rest[k] != e[a] {
      if k < a {
        assert rest[k] == e[k];
      } else {
        assert rest[k] == e[k + 1];
      }
    }
    assert e[a] !in rest;
  }

  /** An element that occurs once is found at one position only. */
  lemma OnceAtOnePosition(s: seq<Node>, i: nat, j: nat)
    requires i < j < |s| && multiset(s)[s[i]] == 1
    ensures s[i] != s[j]
  {
    assert s == s[..j] + [s[j]] + s[j + 1..];
    assert s[..j][i] == s[i];
    assert multiset(s) == multiset(s[..j]) + multiset{s[j]} + multiset(s[j + 1..]);
  }

  /** A permutation of siblings with distinct names has distinct names. */
  lemma PermutationKeepsDistinct(e: seq<Node>, s: seq<Node>)
    requires multiset(e) == multiset(s) && DistinctNames(e)
    ensures DistinctNames(s)
  {
    forall i, j | 0 <= i < j < |s| ensures s[i].name != s[j].name {
      assert s[i] in multiset(e) && s[j] in multiset(e);
      var a :| 0 <= a < |e| && e[a] == s[i];
      var b :| 0 <= b < |e| && e[b] == s[j];
      OccursOnce(e, a);
      OnceAtOnePosition(s, i, j);
      assert a != b;
    }
  }

  /** `b` around its element `b[j]`. */
  lemma Split<T>(b: seq<T>, j: nat)
    requires j < |b|
    ensures b == b[..j] + ([b[j]] + b[j + 1..])
  {
    assert b[j..] == [b[j]] + b[j + 1..] by {
      assert b[j..][0] == b[j];
      assert b[j..][1..] == b[j + 1..];
    }
    assert b == b[..j] + b[j..];
  }

  /** Taking `b[j]` out of `b`, in terms of multisets. */
  lemma WithoutOne<T>(b: seq<T>, j: nat)
    requires j < |b|
    ensures multiset(b) == multiset{b[j]} + multiset(b[..j] + b[j + 1..])
  {
    var left, right := b[..j], b[j + 1..];
    Split(b, j);
    assert multiset([b[j]] + right) == multiset{b[j]} + multiset(right);
  }

  /** `f` applied to every element. */
  function MapSeq<A, B>(f: A -> B, s: seq<A>): (r: seq<B>)
    ensures |r| == |s| && forall i | 0 <= i < |s| :: r[i] == f(s[i])
  {
    if s == [] then [] else [f(s[0])] + MapSeq(f, s[1..])
  }

  /** Multiset addition of one element cancels. */
  lemma CancelOne<T>(x: T, p: multiset<T>, q: multiset<T>)
    requires multiset{x} + p == multiset{x} + q
    ensures p == q
  {
    calc {
      p;
      (multiset{x} + p) - multiset{x};
      (multiset{x} + q) - multiset{x};
      q;
    }
  }

  /** Removing the same element from two permutations of each other leaves permutations. */
  lemma RemoveFromBoth<T>(a: seq<T>, b: seq<T>, j: nat)
    requires multiset(a) == multiset(b) && a != [] && j < |b| && b[j] == a[0]
    ensures multiset(a[1..]) == multiset(b[..j] + b[j + 1..])
  {
    var x, others := a[0], b[..j] + b[j + 1..];
    WithoutOne(a, 0);
    WithoutOne(b, j);
    assert a[..0] + a[1..] == a[1..];
    CancelOne(x, multiset(a[1..]), multiset(others));
  }

  /** Two permutations with the same head have permutations as tails. */
  lemma TailPermutation<T>(x: seq<T>, y: seq<T>)
    requires multiset(x) == multiset(y) && x != [] && y != [] && x[0] == y[0]
    ensures multiset(x[1..]) == multiset(y[1..])
  {
    RemoveFromBoth(x, y, 0);
    assert y[..0] + y[1..] == y[1..];
  }

  /** Mapping distributes over concatenation. */
  lemma {:induction false} MapAppend<A, B>(f: A -> B, x: seq<A>, y: seq<A>)
    ensures MapSeq(f, x + y) == MapSeq(f, x) + MapSeq(f, y)
  {
    if x == [] {
      assert x + y == y;
    } else {
      assert (x + y)[1..] == x[1..] + y;
      MapAppend(f, x[1..], y);
    }
  }

  /** Mapping commutes with taking out one element. */
  lemma MapWithout<A, B>(f: A -> B, b: seq<A>, j: nat)
    requires j < |b|
    ensures multiset(MapSeq(f, b)) == multiset{f(b[j])} + multiset(MapSeq(f, b[..j] + b[j + 1..]))
  {
    var left, right := b[..j], b[j + 1..];
    Split(b, j);
    MapAppend(f, left, [b[j]] + right);
    MapAppend(f, [b[j]], right);
    MapAppend(f, left, right);
    var ml, mr := MapSeq(f, left), MapSeq(f, right);
    assert MapSeq(f, [b[j]]) == [f(b[j])];
    assert MapSeq(f, b) == ml + ([f(b[j])] + mr);
    assert multiset([f(b[j])] + mr) == multiset{f(b[j])} + multiset(mr);
    assert multiset(MapSeq(f, b)) == multiset(ml) + (multiset{f(b[j])} + multiset(mr));
  }

  /** Mapping a permutation gives a permutation. */
  lemma {:induction false} MapPermutation<A, B>(f: A -> B, a: seq<A>, b: seq<A>)
    requires multiset(a) == multiset(b)
    ensures multiset(MapSeq(f, a)) == multiset(MapSeq(f, b))
    decreases |a|
  {
    SameLength(a, b);
    if a != [] {
      assert a[0] in multiset(b);
      var j :| 0 <= j < |b| && b[j] == a[0];
      var tail, others := a[1..], b[..j] + b[j + 1..];
      assert a[..0] + a[1..] == tail;
      RemoveFromBoth(a, b, j);
      MapPermutation(f, tail, others);
      MapWithout(f, a, 0);
      MapWithout(f, b, j);
    }
  }

  /** A sequence that holds `f` of every element of `s` is `MapSeq(f, s)`. */
  lemma MapSeqPointwise<A, B>(f: A -> B, s: seq<A>, r: seq<B>)
    requires |r| == |s| && forall i | 0 <= i < |s| :: r[i] == f(s[i])
    ensures r == MapSeq(f, s)
  {
  }

  lemma SortEachIsMap(cs: seq<Node>)
    ensures SortEach(cs) == MapSeq(SortTree, cs)
  {
    MapSeqPointwise(SortTree, cs, SortEach(cs));
  }

  /**
   * Matching `a[0]` with `b[j]` (same image) and the rest of `a` with the
   * rest of `b` (same images up to order) matches all of `a` with `b`.
   */
  lemma MapMatchOne<A, B>(f: A -> B, a: seq<A>, b: seq<A>, j: nat)
    requires a != [] && j < |b| && f(a[0]) == f(b[j])
    requires multiset(MapSeq(f, a[1..])) == multiset(MapSeq(f, b[..j] + b[j + 1..]))
    ensures multiset(MapSeq(f, a)) == multiset(MapSeq(f, b))
  {
    MapWithout(f, a, 0);
    MapWithout(f, b, j);
    assert a[..0] + a[1..] == a[1..];
  }

  lemma SortEachPermutation(a: seq<Node>, b: seq<Node>)
    requires multiset(a) == multiset(b)
    ensures multiset(SortEach(a)) == multiset(SortEach(b))
  {
    MapPermutation(SortTree, a, b);
    assert SortEach(a) == MapSeq(SortTree, a);
    assert SortEach(b) == MapSeq(SortTree, b);
  }

  /**
   * Determinism: the sorted form of a directory does not depend on the order
   * in which the operating system lists its entries.
   */
  lemma ListingOrderIrrelevant(name: Name, cs: seq<Node>, cs': seq<Node>)
    requires multiset(SortEach(cs)) == multiset(SortEach(cs')) && DistinctNames(cs)
    ensures SortTree(Dir(name, cs)) == SortTree(Dir(name, cs'))
  {
    var e, e' := SortEach(cs), SortEach(cs');
    var s, s' := SortByName(e), SortByName(e');
    assert DistinctNames(e);
    PermutationKeepsDistinct(e, s);
    SortedPermutationsEqual(s, s');
  }

  /**
   * Two trees that differ at most in the order in which their directories,
   * at any depth, list their entries: other nodes are equal, and a
   * directory keeps its name and its children, which have distinct names,
   * each matched to one counterpart that is the same up to listing.
   */
  ghost predicate SameUpToListing(t: Node, t': Node)
    decreases t
  {
    match t
    case Dir(name, cs) => t'.Dir? && t'.name == name && DistinctNames(cs) && SameListings(cs, t'.children)
    case _ => t' == t
  }

  /** `cs'` reorders `cs`, pairing every sibling with one that is the same up to listing. */
  ghost predicate SameListings(cs: seq<Node>, cs': seq<Node>)
    decreases cs
  {
    if cs == [] then cs' == []
    else exists j | 0 <= j < |cs'| ::
      SameUpToListing(cs[0], cs'[j]) && SameListings(cs[1..], cs'[..j] + cs'[j + 1..])
  }

  /**
   * Determinism at every depth: the sorted form of a tree does not depend on
   * the order in which any of its directories lists its entries.
   */
  lemma {:induction false} SortTreeUpToListing(t: Node, t': Node)
    requires SameUpToListing(t, t')
    ensures SortTree(t) == SortTree(t')
    decreases t
  {
    if t.Dir? {
      SortEachUpToListing(t.children, t'.children);
      ListingOrderIrrelevant(t.name, t.children, t'.children);
    }
  }

  lemma {:induction false} SortEachUpToListing(cs: seq<Node>, cs': seq<Node>)
    requires SameListings(cs, cs')
    ensures multiset(SortEach(cs)) == multiset(SortEach(cs'))
    decreases cs
  {
    if cs != [] {
      var j :| 0 <= j < |cs'| && SameUpToListing(cs[0], cs'[j]) && SameListings(cs[1..], cs'[..j] + cs'[j + 1..]);
      var tail, others := cs[1..], cs'[..j] + cs'[j + 1..];
      SortTreeUpToListing(cs[0], cs'[j]);
      SortEachUpToListing(tail, others);
      SortEachIsMap(tail);
      SortEachIsMap(others);
      SortEachIsMap(cs);
      SortEachIsMap(cs');
      MapMatchOne(SortTree, cs, cs', j);
    }
  }

  /** Swapping two entries of a subdirectory is a change of listing only. */
  lemma NestedSwapIsSameUpToListing(r: Name, a: Name, x: Node, y: Node)
    requires !x.Dir? && !y.Dir? && x.name != y.name
    ensures SameUpToListing(Dir(r, [Dir(a, [x, y])]), Dir(r, [Dir(a, [y, x])]))
  {
    var none: seq<Node> := [];
    assert [x, y][1..] == [y] && [y][1..] == none;
    assert [y, x][..1] + [y, x][2..] == [y] && [y][..0] + [y][1..] == none;
    assert SameListings([y], [y]);
    assert SameListings([x, y], [y, x]);
    assert SameUpToListing(Dir(a, [x, y]), Dir(a, [y, x]));
    var inner: seq<Node> := [Dir(a, [y, x])];
    assert inner[..0] + inner[1..] == none && [Dir(a, [x, y])][1..] == none;
  }
}
