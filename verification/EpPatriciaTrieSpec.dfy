/** What a Patricia trie (epPatriciaTrie.h) holds, in terms of root paths. A path is the list of
    the characters' ranks under the compare function; tr is the rank of the terminator. */
module EpPatriciaTrieSpec {
  import opened EpAlgorithm

  type Path = seq<int>

  function Ext(p: Path, x: int): (r: Path)
    ensures |r| == |p| + 1
  {
    p + [x]
  }

  /** A path that ends with the terminator is a leaf's. */
  predicate LeafPath(tr: int, p: Path) {
    p != [] && p[|p| - 1] == tr
  }

  /** The path of a stored string: one terminator, at the end. */
  predicate IsKey(tr: int, p: Path) {
    LeafPath(tr, p) && tr !in p[..|p| - 1]
  }

  /** The paths of a tree: parents are there, and nothing hangs below a leaf. */
  ghost predicate Closed(tr: int, s: set<Path>) {
    && [] in s
    && forall p :: p in s && p != [] ==> p[..|p| - 1] in s && !LeafPath(tr, p[..|p| - 1])
  }

  ghost predicate HasChild(s: set<Path>, p: Path) {
    exists x :: Ext(p, x) in s
  }

  /** No inner node but the root is empty. */
  ghost predicate Pruned(tr: int, s: set<Path>) {
    forall p :: p in s && p != [] && !LeafPath(tr, p) ==> HasChild(s, p)
  }

  ghost function Leaves(tr: int, s: set<Path>): set<Path> {
    set p | p in s && LeafPath(tr, p)
  }

  ghost function Prefixes(k: Path): set<Path> {
    set i | 0 <= i <= |k| :: k[..i]
  }

  lemma {:induction false} PrefixIn(tr: int, s: set<Path>, p: Path, i: nat)
    requires Closed(tr, s) && p in s && i <= |p|
    ensures p[..i] in s && (i < |p| ==> !LeafPath(tr, p[..i]))
    decreases |p|
  {
    if i == |p| {
      assert p[..i] == p;
    } else {
      assert p[..|p| - 1][..i] == p[..i];
      PrefixIn(tr, s, p[..|p| - 1], i);
    }
  }

  /** Only leaves' paths contain the terminator, and only at the end. */
  lemma LeafIsKey(tr: int, s: set<Path>, p: Path)
    requires Closed(tr, s) && p in s && LeafPath(tr, p)
    ensures IsKey(tr, p)
  {
    forall i | 0 <= i < |p| - 1 ensures p[i] != tr {
      PrefixIn(tr, s, p, i + 1);
      assert p[..i + 1][i] == p[i];
    }
  }

  ghost function PathsBelow(s: set<Path>, p: Path): set<Path> {
    set q | q in s && p <= q
  }

  lemma FewerBelow(s: set<Path>, p: Path, x: int)
    requires p in s
    ensures PathsBelow(s, Ext(p, x)) < PathsBelow(s, p)
  {
    forall q | q in PathsBelow(s, Ext(p, x)) ensures q in PathsBelow(s, p) {
      assert Ext(p, x)[..|p|] == p;
      assert q[..|p|] == p;
    }
    assert p in PathsBelow(s, p) && p !in PathsBelow(s, Ext(p, x));
  }

  /** Below every node but an empty root there is a leaf. */
  lemma {:induction false} LeafBelow(tr: int, s: set<Path>, p: Path) returns (k: Path)
    requires Pruned(tr, s) && p in s && p != []
    ensures k in Leaves(tr, s) && p <= k
    decreases PathsBelow(s, p)
  {
    if LeafPath(tr, p) {
      k := p;
    } else {
      var x :| Ext(p, x) in s;
      FewerBelow(s, p, x);
      k := LeafBelow(tr, s, Ext(p, x));
      assert Ext(p, x)[..|p|] == p;
      assert k[..|p|] == p;
    }
  }

  /** The paths are exactly the prefixes of the leaves, and the root. */
  lemma CanonicalPaths(tr: int, s: set<Path>, p: Path)
    requires Closed(tr, s) && Pruned(tr, s)
    ensures p in s <==> p == [] || exists k :: k in Leaves(tr, s) && p <= k
  {
    if p in s && p != [] {
      var k := LeafBelow(tr, s, p);
    }
    if k :| k in Leaves(tr, s) && p <= k {
      PrefixIn(tr, s, k, |p|);
      assert k[..|p|] == p;
    }
  }

  /** The leaves determine the tree. */
  lemma SameLeavesSamePaths(tr: int, s1: set<Path>, s2: set<Path>)
    requires Closed(tr, s1) && Pruned(tr, s1) && Closed(tr, s2) && Pruned(tr, s2)
    requires Leaves(tr, s1) == Leaves(tr, s2)
    ensures s1 == s2
  {
    forall p ensures p in s1 <==> p in s2 {
      CanonicalPaths(tr, s1, p);
      CanonicalPaths(tr, s2, p);
    }
  }

  /** For every path of a tree, the next characters in the order of its child list. */
  ghost predicate IsShape(s: set<Path>, shape: map<Path, seq<int>>) {
    && shape.Keys == s
    && forall p :: p in s ==> Increasing(shape[p]) && forall x :: x in shape[p] <==> Ext(p, x) in s
  }

  predicate Increasing(a: seq<int>) {
    forall i, j :: 0 <= i < j < |a| ==> a[i] < a[j]
  }

  predicate Within(a: seq<int>, b: seq<int>) {
    forall i :: 0 <= i < |a| ==> a[i] in b
  }

  lemma {:induction false} IncreasingUnique(a: seq<int>, b: seq<int>)
    requires Increasing(a) && Increasing(b) && Within(a, b) && Within(b, a)
    ensures a == b
  {
    if a != [] {
      assert a[0] in b && b[0] in a;
      TailWithin(a, b);
      TailWithin(b, a);
      IncreasingUnique(a[1..], b[1..]);
    }
  }

  lemma TailWithin(a: seq<int>, b: seq<int>)
    requires Increasing(a) && Increasing(b) && a != [] && b != [] && Within(a, b) && b[0] in a
    ensures Within(a[1..], b[1..]) && b[0] >= a[0]
  {
    forall i | 1 <= i < |a| ensures a[i] in b[1..] {
      assert a[i] in b && a[0] in b;
    }
  }

  lemma ShapeUnique(s: set<Path>, a: map<Path, seq<int>>, b: map<Path, seq<int>>)
    requires IsShape(s, a) && IsShape(s, b)
    ensures a == b
  {
    forall p | p in s ensures a[p] == b[p] {
      forall i | 0 <= i < |a[p]| ensures a[p][i] in b[p] {
        assert Ext(p, a[p][i]) in s;
      }
      forall i | 0 <= i < |b[p]| ensures b[p][i] in a[p] {
        assert Ext(p, b[p][i]) in s;
      }
      IncreasingUnique(a[p], b[p]);
    }
  }

  /** paths and shape are those of a trie in good order that stores exactly the keys. */
  ghost predicate IsTree(tr: int, keys: set<Path>, paths: set<Path>, shape: map<Path, seq<int>>) {
    Closed(tr, paths) && Pruned(tr, paths) && Leaves(tr, paths) == keys && IsShape(paths, shape)
  }

  /** A set of keys has one tree, whatever the history of the trie. */
  lemma TreeUnique(
    tr: int, keys: set<Path>, paths: set<Path>, shape: map<Path, seq<int>>, paths': set<Path>,
    shape': map<Path, seq<int>>)
    requires IsTree(tr, keys, paths, shape) && IsTree(tr, keys, paths', shape')
    ensures paths == paths' && shape == shape'
  {
    hide Closed, Pruned, Leaves, IsShape;
    SameLeavesSamePaths(tr, paths, paths');
    ShapeUnique(paths, shape, shape');
  }

  // ---------- insertion ----------

  lemma PrefixesHas(k: Path, i: nat)
    requires i <= |k|
    ensures k[..i] in Prefixes(k)
  {
  }

  lemma PrefixesIff(k: Path, p: Path)
    ensures p in Prefixes(k) <==> p <= k
  {
    if p <= k {
      PrefixesHas(k, |p|);
      assert k[..|p|] == p;
    }
  }

  lemma InsertedPaths(tr: int, s: set<Path>, k: Path)
    requires Closed(tr, s) && Pruned(tr, s) && IsKey(tr, k)
    ensures var r := s + Prefixes(k);
      Closed(tr, r) && Pruned(tr, r) && Leaves(tr, r) == Leaves(tr, s) + {k}
  {
    InsertedClosed(tr, s, k);
    InsertedPruned(tr, s, k);
    InsertedLeaves(tr, s, k);
  }

  lemma InsertedPruned(tr: int, s: set<Path>, k: Path)
    requires Pruned(tr, s) && IsKey(tr, k)
    ensures Pruned(tr, s + Prefixes(k))
  {
    hide Prefixes, LeafPath;
    var r := s + Prefixes(k);
    forall p | p in r && p != [] && !LeafPath(tr, p) ensures HasChild(r, p) {
      if p in s {
        var x :| Ext(p, x) in s;
        assert Ext(p, x) in r;
      } else {
        PrefixesIff(k, p);
        assert p != k;
        PrefixesHas(k, |p| + 1);
        assert k[..|p| + 1] == Ext(p, k[|p|]);
      }
    }
  }

  lemma InsertedLeaves(tr: int, s: set<Path>, k: Path)
    requires IsKey(tr, k)
    ensures Leaves(tr, s + Prefixes(k)) == Leaves(tr, s) + {k}
  {
    hide Prefixes;
    forall p ensures p in Leaves(tr, s + Prefixes(k)) <==> p in Leaves(tr, s) + {k} {
      PrefixesIff(k, p);
      assert p <= k && p != k && p != [] ==> p[|p| - 1] == k[..|k| - 1][|p| - 1];
    }
  }

  lemma InsertedClosed(tr: int, s: set<Path>, k: Path)
    requires Closed(tr, s) && IsKey(tr, k)
    ensures Closed(tr, s + Prefixes(k))
  {
    var r := s + Prefixes(k);
    forall p | p in r && p != [] ensures p[..|p| - 1] in r && !LeafPath(tr, p[..|p| - 1]) {
      if p !in s {
        PrefixesIff(k, p);
        PrefixesIff(k, p[..|p| - 1]);
        var q := p[..|p| - 1];
        assert q != [] ==> q[|q| - 1] == k[..|k| - 1][|q| - 1];
      }
    }
  }

  // ---------- erasure ----------

  ghost predicate Removable(tr: int, s: set<Path>, p: Path) {
    LeafPath(tr, p) || !HasChild(s, p)
  }

  /** The paths left after RemoveNode has been tried on k[..|k|], k[..|k|-1], ..., k[..j]. */
  ghost function Swept(tr: int, s: set<Path>, k: Path, j: nat): set<Path>
    requires 1 <= j <= |k| + 1
    decreases |k| + 1 - j
  {
    if j == |k| + 1 then s
    else
      var r := Swept(tr, s, k, j + 1);
      if Removable(tr, r, k[..j]) then r - {k[..j]} else r
  }

  /** Each try removes at most its own path, so shorter and foreign paths stay. */
  lemma {:induction false} SweptKeeps(tr: int, s: set<Path>, k: Path, j: nat)
    requires 1 <= j <= |k| + 1
    ensures Swept(tr, s, k, j) <= s
    ensures forall p :: p in s && (|p| < j || !(p <= k)) ==> p in Swept(tr, s, k, j)
    decreases |k| + 1 - j
  {
    if j <= |k| {
      SweptKeeps(tr, s, k, j + 1);
    }
  }

  ghost predicate PrunedBut(tr: int, s: set<Path>, except: Path) {
    forall p :: p in s && p != [] && p != except && !LeafPath(tr, p) ==> HasChild(s, p)
  }

  /** While the sweep goes up, the tree stays a tree, and only the next node up may be empty. */
  lemma {:induction false} SweptShape(tr: int, s: set<Path>, k: Path, j: nat)
    requires Closed(tr, s) && Pruned(tr, s) && IsKey(tr, k) && k in s
    requires 1 <= j <= |k|
    ensures var r := Swept(tr, s, k, j);
      Closed(tr, r) && PrunedBut(tr, r, k[..j - 1]) && Leaves(tr, r) == Leaves(tr, s) - {k}
    decreases |k| - j
  {
    hide Closed, PrunedBut, Leaves, Removable;
    assert k[..|k|] == k;
    assert k[..j][..j - 1] == k[..j - 1];
    if j == |k| {
      LeafRemovable(tr, s, k);
      RemovedShape(tr, s, k);
    } else {
      SweptShape(tr, s, k, j + 1);
      SweptKeeps(tr, s, k, j + 1);
      PrefixIn(tr, s, k, j);
      SweepStep(tr, Swept(tr, s, k, j + 1), k[..j]);
    }
  }

  /** One try of RemoveNode on an inner node p, the only one that may be empty. */
  lemma SweepStep(tr: int, s: set<Path>, p: Path)
    requires Closed(tr, s) && PrunedBut(tr, s, p) && p in s && p != [] && !LeafPath(tr, p)
    ensures var r := if Removable(tr, s, p) then s - {p} else s;
      Closed(tr, r) && PrunedBut(tr, r, p[..|p| - 1]) && Leaves(tr, r) == Leaves(tr, s)
  {
    hide Closed, PrunedBut, Leaves, Removable;
    if Removable(tr, s, p) {
      RemovedShape(tr, s, p);
      NotALeaf(tr, s, p);
    } else {
      StillPruned(tr, s, p, p[..|p| - 1]);
    }
  }

  lemma LeafRemovable(tr: int, s: set<Path>, k: Path)
    requires IsKey(tr, k)
    ensures Removable(tr, s, k) && (Pruned(tr, s) ==> PrunedBut(tr, s, k))
  {
  }

  lemma NotALeaf(tr: int, s: set<Path>, p: Path)
    requires !LeafPath(tr, p)
    ensures Leaves(tr, s) - {p} == Leaves(tr, s)
  {
  }

  lemma StillPruned(tr: int, s: set<Path>, p: Path, except: Path)
    requires PrunedBut(tr, s, p) && !Removable(tr, s, p)
    ensures PrunedBut(tr, s, except)
  {
  }

  /** Taking out a leaf or a childless node leaves a tree in which only its parent may be empty. */
  lemma RemovedShape(tr: int, s: set<Path>, p: Path)
    requires Closed(tr, s) && PrunedBut(tr, s, p) && p in s && p != []
    requires Removable(tr, s, p)
    ensures Closed(tr, s - {p}) && PrunedBut(tr, s - {p}, p[..|p| - 1])
    ensures Leaves(tr, s - {p}) == Leaves(tr, s) - {p}
  {
    RemovedClosed(tr, s, p);
    RemovedPruned(tr, s, p);
  }

  lemma RemovedClosed(tr: int, s: set<Path>, p: Path)
    requires Closed(tr, s) && p in s && p != [] && Removable(tr, s, p)
    ensures Closed(tr, s - {p})
  {
    forall q | q in s && q != [] ensures q[..|q| - 1] != p {
      assert q == Ext(q[..|q| - 1], q[|q| - 1]);
    }
  }

  lemma RemovedPruned(tr: int, s: set<Path>, p: Path)
    requires PrunedBut(tr, s, p) && p in s && p != []
    ensures PrunedBut(tr, s - {p}, p[..|p| - 1])
  {
    hide LeafPath;
    forall q | q in s - {p} && q != [] && q != p[..|p| - 1] && !LeafPath(tr, q) ensures HasChild(s - {p}, q) {
      var x :| Ext(q, x) in s;
      assert Ext(q, x)[..|q|] == q;
      assert Ext(q, x) in s - {p};
    }
  }

  /** The whole sweep removes the leaf and nothing else from the canonical tree. */
  lemma SweptAll(tr: int, s: set<Path>, k: Path)
    requires Closed(tr, s) && Pruned(tr, s) && IsKey(tr, k) && k in s
    ensures var r := Swept(tr, s, k, 1);
      Closed(tr, r) && Pruned(tr, r) && Leaves(tr, r) == Leaves(tr, s) - {k}
  {
    SweptShape(tr, s, k, 1);
  }

  /** Inserting an absent key and erasing it restores the same tree. */
  lemma InsertErase(tr: int, s: set<Path>, k: Path)
    requires Closed(tr, s) && Pruned(tr, s) && IsKey(tr, k) && k !in s
    ensures Swept(tr, s + Prefixes(k), k, 1) == s
  {
    InsertedPaths(tr, s, k);
    PrefixesIff(k, k);
    SweptAll(tr, s + Prefixes(k), k);
    SameLeavesSamePaths(tr, Swept(tr, s + Prefixes(k), k, 1), s);
  }

  /** Erasing a stored key and inserting it again restores the same tree. */
  lemma EraseInsert(tr: int, s: set<Path>, k: Path)
    requires Closed(tr, s) && Pruned(tr, s) && IsKey(tr, k) && k in s
    ensures Swept(tr, s, k, 1) + Prefixes(k) == s
  {
    SweptAll(tr, s, k);
    InsertedPaths(tr, Swept(tr, s, k, 1), k);
    SameLeavesSamePaths(tr, Swept(tr, s, k, 1) + Prefixes(k), s);
  }

  // ---------- listings ----------

  ghost predicate LexLess(p: Path, q: Path) {
    exists i :: 0 <= i < |p| && i < |q| && p[..i] == q[..i] && p[i] < q[i]
  }

  lemma LexAsymmetric(p: Path, q: Path)
    requires LexLess(p, q)
    ensures !LexLess(q, p) && p != q && !(p <= q) && !(q <= p)
  {
    var i :| 0 <= i < |p| && i < |q| && p[..i] == q[..i] && p[i] < q[i];
    forall j | 0 <= j < |p| && j < |q| ensures !(q[..j] == p[..j] && q[j] < p[j]) {
      assert j < i ==> p[..i][j] == p[j] && q[..i][j] == q[j];
      assert i < j ==> p[..j][i] == p[i] && q[..j][i] == q[i];
    }
  }

  /** Whatever extends the smaller path stays below whatever extends the larger one. */
  lemma LexExtends(p: Path, q: Path, p': Path, q': Path)
    requires LexLess(p, q) && p <= p' && q <= q'
    ensures LexLess(p', q')
  {
    var i :| 0 <= i < |p| && i < |q| && p[..i] == q[..i] && p[i] < q[i];
    assert p'[..i] == p[..i] && q'[..i] == q[..i];
    assert p'[i] == p[i] && q'[i] == q[i];
  }

  lemma LexSiblings(p: Path, x: int, y: int)
    requires x < y
    ensures LexLess(Ext(p, x), Ext(p, y))
  {
    assert Ext(p, x)[..|p|] == Ext(p, y)[..|p|];
  }

  /** The orders the traversals produce. Query(n, tr, up) is FindAll's for a prefix of length n:
      the exact match first, then by next character, and inside one subtree up or down. */
  datatype Order = Up | Down | Query(n: nat, tr: int, up: bool)

  ghost predicate Precedes(o: Order, p: Path, q: Path) {
    match o
    case Up => LexLess(p, q)
    case Down => LexLess(q, p)
    case Query(n, tr, up) =>
      && |p| > n && |q| > n
      && if p[n] == tr then q[n] != tr
         else if q[n] == tr then false
         else if p[n] != q[n] then p[n] < q[n]
         else if up then LexLess(p, q)
         else LexLess(q, p)
  }

  lemma PrecedesAsymmetric(o: Order, p: Path, q: Path)
    requires Precedes(o, p, q)
    ensures !Precedes(o, q, p) && p != q
  {
    if LexLess(p, q) {
      LexAsymmetric(p, q);
    }
    if LexLess(q, p) {
      LexAsymmetric(q, p);
    }
  }

  /** list holds exactly the entries of m, each once, in order; key gives the key of an entry. */
  ghost predicate Lists<E(!new)>(o: Order, key: E -> Path, list: seq<E>, m: map<Path, E>) {
    && (forall i, j :: 0 <= i < j < |list| ==> Precedes(o, key(list[i]), key(list[j])))
    && (forall i :: 0 <= i < |list| ==> key(list[i]) in m && m[key(list[i])] == list[i])
    && (forall p :: p in m ==> key(m[p]) == p && m[p] in list)
  }

  lemma ListsAppend<E(!new)>(o: Order, key: E -> Path, a: seq<E>, m: map<Path, E>, b: seq<E>, n: map<Path, E>)
    requires Lists(o, key, a, m) && Lists(o, key, b, n)
    requires forall p, q :: p in m && q in n ==> Precedes(o, p, q)
    ensures Lists(o, key, a + b, m + n)
  {
    forall p | p in m ensures p !in n {
      assert p in n ==> Precedes(o, p, p);
      if Precedes(o, p, p) {
        PrecedesAsymmetric(o, p, p);
      }
    }
  }

  /** A map has one listing in each order. */
  lemma {:induction false} ListingUnique<E(!new)>(o: Order, key: E -> Path, a: seq<E>, b: seq<E>, m: map<Path, E>)
    requires Lists(o, key, a, m) && Lists(o, key, b, m)
    ensures a == b
  {
    EmptyListing(o, key, a, m);
    EmptyListing(o, key, b, m);
    if a != [] {
      FirstIsFirst(o, key, a, b, m);
      TailLists(o, key, a, m);
      TailLists(o, key, b, m);
      ListingUnique(o, key, a[1..], b[1..], m - {key(a[0])});
    }
  }

  lemma EmptyListing<E(!new)>(o: Order, key: E -> Path, a: seq<E>, m: map<Path, E>)
    requires Lists(o, key, a, m)
    ensures a == [] <==> m == map[]
  {
    if a != [] {
      assert key(a[0]) in m;
    }
  }

  lemma FirstIsFirst<E(!new)>(o: Order, key: E -> Path, a: seq<E>, b: seq<E>, m: map<Path, E>)
    requires Lists(o, key, a, m) && Lists(o, key, b, m) && a != [] && b != []
    ensures a[0] == b[0]
  {
    assert m[key(b[0])] in a && m[key(a[0])] in b;
    var i :| 0 <= i < |a| && a[i] == b[0];
    var j :| 0 <= j < |b| && b[j] == a[0];
    assert i > 0 ==> Precedes(o, key(a[0]), key(b[0]));
    assert j > 0 ==> Precedes(o, key(b[0]), key(a[0]));
    if i > 0 {
      PrecedesAsymmetric(o, key(a[0]), key(b[0]));
    }
  }

  lemma TailLists<E(!new)>(o: Order, key: E -> Path, a: seq<E>, m: map<Path, E>)
    requires Lists(o, key, a, m) && a != []
    ensures Lists(o, key, a[1..], m - {key(a[0])})
  {
    forall i | 1 <= i < |a| ensures key(a[i]) != key(a[0]) {
      PrecedesAsymmetric(o, key(a[0]), key(a[i]));
    }
    forall p | p in m - {key(a[0])} ensures m[p] in a[1..] {
      var i :| 0 <= i < |a| && a[i] == m[p];
      assert a[1..][i - 1] == m[p];
    }
  }

  /** The reverse of an ascending listing is the descending one. */
  lemma ReverseLists<E(!new)>(key: E -> Path, a: seq<E>, m: map<Path, E>)
    requires Lists(Up, key, a, m)
    ensures Lists(Down, key, Reverse(a), m)
  {
    forall i | 0 <= i < |a| ensures Reverse(a)[i] == a[|a| - 1 - i] {
      ReverseAt(a, i);
    }
    forall p | p in m ensures key(m[p]) == p && m[p] in Reverse(a) {
      var i :| 0 <= i < |a| && a[i] == m[p];
      assert Reverse(a)[|a| - 1 - i] == a[i];
    }
  }

  /** The traversal with a stack lists a tree in exactly the reverse of the recursive order. */
  lemma LoopReversesRecursive<E(!new)>(key: E -> Path, rec: seq<E>, loop: seq<E>, m: map<Path, E>)
    requires Lists(Up, key, rec, m) && Lists(Down, key, loop, m)
    ensures loop == Reverse(rec) && multiset(loop) == multiset(rec)
  {
    ReverseLists(key, rec, m);
    ListingUnique(Down, key, loop, Reverse(rec), m);
    ReversePermutes(rec);
  }

  /** Compares entries by the character after a prefix of length n. */
  function NextCompare<E(!new)>(key: E -> Path, n: nat): (E, E) -> CompResult {
    (a: E, b: E) => CompFunc(NextChar(key(a), n), NextChar(key(b), n))
  }

  function NextChar(p: Path, n: nat): int {
    if n < |p| then p[n] else 0
  }

  ghost function WithNext<E(!new)>(key: E -> Path, n: nat, x: E, m: map<Path, E>): map<Path, E> {
    map p | p in m && NextChar(key(x), n) == NextChar(p, n) :: m[p]
  }

  lemma {:induction false} NextLists<E(!new)>(
    key: E -> Path, n: nat, tr: int, up: bool, x: E, a: seq<E>, m: map<Path, E>)
    requires Lists(Query(n, tr, up), key, a, m)
    ensures Lists(if up then Up else Down, key, Class(NextCompare(key, n), x, a), WithNext(key, n, x, m))
  {
    hide Lists, Precedes, WithNext;
    var cmp, o := NextCompare(key, n), if up then Up else Down;
    EmptyListing(Query(n, tr, up), key, a, m);
    if a == [] {
      assert WithNext(key, n, x, m) == map[] by {
        WithNextSmaller(key, n, x, m);
      }
      ListsNothing(o, key);
    } else {
      var k, rest := key(a[0]), m - {key(a[0])};
      HeadListed(Query(n, tr, up), key, a, m);
      TailLists(Query(n, tr, up), key, a, m);
      NextLists(key, n, tr, up, x, a[1..], rest);
      if cmp(x, a[0]) == Equal {
        ListsSingle(o, key, a[0]);
        WithNextSmaller(key, n, x, rest);
        forall p | p in WithNext(key, n, x, rest) ensures Precedes(o, k, p) {
          SameNextPrecedes(n, tr, up, k, p);
        }
        ListsAppend(o, key, [a[0]], map[k := a[0]], Class(cmp, x, a[1..]), WithNext(key, n, x, rest));
      }
      WithNextHead(key, n, x, m, k);
    }
  }

  lemma WithNextSmaller<E(!new)>(key: E -> Path, n: nat, x: E, m: map<Path, E>)
    ensures WithNext(key, n, x, m).Keys <= m.Keys
    ensures forall p :: p in WithNext(key, n, x, m) ==> NextChar(key(x), n) == NextChar(p, n)
  {
  }

  lemma WithNextHead<E(!new)>(key: E -> Path, n: nat, x: E, m: map<Path, E>, k: Path)
    requires k in m
    ensures WithNext(key, n, x, m) ==
      if NextChar(key(x), n) == NextChar(k, n) then map[k := m[k]] + WithNext(key, n, x, m - {k})
      else WithNext(key, n, x, m - {k})
  {
  }

  lemma SameNextPrecedes(n: nat, tr: int, up: bool, p: Path, q: Path)
    requires Precedes(Query(n, tr, up), p, q) && NextChar(p, n) == NextChar(q, n)
    ensures Precedes(if up then Up else Down, p, q)
  {
  }

  lemma ListsNothing<E(!new)>(o: Order, key: E -> Path)
    ensures Lists(o, key, [], map[])
  {
  }

  lemma ListsSingle<E(!new)>(o: Order, key: E -> Path, e: E)
    ensures Lists(o, key, [e], map[key(e) := e])
  {
  }

  lemma HeadListed<E(!new)>(o: Order, key: E -> Path, a: seq<E>, m: map<Path, E>)
    requires Lists(o, key, a, m) && a != []
    ensures key(a[0]) in m && m[key(a[0])] == a[0]
    ensures forall p :: p in m && p != key(a[0]) ==> Precedes(o, key(a[0]), p)
  {
  }

  /** The characters after the prefix, entry by entry. */
  function Nexts<E(!new)>(key: E -> Path, n: nat, list: seq<E>): (r: seq<int>)
    ensures |r| == |list|
  {
    Mapped((e: E) => NextChar(key(e), n), list)
  }

  /** The terminator first, then ascending. */
  function NextOrder(tr: int): (int, int) -> CompResult {
    (x: int, y: int) =>
      if x == y then Equal else if x == tr then LessThan else if y == tr then GreaterThan else CompFunc(x, y)
  }

  lemma NextsSorted<E(!new)>(key: E -> Path, n: nat, tr: int, up: bool, a: seq<E>, m: map<Path, E>)
    requires Lists(Query(n, tr, up), key, a, m)
    ensures Sorted(NextOrder(tr), Nexts(key, n, a))
  {
    forall i, j | 0 <= i < j < |a| ensures AtMost(NextOrder(tr), Nexts(key, n, a)[i], Nexts(key, n, a)[j]) {
      assert Precedes(Query(n, tr, up), key(a[i]), key(a[j]));
    }
  }

  /** FindAll's two modes: entry by entry the next characters are the same, the exact match in front;
      inside each next character's subtree one list is exactly the reverse of the other. */
  lemma QueryModes<E(!new)>(key: E -> Path, n: nat, tr: int, rec: seq<E>, loop: seq<E>, m: map<Path, E>)
    requires Lists(Query(n, tr, true), key, rec, m) && Lists(Query(n, tr, false), key, loop, m)
    ensures multiset(loop) == multiset(rec) && Nexts(key, n, loop) == Nexts(key, n, rec)
    ensures forall x :: Class(NextCompare(key, n), x, loop) == Reverse(Class(NextCompare(key, n), x, rec))
  {
    hide Lists;
    var cmp := NextCompare(key, n);
    forall x ensures Class(cmp, x, loop) == Reverse(Class(cmp, x, rec)) {
      NextLists(key, n, tr, true, x, rec, m);
      NextLists(key, n, tr, false, x, loop, m);
      LoopReversesRecursive(key, Class(cmp, x, rec), Class(cmp, x, loop), WithNext(key, n, x, m));
    }
    forall x ensures multiset(Class(cmp, x, loop)) == multiset(Class(cmp, x, rec)) {
      ReversePermutes(Class(cmp, x, rec));
    }
    ClassesPermute(cmp, loop, rec);
    MappedPermutes((e: E) => NextChar(key(e), n), loop, rec);
    NextsSorted(key, n, tr, true, rec, m);
    NextsSorted(key, n, tr, false, loop, m);
    SortedPermutationUnique(NextOrder(tr), Nexts(key, n, loop), Nexts(key, n, rec));
  }

  // ---------- parts of a dictionary ----------

  ghost function Under<E(!new)>(m: map<Path, E>, p: Path): map<Path, E> {
    map q | q in m && p <= q :: m[q]
  }

  ghost predicate UnderOne(ps: seq<Path>, q: Path) {
    exists i :: 0 <= i < |ps| && ps[i] <= q
  }

  ghost function UnderAll<E(!new)>(m: map<Path, E>, ps: seq<Path>): map<Path, E> {
    map q | q in m && UnderOne(ps, q) :: m[q]
  }

  lemma UnderMore(ps: seq<Path>, p: Path, q: Path)
    ensures UnderOne(ps + [p], q) <==> UnderOne(ps, q) || p <= q
  {
    var qs := ps + [p];
    if UnderOne(ps, q) {
      var i :| 0 <= i < |ps| && ps[i] <= q;
      assert qs[i] <= q;
    }
    if p <= q {
      assert qs[|ps|] <= q;
    }
  }

  /** Listing one more subtree behind what is listed already. */
  lemma ListMore<E(!new)>(o: Order, key: E -> Path, m: map<Path, E>, ps: seq<Path>, t: seq<E>, p: Path, u: seq<E>)
    requires Lists(o, key, t, UnderAll(m, ps)) && Lists(o, key, u, Under(m, p))
    requires forall i :: 0 <= i < |ps| ==> Before(o, ps[i], p)
    ensures Lists(o, key, t + u, UnderAll(m, ps + [p]))
  {
    hide Precedes, Lists;
    forall a, b | a in UnderAll(m, ps) && b in Under(m, p) ensures Precedes(o, a, b) {
      var i :| 0 <= i < |ps| && ps[i] <= a;
      assert Before(o, ps[i], p);
    }
    ListsAppend(o, key, t, UnderAll(m, ps), u, Under(m, p));
    forall q ensures UnderOne(ps + [p], q) <==> UnderOne(ps, q) || p <= q {
      UnderMore(ps, p, q);
    }
    assert UnderAll(m, ps + [p]) == UnderAll(m, ps) + Under(m, p) by {
      hide UnderOne;
    }
  }

  /** Everything from p on comes before everything from q on. */
  ghost predicate Before(o: Order, p: Path, q: Path) {
    forall a, b :: p <= a && q <= b ==> Precedes(o, a, b)
  }

  lemma UpBefore(p: Path, x: int, y: int)
    requires x < y
    ensures Before(Up, Ext(p, x), Ext(p, y))
  {
    LexSiblings(p, x, y);
    forall a, b | Ext(p, x) <= a && Ext(p, y) <= b ensures Precedes(Up, a, b) {
      LexExtends(Ext(p, x), Ext(p, y), a, b);
    }
  }

  lemma QueryBefore(p: Path, x: int, y: int, tr: int, up: bool)
    requires (x == tr && y != tr) || (x != tr && y != tr && x < y)
    ensures Before(Query(|p|, tr, up), Ext(p, x), Ext(p, y))
  {
    forall a, b | Ext(p, x) <= a && Ext(p, y) <= b ensures Precedes(Query(|p|, tr, up), a, b) {
      assert a[|p|] == Ext(p, x)[|p|] == x && b[|p|] == Ext(p, y)[|p|] == y;
    }
  }

  /** Inside one subtree the query order is the traversal's own. */
  lemma SubtreeInQuery<E(!new)>(key: E -> Path, t: seq<E>, m: map<Path, E>, p: Path, x: int, tr: int, up: bool)
    requires Lists(if up then Up else Down, key, t, Under(m, Ext(p, x))) && x != tr
    ensures Lists(Query(|p|, tr, up), key, t, Under(m, Ext(p, x)))
  {
    var o := if up then Up else Down;
    forall i, j | 0 <= i < j < |t| ensures Precedes(Query(|p|, tr, up), key(t[i]), key(t[j])) {
      assert Precedes(o, key(t[i]), key(t[j]));
      assert key(t[i])[|p|] == Ext(p, x)[|p|] && key(t[j])[|p|] == Ext(p, x)[|p|];
    }
  }

  lemma ListOne<E(!new)>(o: Order, key: E -> Path, m: map<Path, E>, p: Path)
    requires p in m && key(m[p]) == p && forall q :: q in m && p <= q ==> q == p
    ensures Lists(o, key, [m[p]], Under(m, p))
  {
  }

  lemma ListNone<E(!new)>(o: Order, key: E -> Path, m: map<Path, E>)
    ensures Lists(o, key, [], UnderAll(m, []))
  {
  }

  // ---------- the traversal with a stack ----------

  /** Top of stack last. */
  ghost predicate Ascending(ps: seq<Path>) {
    forall i, j :: 0 <= i < j < |ps| ==> LexLess(ps[i], ps[j])
  }

  /** The part of m below root that no stacked path covers. */
  ghost function Done<E(!new)>(m: map<Path, E>, root: Path, ps: seq<Path>): map<Path, E> {
    map q | q in m && root <= q && !UnderOne(ps, q) :: m[q]
  }

  /** Between two rounds: what is listed is what the stack does not cover, descending, and all of
      it lies behind what the stack covers. */
  ghost predicate LoopInv<E(!new)>(key: E -> Path, m: map<Path, E>, root: Path, ps: seq<Path>, t: seq<E>) {
    && Ascending(ps)
    && (forall i :: 0 <= i < |ps| ==> root <= ps[i])
    && Lists(Down, key, t, Done(m, root, ps))
    && forall i, q :: 0 <= i < |ps| && q in Done(m, root, ps) ==> LexLess(ps[i], q)
  }

  lemma LoopAscending<E(!new)>(key: E -> Path, m: map<Path, E>, root: Path, ps: seq<Path>, t: seq<E>)
    requires LoopInv(key, m, root, ps, t)
    ensures Ascending(ps)
  {
  }

  lemma LoopStart<E(!new)>(key: E -> Path, m: map<Path, E>, root: Path)
    ensures LoopInv(key, m, root, [root], [])
  {
    forall q ensures q !in Done(m, root, [root]) {
      assert root <= q ==> [root][0] <= q;
    }
  }

  lemma LoopEnd<E(!new)>(key: E -> Path, m: map<Path, E>, root: Path, t: seq<E>)
    requires LoopInv(key, m, root, [], t)
    ensures Lists(Down, key, t, Under(m, root))
  {
    assert Done(m, root, []) == Under(m, root);
  }

  lemma NotUnderSmaller(ps: seq<Path>, p: Path, q: Path)
    requires Ascending(ps + [p]) && p <= q
    ensures !UnderOne(ps, q)
  {
    forall i | 0 <= i < |ps| ensures !(ps[i] <= q) {
      assert (ps + [p])[i] == ps[i] && (ps + [p])[|ps|] == p;
      LexExtends(ps[i], p, ps[i], q);
      LexAsymmetric(ps[i], q);
    }
  }

  /** A popped leaf is listed. */
  lemma LoopEmit<E(!new)>(key: E -> Path, m: map<Path, E>, root: Path, ps: seq<Path>, p: Path, t: seq<E>)
    requires LoopInv(key, m, root, ps + [p], t)
    requires p in m && key(m[p]) == p && forall q :: q in m && p <= q ==> q == p
    ensures LoopInv(key, m, root, ps, t + [m[p]])
  {
    var qs := ps + [p];
    var was, now := Done(m, root, qs), Done(m, root, ps);
    assert qs[|ps|] == p;
    assert forall i :: 0 <= i < |ps| ==> qs[i] == ps[i];
    NotUnderSmaller(ps, p, p);
    forall q ensures q in now <==> q in was || q == p {
      UnderMore(ps, p, q);
    }
    assert now == was + map[p := m[p]];
    ListsAppend(Down, key, t, was, [m[p]], map[p := m[p]]);
  }

  /** A popped inner node is replaced by its children, which cover the same entries. */
  lemma LoopExpand<E(!new)>(
    key: E -> Path, m: map<Path, E>, root: Path, ps: seq<Path>, p: Path, kids: seq<Path>, t: seq<E>)
    requires LoopInv(key, m, root, ps + [p], t)
    requires Ascending(kids) && forall i :: 0 <= i < |kids| ==> p <= kids[i]
    requires forall q :: q in m ==> (UnderOne(kids, q) <==> p <= q)
    ensures LoopInv(key, m, root, ps + kids, t)
  {
    var qs, rs := ps + [p], ps + kids;
    assert qs[|ps|] == p;
    assert forall i :: 0 <= i < |ps| ==> qs[i] == ps[i] == rs[i];
    assert forall i :: |ps| <= i < |rs| ==> rs[i] == kids[i - |ps|];
    forall q | q in m ensures UnderOne(rs, q) <==> UnderOne(qs, q) {
      UnderMore(ps, p, q);
      UnderBoth(ps, kids, q);
    }
    assert Done(m, root, rs) == Done(m, root, qs);
    ExpandAscends(ps, p, kids);
    forall i, q | 0 <= i < |rs| && q in Done(m, root, rs) ensures LexLess(rs[i], q) {
      assert LexLess(qs[if i < |ps| then i else |ps|], q);
      if i >= |ps| {
        LexExtends(p, q, rs[i], q);
      }
    }
    forall i | 0 <= i < |rs| ensures root <= rs[i] {
      if i >= |ps| {
        assert root <= p && rs[i][..|p|] == p && rs[i][..|root|] == p[..|root|];
      }
    }
  }

  lemma UnderBoth(ps: seq<Path>, kids: seq<Path>, q: Path)
    ensures UnderOne(ps + kids, q) <==> UnderOne(ps, q) || UnderOne(kids, q)
  {
    var rs := ps + kids;
    if i :| 0 <= i < |rs| && rs[i] <= q {
      assert i < |ps| ==> ps[i] <= q;
      assert i >= |ps| ==> kids[i - |ps|] <= q;
    }
    if i :| 0 <= i < |ps| && ps[i] <= q {
      assert rs[i] <= q;
    }
    if i :| 0 <= i < |kids| && kids[i] <= q {
      assert rs[|ps| + i] <= q;
    }
  }

  lemma ExpandAscends(ps: seq<Path>, p: Path, kids: seq<Path>)
    requires Ascending(ps + [p]) && Ascending(kids)
    requires forall i :: 0 <= i < |kids| ==> p <= kids[i]
    ensures Ascending(ps + kids)
  {
    var qs, rs := ps + [p], ps + kids;
    forall i, j | 0 <= i < j < |rs| ensures LexLess(rs[i], rs[j]) {
      if j < |ps| {
        assert rs[i] == qs[i] && rs[j] == qs[j];
      } else if i < |ps| {
        assert rs[i] == qs[i] && qs[|ps|] == p && p <= rs[j];
        LexExtends(qs[i], p, rs[i], rs[j]);
      } else {
        assert rs[i] == kids[i - |ps|] && rs[j] == kids[j - |ps|];
      }
    }
  }

  ghost function Todo(s: set<Path>, ps: seq<Path>): set<Path> {
    set q | q in s && UnderOne(ps, q)
  }

  /** Every round leaves fewer paths to visit. */
  lemma TodoShrinks(s: set<Path>, ps: seq<Path>, p: Path, kids: seq<Path>)
    requires Ascending(ps + [p]) && p in s
    requires forall i :: 0 <= i < |kids| ==> p < kids[i]
    ensures Todo(s, ps + kids) < Todo(s, ps + [p])
  {
    forall q | UnderOne(ps + kids, q) ensures UnderOne(ps + [p], q) {
      UnderBoth(ps, kids, q);
      UnderMore(ps, p, q);
      if i :| 0 <= i < |kids| && kids[i] <= q {
        assert q[..|kids[i]|][..|p|] == p;
      }
    }
    UnderMore(ps, p, p);
    UnderBoth(ps, kids, p);
    NotUnderSmaller(ps, p, p);
    assert p in Todo(s, ps + [p]) && p !in Todo(s, ps + kids);
  }
}
