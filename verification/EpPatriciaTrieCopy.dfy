/** The deep copy of a Patricia trie (epPatriciaTrie.h). Copying a node appends the copied children;
    assigning to the copy appends them once more. The trees here are values: the source only reads
    the tree it copies. */
module EpPatriciaTrieCopy {
  import opened EpAlgorithm
  import opened EpPatriciaTrieSpec
  import opened EpPatriciaTrie

  /** A child list, front first. */
  datatype Kids<D> = Nil | Cons(head: Tree<D>, tail: Kids<D>)

  datatype Tree<D> = Leaf(c: int, str: Path, data: D) | Inner(c: int, kids: Kids<D>)

  function Append<D>(a: Kids<D>, b: Kids<D>): Kids<D> {
    match a
    case Nil => b
    case Cons(t, rest) => Cons(t, Append(rest, b))
  }

  /** What the loop of the copy constructor appends, which is also what the loop of operator= appends. */
  function Copied<D>(kids: Kids<D>): Kids<D> {
    match kids
    case Nil => Nil
    case Cons(t, rest) => Cons(CopiedChild(t), Copied(rest))
  }

  /** A child is copy constructed, and then the original is assigned to the copy. */
  function CopiedChild<D>(t: Tree<D>): Tree<D> {
    match t
    case Leaf(_, _, _) => t
    case Inner(c, kids) => Inner(c, Append(Copied(kids), Copied(kids)))
  }

  /** The copy of a trie: the original's root is assigned to a new root. */
  function CopiedTrie<D>(root: Tree<D>): Tree<D>
    requires root.Inner?
  {
    Inner(root.c, Copied(root.kids))
  }

  /** Every child list is strictly sorted. */
  predicate Ordered<D>(t: Tree<D>) {
    t.Inner? ==> OrderedKids(t.kids)
  }

  predicate OrderedKids<D>(kids: Kids<D>) {
    match kids
    case Nil => true
    case Cons(t, rest) => Ordered(t) && OrderedKids(rest) && (rest.Cons? ==> t.c < rest.head.c)
  }

  /** None of the nodes in the list has children. */
  predicate Flat<D>(kids: Kids<D>) {
    match kids
    case Nil => true
    case Cons(t, rest) => (t.Inner? ==> t.kids == Nil) && Flat(rest)
  }

  /** The copy of a trie in good order is in good order exactly when nothing lies deeper than the
      root's children, and then the copy equals the original. */
  lemma CopyOrderedIff<D>(root: Tree<D>)
    requires root.Inner? && Ordered(root)
    ensures Ordered(CopiedTrie(root)) <==> Flat(root.kids)
    ensures CopiedTrie(root) == root <==> Flat(root.kids)
  {
    CopiedKidsOrderedIff(root.kids);
  }

  lemma {:induction false} CopiedKidsOrderedIff<D>(kids: Kids<D>)
    requires OrderedKids(kids)
    ensures OrderedKids(Copied(kids)) <==> Flat(kids)
    ensures Copied(kids) == kids <==> Flat(kids)
  {
    if kids.Cons? {
      CopiedKidsOrderedIff(kids.tail);
      if kids.head.Inner? {
        DoubledOrderedIff(Copied(kids.head.kids));
      }
    }
  }

  lemma DoubledOrderedIff<D>(kids: Kids<D>)
    ensures OrderedKids(Append(kids, kids)) <==> kids == Nil
  {
    if kids.Cons? {
      OrderedFirst(kids, kids);
    }
  }

  lemma {:induction false} OrderedFirst<D>(a: Kids<D>, b: Kids<D>)
    requires a.Cons? && b.Cons?
    ensures OrderedKids(Append(a, b)) ==> a.head.c < b.head.c
  {
    assert Append(a, b) == Cons(a.head, Append(a.tail, b));
    if a.tail.Cons? {
      OrderedFirst(a.tail, b);
      assert Append(a.tail, b) == Cons(a.tail.head, Append(a.tail.tail, b));
    } else {
      assert Append(a.tail, b) == b;
    }
  }

  // ---------- how often a string is stored ----------

  function Count<D>(t: Tree<D>, s: Path): nat {
    match t
    case Leaf(_, str, _) => if str == s then 1 else 0
    case Inner(_, kids) => CountKids(kids, s)
  }

  function CountKids<D>(kids: Kids<D>, s: Path): nat {
    match kids
    case Nil => 0
    case Cons(t, rest) => Count(t, s) + CountKids(rest, s)
  }

  /** A leaf stands as deep as its string is long. */
  predicate Deep<D>(t: Tree<D>, d: nat) {
    match t
    case Leaf(_, str, _) => |str| == d
    case Inner(_, kids) => KidsDeep(kids, d + 1)
  }

  predicate KidsDeep<D>(kids: Kids<D>, d: nat) {
    match kids
    case Nil => true
    case Cons(t, rest) => Deep(t, d) && KidsDeep(rest, d)
  }

  function Pow2(n: nat): (r: nat)
    ensures r >= 1
  {
    if n == 0 then 1 else 2 * Pow2(n - 1)
  }

  /** The copy stores a string of length n, terminator included, 2^(n - 1) times. */
  lemma CopyCounts<D>(root: Tree<D>, s: Path)
    requires root.Inner? && Deep(root, 0) && s != []
    ensures Count(CopiedTrie(root), s) == Count(root, s) * Pow2(|s| - 1)
  {
    CopiedCount(root.kids, 1, s);
  }

  lemma {:induction false} CopiedCount<D>(kids: Kids<D>, d: nat, s: Path)
    requires KidsDeep(kids, d)
    ensures if |s| < d then CountKids(kids, s) == CountKids(Copied(kids), s) == 0
            else CountKids(Copied(kids), s) == CountKids(kids, s) * Pow2(|s| - d)
  {
    hide Pow2;
    if kids.Cons? {
      CopiedCount(kids.tail, d, s);
      var t := kids.head;
      if t.Inner? {
        CopiedCount(t.kids, d + 1, s);
        CountAppend(Copied(t.kids), Copied(t.kids), s);
      }
      ChildCount(t, d, s);
      Distribute(Count(t, s), CountKids(kids.tail, s), if d <= |s| then Pow2(|s| - d) else 0);
    }
  }

  lemma Distribute(x: nat, y: nat, p: nat)
    ensures (x + y) * p == x * p + y * p
  {
  }

  lemma ChildCount<D>(t: Tree<D>, d: nat, s: Path)
    requires Deep(t, d)
    requires t.Inner? ==> Count(CopiedChild(t), s) == 2 * CountKids(Copied(t.kids), s)
    requires t.Inner? ==> if |s| < d + 1 then CountKids(t.kids, s) == CountKids(Copied(t.kids), s) == 0
                          else CountKids(Copied(t.kids), s) == CountKids(t.kids, s) * Pow2(|s| - d - 1)
    ensures if |s| < d then Count(t, s) == Count(CopiedChild(t), s) == 0
            else Count(CopiedChild(t), s) == Count(t, s) * Pow2(|s| - d)
  {
  }

  lemma {:induction false} CountAppend<D>(a: Kids<D>, b: Kids<D>, s: Path)
    ensures CountKids(Append(a, b), s) == CountKids(a, s) + CountKids(b, s)
  {
    if a.Cons? {
      CountAppend(a.tail, b, s);
    }
  }

  // ---------- in which order the pairs are stored ----------

  /** The leaves from left to right. */
  function Pairs<D>(t: Tree<D>): seq<(Path, D)> {
    match t
    case Leaf(_, str, data) => [(str, data)]
    case Inner(_, kids) => PairsOf(kids)
  }

  function PairsOf<D>(kids: Kids<D>): seq<(Path, D)> {
    match kids
    case Nil => []
    case Cons(t, rest) => Pairs(t) + PairsOf(rest)
  }

  /** The leaves of an original tree, each inner node's said twice over. */
  function Echoed<D>(t: Tree<D>): seq<(Path, D)> {
    match t
    case Leaf(_, str, data) => [(str, data)]
    case Inner(_, kids) => EchoedAll(kids) + EchoedAll(kids)
  }

  function EchoedAll<D>(kids: Kids<D>): seq<(Path, D)> {
    match kids
    case Nil => []
    case Cons(t, rest) => Echoed(t) + EchoedAll(rest)
  }

  /** From left to right the copy holds the pairs of the original, those of every inner node below the
      root twice over. */
  lemma CopyPairs<D>(root: Tree<D>)
    requires root.Inner?
    ensures Pairs(CopiedTrie(root)) == EchoedAll(root.kids)
  {
    CopiedPairs(root.kids);
  }

  lemma {:induction false} CopiedPairs<D>(kids: Kids<D>)
    ensures PairsOf(Copied(kids)) == EchoedAll(kids)
  {
    if kids.Cons? {
      CopiedPairs(kids.tail);
      if kids.head.Inner? {
        CopiedPairs(kids.head.kids);
        PairsAppend(Copied(kids.head.kids), Copied(kids.head.kids));
      }
    }
  }

  lemma {:induction false} PairsAppend<D>(a: Kids<D>, b: Kids<D>)
    ensures PairsOf(Append(a, b)) == PairsOf(a) + PairsOf(b)
  {
    if a.Cons? {
      PairsAppend(a.tail, b);
    }
  }

  // ---------- the tree of a trie ----------

  /** The tree below a node. */
  ghost function TreeAt<C(!new), D(0,!new)>(t: PatriciaTrie<C, D>, n: Node<C, D>): (r: Tree<D>)
    requires t.Linked() && t.Owns(n)
    reads t, t.repr
    ensures r.c == t.rank(n.character) && r.Leaf? == n.isLeaf
    decreases PathsBelow(t.at.Keys, n.path), 1, 0
  {
    var c := t.rank(n.character);
    if n.isLeaf then Leaf(c, n.path, n.data) else Inner(c, KidsFrom(t, n, 0))
  }

  /** The trees of the children from i on. */
  ghost function KidsFrom<C(!new), D(0,!new)>(t: PatriciaTrie<C, D>, n: Node<C, D>, i: nat): (r: Kids<D>)
    requires t.Linked() && t.Owns(n) && i <= |n.charList|
    reads t, t.repr
    ensures r == Nil <==> i == |n.charList|
    decreases PathsBelow(t.at.Keys, n.path), 0, |n.charList| - i
  {
    if i == |n.charList| then Nil
    else
      t.KidAt(n, i);
      Cons(TreeAt(t, n.charList[i]), KidsFrom(t, n, i + 1))
  }

  /** A trie's tree is strictly sorted, and a leaf stands as deep as its string is long. */
  lemma {:induction false} TreeGood<C(!new), D(0,!new)>(t: PatriciaTrie<C, D>, n: Node<C, D>)
    requires t.Linked() && t.Owns(n)
    ensures Ordered(TreeAt(t, n)) && Deep(TreeAt(t, n), |n.path|)
    decreases PathsBelow(t.at.Keys, n.path), 1, 0
  {
    hide PatriciaTrie.Linked, OrderedKids, KidsDeep;
    if n.isLeaf {
      assert TreeAt(t, n) == Leaf(t.rank(n.character), n.path, n.data);
    } else {
      KidsGood(t, n, 0);
      assert TreeAt(t, n) == Inner(t.rank(n.character), KidsFrom(t, n, 0));
    }
  }

  lemma {:induction false} KidsGood<C(!new), D(0,!new)>(t: PatriciaTrie<C, D>, n: Node<C, D>, i: nat)
    requires t.Linked() && t.Owns(n) && i <= |n.charList|
    ensures OrderedKids(KidsFrom(t, n, i)) && KidsDeep(KidsFrom(t, n, i), |n.path| + 1)
    decreases PathsBelow(t.at.Keys, n.path), 0, |n.charList| - i
  {
    hide PatriciaTrie.Linked, Ordered, Deep, TreeAt;
    if i < |n.charList| {
      t.KidAt(n, i);
      TreeGood(t, n.charList[i]);
      KidsGood(t, n, i + 1);
      assert KidsFrom(t, n, i) == Cons(TreeAt(t, n.charList[i]), KidsFrom(t, n, i + 1));
      if i + 1 < |n.charList| {
        t.KidAt(n, i + 1);
        assert KidsFrom(t, n, i + 1).head == TreeAt(t, n.charList[i + 1]);
      }
    }
  }

  /** The tree holds each stored string below the node once, and no other. */
  lemma {:induction false} TreeCounts<C(!new), D(0,!new)>(t: PatriciaTrie<C, D>, n: Node<C, D>, s: Path)
    requires t.Linked() && t.Owns(n)
    ensures Count(TreeAt(t, n), s) == if s in t.Dict() && n.path <= s then 1 else 0
    decreases PathsBelow(t.at.Keys, n.path), 1, 0
  {
    hide PatriciaTrie.Linked, PatriciaTrie.Dict;
    if n.isLeaf {
      t.LeafAlone(n);
    } else {
      KidsCount(t, n, 0, s);
      if s in t.Dict() {
        BelowSomeKid(t, n, s);
      }
    }
  }

  lemma BelowSomeKid<C(!new), D(0,!new)>(t: PatriciaTrie<C, D>, n: Node<C, D>, s: Path)
    requires t.Linked() && t.Owns(n) && !n.isLeaf && s in t.Dict()
    ensures UnderKid(n, 0, s) <==> n.path <= s
  {
    hide PatriciaTrie.Linked, PatriciaTrie.Dict;
    if n.path <= s {
      t.KidAbove(n, s);
      var j :| 0 <= j < |n.charList| && t.StackPaths(n.charList)[j] <= s;
      assert n.charList[j].path <= s;
    }
    if j :| 0 <= j < |n.charList| && n.charList[j].path <= s {
      t.KidAt(n, j);
      assert n.charList[j].path[..|n.path|] == n.path;
    }
  }

  ghost predicate UnderKid<C(!new), D(0,!new)>(n: Node<C, D>, i: nat, s: Path)
    reads n
  {
    exists j :: i <= j < |n.charList| && n.charList[j].path <= s
  }

  lemma {:induction false} KidsCount<C(!new), D(0,!new)>(t: PatriciaTrie<C, D>, n: Node<C, D>, i: nat, s: Path)
    requires t.Linked() && t.Owns(n) && i <= |n.charList|
    ensures CountKids(KidsFrom(t, n, i), s) == if s in t.Dict() && UnderKid(n, i, s) then 1 else 0
    decreases PathsBelow(t.at.Keys, n.path), 0, |n.charList| - i
  {
    hide PatriciaTrie.Linked, PatriciaTrie.Dict;
    if i < |n.charList| {
      t.KidAt(n, i);
      TreeCounts(t, n.charList[i], s);
      KidsCount(t, n, i + 1, s);
      KidsApart(t, n, i, s);
    }
  }

  lemma KidsApart<C(!new), D(0,!new)>(t: PatriciaTrie<C, D>, n: Node<C, D>, i: nat, s: Path)
    requires t.Linked() && t.Owns(n) && i < |n.charList|
    ensures n.charList[i].path <= s ==> !UnderKid(n, i + 1, s)
    ensures UnderKid(n, i, s) <==> n.charList[i].path <= s || UnderKid(n, i + 1, s)
  {
    hide PatriciaTrie.Linked;
    forall j | i < j < |n.charList| ensures !(n.charList[i].path <= s && n.charList[j].path <= s) {
      t.KidAt(n, j);
      var p, q := n.charList[i].path, n.charList[j].path;
      assert p[|n.path|] != q[|n.path|];
      assert p <= s ==> s[|n.path|] == p[|n.path|];
      assert q <= s ==> s[|n.path|] == q[|n.path|];
    }
  }

  lemma {:induction false} FlatFrom<C(!new), D(0,!new)>(t: PatriciaTrie<C, D>, n: Node<C, D>, i: nat)
    requires t.Linked() && t.Owns(n) && i <= |n.charList|
    ensures Flat(KidsFrom(t, n, i))
            <==> forall j :: i <= j < |n.charList| ==> n.charList[j].isLeaf || n.charList[j].charList == []
    decreases |n.charList| - i
  {
    hide PatriciaTrie.Linked;
    if i < |n.charList| {
      t.KidAt(n, i);
      FlatFrom(t, n, i + 1);
    }
  }

  /** In a trie in good order, the root's children are all leaves exactly when no string but the empty
      one is stored. */
  lemma FlatIff<C(!new), D(0,!new)>(t: PatriciaTrie<C, D>)
    requires t.Valid() && t.Owns(t.root) && t.root.path == []
    ensures Flat(KidsFrom(t, t.root, 0)) <==> forall s :: s in t.Dict() ==> |s| == 1
  {
    hide PatriciaTrie.Linked, PatriciaTrie.Dict, Pruned, Flat;
    FlatFrom(t, t.root, 0);
    if s :| s in t.Dict() && |s| != 1 {
      LongStringBelow(t, s);
    } else {
      forall i | 0 <= i < |t.root.charList| ensures t.root.charList[i].isLeaf {
        OnlyLeaves(t, i);
      }
    }
  }

  lemma OnlyLeaves<C(!new), D(0,!new)>(t: PatriciaTrie<C, D>, i: nat)
    requires t.Valid() && t.Owns(t.root) && t.root.path == [] && i < |t.root.charList|
    requires forall s :: s in t.Dict() ==> |s| == 1
    ensures t.root.charList[i].isLeaf
  {
    hide PatriciaTrie.Linked, PatriciaTrie.Dict, Pruned;
    var n := t.root.charList[i];
    t.KidAt(t.root, i);
    t.DictKeys();
    t.NodeLeaf(n);
    var s := LeafBelow(t.rank(t.terminator), t.at.Keys, n.path);
    assert s in t.Dict() && s[..1] == n.path && s[..1] == s;
  }

  lemma LongStringBelow<C(!new), D(0,!new)>(t: PatriciaTrie<C, D>, s: Path)
    requires t.Valid() && t.Owns(t.root) && t.root.path == [] && s in t.Dict() && |s| != 1
    ensures exists i :: 0 <= i < |t.root.charList| && !t.root.charList[i].isLeaf && t.root.charList[i].charList != []
  {
    hide PatriciaTrie.Linked, PatriciaTrie.Dict, Pruned, Closed, LeafPath;
    LongStringPrefixes(t, s);
    var i := t.KidFor(t.root, s[0]);
    t.KidAt(t.root, i);
    var n := t.root.charList[i];
    t.NodeLeaf(n);
    var j := t.KidFor(n, s[1]);
  }

  lemma LongStringPrefixes<C(!new), D(0,!new)>(t: PatriciaTrie<C, D>, s: Path)
    requires t.Linked() && s in t.Dict() && |s| != 1
    ensures |s| >= 2 && s[..1] == Ext([], s[0]) && s[..2] == Ext(s[..1], s[1])
    ensures s[..1] in t.at && s[..2] in t.at && !LeafPath(t.rank(t.terminator), s[..1])
  {
    hide PatriciaTrie.Linked, PatriciaTrie.Dict, Closed;
    t.DictKeys();
    t.LinkedClosed();
    PrefixIn(t.rank(t.terminator), t.at.Keys, s, 1);
    PrefixIn(t.rank(t.terminator), t.at.Keys, s, 2);
  }

  // ---------- the copy of a trie ----------

  /** What copying the trie makes. */
  ghost function CopyOf<C(!new), D(0,!new)>(t: PatriciaTrie<C, D>): Tree<D>
    requires t.Valid()
    reads t, t.repr
  {
    RootStands(t);
    CopiedTrie(TreeAt(t, t.root))
  }

  lemma RootStands<C(!new), D(0,!new)>(t: PatriciaTrie<C, D>)
    requires t.Linked()
    ensures t.Owns(t.root) && t.root.path == [] && !t.root.isLeaf
  {
    hide PatriciaTrie.Linked;
    t.AtRoot([]);
    assert t.OnPath(t.root, [], 0);
  }

  /** The copy of a valid trie is in good order exactly when no string but the empty one is stored. */
  lemma CopyOfGoodIff<C(!new), D(0,!new)>(t: PatriciaTrie<C, D>)
    requires t.Valid()
    ensures Ordered(CopyOf(t)) <==> forall s :: s in t.Dict() ==> |s| == 1
  {
    hide PatriciaTrie.Linked, PatriciaTrie.Dict, Flat, Ordered, CopiedTrie;
    RootStands(t);
    TreeGood(t, t.root);
    CopyOrderedIff(TreeAt(t, t.root));
    FlatIff(t);
  }

  /** The copy of a valid trie holds a stored string of length n, terminator included, 2^(n - 1) times,
      and no other string. */
  lemma CopyOfCounts<C(!new), D(0,!new)>(t: PatriciaTrie<C, D>, s: Path)
    requires t.Valid() && s != []
    ensures Count(CopyOf(t), s) == if s in t.Dict() then Pow2(|s| - 1) else 0
  {
    hide PatriciaTrie.Linked, PatriciaTrie.Dict, Count, CopiedTrie;
    RootStands(t);
    TreeGood(t, t.root);
    TreeCounts(t, t.root, s);
    CopyCounts(TreeAt(t, t.root), s);
  }

  /** A trie with a string of one character: its copy is out of order and holds the string twice. */
  method CopyFails<C(!new), D(0,!new)>(rank: C -> int, terminator: C, mode: PatriciaTrieMode, c: C, data: D)
    returns (t: PatriciaTrie<C, D>)
    requires rank(c) != rank(terminator)
    ensures fresh(t) && t.Valid() && !Ordered(CopyOf(t)) && Count(CopyOf(t), [rank(c), rank(terminator)]) == 2
  {
    hide PatriciaTrie.Valid, PatriciaTrie.Linked, PatriciaTrie.Dict, Ordered, Count;
    t := new PatriciaTrie(rank, terminator, mode);
    var s := [c, terminator];
    ghost var k := [rank(c), rank(terminator)];
    assert Ranks(rank, s) == k && k[..1] == [rank(c)];
    var r := t.Insert(Some(s), data);
    assert k in t.Dict() && |k| == 2;
    CopyOfGoodIff(t);
    CopyOfCounts(t, k);
    assert Pow2(1) == 2 * Pow2(0);
  }
}
