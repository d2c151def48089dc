/** The Patricia trie (epPatriciaTrie.h): nodes on the heap, child lists changed in place.
    CharacterType is an integral type, because the terminator is a template argument, so every
    compare function that is a total preorder compares some rank of the characters. */
module EpPatriciaTrie {
  import opened EpAlgorithm
  import opened EpBinarySearch
  import opened EpPatriciaTrieSpec

  datatype PatriciaTrieMode = Recursive | Loop

  function Ranks<C>(rank: C -> int, s: seq<C>): (r: Path)
    ensures |r| == |s|
  {
    Mapped(rank, s)
  }

  /** A terminated string: the buffer up to and including its first terminator, and no further.
      An index into it past the terminator would be out of bounds. */
  predicate Terminated<C>(rank: C -> int, terminator: C, s: seq<C>) {
    IsKey(rank(terminator), Ranks(rank, s))
  }

  /** Inner node and leaf in one class; isLeaf tells which. path is the ranks of the characters
      from the root to this node. */
  class Node<C(!new), D(0,!new)> {
    const character: C
    const isLeaf: bool
    const str: seq<C>
    var data: D
    var charList: seq<Node<C, D>>
    ghost const path: Path

    constructor Inner(c: C, ghost path: Path)
      ensures character == c && !isLeaf && charList == [] && this.path == path
    {
      character, isLeaf, str, charList := c, false, [], [];
      this.path := path;
    }

    /** The leaf copies the string up to the terminator. */
    constructor Leaf(rank: C -> int, terminator: C, s: seq<C>, data: D)
      requires Terminated(rank, terminator, s)
      ensures character == terminator && isLeaf && charList == []
      ensures str == s[..|s| - 1] + [terminator] && this.data == data
      ensures path == Ranks(rank, str) == Ranks(rank, s)
    {
      var copied: seq<C> := [];
      var trav := 0;
      while rank(s[trav]) != rank(terminator)
        invariant 0 <= trav < |s| && copied == s[..trav]
        decreases |s| - trav
      {
        LastTerminator(rank, terminator, s, trav);
        copied := copied + [s[trav]];
        trav := trav + 1;
      }
      LastTerminator(rank, terminator, s, trav);
      copied := copied + [terminator];
      assert Ranks(rank, copied) == Ranks(rank, s);
      character, isLeaf, str, charList := terminator, true, copied, [];
      this.data := data;
      path := Ranks(rank, copied);
    }
  }

  lemma LastTerminator<C>(rank: C -> int, terminator: C, s: seq<C>, i: nat)
    requires Terminated(rank, terminator, s) && i < |s|
    ensures rank(s[i]) == rank(terminator) <==> i == |s| - 1
  {
    assert Ranks(rank, s)[i] == rank(s[i]);
    assert i < |s| - 1 ==> Ranks(rank, s)[..|s| - 1][i] == rank(s[i]);
  }

  // ---------- what links the nodes ----------

  ghost predicate ChildOk<C(!new), D(0,!new)>(rank: C -> int, at: map<Path, Node<C, D>>, p: Path, n: Node<C, D>) {
    n.path == Ext(p, rank(n.character)) && n.path in at && at[n.path] == n
  }

  /** The list holds exactly the children of p, strictly sorted by character. */
  ghost predicate ListOk<C(!new), D(0,!new)>(
    rank: C -> int, at: map<Path, Node<C, D>>, p: Path, list: seq<Node<C, D>>) {
    && (forall i :: 0 <= i < |list| ==> ChildOk(rank, at, p, list[i]))
    && (forall i, j :: 0 <= i < j < |list| ==> rank(list[i].character) < rank(list[j].character))
    && (forall x :: Ext(p, x) in at ==> at[Ext(p, x)] in list && at[Ext(p, x)].path == Ext(p, x))
  }

  /** What never changes about the node at p. */
  ghost predicate NodeFixed<C(!new), D(0,!new)>(rank: C -> int, terminator: C, p: Path, n: Node<C, D>) {
    && n.path == p
    && (n.isLeaf <==> LeafPath(rank(terminator), p))
    && (p != [] ==> rank(n.character) == p[|p| - 1])
    && (n.isLeaf ==> Ranks(rank, n.str) == p && n.str[|n.str| - 1] == terminator)
  }

  ghost predicate NodeOk<C(!new), D(0,!new)>(rank: C -> int, terminator: C, at: map<Path, Node<C, D>>, p: Path)
    requires p in at
    reads at[p]
  {
    NodeFixed(rank, terminator, p, at[p]) && ListOk(rank, at, p, at[p].charList)
  }

  lemma ExtInjective(p: Path, x: int, q: Path, y: int)
    requires Ext(p, x) == Ext(q, y)
    ensures p == q && x == y
  {
    assert Ext(p, x)[..|p|] == p && Ext(q, y)[..|q|] == q;
  }

  lemma AddedClosed(tr: int, s: set<Path>, p: Path, x: int)
    requires Closed(tr, s) && p in s && !LeafPath(tr, p)
    ensures Closed(tr, s + {Ext(p, x)})
  {
    assert Ext(p, x)[..|p|] == p;
  }

  lemma NothingBelowAbsent(tr: int, s: set<Path>, p: Path, x: int)
    requires Closed(tr, s) && p !in s
    ensures Ext(p, x) !in s
  {
    assert Ext(p, x)[..|p|] == p;
  }

  lemma AddedListOk<C(!new), D(0,!new)>(
    rank: C -> int, at: map<Path, Node<C, D>>, p: Path, list: seq<Node<C, D>>, i: nat, r: Node<C, D>)
    requires ListOk(rank, at, p, list) && i <= |list|
    requires r.path == Ext(p, rank(r.character)) && r.path !in at
    requires forall j :: 0 <= j < i ==> rank(list[j].character) < rank(r.character)
    requires forall j :: i <= j < |list| ==> rank(r.character) < rank(list[j].character)
    ensures ListOk(rank, at[r.path := r], p, list[..i] + [r] + list[i..])
  {
    hide ChildOk;
    var at', list' := at[r.path := r], list[..i] + [r] + list[i..];
    assert forall j :: 0 <= j < |list'| ==> list'[j] == if j == i then r else list[if j < i then j else j - 1];
    forall j | 0 <= j < |list'| ensures ChildOk(rank, at', p, list'[j]) {
      ChildStays(rank, at, p, if j == i then r else list[if j < i then j else j - 1], r);
    }
    forall x | Ext(p, x) in at' ensures at'[Ext(p, x)] in list' && at'[Ext(p, x)].path == Ext(p, x) {
      if Ext(p, x) == r.path {
        assert list'[i] == r;
      } else {
        var j :| 0 <= j < |list| && list[j] == at[Ext(p, x)];
        assert list'[if j < i then j else j + 1] == list[j];
      }
    }
    AddedSorted(rank, list, i, r);
  }

  lemma ChildStays<C(!new), D(0,!new)>(rank: C -> int, at: map<Path, Node<C, D>>, p: Path, n: Node<C, D>, r: Node<C, D>)
    requires n == r || ChildOk(rank, at, p, n)
    requires r.path == Ext(p, rank(r.character)) && r.path !in at
    ensures ChildOk(rank, at[r.path := r], p, n)
  {
  }

  lemma AddedSorted<C(!new), D(0,!new)>(rank: C -> int, list: seq<Node<C, D>>, i: nat, r: Node<C, D>)
    requires i <= |list|
    requires forall j, k :: 0 <= j < k < |list| ==> rank(list[j].character) < rank(list[k].character)
    requires forall j :: 0 <= j < i ==> rank(list[j].character) < rank(r.character)
    requires forall j :: i <= j < |list| ==> rank(r.character) < rank(list[j].character)
    ensures var list' := list[..i] + [r] + list[i..];
      forall j, k :: 0 <= j < k < |list'| ==> rank(list'[j].character) < rank(list'[k].character)
  {
  }

  /** A new node has no children yet. */
  lemma EmptyListOk<C(!new), D(0,!new)>(rank: C -> int, tr: int, at: map<Path, Node<C, D>>, p: Path, r: Node<C, D>)
    requires Closed(tr, at.Keys) && r.path !in at && r.path == Ext(p, rank(r.character))
    ensures ListOk(rank, at[r.path := r], r.path, [])
  {
    forall x ensures Ext(r.path, x) !in at[r.path := r] {
      NothingBelowAbsent(tr, at.Keys, r.path, x);
    }
  }

  /** A root on its own is a tree. */
  lemma EmptyTree<C(!new), D(0,!new)>(rank: C -> int, terminator: C, r: Node<C, D>)
    requires r.path == [] && !r.isLeaf
    ensures var at := map[[] := r];
      && Closed(rank(terminator), at.Keys) && Pruned(rank(terminator), at.Keys)
      && NodeFixed(rank, terminator, [], r) && ListOk(rank, at, [], [])
  {
  }

  lemma OtherListOk<C(!new), D(0,!new)>(
    rank: C -> int, at: map<Path, Node<C, D>>, p: Path, list: seq<Node<C, D>>, q: Path, x: int, r: Node<C, D>)
    requires ListOk(rank, at, p, list) && q != p && Ext(q, x) !in at
    ensures ListOk(rank, at[Ext(q, x) := r], p, list)
  {
    forall y | Ext(p, y) in at[Ext(q, x) := r] ensures Ext(p, y) != Ext(q, x) {
      if Ext(p, y) == Ext(q, x) {
        ExtInjective(p, y, q, x);
      }
    }
  }

  lemma RemovedListOk<C(!new), D(0,!new)>(
    rank: C -> int, at: map<Path, Node<C, D>>, p: Path, list: seq<Node<C, D>>, i: nat)
    requires ListOk(rank, at, p, list) && i < |list|
    ensures ListOk(rank, at - {list[i].path}, p, list[..i] + list[i + 1..])
  {
    hide ChildOk;
    var k := list[i].path;
    var at', list' := at - {k}, list[..i] + list[i + 1..];
    assert forall j :: 0 <= j < |list'| ==> list'[j] == list[if j < i then j else j + 1];
    forall j | 0 <= j < |list'| ensures ChildOk(rank, at', p, list'[j]) {
      SiblingStays(rank, at, p, list, i, if j < i then j else j + 1);
    }
    forall x | Ext(p, x) in at' ensures at'[Ext(p, x)] in list' && at'[Ext(p, x)].path == Ext(p, x) {
      var j :| 0 <= j < |list| && list[j] == at[Ext(p, x)];
      assert list'[if j < i then j else j - 1] == list[j];
    }
  }

  lemma SiblingStays<C(!new), D(0,!new)>(
    rank: C -> int, at: map<Path, Node<C, D>>, p: Path, list: seq<Node<C, D>>, i: nat, j: nat)
    requires ListOk(rank, at, p, list) && i < |list| && j < |list| && i != j
    ensures ChildOk(rank, at - {list[i].path}, p, list[j])
  {
    assert ChildOk(rank, at, p, list[i]) && ChildOk(rank, at, p, list[j]);
    if list[j].path == list[i].path {
      ExtInjective(p, rank(list[j].character), p, rank(list[i].character));
    }
  }

  lemma OtherListKept<C(!new), D(0,!new)>(
    rank: C -> int, at: map<Path, Node<C, D>>, p: Path, list: seq<Node<C, D>>, q: Path, x: int)
    requires ListOk(rank, at, p, list) && q != p
    ensures ListOk(rank, at - {Ext(q, x)}, p, list)
  {
    forall i | 0 <= i < |list| ensures ChildOk(rank, at - {Ext(q, x)}, p, list[i]) {
      assert ChildOk(rank, at, p, list[i]);
      if list[i].path == Ext(q, x) {
        ExtInjective(p, rank(list[i].character), q, x);
      }
    }
  }

  function EntryKey<C, D>(rank: C -> int): ((seq<C>, D)) -> Path {
    (e: (seq<C>, D)) => Ranks(rank, e.0)
  }

  function NodeCompareFunc<C(!new), D(0,!new)>(rank: C -> int): (C, Node<C, D>) -> CompResult {
    (c: C, n: Node<C, D>) => CompFunc(rank(c), rank(n.character))
  }

  /** In a child list the search finds the child for c if there is one, and else its place. */
  lemma LocateList<C(!new), D(0,!new)>(rank: C -> int, at: map<Path, Node<C, D>>, p: Path, list: seq<Node<C, D>>, c: C)
    ensures ListOk(rank, at, p, list) ==>
      var (found, i) := Search(NodeCompareFunc(rank), c, list);
      && i <= |list|
      && (found <==> Ext(p, rank(c)) in at)
      && (found ==> i < |list| && list[i] == at[Ext(p, rank(c))])
      && (!found ==> forall j :: 0 <= j < i ==> rank(list[j].character) < rank(c))
      && (!found ==> forall j :: i <= j < |list| ==> rank(c) < rank(list[j].character))
  {
    if ListOk(rank, at, p, list) {
      var cmp := NodeCompareFunc<C, D>(rank);
      assert Ordered(cmp, c, list);
      SearchCorrect(cmp, c, list);
      var (found, i) := Search(cmp, c, list);
      if found {
        assert ChildOk(rank, at, p, list[i]);
      }
      if Ext(p, rank(c)) in at {
        var j :| 0 <= j < |list| && list[j] == at[Ext(p, rank(c))];
        assert ChildOk(rank, at, p, list[j]);
        ExtInjective(p, rank(list[j].character), p, rank(c));
        assert cmp(c, list[j]) == Equal;
      }
    }
  }

  lemma LeafKey<C>(rank: C -> int, terminator: C, s: seq<C>)
    requires Terminated(rank, terminator, s)
    ensures Ext(Ranks(rank, s)[..|s| - 1], rank(terminator)) == Ranks(rank, s)
    ensures LeafPath(rank(terminator), Ranks(rank, s))
  {
  }

  // ---------- the trie ----------

  class PatriciaTrie<C(!new), D(0,!new)> {
    const rank: C -> int
    const terminator: C
    const mode: PatriciaTrieMode
    var root: Node<C, D>
    var totalCount: int
    /** Every node by its path. */
    ghost var at: map<Path, Node<C, D>>
    ghost var repr: set<Node<C, D>>

    ghost predicate Linked()
      reads this`root, this`at, this`repr, repr
    {
      && Closed(rank(terminator), at.Keys)
      && at[[]] == root
      && forall p :: p in at ==> at[p] in repr && NodeOk(rank, terminator, at, p)
    }

    /** The stored strings with their data, by path. */
    ghost function Dict(): map<Path, (seq<C>, D)>
      reads this`at, this`repr, repr
    {
      map p | p in at && at[p].isLeaf && at[p] in repr :: (at[p].str, at[p].data)
    }

    ghost predicate Valid()
      reads this, repr
    {
      Linked() && Pruned(rank(terminator), at.Keys) && totalCount == |Dict()|
    }

    ghost predicate Owns(n: Node<C, D>)
      reads this
    {
      n.path in at && at[n.path] == n && n in repr
    }

    constructor (rank: C -> int, terminator: C, mode: PatriciaTrieMode)
      ensures Valid() && Dict() == map[]
      ensures this.rank == rank && this.terminator == terminator && this.mode == mode
      ensures fresh(repr)
    {
      this.rank, this.terminator, this.mode := rank, terminator, mode;
      totalCount := 0;
      root := new Node.Inner(terminator, []);
      new;
      hide Closed, Pruned, ListOk, NodeFixed, LeafPath;
      at, repr := map[[] := root], {root};
      EmptyTree(rank, terminator, root);
      assert Dict() == map[];
    }

    /** The binary search over a child list, shared by the four list operations. */
    method Locate(n: Node<C, D>, c: C) returns (found: bool, retIdx: nat)
      requires Linked() && Owns(n)
      ensures retIdx <= |n.charList|
      ensures found <==> Ext(n.path, rank(c)) in at
      ensures found ==> retIdx < |n.charList| && n.charList[retIdx] == at[Ext(n.path, rank(c))]
      ensures !found ==> forall j :: 0 <= j < retIdx ==> rank(n.charList[j].character) < rank(c)
      ensures !found ==> forall j :: retIdx <= j < |n.charList| ==> rank(c) < rank(n.charList[j].character)
    {
      LocateList(rank, at, n.path, n.charList, c);
      assert NodeOk(rank, terminator, at, n.path);
      found, retIdx := BinarySearch(NodeCompareFunc(rank), c, n.charList);
    }

    /** operator[] of a node: the child for a character. */
    method Child(n: Node<C, D>, c: C) returns (r: Node?<C, D>)
      requires Linked() && Owns(n)
      ensures r == null <==> Ext(n.path, rank(c)) !in at
      ensures r != null ==> r.path == Ext(n.path, rank(c)) && Owns(r)
    {
      if |n.charList| > 0 {
        var found, retIdx := Locate(n, c);
        if found {
          assert NodeOk(rank, terminator, at, Ext(n.path, rank(c)));
          return n.charList[retIdx];
        }
      } else {
        assert NodeOk(rank, terminator, at, n.path);
      }
      return null;
    }

    method AddNode(n: Node<C, D>, c: C) returns (r: Node?<C, D>)
      requires Linked() && Owns(n) && !n.isLeaf && rank(c) != rank(terminator)
      modifies this`at, this`repr, n`charList
      ensures Linked()
      ensures repr == old(repr) + (if r == null then {} else {r})
      ensures var k := Ext(n.path, rank(c));
        if k in old(at) then r == null && at == old(at) && n.charList == old(n.charList)
        else r != null && fresh(r) && r.path == k && at == old(at)[k := r]
    {
      hide Linked;
      var found, retIdx := Locate(n, c);
      if found {
        return null;
      }
      var newNode := new Node<C, D>.Inner(c, Ext(n.path, rank(c)));
      Attach(n, retIdx, newNode);
      r := newNode;
    }

    method AddLeaf(n: Node<C, D>, str: seq<C>, data: D) returns (r: Node?<C, D>)
      requires Linked() && Owns(n) && !n.isLeaf
      requires Str(str) && str != [] && n.path == Key(str)[..|str| - 1]
      modifies this`at, this`repr, n`charList
      ensures Linked()
      ensures repr == old(repr) + (if r == null then {} else {r})
      ensures var k := Key(str);
        if k in old(at) then r == null && at == old(at) && n.charList == old(n.charList)
        else r != null && fresh(r) && r.path == k && at == old(at)[k := r]
             && LeafOf(r, str) && r.data == data
    {
      hide Terminated, Ranks, Linked;
      LeafKey(rank, terminator, str);
      var found, retIdx := Locate(n, terminator);
      if found {
        return null;
      }
      var newNode := new Node<C, D>.Leaf(rank, terminator, str, data);
      Attach(n, retIdx, newNode);
      r := newNode;
    }

    /** A node stands at one path only. */
    lemma Elsewhere(n: Node<C, D>)
      requires Linked()
      ensures forall p :: p in at && p != n.path ==> at[p] != n
    {
      hide ListOk, Closed;
      forall p | p in at && p != n.path ensures at[p] != n {
        assert NodeOk(rank, terminator, at, p);
      }
    }

    /** The insertion of a new node into a child list at the index the search returned. */
    method Attach(n: Node<C, D>, idx: nat, r: Node<C, D>)
      requires Linked() && Owns(n) && r !in repr && Attaching(n, idx, r)
      modifies this`at, this`repr, n`charList
      ensures Linked() && at == old(at)[r.path := r] && repr == old(repr) + {r}
    {
      hide ListOk, Closed, NodeFixed;
      ghost var was := at;
      Attachable(n, idx, r);
      n.charList := n.charList[..idx] + [r] + n.charList[idx..];
      at, repr := at[r.path := r], repr + {r};
      assert at.Keys == was.Keys + {r.path};
      forall p | p in at ensures NodeOk(rank, terminator, at, p) {
        if p != r.path {
          assert old(NodeOk(rank, terminator, was, p));
        }
      }
    }

    ghost predicate Attaching(n: Node<C, D>, idx: nat, r: Node<C, D>)
      reads this, n, r
    {
      && !n.isLeaf && idx <= |n.charList| && r != n
      && r.path == Ext(n.path, rank(r.character)) && r.path !in at && r.charList == []
      && NodeFixed(rank, terminator, r.path, r)
      && (forall j :: 0 <= j < idx ==> rank(n.charList[j].character) < rank(r.character))
      && (forall j :: idx <= j < |n.charList| ==> rank(r.character) < rank(n.charList[j].character))
    }

    /** What stays linked when the new node r joins the children of n. */
    lemma Attachable(n: Node<C, D>, idx: nat, r: Node<C, D>)
      requires Linked() && Owns(n) && Attaching(n, idx, r)
      ensures var now := at[r.path := r];
        && r.path != [] && Closed(rank(terminator), at.Keys + {r.path})
        && ListOk(rank, now, n.path, n.charList[..idx] + [r] + n.charList[idx..]) && ListOk(rank, now, r.path, [])
        && forall p :: p in at && p != n.path ==> at[p] != n && ListOk(rank, now, p, at[p].charList)
    {
      hide ListOk, Closed, LeafPath, NodeFixed;
      var x := rank(r.character);
      NodeLeaf(n);
      Elsewhere(n);
      assert NodeOk(rank, terminator, at, n.path);
      AddedListOk(rank, at, n.path, n.charList, idx, r);
      AddedClosed(rank(terminator), at.Keys, n.path, x);
      EmptyListOk(rank, rank(terminator), at, n.path, r);
      forall p | p in at && p != n.path ensures ListOk(rank, at[r.path := r], p, at[p].charList) {
        assert NodeOk(rank, terminator, at, p);
        OtherListOk(rank, at, p, at[p].charList, n.path, x, r);
      }
    }

    method RemoveNode(n: Node<C, D>, c: C) returns (r: bool)
      requires Linked() && Owns(n)
      modifies this`at, this`repr, n`charList
      ensures Linked()
      ensures var k := Ext(n.path, rank(c));
        && (r <==> k in old(at) && Removable(rank(terminator), old(at).Keys, k))
        && at == (if r then old(at) - {k} else old(at))
        && (!r ==> n.charList == old(n.charList)) && repr == old(repr)
    {
      ghost var k := Ext(n.path, rank(c));
      if |n.charList| > 0 {
        var found, retIdx := Locate(n, c);
        if found {
          var existNode := n.charList[retIdx];
          RemovableIff(existNode);
          if existNode.isLeaf {
            Detach(n, retIdx);
            return true;
          } else if |existNode.charList| == 0 {
            Detach(n, retIdx);
            return true;
          }
        }
      } else {
        assert NodeOk(rank, terminator, at, n.path);
      }
      return false;
    }

    /** A child list is empty exactly when no path goes on from its node. */
    lemma RemovableIff(n: Node<C, D>)
      requires Linked() && Owns(n)
      ensures Removable(rank(terminator), at.Keys, n.path) <==> n.isLeaf || n.charList == []
    {
      assert NodeOk(rank, terminator, at, n.path);
      if n.charList != [] {
        assert ChildOk(rank, at, n.path, n.charList[0]);
        assert HasChild(at.Keys, n.path);
      }
      if HasChild(at.Keys, n.path) {
        var x :| Ext(n.path, x) in at.Keys;
        assert at[Ext(n.path, x)] in n.charList;
      }
    }

    method Detach(n: Node<C, D>, idx: nat)
      requires Linked() && Owns(n) && idx < |n.charList|
      requires Removable(rank(terminator), at.Keys, n.charList[idx].path)
      modifies this`at, this`repr, n`charList
      ensures Linked() && at == old(at) - {old(n.charList[idx]).path} && repr == old(repr)
    {
      hide ListOk, Closed, NodeFixed, Removable, ChildOk;
      ghost var was, k := at, n.charList[idx].path;
      Detachable(n, idx);
      n.charList := n.charList[..idx] + n.charList[idx + 1..];
      at := at - {k};
      assert at.Keys == was.Keys - {k};
      forall p | p in at ensures at[p] in repr && NodeOk(rank, terminator, at, p) {
        assert at[p] == was[p] && was[p] in repr && old(NodeOk(rank, terminator, was, p));
        assert p != n.path ==> was[p] != n;
      }
      assert at[[]] == root;
    }

    /** What stays linked when the child at idx goes. */
    lemma Detachable(n: Node<C, D>, idx: nat)
      requires Linked() && Owns(n) && idx < |n.charList|
      requires Removable(rank(terminator), at.Keys, n.charList[idx].path)
      ensures var k := n.charList[idx].path;
        && k != [] && [] in at && Closed(rank(terminator), at.Keys - {k})
        && ListOk(rank, at - {k}, n.path, n.charList[..idx] + n.charList[idx + 1..])
        && forall p :: p in at && p != n.path ==> at[p] != n && ListOk(rank, at - {k}, p, at[p].charList)
    {
      var k, x := n.charList[idx].path, rank(n.charList[idx].character);
      assert NodeOk(rank, terminator, at, n.path);
      assert ChildOk(rank, at, n.path, n.charList[idx]);
      assert k == Ext(n.path, x) && [] in at;
      hide ListOk, ChildOk, Closed, LeafPath, NodeFixed, Removable, Ext;
      Elsewhere(n);
      RemovedListOk(rank, at, n.path, n.charList, idx);
      RemovedClosed(rank(terminator), at.Keys, k);
      forall p | p in at && p != n.path ensures ListOk(rank, at - {k}, p, at[p].charList) {
        assert NodeOk(rank, terminator, at, p);
        OtherListKept(rank, at, p, at[p].charList, n.path, x);
      }
    }

    // ---------- walking down a string ----------

    ghost predicate OnPath(n: Node<C, D>, str: seq<C>, i: nat)
      reads this
    {
      Owns(n) && i <= |str| && n.path == Key(str)[..i]
    }

    ghost predicate Str(str: seq<C>) {
      Terminated(rank, terminator, str)
    }

    ghost function Key(str: seq<C>): (r: Path)
      ensures |r| == |str|
    {
      Ranks(rank, str)
    }

    /** What a leaf keeps of a string: its characters up to the terminator, and the terminator. */
    ghost predicate LeafOf(n: Node<C, D>, str: seq<C>) {
      n.isLeaf && str != [] && n.str == str[..|str| - 1] + [terminator]
    }

    lemma NodeLeaf(n: Node<C, D>)
      requires Linked() && Owns(n)
      ensures n.isLeaf <==> LeafPath(rank(terminator), n.path)
    {
      hide ListOk, Closed;
      assert NodeOk(rank, terminator, at, n.path);
    }

    lemma LinkedClosed()
      requires Linked()
      ensures Closed(rank(terminator), at.Keys)
    {
    }

    /** A walk stands at a leaf exactly when the whole string is consumed, so the next character
        is read only where there is one. */
    lemma AtLeaf(n: Node<C, D>, str: seq<C>, i: nat)
      requires Linked() && Str(str) && OnPath(n, str, i)
      ensures n.isLeaf <==> i == |str|
      ensures i < |str| ==> Ext(n.path, rank(str[i])) == Key(str)[..i + 1]
      ensures i < |str| ==> (rank(str[i]) == rank(terminator) <==> i == |str| - 1)
      ensures Key(str)[..|str|] == Key(str) && str != []
    {
      hide Linked;
      NodeLeaf(n);
      Walked(rank, terminator, str, i);
    }

    /** Where the walk stops short, the string is not stored. */
    lemma StopsShort(str: seq<C>, i: nat)
      requires Linked() && i <= |str| && Key(str)[..i] !in at
      ensures Key(str) !in at
    {
      if Key(str) in at {
        PrefixIn(rank(terminator), at.Keys, Key(str), i);
      }
    }

    method InsertAt(root: Node<C, D>, str: seq<C>, strTrav: nat, data: D) returns (r: Node?<C, D>)
      requires Linked() && Str(str) && OnPath(root, str, strTrav)
      modifies this`at, this`repr, repr`charList
      ensures Linked() && Inserted(old(at), at, Key(str), NodeOption(r))
      ensures r != null ==> LeafOf(r, str) && r.data == data
      ensures fresh(repr - old(repr))
      decreases |str| - strTrav, 1
    {
      if mode == Recursive {
        r := InsertRecursive(root, str, strTrav, data);
      } else {
        r := InsertLoop(root, str, strTrav, data);
      }
    }

    method InsertRecursive(root: Node<C, D>, str: seq<C>, strTrav: nat, data: D) returns (r: Node?<C, D>)
      requires Linked() && Str(str) && OnPath(root, str, strTrav)
      modifies this`at, this`repr, repr`charList
      ensures Linked() && Inserted(old(at), at, Key(str), NodeOption(r))
      ensures r != null ==> LeafOf(r, str) && r.data == data
      ensures fresh(repr - old(repr))
      decreases |str| - strTrav, 0
    {
      hide Linked, Str, Key, Ext, HasChild, LeafPath, Prefixes, Inserted, Inserting;
      AtLeaf(root, str, strTrav);
      NotYet(at, Key(str));
      if root.isLeaf {
        r := null;
      } else {
        var currentNode := Child(root, str[strTrav]);
        if currentNode != null {
          r := InsertAt(currentNode, str, strTrav + 1, data);
        } else {
          var added, leaf := AddMissing(root, str, strTrav, data);
          if leaf {
            r := added;
          } else {
            ghost var mid := at;
            r := InsertAt(added, str, strTrav + 1, data);
            Compose(old(at), mid, at, Key(str), NodeOption(r));
          }
        }
      }
    }

    /** Where the walk finds no child: the leaf is added when the string ends here, else the inner
        node for the next character. Both forms of the source write this out. */
    method AddMissing(root: Node<C, D>, str: seq<C>, strTrav: nat, data: D) returns (added: Node<C, D>, leaf: bool)
      requires Linked() && Str(str) && OnPath(root, str, strTrav)
      requires strTrav < |str| && Key(str)[..strTrav + 1] !in at
      modifies this`at, this`repr, repr`charList
      ensures Linked() && fresh(repr - old(repr))
      ensures leaf ==> Inserted(old(at), at, Key(str), Some(added)) && LeafOf(added, str) && added.data == data
      ensures !leaf ==> Inserting(old(at), at, Key(str)) && OnPath(added, str, strTrav + 1)
    {
      hide Linked, Str, Key, Ext, HasChild, LeafPath, Prefixes, Inserted, Inserting;
      AtLeaf(root, str, strTrav);
      NotYet(at, Key(str));
      StopsShort(str, strTrav + 1);
      leaf := rank(str[strTrav]) == rank(terminator);
      if leaf {
        LinkedClosed();
        LeafCompletes(str, at.Keys, root.path);
        var newLeaf := AddLeaf(root, str, data);
        added := newLeaf;
        Complete(old(at), old(at), Key(str), added);
      } else {
        var newNode := AddNode(root, str[strTrav]);
        StepDown(old(at), old(at), Key(str), strTrav + 1, newNode as Node<C, D>);
        var currentNode := Child(root, str[strTrav]);
        added := currentNode;
      }
    }

    ghost function NodeOption(r: Node?<C, D>): Option<Node<C, D>> {
      if r == null then None else Some(r)
    }

    lemma NotYet(m: map<Path, Node<C, D>>, k: Path)
      ensures Inserting(m, m, k)
      ensures k in m ==> Inserted(m, m, k, None)
    {
    }

    /** Where the walk has reached the parent of the leaf, only the leaf is missing. */
    lemma LeafCompletes(str: seq<C>, s: set<Path>, p: Path)
      requires str != [] && Closed(rank(terminator), s) && p in s && p == Key(str)[..|str| - 1]
      ensures s + {Key(str)} == s + Prefixes(Key(str))
    {
      hide Key, Prefixes;
      forall q | q in Prefixes(Key(str)) ensures q in s + {Key(str)} {
        PrefixesIff(Key(str), q);
        if q != Key(str) {
          assert p[..|q|] == q;
          PrefixIn(rank(terminator), s, p, |q|);
        }
      }
      PrefixesIff(Key(str), Key(str));
    }

    method InsertLoop(root: Node<C, D>, str: seq<C>, strTrav: nat, data: D) returns (retNode: Node?<C, D>)
      requires Linked() && Str(str) && OnPath(root, str, strTrav)
      modifies this`at, this`repr, repr`charList
      ensures Linked() && Inserted(old(at), at, Key(str), NodeOption(retNode))
      ensures retNode != null ==> LeafOf(retNode, str) && retNode.data == data
      ensures fresh(repr - old(repr))
    {
      hide Linked, Str, Key, Ext, HasChild, LeafPath, Prefixes, Inserted, Inserting;
      var snapshotStack := [(root, strTrav)];
      retNode := null;
      NotYet(at, Key(str));
      while snapshotStack != []
        invariant Linked() && |snapshotStack| <= 1
        invariant snapshotStack == [] ==> Inserted(old(at), at, Key(str), NodeOption(retNode))
        invariant snapshotStack == [] && retNode != null ==> LeafOf(retNode, str) && retNode.data == data
        invariant snapshotStack != [] ==> OnPath(snapshotStack[0].0, str, snapshotStack[0].1)
        invariant snapshotStack != [] ==> Inserting(old(at), at, Key(str))
        invariant fresh(repr - old(repr))
        decreases if snapshotStack == [] then 0 else |str| + 1 - snapshotStack[0].1
      {
        var current := snapshotStack[|snapshotStack| - 1];
        snapshotStack := snapshotStack[..|snapshotStack| - 1];
        ghost var was := at;
        AtLeaf(current.0, str, current.1);
        if current.0.isLeaf {
          NotYet(at, Key(str));
          Compose(old(at), at, at, Key(str), None);
          retNode := null;
        } else {
          var rootNode := current.0;
          var currentNode := Child(rootNode, str[current.1]);
          if currentNode != null {
            var next: Node<C, D> := currentNode;
            snapshotStack := snapshotStack + [(next, current.1 + 1)];
          } else {
            var added, leaf := AddMissing(rootNode, str, current.1, data);
            if leaf {
              Compose(old(at), was, at, Key(str), Some(added));
              retNode := added;
            } else {
              ComposeInserting(old(at), was, at, Key(str));
              snapshotStack := snapshotStack + [(added, current.1 + 1)];
            }
          }
        }
      }
    }

    // ---------- erasing ----------

    method EraseAt(root: Node<C, D>, str: seq<C>, strTrav: nat) returns (r: bool)
      requires Linked() && Str(str) && OnPath(root, str, strTrav)
      modifies this`at, this`repr, repr`charList
      ensures Linked() && Erased(rank(terminator), old(at), at, Key(str), strTrav + 1, r) && repr == old(repr)
      decreases |str| - strTrav, 1
    {
      if mode == Recursive {
        r := EraseRecursive(root, str, strTrav);
      } else {
        r := EraseLoop(root, str, strTrav);
      }
    }

    method EraseRecursive(root: Node<C, D>, str: seq<C>, strTrav: nat) returns (r: bool)
      requires Linked() && Str(str) && OnPath(root, str, strTrav)
      modifies this`at, this`repr, repr`charList
      ensures Linked() && Erased(rank(terminator), old(at), at, Key(str), strTrav + 1, r) && repr == old(repr)
      decreases |str| - strTrav, 0
    {
      hide Linked, Str, Key, Removable, Erased, Ext, HasChild, Swept, LeafPath;
      AtLeaf(root, str, strTrav);
      NothingErased(at, Key(str));
      if root.isLeaf {
        r := true;
      } else {
        var currentNode := Child(root, str[strTrav]);
        if currentNode != null {
          r := EraseAt(currentNode, str, strTrav + 1);
          if r {
            ErasedUp(rank(terminator), old(at), at, Key(str), strTrav + 1);
            assert Key(str)[..strTrav] in old(at);
            var removed := RemoveNode(root, str[strTrav]);
          } else {
            NotErased(rank(terminator), old(at), at, Key(str), strTrav + 2, strTrav + 1);
          }
        } else {
          StopsShort(str, strTrav + 1);
          r := false;
        }
      }
    }

    lemma NothingErased(m: map<Path, Node<C, D>>, k: Path)
      ensures k in m ==> Erased(rank(terminator), m, m, k, |k| + 1, true)
      ensures k !in m ==> forall d: nat :: Erased(rank(terminator), m, m, k, d, false)
    {
    }

    method EraseLoop(root: Node<C, D>, str: seq<C>, strTrav: nat) returns (retBool: bool)
      requires Linked() && Str(str) && OnPath(root, str, strTrav)
      modifies this`at, this`repr, repr`charList
      ensures Linked() && Erased(rank(terminator), old(at), at, Key(str), strTrav + 1, retBool) && repr == old(repr)
    {
      hide Linked, Str, Key, Removable, Erased, Ext, HasChild, Swept, LeafPath;
      ghost var tr := rank(terminator);
      var snapshotStack := [(root, strTrav, 0)];
      retBool := false;
      while snapshotStack != []
        invariant repr == old(repr) && Linked() && Frames(snapshotStack, old(at), str, strTrav)
        invariant !Climbing(snapshotStack) ==> at == old(at)
        invariant Climbing(snapshotStack) ==> Erased(tr, old(at), at, Key(str), strTrav + |snapshotStack| + 1, retBool)
        decreases !Climbing(snapshotStack),
                  if Climbing(snapshotStack) then |snapshotStack| else |str| + 2 - |snapshotStack|
      {
        var current := snapshotStack[|snapshotStack| - 1];
        snapshotStack := snapshotStack[..|snapshotStack| - 1];
        if current.2 == 0 {
          OwnedStill(current.0, old(at), str, current.1);
          AtLeaf(current.0, str, current.1);
          NothingErased(at, Key(str));
          if current.0.isLeaf {
            retBool := true;
            continue;
          } else {
            var rootNode := current.0;
            var currentNode := Child(rootNode, str[current.1]);
            if currentNode != null {
              var next: Node<C, D> := currentNode;
              snapshotStack := snapshotStack + [(current.0, current.1, 1)];
              snapshotStack := snapshotStack + [(next, current.1 + 1, 0)];
              continue;
            }
            StopsShort(str, current.1 + 1);
          }
        } else {
          if retBool {
            ErasedUp(tr, old(at), at, Key(str), current.1 + 1);
            OwnedStill(current.0, old(at), str, current.1);
            AtLeaf(current.0, str, current.1);
            var removed := RemoveNode(current.0, str[current.1]);
            retBool := true;
            continue;
          }
          NotErased(tr, old(at), at, Key(str), current.1 + 2, current.1 + 1);
        }
        retBool := false;
      }
    }

    lemma OwnedStill(n: Node<C, D>, was: map<Path, Node<C, D>>, str: seq<C>, i: nat)
      requires Linked() && i <= |str| && n.path == Key(str)[..i]
      requires n.path in was && was[n.path] == n && n.path in at && at[n.path] == n
      ensures OnPath(n, str, i)
    {
    }

    /** The snapshot stack of eraseLoop: one frame for each node from root on down the string, all
        but a top frame of stage 0 waiting to remove their child. */
    ghost predicate Frames(stack: seq<(Node<C, D>, nat, int)>, was: map<Path, Node<C, D>>, str: seq<C>, base: nat)
    {
      forall i :: 0 <= i < |stack| ==>
        && stack[i].1 == base + i <= |str|
        && stack[i].0.path == Key(str)[..base + i] && stack[i].0.path in was && was[stack[i].0.path] == stack[i].0
        && (stack[i].2 == 0 ==> i == |stack| - 1)
        && (stack[i].2 != 0 ==> base + i < |str| && Key(str)[..base + i + 1] in was)
    }

    ghost predicate Climbing(stack: seq<(Node<C, D>, nat, int)>) {
      stack == [] || stack[|stack| - 1].2 != 0
    }

    // ---------- finding ----------

    method FindAt(root: Node<C, D>, str: seq<C>, strTrav: nat, dataIn: D) returns (r: Node?<C, D>, retData: D)
      requires Linked() && Str(str) && OnPath(root, str, strTrav)
      ensures if Key(str) in at then r == at[Key(str)] && retData == at[Key(str)].data
              else r == null && retData == dataIn
      decreases |str| - strTrav
    {
      hide Linked, Str, Key, Ext, LeafPath;
      if mode == Recursive {
        AtLeaf(root, str, strTrav);
        if root.isLeaf {
          r, retData := root, root.data;
        } else {
          var currentNode := Child(root, str[strTrav]);
          if currentNode != null {
            r, retData := FindAt(currentNode, str, strTrav + 1, dataIn);
          } else {
            StopsShort(str, strTrav + 1);
            r, retData := null, dataIn;
          }
        }
      } else {
        r, retData := FindLoop(root, str, strTrav, dataIn);
      }
    }

    method FindLoop(root: Node<C, D>, str: seq<C>, strTrav: nat, dataIn: D) returns (retNode: Node?<C, D>, retData: D)
      requires Linked() && Str(str) && OnPath(root, str, strTrav)
      ensures if Key(str) in at then retNode == at[Key(str)] && retData == at[Key(str)].data
              else retNode == null && retData == dataIn
    {
      hide Linked, Str, Key, Ext, LeafPath;
      var snapshotStack := [(root, strTrav)];
      retNode, retData := null, dataIn;
      while snapshotStack != []
        invariant |snapshotStack| <= 1
        invariant snapshotStack != [] ==>
          OnPath(snapshotStack[0].0, str, snapshotStack[0].1) && retNode == null && retData == dataIn
        invariant snapshotStack == [] ==>
          if Key(str) in at then retNode == at[Key(str)] && retData == at[Key(str)].data
          else retNode == null && retData == dataIn
        decreases if snapshotStack == [] then 0 else |str| + 1 - snapshotStack[0].1
      {
        var current := snapshotStack[|snapshotStack| - 1];
        snapshotStack := snapshotStack[..|snapshotStack| - 1];
        AtLeaf(current.0, str, current.1);
        if current.0.isLeaf {
          retData := current.0.data;
          retNode := current.0;
        } else {
          var currentNode := Child(current.0, str[current.1]);
          if currentNode != null {
            var next: Node<C, D> := currentNode;
            snapshotStack := snapshotStack + [(next, current.1 + 1)];
          } else {
            StopsShort(str, current.1 + 1);
            retNode := null;
          }
        }
      }
    }

    // ---------- traversing ----------

    /** The path of a listed pair. */
    ghost function KeyOf(): ((seq<C>, D)) -> Path {
      EntryKey(rank)
    }

    ghost function TraverseOrder(): Order {
      if mode == Recursive then Up else Down
    }

    /** out is out0 followed by a listing of the part m of the dictionary. */
    ghost predicate Listed(o: Order, out0: seq<(seq<C>, D)>, out: seq<(seq<C>, D)>, m: map<Path, (seq<C>, D)>) {
      out0 <= out && Lists(o, KeyOf(), out[|out0|..], m)
    }

    lemma LeafListed(n: Node<C, D>, o: Order)
      requires Linked() && Owns(n) && n.isLeaf
      ensures n.path in Dict() && Dict()[n.path] == (n.str, n.data)
      ensures Lists(o, KeyOf(), [(n.str, n.data)], Under(Dict(), n.path))
    {
      assert NodeOk(rank, terminator, at, n.path);
      forall q | q in Dict() && n.path <= q ensures q == n.path {
        PrefixIn(rank(terminator), at.Keys, q, |n.path|);
        assert q[..|n.path|] == n.path;
      }
      ListOne(o, KeyOf(), Dict(), n.path);
    }

    /** An inner node's leaves are its children's leaves. */
    lemma KidsCover(n: Node<C, D>)
      requires Linked() && Owns(n) && !n.isLeaf
      ensures UnderAll(Dict(), StackPaths(n.charList)) == Under(Dict(), n.path)
    {
      hide Linked;
      forall q | q in Dict() ensures UnderOne(StackPaths(n.charList), q) <==> n.path <= q {
        if n.path <= q {
          KidAbove(n, q);
        }
        if j :| 0 <= j < |n.charList| && StackPaths(n.charList)[j] <= q {
          KidAt(n, j);
          assert n.charList[j].path[..|n.path|] == n.path;
        }
      }
    }

    lemma KidAbove(n: Node<C, D>, q: Path)
      requires Linked() && Owns(n) && !n.isLeaf && q in Dict() && n.path <= q
      ensures UnderOne(StackPaths(n.charList), q)
    {
      hide Linked, Closed, Dict, LeafPath;
      var i := |n.path|;
      DictLeaf(q);
      assert at[q].isLeaf && q != n.path;
      assert |q| > i && q[..i] == n.path;
      LinkedClosed();
      PrefixIn(rank(terminator), at.Keys, q, i + 1);
      assert q[..i + 1] == Ext(n.path, q[i]);
      var j := KidFor(n, q[i]);
      assert StackPaths(n.charList)[j] <= q;
    }

    lemma DictLeaf(q: Path)
      requires Linked() && q in Dict()
      ensures q in at && at[q].isLeaf && at[q].path == q && Ranks(rank, at[q].str) == q
    {
      hide ListOk, Closed;
      assert NodeOk(rank, terminator, at, q);
    }

    lemma KidFor(n: Node<C, D>, x: int) returns (j: nat)
      requires Linked() && Owns(n) && Ext(n.path, x) in at
      ensures j < |n.charList| && n.charList[j].path == Ext(n.path, x)
    {
      hide Closed;
      assert NodeOk(rank, terminator, at, n.path);
      j :| 0 <= j < |n.charList| && n.charList[j] == at[Ext(n.path, x)];
    }

    /** The paths of the nodes in a list. */
    ghost function StackPaths(stack: seq<Node<C, D>>): (r: seq<Path>)
      ensures |r| == |stack|
    {
      seq(|stack|, i requires 0 <= i < |stack| => stack[i].path)
    }

    method TraverseAll(n: Node<C, D>, out0: seq<(seq<C>, D)>) returns (out: seq<(seq<C>, D)>)
      requires Linked() && Owns(n)
      ensures Listed(TraverseOrder(), out0, out, Under(Dict(), n.path))
      decreases PathsBelow(at.Keys, n.path), 1
    {
      if mode == Recursive {
        out := TraverseRecursive(n, out0);
      } else {
        out := TraverseAllLoop(n, out0);
      }
    }

    lemma KidAt(n: Node<C, D>, i: nat)
      requires Linked() && Owns(n) && i < |n.charList|
      ensures var c := n.charList[i];
        && Owns(c) && c.path == Ext(n.path, rank(c.character))
        && PathsBelow(at.Keys, c.path) < PathsBelow(at.Keys, n.path)
        && forall j :: 0 <= j < i ==>
             && n.charList[j].path == Ext(n.path, rank(n.charList[j].character))
             && rank(n.charList[j].character) < rank(c.character)
    {
      assert NodeOk(rank, terminator, at, n.path);
      assert ChildOk(rank, at, n.path, n.charList[i]);
      FewerBelow(at.Keys, n.path, rank(n.charList[i].character));
      forall j | 0 <= j < i ensures n.charList[j].path == Ext(n.path, rank(n.charList[j].character)) {
        assert ChildOk(rank, at, n.path, n.charList[j]);
      }
    }

    method TraverseRecursive(n: Node<C, D>, out0: seq<(seq<C>, D)>) returns (out: seq<(seq<C>, D)>)
      requires Linked() && Owns(n) && mode == Recursive
      ensures Listed(Up, out0, out, Under(Dict(), n.path))
      decreases PathsBelow(at.Keys, n.path), 0
    {
      hide Linked, Dict, Lists, KeyOf, PathsBelow, Under, UnderAll;
      if n.isLeaf {
        LeafListed(n, Up);
        out := out0 + [(n.str, n.data)];
        assert out[|out0|..] == [(n.str, n.data)];
      } else {
        out := out0;
        ListNone(Up, KeyOf(), Dict());
        assert StackPaths(n.charList)[..0] == [] && out[|out0|..] == [];
        for trav := 0 to |n.charList|
          invariant Listed(Up, out0, out, UnderAll(Dict(), StackPaths(n.charList)[..trav]))
        {
          KidAt(n, trav);
          var next := TraverseAll(n.charList[trav], out);
          KidListed(n, trav, out0, out, next);
          out := next;
        }
        assert StackPaths(n.charList)[..|n.charList|] == StackPaths(n.charList);
        KidsCover(n);
      }
    }

    lemma KidListed(n: Node<C, D>, i: nat, out0: seq<(seq<C>, D)>, mid: seq<(seq<C>, D)>, out: seq<(seq<C>, D)>)
      requires Linked() && Owns(n) && i < |n.charList|
      requires Listed(Up, out0, mid, UnderAll(Dict(), StackPaths(n.charList)[..i]))
      requires Listed(Up, mid, out, Under(Dict(), n.charList[i].path))
      ensures Listed(Up, out0, out, UnderAll(Dict(), StackPaths(n.charList)[..i + 1]))
    {
      hide Linked, Dict, Lists, KeyOf, Under, UnderAll;
      var ps, p := StackPaths(n.charList)[..i], n.charList[i].path;
      KidAt(n, i);
      forall j | 0 <= j < |ps| ensures Before(Up, ps[j], p) {
        UpBefore(n.path, rank(n.charList[j].character), rank(n.charList[i].character));
      }
      ListMore(Up, KeyOf(), Dict(), ps, mid[|out0|..], p, out[|mid|..]);
      assert ps + [p] == StackPaths(n.charList)[..i + 1];
      assert out[|out0|..] == mid[|out0|..] + out[|mid|..];
    }

    ghost predicate AllOwned(stack: seq<Node<C, D>>)
      reads this
    {
      forall i :: 0 <= i < |stack| ==> Owns(stack[i])
    }

    /** The paths below n, sorted, are what an inner n is replaced by on the stack. */
    lemma KidPaths(n: Node<C, D>)
      requires Linked() && Owns(n) && !n.isLeaf
      ensures Ascending(StackPaths(n.charList)) && AllOwned(n.charList)
      ensures forall i :: 0 <= i < |n.charList| ==> n.path < StackPaths(n.charList)[i]
      ensures forall q :: q in Dict() ==> (UnderOne(StackPaths(n.charList), q) <==> n.path <= q)
    {
      hide Linked, Dict;
      forall i | 0 <= i < |n.charList|
        ensures Owns(n.charList[i]) && n.path < n.charList[i].path
        ensures forall j :: 0 <= j < i ==> LexLess(n.charList[j].path, n.charList[i].path)
      {
        KidAt(n, i);
        assert n.charList[i].path[..|n.path|] == n.path;
        forall j | 0 <= j < i ensures LexLess(n.charList[j].path, n.charList[i].path) {
          LexSiblings(n.path, rank(n.charList[j].character), rank(n.charList[i].character));
        }
      }
      KidsCover(n);
      forall q | q in Dict() ensures UnderOne(StackPaths(n.charList), q) <==> n.path <= q {
        assert q in UnderAll(Dict(), StackPaths(n.charList)) <==> q in Under(Dict(), n.path);
      }
    }

    lemma LeafAlone(n: Node<C, D>)
      requires Linked() && Owns(n) && n.isLeaf
      ensures n.path in Dict() && Dict()[n.path] == (n.str, n.data) && KeyOf()(Dict()[n.path]) == n.path
      ensures forall q :: q in Dict() && n.path <= q ==> q == n.path
      ensures forall q :: q in at && n.path <= q ==> q == n.path
    {
      assert NodeOk(rank, terminator, at, n.path);
      forall q | q in at && n.path <= q ensures q == n.path {
        PrefixIn(rank(terminator), at.Keys, q, |n.path|);
        assert q[..|n.path|] == n.path;
      }
    }

    method TraverseAllLoop(root: Node<C, D>, out0: seq<(seq<C>, D)>) returns (out: seq<(seq<C>, D)>)
      requires Linked() && Owns(root)
      ensures Listed(Down, out0, out, Under(Dict(), root.path))
    {
      hide Linked, Dict, KeyOf, LoopInv, Todo, Under;
      out := out0;
      var snapshotStack := [root];
      LoopStart(KeyOf(), Dict(), root.path);
      assert StackPaths(snapshotStack) == [root.path] && out[|out0|..] == [];
      while snapshotStack != []
        invariant out0 <= out && AllOwned(snapshotStack)
        invariant LoopInv(KeyOf(), Dict(), root.path, StackPaths(snapshotStack), out[|out0|..])
        decreases Todo(at.Keys, StackPaths(snapshotStack))
      {
        var current := snapshotStack[|snapshotStack| - 1];
        ghost var below := snapshotStack[..|snapshotStack| - 1];
        ghost var ps, t := StackPaths(below), out[|out0|..];
        assert StackPaths(snapshotStack) == ps + [current.path];
        snapshotStack := snapshotStack[..|snapshotStack| - 1];
        LoopAscending(KeyOf(), Dict(), root.path, ps + [current.path], t);
        if current.isLeaf {
          LeafAlone(current);
          LoopEmit(KeyOf(), Dict(), root.path, ps, current.path, t);
          TodoShrinks(at.Keys, ps, current.path, []);
          assert ps + [] == ps;
          out := out + [(current.str, current.data)];
          assert out[|out0|..] == t + [(current.str, current.data)];
        } else {
          KidPaths(current);
          LoopExpand(KeyOf(), Dict(), root.path, ps, current.path, StackPaths(current.charList), t);
          TodoShrinks(at.Keys, ps, current.path, StackPaths(current.charList));
          for trav := 0 to |current.charList|
            invariant snapshotStack == below + current.charList[..trav]
          {
            snapshotStack := snapshotStack + [current.charList[trav]];
          }
          assert current.charList[..|current.charList|] == current.charList;
          assert StackPaths(snapshotStack) == ps + StackPaths(current.charList);
        }
      }
      assert StackPaths(snapshotStack) == [];
      LoopEnd(KeyOf(), Dict(), root.path, out[|out0|..]);
    }

    // ---------- finding all ----------

    /** The exact match first, then by the next character, each subtree in the traversal's order. */
    ghost function QueryOrder(str: seq<C>): Order
      requires str != []
    {
      Query(|str| - 1, rank(terminator), mode == Recursive)
    }

    /** What a walk that stands at index i of the query lists: the exact match when the terminator
        has been consumed, and before that everything that starts with the query. */
    ghost function Found(str: seq<C>, i: nat): map<Path, (seq<C>, D)>
      requires str != []
      reads this, repr
    {
      Under(Dict(), Key(str)[..if i == |str| then i else |str| - 1])
    }

    method FindAllAt(
      root: Node<C, D>, str: seq<C>, strTrav: nat, out0: seq<(seq<C>, D)>)
      returns (r: bool, out: seq<(seq<C>, D)>)
      requires Linked() && Str(str) && str != [] && OnPath(root, str, strTrav)
      ensures Listed(QueryOrder(str), out0, out, Found(str, strTrav))
      ensures r <==> out != []
      decreases |str| - strTrav, 1
    {
      if mode == Recursive {
        r, out := FindAllRecursive(root, str, strTrav, out0);
      } else {
        r, out := FindAllLoop(root, str, strTrav, out0);
      }
    }

    method FindAllRecursive(
      root: Node<C, D>, str: seq<C>, strTrav: nat, out0: seq<(seq<C>, D)>)
      returns (r: bool, out: seq<(seq<C>, D)>)
      requires Linked() && Str(str) && str != [] && OnPath(root, str, strTrav)
      ensures Listed(QueryOrder(str), out0, out, Found(str, strTrav))
      ensures r <==> out != []
      decreases |str| - strTrav, 0
    {
      hide Linked, Str, Key, Ext, LeafPath, Listed, Found, QueryOrder;
      AtLeaf(root, str, strTrav);
      if root.isLeaf {
        out := out0 + [(root.str, root.data)];
        ExactListed(root, str, out0);
        r := true;
      } else {
        out := out0;
        var currentNode := Child(root, str[strTrav]);
        if currentNode != null {
          var found;
          found, out := FindAllAt(currentNode, str, strTrav + 1, out);
        } else {
          NothingListed(str, strTrav + 1, out0);
        }
        out := ListRest(root, str, strTrav, out0, out);
        r := |out| > 0;
      }
    }

    lemma ExactListed(n: Node<C, D>, str: seq<C>, out0: seq<(seq<C>, D)>)
      requires Linked() && Str(str) && str != [] && OnPath(n, str, |str|) && n.isLeaf
      ensures Listed(QueryOrder(str), out0, out0 + [(n.str, n.data)], Found(str, |str|))
    {
      hide Linked, Lists, Under, Dict, KeyOf;
      LeafListed(n, QueryOrder(str));
      assert (out0 + [(n.str, n.data)])[|out0|..] == [(n.str, n.data)];
    }

    lemma NothingListed(str: seq<C>, i: nat, out0: seq<(seq<C>, D)>)
      requires Linked() && str != [] && i <= |str| && Key(str)[..i] !in at
      ensures Listed(QueryOrder(str), out0, out0, Found(str, i))
    {
      hide Linked, Key, KeyOf;
      var p := Key(str)[..if i == |str| then i else |str| - 1];
      forall q | q in Dict() ensures !(p <= q) {
        if p <= q {
          assert q[..i] == Key(str)[..i];
          LinkedClosed();
          PrefixIn(rank(terminator), at.Keys, q, i);
        }
      }
      assert Found(str, i) == map[];
      assert out0[|out0|..] == [];
    }

    /** The second half of findAll at one node: at the end of the query, the other subtrees too.
        The source writes this out three times. */
    method ListRest(
      n: Node<C, D>, str: seq<C>, strTrav: nat, ghost out0: seq<(seq<C>, D)>, mid: seq<(seq<C>, D)>)
      returns (out: seq<(seq<C>, D)>)
      requires Linked() && Str(str) && str != [] && OnPath(n, str, strTrav) && strTrav < |str|
      requires Listed(QueryOrder(str), out0, mid, Found(str, strTrav + 1))
      ensures Listed(QueryOrder(str), out0, out, Found(str, strTrav))
    {
      hide Linked, Str, Key, Ext, LeafPath, Listed, Dict;
      AtLeaf(n, str, strTrav);
      out := mid;
      if rank(str[strTrav]) == rank(terminator) {
        out := CollectOthers(n, str, out0, mid);
      }
    }

    /** The exact match's path and the paths of the first i children. */
    ghost function Covered(str: seq<C>, n: Node<C, D>, i: nat): seq<Path>
      requires i <= |n.charList|
      reads n
    {
      [Key(str)] + StackPaths(n.charList)[..i]
    }

    method CollectOthers(
      n: Node<C, D>, str: seq<C>, ghost out0: seq<(seq<C>, D)>, mid: seq<(seq<C>, D)>)
      returns (out: seq<(seq<C>, D)>)
      requires Linked() && Str(str) && str != [] && OnPath(n, str, |str| - 1) && !n.isLeaf
      requires Listed(QueryOrder(str), out0, mid, Under(Dict(), Key(str)))
      ensures Listed(QueryOrder(str), out0, out, Under(Dict(), n.path))
    {
      hide Linked, Str, Listed, Dict, Under, UnderAll, Covered, KeyOf;
      out := mid;
      OnlyExact(n, str);
      for trav := 0 to |n.charList|
        invariant Listed(QueryOrder(str), out0, out, UnderAll(Dict(), Covered(str, n, trav)))
      {
        KidAt(n, trav);
        if rank(n.charList[trav].character) != rank(terminator) {
          var next := TraverseAll(n.charList[trav], out);
          OtherListed(n, str, trav, out0, out, next);
          out := next;
        } else {
          ExactCovered(n, str, trav);
        }
      }
      AllCovered(n, str);
    }

    lemma OnlyExact(n: Node<C, D>, str: seq<C>)
      ensures UnderAll(Dict(), Covered(str, n, 0)) == Under(Dict(), Key(str))
    {
      hide Dict;
      assert Covered(str, n, 0) == [] + [Key(str)];
      forall q ensures UnderOne(Covered(str, n, 0), q) <==> Key(str) <= q {
        UnderMore([], Key(str), q);
      }
    }

    lemma CoveredMore(n: Node<C, D>, str: seq<C>, i: nat, q: Path)
      requires i < |n.charList|
      ensures Covered(str, n, i + 1) == Covered(str, n, i) + [n.charList[i].path]
      ensures UnderOne(Covered(str, n, i + 1), q) <==> UnderOne(Covered(str, n, i), q) || n.charList[i].path <= q
    {
      UnderMore(Covered(str, n, i), n.charList[i].path, q);
    }

    /** The terminator child is the exact match, which is listed already. */
    lemma ExactCovered(n: Node<C, D>, str: seq<C>, i: nat)
      requires Linked() && Str(str) && str != [] && OnPath(n, str, |str| - 1) && i < |n.charList|
      requires rank(n.charList[i].character) == rank(terminator)
      ensures UnderAll(Dict(), Covered(str, n, i + 1)) == UnderAll(Dict(), Covered(str, n, i))
    {
      hide Linked, Dict;
      KidAt(n, i);
      LeafKey(rank, terminator, str);
      assert Covered(str, n, i)[0] == Key(str) == n.charList[i].path;
      forall q ensures UnderOne(Covered(str, n, i + 1), q) <==> UnderOne(Covered(str, n, i), q) {
        CoveredMore(n, str, i, q);
      }
    }

    lemma OtherListed(
      n: Node<C, D>, str: seq<C>, i: nat, out0: seq<(seq<C>, D)>, mid: seq<(seq<C>, D)>, out: seq<(seq<C>, D)>)
      requires Linked() && Str(str) && str != [] && OnPath(n, str, |str| - 1) && i < |n.charList|
      requires rank(n.charList[i].character) != rank(terminator)
      requires Listed(QueryOrder(str), out0, mid, UnderAll(Dict(), Covered(str, n, i)))
      requires Listed(TraverseOrder(), mid, out, Under(Dict(), n.charList[i].path))
      ensures Listed(QueryOrder(str), out0, out, UnderAll(Dict(), Covered(str, n, i + 1)))
    {
      hide Linked, Dict, Lists, KeyOf, Under, UnderAll, Before, Covered;
      var ps, p, x := Covered(str, n, i), n.charList[i].path, rank(n.charList[i].character);
      KidAt(n, i);
      SubtreeInQuery(KeyOf(), out[|mid|..], Dict(), n.path, x, rank(terminator), mode == Recursive);
      CoveredBefore(n, str, i);
      ListMore(QueryOrder(str), KeyOf(), Dict(), ps, mid[|out0|..], p, out[|mid|..]);
      CoveredMore(n, str, i, []);
      assert out[|out0|..] == mid[|out0|..] + out[|mid|..];
    }

    lemma CoveredBefore(n: Node<C, D>, str: seq<C>, i: nat)
      requires Linked() && Str(str) && str != [] && OnPath(n, str, |str| - 1) && i < |n.charList|
      requires rank(n.charList[i].character) != rank(terminator)
      ensures forall j :: 0 <= j < |Covered(str, n, i)| ==>
                Before(QueryOrder(str), Covered(str, n, i)[j], n.charList[i].path)
    {
      hide Linked, Before;
      var tr, x := rank(terminator), rank(n.charList[i].character);
      KidAt(n, i);
      LeafKey(rank, terminator, str);
      forall j | 0 <= j < |Covered(str, n, i)|
        ensures Before(QueryOrder(str), Covered(str, n, i)[j], n.charList[i].path)
      {
        QueryBefore(n.path, if j == 0 then tr else rank(n.charList[j - 1].character), x, tr, mode == Recursive);
      }
    }

    lemma AllCovered(n: Node<C, D>, str: seq<C>)
      requires Linked() && Str(str) && str != [] && OnPath(n, str, |str| - 1) && !n.isLeaf
      ensures UnderAll(Dict(), Covered(str, n, |n.charList|)) == Under(Dict(), n.path)
    {
      hide Linked, Dict;
      KidsCover(n);
      LeafKey(rank, terminator, str);
      assert Covered(str, n, |n.charList|) == [Key(str)] + StackPaths(n.charList);
      forall q | q in Dict() ensures UnderOne(Covered(str, n, |n.charList|), q) <==> n.path <= q {
        assert q in UnderAll(Dict(), StackPaths(n.charList)) <==> q in Under(Dict(), n.path);
        UnderBoth([Key(str)], StackPaths(n.charList), q);
        assert Key(str)[..|n.path|] == n.path;
        assert UnderOne([Key(str)], q) ==> Key(str) <= q;
      }
    }

    method FindAllLoop(
      root: Node<C, D>, str: seq<C>, strTrav: nat, out0: seq<(seq<C>, D)>)
      returns (retBool: bool, out: seq<(seq<C>, D)>)
      requires Linked() && Str(str) && str != [] && OnPath(root, str, strTrav)
      ensures Listed(QueryOrder(str), out0, out, Found(str, strTrav))
      ensures retBool <==> out != []
    {
      hide Linked, Str, Key, Ext, LeafPath, Listed, Found, QueryOrder;
      var snapshotStack := [(root, strTrav, 0)];
      retBool, out := false, out0;
      while snapshotStack != []
        invariant Frames(snapshotStack, at, str, strTrav)
        invariant !Climbing(snapshotStack) ==> out == out0
        invariant Climbing(snapshotStack) ==>
          Listed(QueryOrder(str), out0, out, Found(str, strTrav + |snapshotStack|)) && (retBool <==> out != [])
        decreases !Climbing(snapshotStack),
                  if Climbing(snapshotStack) then |snapshotStack| else |str| + 2 - |snapshotStack|
      {
        var current := snapshotStack[|snapshotStack| - 1];
        snapshotStack := snapshotStack[..|snapshotStack| - 1];
        OwnedStill(current.0, at, str, current.1);
        AtLeaf(current.0, str, current.1);
        if current.2 == 0 {
          if current.0.isLeaf {
            out := out + [(current.0.str, current.0.data)];
            ExactListed(current.0, str, out0);
            retBool := true;
            continue;
          }
          var currentNode := Child(current.0, str[current.1]);
          if currentNode != null {
            var next: Node<C, D> := currentNode;
            snapshotStack := snapshotStack + [(current.0, current.1, 1)];
            snapshotStack := snapshotStack + [(next, current.1 + 1, 0)];
            continue;
          }
          NothingListed(str, current.1 + 1, out0);
        }
        out := ListRest(current.0, str, current.1, out0, out);
        retBool := |out| > 0;
      }
    }

    // ---------- the public operations ----------

    /** What is stored for a string: the string up to its terminator, and the data. */
    ghost function Entry(str: seq<C>, data: D): (seq<C>, D)
      requires str != []
    {
      (str[..|str| - 1] + [terminator], data)
    }

    lemma DictKeys()
      requires Linked()
      ensures Dict().Keys == Leaves(rank(terminator), at.Keys)
      ensures forall p :: p in Dict() ==> p in at && Dict()[p] == (at[p].str, at[p].data)
    {
      hide ListOk, Closed;
      forall p | p in at ensures p in Dict() <==> LeafPath(rank(terminator), p) {
        assert NodeOk(rank, terminator, at, p);
      }
    }

    lemma OwnsAt(p: Path)
      requires Linked() && p in at
      ensures Owns(at[p]) && at[p].path == p && (at[p].isLeaf <==> LeafPath(rank(terminator), p))
    {
      hide ListOk, Closed;
      assert NodeOk(rank, terminator, at, p);
    }

    lemma AtRoot(str: seq<C>)
      requires Linked()
      ensures OnPath(root, str, 0) && !root.isLeaf
    {
      OwnsAt([]);
    }

    lemma StrKey(str: seq<C>)
      requires Str(str)
      ensures IsKey(rank(terminator), Key(str)) && LeafPath(rank(terminator), Key(str)) && str != []
    {
    }

    ghost predicate Argument(str: Option<seq<C>>) {
      str != None ==> Str(str.value)
    }

    method Insert(str: Option<seq<C>>, data: D) returns (r: bool)
      requires Valid() && Argument(str)
      modifies this`at, this`repr, this`totalCount, repr`charList
      ensures Valid() && fresh(repr - old(repr))
      ensures r <==> str != None && Key(str.value) !in old(Dict())
      ensures !r ==> Dict() == old(Dict())
      ensures r ==> str.value != [] && Dict() == old(Dict())[Key(str.value) := Entry(str.value, data)]
    {
      hide Linked, Pruned, Dict, Key, Str, Entry;
      r := false;
      if str != None {
        ghost var dict := Dict();
        var leaf := InsertHere(str.value, data);
        if leaf != null {
          OneMore(dict, Key(str.value), Entry(str.value, data));
          totalCount := totalCount + 1;
          r := true;
        }
      }
    }

    /** insert from the root, in terms of the dictionary. */
    method InsertHere(str: seq<C>, data: D) returns (r: Node?<C, D>)
      requires Linked() && Pruned(rank(terminator), at.Keys) && Str(str)
      modifies this`at, this`repr, repr`charList
      ensures Linked() && Pruned(rank(terminator), at.Keys) && fresh(repr - old(repr))
      ensures r == null <==> Key(str) in old(Dict())
      ensures r == null ==> Dict() == old(Dict())
      ensures r != null ==> str != [] && Dict() == old(Dict())[Key(str) := Entry(str, data)]
      ensures r != null ==> Owns(r) && r.path == Key(str) && r.isLeaf && r.data == data
    {
      hide Linked, Pruned, Dict, LeafPath, Leaves, Prefixes, Key, Str, Closed, IsKey, Owns, LeafOf;
      ghost var was, dict := at, Dict();
      AtRoot(str);
      StrKey(str);
      DictKeys();
      LinkedClosed();
      r := InsertAt(root, str, 0, data);
      DictKeys();
      assert forall p :: p in dict && p in Dict() && p in was && p in at && was[p] == at[p] ==> dict[p] == Dict()[p];
      InsertedDict(rank(terminator), was, at, dict, Dict(), Key(str), NodeOption(r));
      if r != null {
        OwnsAt(Key(str));
        StoredEntry(str, r);
      }
    }

    method Erase(str: Option<seq<C>>) returns (r: bool)
      requires Valid() && Argument(str)
      modifies this`at, this`repr, this`totalCount, repr`charList
      ensures Valid() && repr == old(repr)
      ensures r <==> str != None && Key(str.value) in old(Dict())
      ensures Dict() == if r then old(Dict()) - {Key(str.value)} else old(Dict())
    {
      hide Linked, Pruned, Dict, Key, Str;
      r := false;
      if str != None {
        ghost var dict := Dict();
        var erased := EraseHere(str.value);
        if erased {
          OneLess(dict, Key(str.value));
          totalCount := totalCount - 1;
          r := true;
        }
      }
    }

    /** erase from the root, in terms of the dictionary. */
    method EraseHere(str: seq<C>) returns (r: bool)
      requires Linked() && Pruned(rank(terminator), at.Keys) && Str(str)
      modifies this`at, this`repr, repr`charList
      ensures Linked() && Pruned(rank(terminator), at.Keys) && repr == old(repr)
      ensures r <==> Key(str) in old(Dict())
      ensures Dict() == if r then old(Dict()) - {Key(str)} else old(Dict())
    {
      hide Linked, Pruned, Dict, LeafPath, Leaves, Key, Str, Closed, IsKey, Owns;
      ghost var was, dict := at, Dict();
      AtRoot(str);
      StrKey(str);
      DictKeys();
      LinkedClosed();
      r := EraseAt(root, str, 0);
      DictKeys();
      assert forall p :: p in dict && p in Dict() && p in was && p in at && was[p] == at[p] ==> dict[p] == Dict()[p];
      ErasedDict(rank(terminator), was, at, dict, Dict(), Key(str), r);
    }

    method Find(str: Option<seq<C>>, dataIn: D) returns (r: bool, retData: D)
      requires Valid() && Argument(str)
      ensures r <==> str != None && Key(str.value) in Dict()
      ensures retData == if r then Dict()[Key(str.value)].1 else dataIn
    {
      hide Linked, Dict, Key, Str;
      r, retData := false, dataIn;
      if str != None {
        DictKeys();
        AtRoot(str.value);
        StrKey(str.value);
        var leaf;
        leaf, retData := FindAt(root, str.value, 0, dataIn);
        r := leaf != null;
      }
    }

    /** The pairs come behind those already in the output list; true means the list is not empty. */
    method FindAll(str: Option<seq<C>>, out0: seq<(seq<C>, D)>) returns (r: bool, out: seq<(seq<C>, D)>)
      requires Valid() && Argument(str)
      ensures str == None ==> !r && out == out0
      ensures str != None ==>
        && str.value != []
        && Listed(QueryOrder(str.value), out0, out, Under(Dict(), Key(str.value)[..|str.value| - 1]))
      ensures str != None ==> (r <==> out != [])
      ensures str != None && out0 == [] ==> (r <==> Under(Dict(), Key(str.value)[..|str.value| - 1]) != map[])
    {
      hide Linked, Dict, Key, Str, QueryOrder;
      r, out := false, out0;
      if str != None {
        AtRoot(str.value);
        StrKey(str.value);
        r, out := FindAllAt(root, str.value, 0, out0);
        if out0 == [] {
          assert out[0..] == out;
          EmptyListing(QueryOrder(str.value), KeyOf(), out, Under(Dict(), Key(str.value)[..|str.value| - 1]));
        }
      }
    }

    /** operator[]: the leaf whose data the returned reference names. A new leaf gets the data of a
        default constructed DataType. */
    method Ref(str: seq<C>, defaultData: D) returns (r: Node<C, D>)
      requires Valid() && Str(str)
      modifies this`at, this`repr, this`totalCount, repr`charList
      ensures Valid() && fresh(repr - old(repr)) && str != []
      ensures Owns(r) && r.isLeaf && r.path == Key(str)
      ensures Dict() == if Key(str) in old(Dict()) then old(Dict())
                        else old(Dict())[Key(str) := Entry(str, defaultData)]
    {
      hide Linked, Dict, Key, Str, Pruned, Entry, LeafPath;
      ghost var dict := Dict();
      AtRoot(str);
      StrKey(str);
      DictKeys();
      var foundNode, retData := FindAt(root, str, 0, defaultData);
      if foundNode != null {
        OwnsAt(Key(str));
        r := foundNode;
      } else {
        var newNode := InsertHere(str, retData);
        OneMore(dict, Key(str), Entry(str, defaultData));
        totalCount := totalCount + 1;
        r := newNode;
      }
    }

    /** operator[] of a constant trie: the key has to be there. */
    method ConstRef(str: seq<C>, defaultData: D) returns (r: D)
      requires Valid() && Str(str) && Key(str) in Dict()
      ensures r == Dict()[Key(str)].1
    {
      hide Linked, Dict, Key, Str;
      AtRoot(str);
      StrKey(str);
      DictKeys();
      var foundNode, retData := FindAt(root, str, 0, defaultData);
      r := foundNode.data;
    }

    /** Writing through the reference operator[] returned changes that entry's data and nothing else. */
    method SetData(leaf: Node<C, D>, data: D)
      requires Valid() && Owns(leaf) && leaf.isLeaf
      modifies leaf`data
      ensures Valid() && leaf.path in old(Dict())
      ensures Dict() == old(Dict())[leaf.path := (old(Dict())[leaf.path].0, data)]
    {
      hide Linked, Dict, Closed, Pruned;
      ghost var dict := Dict();
      DictKeys();
      OwnsAt(leaf.path);
      Elsewhere(leaf);
      Rewrite(leaf, data);
      DictKeys();
      OwnsAt(leaf.path);
      assert Dict() == dict[leaf.path := (leaf.str, data)];
      SameSize(dict, Dict());
    }

    method Rewrite(leaf: Node<C, D>, data: D)
      requires Linked()
      modifies leaf`data
      ensures Linked() && leaf.data == data
    {
      hide ListOk, Closed, NodeFixed;
      leaf.data := data;
      forall p | p in at ensures NodeOk(rank, terminator, at, p) {
        assert old(NodeOk(rank, terminator, at, p));
      }
    }

    method Clear()
      modifies this`root, this`at, this`repr, this`totalCount
      ensures Valid() && Dict() == map[] && fresh(repr)
    {
      hide Closed, Pruned, ListOk, NodeFixed, LeafPath;
      totalCount := 0;
      root := new Node.Inner(terminator, []);
      at, repr := map[[] := root], {root};
      EmptyTree(rank, terminator, root);
      assert Dict() == map[];
    }

    /** As written, true when there IS an entry. */
    method IsEmpty() returns (r: bool)
      requires Valid()
      ensures r <==> Dict() != map[]
    {
      r := totalCount != 0;
    }

    method Size() returns (r: int)
      requires Valid()
      ensures r == |Dict()|
    {
      r := totalCount;
    }

    // ---------- the tree is a function of its keys ----------

    /** The next characters in every child list. */
    ghost function Shape(): map<Path, seq<int>>
      reads this`at, repr, this`repr
    {
      map p | p in at && at[p] in repr :: Characters(at[p].charList)
    }

    ghost function Characters(list: seq<Node<C, D>>): (r: seq<int>)
      ensures |r| == |list|
    {
      seq(|list|, i requires 0 <= i < |list| => rank(list[i].character))
    }

    lemma ShapeOk()
      requires Linked()
      ensures IsShape(at.Keys, Shape())
    {
      hide Closed;
      forall p | p in at ensures Increasing(Shape()[p]) && forall x :: x in Shape()[p] <==> Ext(p, x) in at {
        assert NodeOk(rank, terminator, at, p);
        CharactersOk(at, p, at[p].charList);
      }
    }

    lemma TreeOf()
      requires Valid()
      ensures IsTree(rank(terminator), Dict().Keys, at.Keys, Shape())
    {
      DictKeys();
      LinkedClosed();
      ShapeOk();
    }

    lemma CharactersOk(at: map<Path, Node<C, D>>, p: Path, list: seq<Node<C, D>>)
      requires ListOk(rank, at, p, list)
      ensures Increasing(Characters(list)) && forall x :: x in Characters(list) <==> Ext(p, x) in at
    {
      forall x ensures x in Characters(list) <==> Ext(p, x) in at {
        if x in Characters(list) {
          var i :| 0 <= i < |list| && Characters(list)[i] == x;
          assert ChildOk(rank, at, p, list[i]);
        }
        if Ext(p, x) in at {
          var i :| 0 <= i < |list| && list[i] == at[Ext(p, x)];
          assert ChildOk(rank, at, p, list[i]);
          ExtInjective(p, rank(list[i].character), p, x);
          assert Characters(list)[i] == x;
        }
      }
    }

    lemma StoredEntry(str: seq<C>, n: Node<C, D>)
      requires LeafOf(n, str)
      ensures str != [] && (n.str, n.data) == Entry(str, n.data)
    {
    }
  }

  lemma OneLess<K, V>(m: map<K, V>, k: K)
    requires k in m
    ensures |m - {k}| == |m| - 1
  {
    assert (m - {k}).Keys == m.Keys - {k};
  }

  lemma SameSize<K, V>(m: map<K, V>, n: map<K, V>)
    requires m.Keys == n.Keys
    ensures |m| == |n|
  {
    assert |m| == |m.Keys| && |n| == |n.Keys|;
  }

  lemma OneMore<K, V>(m: map<K, V>, k: K, v: V)
    requires k !in m
    ensures |m[k := v]| == |m| + 1
  {
    assert m[k := v].Keys == m.Keys + {k};
  }

  /** In terms of the dictionaries, an insertion adds its key and keeps every other entry. */
  lemma InsertedDict<N, E>(
    tr: int, was: map<Path, N>, now: map<Path, N>, d0: map<Path, E>, d1: map<Path, E>, k: Path, r: Option<N>)
    requires Closed(tr, was.Keys) && Pruned(tr, was.Keys) && IsKey(tr, k) && Inserted(was, now, k, r)
    requires d0.Keys == Leaves(tr, was.Keys) && d1.Keys == Leaves(tr, now.Keys)
    requires forall p :: p in d0 && p in d1 && p in was && p in now && was[p] == now[p] ==> d0[p] == d1[p]
    ensures Pruned(tr, now.Keys)
    ensures r == None <==> k in d0
    ensures if r == None then d1 == d0 else k in d1 && d1 == d0[k := d1[k]]
  {
    hide Closed, Pruned, Prefixes, Leaves, IsKey;
    KeysAreLeaves(tr, was.Keys, k);
    InsertedPaths(tr, was.Keys, k);
    assert d1.Keys == if r == None then d0.Keys else d0.Keys + {k};
    forall p | p in d0 ensures p in d1 && d0[p] == d1[p] {
      assert p in was && p in now && was[p] == now[p];
    }
    hide Inserted;
    KeptAndAdded(d0, d1, k);
  }

  lemma KeptAndAdded<E>(d0: map<Path, E>, d1: map<Path, E>, k: Path)
    requires d1.Keys == d0.Keys || d1.Keys == d0.Keys + {k}
    requires forall p :: p in d0 ==> d0[p] == d1[p]
    ensures d1.Keys == d0.Keys ==> d1 == d0
    ensures d1.Keys == d0.Keys + {k} && k !in d0 ==> d1 == d0[k := d1[k]]
  {
  }

  lemma KeysAreLeaves(tr: int, s: set<Path>, k: Path)
    requires IsKey(tr, k)
    ensures Leaves(tr, s) <= s && (k in Leaves(tr, s) <==> k in s)
  {
  }

  lemma ErasedDict<N, E>(
    tr: int, was: map<Path, N>, now: map<Path, N>, d0: map<Path, E>, d1: map<Path, E>, k: Path, r: bool)
    requires Closed(tr, was.Keys) && Pruned(tr, was.Keys) && IsKey(tr, k) && Erased(tr, was, now, k, 1, r)
    requires d0.Keys == Leaves(tr, was.Keys) && d1.Keys == Leaves(tr, now.Keys)
    requires forall p :: p in d0 && p in d1 && p in was && p in now && was[p] == now[p] ==> d0[p] == d1[p]
    ensures Pruned(tr, now.Keys)
    ensures r <==> k in d0
    ensures d1 == if r then d0 - {k} else d0
  {
    hide Closed, Pruned, Swept, Leaves, IsKey;
    KeysAreLeaves(tr, was.Keys, k);
    KeysAreLeaves(tr, now.Keys, k);
    if r {
      SweptAll(tr, was.Keys, k);
    }
  }

  /** Two tries with the same keys have the same nodes and the same child lists, whatever each has
      been through and in whatever mode; with the same dictionary their leaves are the same too. */
  lemma SameKeysSameTree<C(!new), D(0,!new)>(a: PatriciaTrie<C, D>, b: PatriciaTrie<C, D>)
    requires a.Valid() && b.Valid() && a.rank(a.terminator) == b.rank(b.terminator)
    requires a.Dict().Keys == b.Dict().Keys
    ensures a.Shape() == b.Shape() && a.totalCount == b.totalCount
    ensures forall p :: p in a.at ==> p in b.at && a.at[p].isLeaf == b.at[p].isLeaf
    ensures a.Dict() == b.Dict() ==>
      forall p :: p in a.at && a.at[p].isLeaf ==> a.at[p].str == b.at[p].str && a.at[p].data == b.at[p].data
  {
    hide IsTree, PatriciaTrie.Linked, PatriciaTrie.Dict, PatriciaTrie.Shape;
    a.TreeOf();
    b.TreeOf();
    TreeUnique(a.rank(a.terminator), a.Dict().Keys, a.at.Keys, a.Shape(), b.at.Keys, b.Shape());
    a.DictKeys();
    b.DictKeys();
    assert |a.Dict()| == |a.Dict().Keys| && |b.Dict()| == |b.Dict().Keys|;
    forall p | p in a.at
      ensures a.at[p].isLeaf == b.at[p].isLeaf
      ensures a.at[p].isLeaf ==> p in a.Dict()
    {
      a.OwnsAt(p);
      b.OwnsAt(p);
    }
  }

  /** What inserting the key k makes of the nodes: nothing, when it is there; else the missing nodes
      of its path are added, the last of them the leaf r. */
  ghost predicate Inserted<N>(was: map<Path, N>, now: map<Path, N>, k: Path, r: Option<N>) {
    && (r == None <==> k in was)
    && (r == None ==> now == was)
    && (r != None ==> k in now && now[k] == r.value && now.Keys == was.Keys + Prefixes(k))
    && forall p :: p in was ==> p in now && now[p] == was[p]
  }

  /** The insertion of k is under way: some of its missing nodes have been added, not the leaf. */
  ghost predicate Inserting<N>(was: map<Path, N>, now: map<Path, N>, k: Path) {
    && (k in now <==> k in was)
    && (k in was ==> now == was)
    && now.Keys + Prefixes(k) == was.Keys + Prefixes(k)
    && forall p :: p in was ==> p in now && now[p] == was[p]
  }

  lemma StepDown<N>(was: map<Path, N>, now: map<Path, N>, k: Path, i: nat, n: N)
    requires Inserting(was, now, k) && i < |k| && k !in now && k[..i] !in now
    ensures Inserting(was, now[k[..i] := n], k)
  {
    hide Prefixes;
    PrefixesHas(k, i);
  }

  lemma Complete<N>(was: map<Path, N>, now: map<Path, N>, k: Path, r: N)
    requires Inserting(was, now, k) && k !in now && now.Keys + {k} == now.Keys + Prefixes(k)
    ensures Inserted(was, now[k := r], k, Some(r))
  {
  }

  lemma Compose<N>(was: map<Path, N>, mid: map<Path, N>, now: map<Path, N>, k: Path, r: Option<N>)
    requires Inserting(was, mid, k) && Inserted(mid, now, k, r)
    ensures Inserted(was, now, k, r)
  {
    hide Prefixes;
  }

  lemma ComposeInserting<N>(was: map<Path, N>, mid: map<Path, N>, now: map<Path, N>, k: Path)
    requires Inserting(was, mid, k) && Inserting(mid, now, k)
    ensures Inserting(was, now, k)
  {
    hide Prefixes;
  }

  /** What erasing the key k makes of the nodes from depth d on. */
  ghost predicate Erased<N>(tr: int, was: map<Path, N>, now: map<Path, N>, k: Path, d: nat, r: bool) {
    && (r <==> k in was)
    && (!r ==> now == was)
    && (r ==> 1 <= d <= |k| + 1 && now.Keys == Swept(tr, was.Keys, k, d))
    && forall p :: p in now ==> p in was && now[p] == was[p]
  }

  lemma NotErased<N>(tr: int, was: map<Path, N>, now: map<Path, N>, k: Path, d: nat, e: nat)
    requires Erased(tr, was, now, k, d, false)
    ensures Erased(tr, was, now, k, e, false)
  {
  }

  /** One more RemoveNode on the way up. */
  lemma ErasedUp<N>(tr: int, was: map<Path, N>, mid: map<Path, N>, k: Path, d: nat)
    requires Erased(tr, was, mid, k, d + 1, true) && 1 <= d && k[..d] in was
    ensures k[..d] in mid
    ensures Erased(tr, was, if Removable(tr, mid.Keys, k[..d]) then mid - {k[..d]} else mid, k, d, true)
    ensures forall i :: 0 <= i < d && k[..i] in was ==> k[..i] in mid && mid[k[..i]] == was[k[..i]]
  {
    hide Removable;
    SweptKeeps(tr, was.Keys, k, d + 1);
  }

  /** The facts about a terminated string that a walk uses. */
  lemma Walked<C>(rank: C -> int, terminator: C, str: seq<C>, i: nat)
    requires Terminated(rank, terminator, str) && i <= |str|
    ensures LeafPath(rank(terminator), Ranks(rank, str)[..i]) <==> i == |str|
    ensures i < |str| ==> Ext(Ranks(rank, str)[..i], rank(str[i])) == Ranks(rank, str)[..i + 1]
    ensures i < |str| ==> (rank(str[i]) == rank(terminator) <==> i == |str| - 1)
    ensures Ranks(rank, str)[..|str|] == Ranks(rank, str) && str != []
  {
    if i < |str| {
      LastTerminator(rank, terminator, str, i);
    }
    if 0 < i {
      LastTerminator(rank, terminator, str, i - 1);
      assert Ranks(rank, str)[..i][i - 1] == rank(str[i - 1]);
    }
  }
}
