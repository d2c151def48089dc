/** The K-ary heap (epKAryHeap.h): the pruned key search in both forms, and the class. */
module EpKAryHeap {
  import opened EpAlgorithm
  import opened EpKAryHeapSpec

  datatype KaryHeapMode = Recursive | Loop

  // ---------- the pruned search ----------

  /** The first match in depth-first preorder below root, not entering a node above the key. */
  function FoundIndex<K, D>(cmp: (K, K) -> CompResult, k: nat, h: Heap<K, D>, key: K, root: nat): (r: int)
    requires k > 0
    ensures r == -1 || (root <= r < |h| && cmp(h[r].0, key) == Equal)
    decreases |h| - root, k + 1
  {
    if root >= |h| then -1
    else if cmp(h[root].0, key) == Equal then root
    else if cmp(h[root].0, key) != GreaterThan then FoundBelow(cmp, k, h, key, root, 1)
    else -1
  }

  function FoundBelow<K, D>(cmp: (K, K) -> CompResult, k: nat, h: Heap<K, D>, key: K, root: nat, trav: nat): (r: int)
    requires k > 0 && root < |h| && 1 <= trav <= k + 1
    ensures r == -1 || (root < r < |h| && cmp(h[r].0, key) == Equal)
    decreases |h| - root, k + 1 - trav
  {
    FirstChildAfter(k, root);
    if trav > k || root * k + trav >= |h| then -1
    else
      var r := FoundIndex(cmp, k, h, key, root * k + trav);
      if r != -1 then r else FoundBelow(cmp, k, h, key, root, trav + 1)
  }

  /** i is root or a descendant of it. */
  ghost predicate Below(k: nat, root: nat, i: nat)
    requires k > 0
    decreases i
  {
    i == root || (i > root && Below(k, root, GetParentIdx(k, i)))
  }

  lemma {:induction false} BelowRoot(k: nat, i: nat)
    requires k > 0
    ensures Below(k, 0, i)
  {
    if i > 0 {
      BelowRoot(k, GetParentIdx(k, i));
    }
  }

  /** A proper descendant is below one of the children. */
  lemma {:induction false} BelowChild(k: nat, root: nat, i: nat) returns (trav: nat)
    requires k > 0 && i > root && Below(k, root, i)
    ensures 1 <= trav <= k && root * k + trav <= i && Below(k, root * k + trav, i)
    decreases i
  {
    hide GetParentIdx;
    FirstChildAfter(k, root);
    var p := GetParentIdx(k, i);
    if p == root {
      trav := i - root * k;
    } else {
      assert p > root;
      trav := BelowChild(k, root, p);
    }
  }

  lemma {:induction false} BelowIsAbove<K(!new), D>(cmp: (K, K) -> CompResult, k: nat, h: Heap<K, D>, root: nat, i: nat)
    requires TotalPreorder(cmp) && k > 0 && HeapOrder(cmp, k, h) && i < |h| && Below(k, root, i)
    ensures root < |h| && AtMost(cmp, h[root].0, h[i].0)
    decreases i
  {
    hide GetParentIdx;
    if i == root {
      assert cmp(h[i].0, h[i].0) == Equal;
    } else {
      BelowIsAbove(cmp, k, h, root, GetParentIdx(k, i));
    }
  }

  // ---------- the search without its recursion ----------

  /** The child numbers, 1 to k, on the way from root down to i. */
  ghost function Route(k: nat, root: nat, i: nat): seq<nat>
    requires k > 0 && Below(k, root, i)
    decreases i
  {
    if i == root then []
    else
      var p := GetParentIdx(k, i);
      Route(k, root, p) + [i - k * p]
  }

  /** Depth-first preorder: lexicographic, a prefix first. */
  ghost predicate NoLater(p: seq<nat>, q: seq<nat>) {
    || p <= q
    || exists n :: 0 <= n < |p| && n < |q| && p[..n] == q[..n] && p[n] < q[n]
  }

  /** i can be entered from root: no node on the way to it is above the key. */
  ghost predicate Reached<K, D>(cmp: (K, K) -> CompResult, k: nat, h: Heap<K, D>, key: K, root: nat, i: nat)
    requires k > 0 && i < |h|
    decreases i
  {
    || i == root
    || (i > root && cmp(h[GetParentIdx(k, i)].0, key) != GreaterThan
        && Reached(cmp, k, h, key, root, GetParentIdx(k, i)))
  }

  lemma {:induction false} ReachedIsBelow<K, D>(
    cmp: (K, K) -> CompResult, k: nat, h: Heap<K, D>, key: K, root: nat, i: nat)
    requires k > 0 && i < |h| && Reached(cmp, k, h, key, root, i)
    ensures Below(k, root, i)
    decreases i
  {
    hide GetParentIdx;
    if i != root {
      ReachedIsBelow(cmp, k, h, key, root, GetParentIdx(k, i));
    }
  }

  /** Under heap order every node whose key is not above the key can be entered. */
  lemma {:induction false} OrderedReaches<K(!new), D>(
    cmp: (K, K) -> CompResult, k: nat, h: Heap<K, D>, key: K, root: nat, i: nat)
    requires TotalPreorder(cmp) && k > 0 && HeapOrder(cmp, k, h)
    requires i < |h| && Below(k, root, i) && AtMost(cmp, h[i].0, key)
    ensures Reached(cmp, k, h, key, root, i)
    decreases i
  {
    hide GetParentIdx;
    if i != root {
      OrderedReaches(cmp, k, h, key, root, GetParentIdx(k, i));
    }
  }

  /** The way to a proper descendant leads through a child of root. */
  lemma {:induction false} ReachedThrough<K, D>(
    cmp: (K, K) -> CompResult, k: nat, h: Heap<K, D>, key: K, root: nat, i: nat) returns (t: nat)
    requires k > 0 && root < i < |h| && Reached(cmp, k, h, key, root, i)
    ensures cmp(h[root].0, key) != GreaterThan
    ensures 1 <= t <= k && root * k + t <= i && Reached(cmp, k, h, key, root * k + t, i)
    decreases i
  {
    hide GetParentIdx;
    FirstChildAfter(k, root);
    var p := GetParentIdx(k, i);
    if p == root {
      t := i - root * k;
    } else {
      t := ReachedThrough(cmp, k, h, key, root, p);
    }
  }

  /** What is reached from a child of root that may be entered is reached from root; the way to it
      starts with the child's number. */
  lemma {:induction false} ReachedFromParent<K, D>(
    cmp: (K, K) -> CompResult, k: nat, h: Heap<K, D>, key: K, root: nat, t: nat, i: nat)
    requires k > 0 && 1 <= t <= k && root < root * k + t <= i < |h|
    requires cmp(h[root].0, key) != GreaterThan && Reached(cmp, k, h, key, root * k + t, i)
    ensures Reached(cmp, k, h, key, root, i) && Below(k, root, i) && Below(k, root * k + t, i)
    ensures Route(k, root, i) == [t] + Route(k, root * k + t, i)
    decreases i
  {
    hide GetParentIdx;
    var c := root * k + t;
    ChildHasParent(k, root, c);
    if i != c {
      var p := GetParentIdx(k, i);
      ReachedFromParent(cmp, k, h, key, root, t, p);
      assert Route(k, root, i) == Route(k, root, p) + [i - k * p];
    } else {
      assert Route(k, root, c) == Route(k, root, root) + [t];
    }
  }

  /** On every heap, ordered or not: a match that can be entered is not missed, and what is found can
      be entered and comes no later in preorder. */
  lemma {:induction false} FoundIndexFirst<K, D>(
    cmp: (K, K) -> CompResult, k: nat, h: Heap<K, D>, key: K, root: nat, i: nat)
    requires k > 0 && i < |h| && Reached(cmp, k, h, key, root, i) && cmp(h[i].0, key) == Equal
    ensures var r := FoundIndex(cmp, k, h, key, root);
      && r != -1 && Reached(cmp, k, h, key, root, r)
      && Below(k, root, r) && Below(k, root, i) && NoLater(Route(k, root, r), Route(k, root, i))
    decreases |h| - root, k + 1
  {
    hide GetParentIdx, FoundBelow;
    ReachedIsBelow(cmp, k, h, key, root, i);
    if cmp(h[root].0, key) == Equal {
      assert Route(k, root, root) == [];
    } else {
      var t := ReachedThrough(cmp, k, h, key, root, i);
      FoundBelowFirst(cmp, k, h, key, root, 1, t, i);
    }
  }

  lemma {:induction false} FoundBelowFirst<K, D>(
    cmp: (K, K) -> CompResult, k: nat, h: Heap<K, D>, key: K, root: nat, trav: nat, t: nat, i: nat)
    requires k > 0 && root < |h| && cmp(h[root].0, key) != GreaterThan
    requires 1 <= trav <= t <= k && root * k + t <= i < |h|
    requires Reached(cmp, k, h, key, root * k + t, i) && cmp(h[i].0, key) == Equal
    ensures var r := FoundBelow(cmp, k, h, key, root, trav);
      && r != -1 && Reached(cmp, k, h, key, root, r)
      && Below(k, root, r) && Below(k, root, i) && NoLater(Route(k, root, r), Route(k, root, i))
    decreases |h| - root, k + 1 - trav
  {
    hide GetParentIdx, Below, Reached, NoLater, FoundIndex;
    FirstChildAfter(k, root);
    ReachedFromParent(cmp, k, h, key, root, t, i);
    var c := root * k + trav;
    var r := FoundIndex(cmp, k, h, key, c);
    if trav == t {
      FoundIndexFirst(cmp, k, h, key, c, i);
      ReachedFromParent(cmp, k, h, key, root, trav, r);
      NoLaterUnder(trav, Route(k, c, r), Route(k, c, i));
    } else if r == -1 {
      FoundBelowFirst(cmp, k, h, key, root, trav + 1, t, i);
    } else {
      FoundIsReached(cmp, k, h, key, c);
      ReachedFromParent(cmp, k, h, key, root, trav, r);
      EarlierChild(trav, Route(k, c, r), t, Route(k, root * k + t, i));
    }
  }

  lemma NoLaterUnder(t: nat, p: seq<nat>, q: seq<nat>)
    requires NoLater(p, q)
    ensures NoLater([t] + p, [t] + q)
  {
    if !(p <= q) {
      var n :| 0 <= n < |p| && n < |q| && p[..n] == q[..n] && p[n] < q[n];
      assert ([t] + p)[..n + 1] == [t] + p[..n] && ([t] + q)[..n + 1] == [t] + q[..n];
    }
  }

  lemma EarlierChild(t: nat, p: seq<nat>, u: nat, q: seq<nat>)
    requires t < u
    ensures NoLater([t] + p, [u] + q)
  {
    assert ([t] + p)[..0] == ([u] + q)[..0];
  }

  /** What is found can be entered. */
  lemma {:induction false} FoundIsReached<K, D>(cmp: (K, K) -> CompResult, k: nat, h: Heap<K, D>, key: K, root: nat)
    requires k > 0 && FoundIndex(cmp, k, h, key, root) != -1
    ensures Reached(cmp, k, h, key, root, FoundIndex(cmp, k, h, key, root))
    decreases |h| - root, k + 1
  {
    hide FoundBelow, GetParentIdx;
    if cmp(h[root].0, key) != Equal {
      FoundBelowIsReached(cmp, k, h, key, root, 1);
    }
  }

  lemma {:induction false} FoundBelowIsReached<K, D>(
    cmp: (K, K) -> CompResult, k: nat, h: Heap<K, D>, key: K, root: nat, trav: nat)
    requires k > 0 && root < |h| && 1 <= trav <= k + 1 && cmp(h[root].0, key) != GreaterThan
    requires FoundBelow(cmp, k, h, key, root, trav) != -1
    ensures Reached(cmp, k, h, key, root, FoundBelow(cmp, k, h, key, root, trav))
    decreases |h| - root, k + 1 - trav
  {
    hide FoundIndex, GetParentIdx, Reached;
    FirstChildAfter(k, root);
    var c := root * k + trav;
    var r := FoundIndex(cmp, k, h, key, c);
    if r != -1 {
      FoundIsReached(cmp, k, h, key, c);
      ReachedFromParent(cmp, k, h, key, root, trav, r);
    } else {
      FoundBelowIsReached(cmp, k, h, key, root, trav + 1);
    }
  }

  /** Under heap order, pruning misses nothing, and the match found is the first in the preorder of
      the whole tree below root. */
  lemma FoundIndexComplete<K(!new), D>(
    cmp: (K, K) -> CompResult, k: nat, h: Heap<K, D>, key: K, root: nat, i: nat)
    requires TotalPreorder(cmp) && k > 0 && HeapOrder(cmp, k, h)
    requires i < |h| && Below(k, root, i) && cmp(h[i].0, key) == Equal
    ensures var r := FoundIndex(cmp, k, h, key, root);
      r != -1 && Below(k, root, r) && NoLater(Route(k, root, r), Route(k, root, i))
  {
    hide HeapOrder, FoundIndex, Reached;
    OrderedReaches(cmp, k, h, key, root, i);
    FoundIndexFirst(cmp, k, h, key, root, i);
  }

  /** Preorder puts every node in one place, so there is one first match. */
  lemma {:induction false} RouteUnique(k: nat, root: nat, i: nat, j: nat)
    requires k > 0 && Below(k, root, i) && Below(k, root, j)
    requires NoLater(Route(k, root, i), Route(k, root, j)) && NoLater(Route(k, root, j), Route(k, root, i))
    ensures i == j
  {
    NoLaterBothWays(Route(k, root, i), Route(k, root, j));
    SameRoute(k, root, i, j);
  }

  lemma NoLaterBothWays(p: seq<nat>, q: seq<nat>)
    requires NoLater(p, q) && NoLater(q, p)
    ensures p == q
  {
    if n :| 0 <= n < |p| && n < |q| && p[..n] == q[..n] && p[n] < q[n] {
      NotEarlier(p, q, n);
    }
    if n :| 0 <= n < |q| && n < |p| && q[..n] == p[..n] && q[n] < p[n] {
      NotEarlier(q, p, n);
    }
  }

  lemma NotEarlier(p: seq<nat>, q: seq<nat>, n: nat)
    requires n < |p| && n < |q| && p[..n] == q[..n] && p[n] < q[n]
    ensures !NoLater(q, p)
  {
    forall m | 0 <= m < |q| && m < |p| ensures !(q[..m] == p[..m] && q[m] < p[m]) {
      assert m < n ==> p[..n][m] == p[m] && q[..n][m] == q[m];
      assert n < m ==> p[..m][n] == p[n] && q[..m][n] == q[n];
    }
  }

  lemma {:induction false} SameRoute(k: nat, root: nat, i: nat, j: nat)
    requires k > 0 && Below(k, root, i) && Below(k, root, j) && Route(k, root, i) == Route(k, root, j)
    ensures i == j
    decreases i
  {
    hide GetParentIdx;
    if i != root && j != root {
      var p, q := GetParentIdx(k, i), GetParentIdx(k, j);
      var u, v := Route(k, root, p), Route(k, root, q);
      assert (u + [i - k * p])[..|u|] == u && (v + [j - k * q])[..|v|] == v;
      assert |u| == |v| && u == v && i - k * p == j - k * q;
      SameRoute(k, root, p, q);
    }
  }

  /** -1 comes back exactly when no pair of the heap has the key. */
  lemma SearchIsExact<K(!new), D>(cmp: (K, K) -> CompResult, k: nat, h: Heap<K, D>, key: K)
    requires TotalPreorder(cmp) && k > 0 && HeapOrder(cmp, k, h)
    ensures FoundIndex(cmp, k, h, key, 0) == -1 <==> forall i :: 0 <= i < |h| ==> cmp(h[i].0, key) != Equal
  {
    hide FoundIndex;
    forall i | 0 <= i < |h| && cmp(h[i].0, key) == Equal ensures FoundIndex(cmp, k, h, key, 0) != -1 {
      BelowRoot(k, i);
      FoundIndexComplete(cmp, k, h, key, 0, i);
    }
  }

  // ---------- the search with a snapshot stack ----------

  datatype Snapshot = Snapshot(rootIdx: nat, trav: nat, stage: int)

  ghost predicate Frame(k: nat, n: nat, f: Snapshot) {
    && 0 <= f.stage <= 2
    && (f.stage > 0 ==> f.rootIdx < n && 1 <= f.trav <= k)
  }

  ghost predicate Frames(k: nat, n: nat, stack: seq<Snapshot>) {
    forall i :: 0 <= i < |stack| ==> Frame(k, n, stack[i])
  }

  /** What one saved call will return, given what the call above it returned. */
  ghost function Resume<K, D>(cmp: (K, K) -> CompResult, k: nat, h: Heap<K, D>, key: K, f: Snapshot, ret: int): int
    requires k > 0 && Frame(k, |h|, f)
  {
    if f.stage == 0 then FoundIndex(cmp, k, h, key, f.rootIdx)
    else if f.stage == 2 && ret != -1 then ret
    else FoundBelow(cmp, k, h, key, f.rootIdx, f.trav + 1)
  }

  /** What the whole stack (top last) will return. */
  ghost function ResumeAll<K, D>(
    cmp: (K, K) -> CompResult, k: nat, h: Heap<K, D>, key: K, stack: seq<Snapshot>, ret: int): int
    requires k > 0 && Frames(k, |h|, stack)
    decreases |stack|
  {
    if stack == [] then ret
    else ResumeAll(cmp, k, h, key, stack[..|stack| - 1], Resume(cmp, k, h, key, stack[|stack| - 1], ret))
  }

  /** An upper bound on the rounds a call still needs when nothing is pruned or found. */
  ghost function CallCost(k: nat, n: nat, root: nat): nat
    requires k > 0
    decreases n - root, k + 1
  {
    if root >= n then 1 else 2 + BelowCost(k, n, root, 1)
  }

  ghost function BelowCost(k: nat, n: nat, root: nat, trav: nat): nat
    requires k > 0 && root < n && 1 <= trav <= k + 1
    decreases n - root, k + 1 - trav
  {
    FirstChildAfter(k, root);
    if trav > k || root * k + trav >= n then 1
    else 3 + CallCost(k, n, root * k + trav) + BelowCost(k, n, root, trav + 1)
  }

  ghost function FrameCost(k: nat, n: nat, f: Snapshot): nat
    requires k > 0 && Frame(k, n, f)
  {
    if f.stage == 0 then 1 + CallCost(k, n, f.rootIdx)
    else f.stage + BelowCost(k, n, f.rootIdx, f.trav + 1)
  }

  ghost function StackCost(k: nat, n: nat, stack: seq<Snapshot>): nat
    requires k > 0 && Frames(k, n, stack)
  {
    if stack == [] then 0 else StackCost(k, n, stack[..|stack| - 1]) + FrameCost(k, n, stack[|stack| - 1])
  }

  lemma Pushed1<K, D>(
    cmp: (K, K) -> CompResult, k: nat, h: Heap<K, D>, key: K, below: seq<Snapshot>, f: Snapshot, ret: int)
    requires k > 0 && Frames(k, |h|, below) && Frame(k, |h|, f)
    ensures Frames(k, |h|, below + [f])
    ensures ResumeAll(cmp, k, h, key, below + [f], ret)
        == ResumeAll(cmp, k, h, key, below, Resume(cmp, k, h, key, f, ret))
    ensures StackCost(k, |h|, below + [f]) == StackCost(k, |h|, below) + FrameCost(k, |h|, f)
  {
    assert (below + [f])[..|below|] == below;
  }

  /** Descending into the next child: the pair of frames pushed does what was left to do below. */
  lemma Descend<K, D>(
    cmp: (K, K) -> CompResult, k: nat, h: Heap<K, D>, key: K, below: seq<Snapshot>, root: nat, trav: nat, ret: int)
    requires k > 0 && Frames(k, |h|, below)
    requires root < |h| && 1 <= trav <= k && root * k + trav < |h|
    ensures var stack := below + [Snapshot(root, trav, 2)] + [Snapshot(root * k + trav, 0, 0)];
      && Frames(k, |h|, stack)
      && ResumeAll(cmp, k, h, key, stack, ret)
        == ResumeAll(cmp, k, h, key, below, FoundBelow(cmp, k, h, key, root, trav))
      && StackCost(k, |h|, stack) == StackCost(k, |h|, below) + BelowCost(k, |h|, root, trav)
  {
    hide ResumeAll, StackCost, FoundIndex, CallCost;
    var outer, inner := Snapshot(root, trav, 2), Snapshot(root * k + trav, 0, 0);
    Pushed1(cmp, k, h, key, below + [outer], inner, ret);
    Pushed1(cmp, k, h, key, below, outer, Resume(cmp, k, h, key, inner, ret));
  }

  lemma NoChildLeft<K, D>(cmp: (K, K) -> CompResult, k: nat, h: Heap<K, D>, key: K, root: nat, trav: nat)
    requires k > 0 && root < |h| && 1 <= trav <= k + 1
    requires trav > k || root * k + trav >= |h|
    ensures FoundBelow(cmp, k, h, key, root, trav) == -1
  {
  }

  /** The heap after ChangeKey: the pair the search finds, if any, gets the new key. */
  function KeyChanged<K, D>(cmp: (K, K) -> CompResult, k: nat, h: Heap<K, D>, key: K, newKey: K): (r: Heap<K, D>)
    requires k > 0
    ensures |r| == |h|
  {
    var i := FoundIndex(cmp, k, h, key, 0);
    if i >= 0 then KeyChangedAt(cmp, k, h, i, newKey) else h
  }

  /** The heap after Erase as written, for a key that converts to index. */
  function Erased<K, D>(cmp: (K, K) -> CompResult, k: nat, h: Heap<K, D>, key: K, index: int): (r: Heap<K, D>)
    requires k > 0
    ensures |h| - 1 <= |r| <= |h|
  {
    if FoundIndex(cmp, k, h, key, 0) >= 0 && 0 <= index < |h| then ErasedAt(cmp, k, h, index) else h
  }

  class KAryHeap<K(!new), D> {
    const k: nat
    const cmp: (K, K) -> CompResult
    const mode: KaryHeapMode
    /** The conversion of a key to int that Erase's call needs to compile. */
    const keyAsInt: K -> int
    /** The occupied slots of m_heap; m_heapSize is their number. */
    var heap: Heap<K, D>

    ghost predicate Valid()
      reads this
    {
      k > 0 && TotalPreorder(cmp)
    }

    ghost predicate Ordered()
      reads this
      requires Valid()
    {
      HeapOrder(cmp, k, heap)
    }

    constructor (k: nat, cmp: (K, K) -> CompResult, mode: KaryHeapMode, keyAsInt: K -> int)
      requires k > 0 && TotalPreorder(cmp)
      ensures Valid() && Ordered() && heap == []
      ensures this.k == k && this.cmp == cmp && this.mode == mode && this.keyAsInt == keyAsInt
    {
      this.k, this.cmp, this.mode, this.keyAsInt, heap := k, cmp, mode, keyAsInt, [];
    }

    method FindMinChild(parentIdx: nat) returns (r: int)
      requires Valid()
      ensures r == EpKAryHeapSpec.FindMinChild(cmp, k, heap, parentIdx)
    {
      FirstChildAfter(k, parentIdx);
      if k * parentIdx + 1 < |heap| {
        var minIdx: nat := k * parentIdx + 1;
        var arrTrav: nat := k * parentIdx + 2;
        while arrTrav <= k * parentIdx + k
          invariant minIdx < |heap| && minIdx < arrTrav
          invariant LeastFrom(cmp, heap, minIdx, arrTrav, k * parentIdx + k)
                    == EpKAryHeapSpec.FindMinChild(cmp, k, heap, parentIdx)
          decreases k * parentIdx + k + 1 - arrTrav
        {
          if arrTrav < |heap| && cmp(heap[minIdx].0, heap[arrTrav].0) == GreaterThan {
            minIdx := arrTrav;
          }
          arrTrav := arrTrav + 1;
        }
        return minIdx;
      }
      return -1;
    }

    method HeapifyUp(idx: nat)
      requires Valid() && idx < |heap|
      modifies this
      ensures heap == SiftedUp(cmp, k, old(heap), idx)
    {
      var currentIdx: nat := idx;
      var parentIdx := GetParentIdx(k, currentIdx);
      while parentIdx != -1
        invariant currentIdx < |heap| && parentIdx == GetParentIdx(k, currentIdx)
        invariant SiftedUp(cmp, k, heap, currentIdx) == SiftedUp(cmp, k, old(heap), idx)
        decreases currentIdx
      {
        if cmp(heap[parentIdx].0, heap[currentIdx].0) == GreaterThan {
          heap := Swapped(heap, currentIdx, parentIdx);
          currentIdx := parentIdx;
          parentIdx := GetParentIdx(k, currentIdx);
        } else {
          break;
        }
      }
    }

    method HeapifyDown(idx: nat)
      requires Valid() && idx <= |heap|
      modifies this
      ensures heap == SiftedDown(cmp, k, old(heap), idx)
    {
      var parentIdx: nat := idx;
      var minChildIdx := FindMinChild(parentIdx);
      while minChildIdx != -1
        invariant parentIdx <= |heap| && minChildIdx == EpKAryHeapSpec.FindMinChild(cmp, k, heap, parentIdx)
        invariant SiftedDown(cmp, k, heap, parentIdx) == SiftedDown(cmp, k, old(heap), idx)
        decreases |heap| - parentIdx
      {
        if cmp(heap[parentIdx].0, heap[minChildIdx].0) != LessThan {
          heap := Swapped(heap, parentIdx, minChildIdx);
          parentIdx := minChildIdx;
          minChildIdx := FindMinChild(parentIdx);
        } else {
          break;
        }
      }
    }

    method FindIndexLoop(key: K, rootIdx: nat) returns (retValue: int)
      requires Valid()
      ensures retValue == FoundIndex(cmp, k, heap, key, rootIdx)
    {
      hide ResumeAll, StackCost, FoundIndex, FoundBelow, CallCost, BelowCost;
      retValue := -1;
      var snapshotStack := [Snapshot(rootIdx, 0, 0)];
      StartSearch(cmp, k, heap, key, snapshotStack[0], retValue);
      while snapshotStack != []
        invariant Frames(k, |heap|, snapshotStack)
        invariant ResumeAll(cmp, k, heap, key, snapshotStack, retValue) == FoundIndex(cmp, k, heap, key, rootIdx)
        decreases StackCost(k, |heap|, snapshotStack)
      {
        var current := snapshotStack[|snapshotStack| - 1];
        assert snapshotStack == snapshotStack[..|snapshotStack| - 1] + [current];
        snapshotStack := snapshotStack[..|snapshotStack| - 1];
        Pushed1(cmp, k, heap, key, snapshotStack, current, retValue);
        OneRound(cmp, k, heap, key, current);
        SearchStep(cmp, k, heap, key, current.rootIdx);
        match current.stage {
          case 0 =>
            if current.rootIdx < |heap| {
              var pair := heap[current.rootIdx];
              if cmp(pair.0, key) == Equal {
                retValue := current.rootIdx;
                continue;
              }
              if cmp(pair.0, key) != GreaterThan {
                var trav := 1;
                if trav <= k && current.rootIdx * k + trav < |heap| {
                  Descend(cmp, k, heap, key, snapshotStack, current.rootIdx, trav, retValue);
                  current := current.(trav := trav, stage := 2);
                  snapshotStack := snapshotStack + [current];
                  snapshotStack := snapshotStack + [Snapshot(current.rootIdx * k + trav, 0, 0)];
                  continue;
                }
                NoChildLeft(cmp, k, heap, key, current.rootIdx, trav);
              }
            }
            retValue := -1;
          case 1 =>
            var trav := current.trav + 1;
            if trav <= k && current.rootIdx * k + trav < |heap| {
              Descend(cmp, k, heap, key, snapshotStack, current.rootIdx, trav, retValue);
              current := current.(trav := trav, stage := 2);
              snapshotStack := snapshotStack + [current];
              snapshotStack := snapshotStack + [Snapshot(current.rootIdx * k + trav, 0, 0)];
              continue;
            }
            NoChildLeft(cmp, k, heap, key, current.rootIdx, trav);
            retValue := -1;
          case _ =>
            if retValue != -1 {
              continue;
            }
            current := current.(stage := 1);
            Pushed1(cmp, k, heap, key, snapshotStack, current, retValue);
            snapshotStack := snapshotStack + [current];
        }
      }
      FinishSearch(cmp, k, heap, key, retValue);
    }

    method FindIndex(key: K, rootIdx: nat) returns (r: int)
      requires Valid()
      ensures r == FoundIndex(cmp, k, heap, key, rootIdx)
      decreases |heap| - rootIdx
    {
      hide FoundIndex;
      if mode == Recursive {
        SearchStep(cmp, k, heap, key, rootIdx);
        if rootIdx < |heap| {
          var pair := heap[rootIdx];
          if cmp(pair.0, key) == Equal {
            return rootIdx;
          }
          if cmp(pair.0, key) != GreaterThan {
            FirstChildAfter(k, rootIdx);
            var trav := 1;
            while trav <= k
              invariant 1 <= trav <= k + 1
              invariant FoundBelow(cmp, k, heap, key, rootIdx, trav) == FoundIndex(cmp, k, heap, key, rootIdx)
            {
              if rootIdx * k + trav < |heap| {
                var retIdx := FindIndex(key, rootIdx * k + trav);
                if retIdx != -1 {
                  return retIdx;
                }
              } else {
                break;
              }
              trav := trav + 1;
            }
          }
        }
        return -1;
      } else {
        r := FindIndexLoop(key, rootIdx);
      }
    }

    /** Storage growth aside, this is the protected push. */
    method PushPair(key: K, data: D)
      requires Valid()
      modifies this
      ensures heap == Pushed(cmp, k, old(heap), (key, data))
      ensures old(Ordered()) ==> Ordered()
    {
      if Ordered() {
        PushedKeepsOrder(cmp, k, heap, (key, data));
      }
      heap := heap + [(key, data)];
      HeapifyUp(|heap| - 1);
    }

    /** The returned reference is the data of the pair at index r. The assertion that the key is
        new is compiled out of release builds, so a duplicate goes in as well. */
    method Push(key: K, data: D) returns (r: nat)
      requires Valid() && Ordered()
      modifies this
      ensures Ordered() && heap == Pushed(cmp, k, old(heap), (key, data))
      ensures r < |heap| && cmp(heap[r].0, key) == Equal && r == FoundIndex(cmp, k, heap, key, 0)
      ensures (forall p :: p in old(heap) ==> cmp(p.0, key) != Equal) ==> heap[r] == (key, data)
    {
      hide Pushed;
      ghost var was := heap;
      PushedKeepsOrder(cmp, k, heap, (key, data));
      var index := FindIndex(key, 0);
      PushPair(key, data);
      PushedIsFound(cmp, k, was, (key, data));
      index := FindIndex(key, 0);
      assert heap[index] in multiset(heap);
      r := index;
    }

    method Pop() returns (r: Option<(K, D)>)
      requires Valid()
      modifies this
      ensures old(heap) == [] ==> r == None && heap == []
      ensures old(heap) != [] ==> r == Some(old(heap[0])) && heap == Popped(cmp, k, old(heap))
      ensures old(Ordered()) ==> Ordered() && forall p :: p in old(heap) ==> AtMost(cmp, old(heap)[0].0, p.0)
    {
      if |heap| > 0 {
        if Ordered() {
          PoppedKeepsOrder(cmp, k, heap);
        }
        r := Some(heap[0]);
        heap := LastMovedTo(heap, 0);
        HeapifyDown(0);
      } else {
        r := None;
      }
    }

    method Front() returns (r: Option<(K, D)>)
      requires Valid()
      ensures r == if heap == [] then None else Some(heap[0])
      ensures r.Some? && Ordered() ==> forall p :: p in heap ==> AtMost(cmp, r.value.0, p.0)
    {
      if |heap| > 0 {
        if Ordered() {
          PoppedKeepsOrder(cmp, k, heap);
        }
        r := Some(heap[0]);
      } else {
        r := None;
      }
    }

    method ChangeKeyAt(index: nat, newKey: K)
      requires Valid()
      modifies this
      ensures heap == if index < |old(heap)| then KeyChangedAt(cmp, k, old(heap), index, newKey) else old(heap)
      ensures old(Ordered()) ==> Ordered()
    {
      if index < |heap| {
        if Ordered() {
          KeyChangedKeepsOrder(cmp, k, heap, index, newKey);
        }
        var less := cmp(heap[index].0, newKey) == LessThan;
        heap := heap[index := (newKey, heap[index].1)];
        if less {
          HeapifyDown(index);
        } else {
          HeapifyUp(index);
        }
      }
    }

    method ChangeKey(key: K, newKey: K) returns (r: bool)
      requires Valid() && Ordered()
      modifies this
      ensures Ordered() && heap == KeyChanged(cmp, k, old(heap), key, newKey)
      ensures r <==> exists p :: p in old(heap) && cmp(p.0, key) == Equal
    {
      hide FoundIndex, KeyChangedAt;
      SearchIsExact(cmp, k, heap, key);
      var idx := FindIndex(key, 0);
      if idx >= 0 {
        assert heap[idx] in heap;
        ChangeKeyAt(idx, newKey);
        return true;
      }
      return false;
    }

    method GetData(key: K) returns (r: Option<D>)
      requires Valid() && Ordered()
      ensures r.Some? ==> exists p :: p in heap && cmp(p.0, key) == Equal && p.1 == r.value
      ensures r == None ==> forall p :: p in heap ==> cmp(p.0, key) != Equal
      ensures r.Some? ==> FoundIndex(cmp, k, heap, key, 0) >= 0 && r.value == heap[FoundIndex(cmp, k, heap, key, 0)].1
    {
      hide FoundIndex;
      SearchIsExact(cmp, k, heap, key);
      var idx := FindIndex(key, 0);
      if idx >= 0 {
        assert heap[idx] in heap;
        return Some(heap[idx].1);
      }
      return None;
    }

    /** operator[]: the reference is the data of the pair at index r; zero is the data a new pair
        starts with. */
    method At(key: K, zero: D) returns (r: nat)
      requires Valid() && Ordered()
      modifies this
      ensures Ordered() && r < |heap| && cmp(heap[r].0, key) == Equal && r == FoundIndex(cmp, k, heap, key, 0)
      ensures (exists p :: p in old(heap) && cmp(p.0, key) == Equal) ==> heap == old(heap)
      ensures !(exists p :: p in old(heap) && cmp(p.0, key) == Equal) ==>
        heap == Pushed(cmp, k, old(heap), (key, zero)) && heap[r] == (key, zero)
    {
      hide FoundIndex;
      SearchIsExact(cmp, k, heap, key);
      var idx := FindIndex(key, 0);
      if idx >= 0 {
        assert heap[idx] in heap;
        return idx;
      }
      r := Push(key, zero);
    }

    /** The protected erase(index). A negative index converts to a size_t beyond the heap. */
    method EraseAt(index: int)
      requires Valid()
      modifies this
      ensures heap == if 0 <= index < |old(heap)| then ErasedAt(cmp, k, old(heap), index) else old(heap)
    {
      if 0 <= index < |heap| {
        heap := LastMovedTo(heap, index);
        HeapifyDown(index);
      }
    }

    /** As written: the key itself is passed as the index, and the result is always false. */
    method Erase(key: K) returns (r: bool)
      requires Valid()
      modifies this
      ensures !r
      ensures heap == Erased(cmp, k, old(heap), key, keyAsInt(key))
    {
      var idx := FindIndex(key, 0);
      if idx >= 0 {
        EraseAt(keyAsInt(key));
      }
      return false;
    }

    /** As written: true exactly when the heap is not empty, the opposite of what is documented. */
    method IsEmpty() returns (r: bool)
      ensures r <==> heap != []
    {
      if |heap| != 0 {
        return true;
      }
      return false;
    }

    method Clear()
      requires Valid()
      modifies this
      ensures heap == [] && Ordered()
    {
      heap := [];
    }
  }

  /** After a push the search for the pushed key succeeds. */
  lemma PushedIsFound<K(!new), D>(cmp: (K, K) -> CompResult, k: nat, h: Heap<K, D>, p: (K, D))
    requires TotalPreorder(cmp) && k > 0 && HeapOrder(cmp, k, h)
    ensures FoundIndex(cmp, k, Pushed(cmp, k, h, p), p.0, 0) != -1
  {
    hide HeapOrder, FoundIndex, Pushed;
    var h' := Pushed(cmp, k, h, p);
    PushedKeepsOrder(cmp, k, h, p);
    assert p in multiset(h');
    var i :| 0 <= i < |h'| && h'[i] == p;
    assert cmp(p.0, p.0) == Equal;
    SearchIsExact(cmp, k, h', p.0);
  }

  lemma StartSearch<K, D>(cmp: (K, K) -> CompResult, k: nat, h: Heap<K, D>, key: K, f: Snapshot, ret: int)
    requires k > 0 && Frame(k, |h|, f)
    ensures Frames(k, |h|, [f])
    ensures ResumeAll(cmp, k, h, key, [f], ret) == Resume(cmp, k, h, key, f, ret)
  {
    Pushed1(cmp, k, h, key, [], f, ret);
    assert [] + [f] == [f];
  }

  lemma FinishSearch<K, D>(cmp: (K, K) -> CompResult, k: nat, h: Heap<K, D>, key: K, ret: int)
    requires k > 0
    ensures ResumeAll(cmp, k, h, key, [], ret) == ret
  {
  }

  lemma SearchStep<K, D>(cmp: (K, K) -> CompResult, k: nat, h: Heap<K, D>, key: K, root: nat)
    requires k > 0
    ensures FoundIndex(cmp, k, h, key, root)
            == if root >= |h| then -1
               else if cmp(h[root].0, key) == Equal then root
               else if cmp(h[root].0, key) != GreaterThan then FoundBelow(cmp, k, h, key, root, 1)
               else -1
  {
  }

  lemma OneRound<K, D>(cmp: (K, K) -> CompResult, k: nat, h: Heap<K, D>, key: K, f: Snapshot)
    requires k > 0 && Frame(k, |h|, f)
    ensures f.stage == 0 && f.rootIdx < |h| ==> FrameCost(k, |h|, f) > BelowCost(k, |h|, f.rootIdx, 1)
    ensures f.stage == 2 ==> FrameCost(k, |h|, f) > FrameCost(k, |h|, f.(stage := 1))
    ensures FrameCost(k, |h|, f) > 0
  {
  }
}
