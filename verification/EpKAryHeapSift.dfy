/** Where the pairs of a K-ary heap (epKAryHeap.h) end up, slot by slot: what sifting does without its
    recursion, equal keys included. */
module EpKAryHeapSift {
  import opened EpAlgorithm
  import opened EpKAryHeapSpec

  /** r is h with the pair at the start of the path moved to its end, and every other pair on the path
      one slot back. */
  ghost predicate Shifted<T>(h: seq<T>, path: seq<nat>, r: seq<T>) {
    && path != [] && (forall i :: 0 <= i < |path| ==> path[i] < |h|) && |r| == |h|
    && r[path[|path| - 1]] == h[path[0]]
    && (forall i, j :: 0 <= i < |path| - 1 && j == i + 1 ==> r[path[i]] == h[path[j]])
    && (forall j :: 0 <= j < |h| && j !in path ==> r[j] == h[j])
  }

  lemma ShiftedUnique<T>(h: seq<T>, path: seq<nat>, r: seq<T>, r': seq<T>)
    requires Shifted(h, path, r) && Shifted(h, path, r')
    ensures r == r'
  {
    forall j | 0 <= j < |h| ensures r[j] == r'[j] {
      if j in path {
        var i :| 0 <= i < |path| && path[i] == j;
        assert i < |path| - 1 ==> r[path[i]] == h[path[i + 1]] == r'[path[i]];
      }
    }
  }

  // ---------- upwards ----------

  /** The path goes up from parent to parent as long as the parent's key is above the moved key, and no
      further. */
  ghost predicate UpPath<K, D>(cmp: (K, K) -> CompResult, k: nat, h: Heap<K, D>, moved: K, path: seq<nat>)
    requires k > 0
    decreases |path|
  {
    && path != [] && path[0] < |h|
    && var p := GetParentIdx(k, path[0]);
       if |path| == 1 then p == -1 || cmp(h[p].0, moved) != GreaterThan
       else p != -1 && path[1] == p && cmp(h[p].0, moved) == GreaterThan && UpPath(cmp, k, h, moved, path[1..])
  }

  /** The pair at idx rises: r is h with that pair moved up such a path. */
  ghost predicate Rises<K, D>(cmp: (K, K) -> CompResult, k: nat, h: Heap<K, D>, idx: nat, r: Heap<K, D>)
    requires k > 0 && idx < |h|
  {
    exists path: seq<nat> :: path != [] && path[0] == idx && UpPath(cmp, k, h, h[idx].0, path) && Shifted(h, path, r)
  }

  lemma {:induction false} SiftedUpPath<K, D>(cmp: (K, K) -> CompResult, k: nat, h: Heap<K, D>, idx: nat)
    returns (path: seq<nat>)
    requires k > 0 && idx < |h|
    ensures path != [] && path[0] == idx && UpPath(cmp, k, h, h[idx].0, path)
    ensures Shifted(h, path, SiftedUp(cmp, k, h, idx))
    ensures forall i :: 1 <= i < |path| ==> path[i] < idx
    decreases idx
  {
    var p := GetParentIdx(k, idx);
    if p != -1 && cmp(h[p].0, h[idx].0) == GreaterThan {
      var h' := Swapped(h, idx, p);
      var rest := SiftedUpPath(cmp, k, h', p);
      path := [idx] + rest;
      hide GetParentIdx;
      UpPathKept(cmp, k, h', h, h[idx].0, rest);
      assert path[1..] == rest;
      ShiftedLonger(h, idx, rest, SiftedUp(cmp, k, h, idx));
    } else {
      path := [idx];
    }
  }

  /** Only what lies above the path's start matters. */
  lemma {:induction false} UpPathKept<K, D>(
    cmp: (K, K) -> CompResult, k: nat, h: Heap<K, D>, h': Heap<K, D>, moved: K, path: seq<nat>)
    requires k > 0 && |h'| == |h| && UpPath(cmp, k, h, moved, path)
    requires forall j :: 0 <= j < path[0] ==> h'[j] == h[j]
    ensures UpPath(cmp, k, h', moved, path)
    decreases |path|
  {
    hide GetParentIdx;
    if |path| > 1 {
      UpPathKept(cmp, k, h, h', moved, path[1..]);
    }
  }

  /** One more slot in front of a path that starts where its pair has been swapped to. */
  lemma ShiftedLonger<T>(h: seq<T>, idx: nat, rest: seq<nat>, r: seq<T>)
    requires idx < |h| && rest != [] && rest[0] < |h| && idx !in rest
    requires Shifted(Swapped(h, idx, rest[0]), rest, r)
    requires forall i :: 1 <= i < |rest| ==> rest[i] != rest[0]
    ensures Shifted(h, [idx] + rest, r)
  {
    var path, h' := [idx] + rest, Swapped(h, idx, rest[0]);
    assert h'[rest[0]] == h[idx] && h'[idx] == h[rest[0]];
    assert forall i :: 1 <= i < |rest| ==> rest[i] in rest && rest[i] != idx && h'[rest[i]] == h[rest[i]];
    assert rest[0] in rest;
    forall i, j | 0 <= i < |path| - 1 && j == i + 1 ensures r[path[i]] == h[path[j]] {
      if i > 0 {
        assert r[rest[i - 1]] == h'[rest[i]];
      }
    }
    forall j | 0 <= j < |h| && j !in path ensures r[j] == h[j] {
      assert j !in rest && j != idx && j != rest[0];
    }
  }

  lemma {:induction false} UpPathUnique<K, D>(
    cmp: (K, K) -> CompResult, k: nat, h: Heap<K, D>, moved: K, p: seq<nat>, q: seq<nat>)
    requires k > 0 && UpPath(cmp, k, h, moved, p) && UpPath(cmp, k, h, moved, q) && p[0] == q[0]
    ensures p == q
    decreases |p|
  {
    hide GetParentIdx;
    if |p| > 1 {
      UpPathUnique(cmp, k, h, moved, p[1..], q[1..]);
      assert p == [p[0]] + p[1..] && q == [q[0]] + q[1..];
    }
  }

  /** There is one list the pair at idx rises to. */
  lemma RisesUnique<K, D>(
    cmp: (K, K) -> CompResult, k: nat, h: Heap<K, D>, idx: nat, r: Heap<K, D>, r': Heap<K, D>)
    requires k > 0 && idx < |h| && Rises(cmp, k, h, idx, r) && Rises(cmp, k, h, idx, r')
    ensures r == r'
  {
    hide UpPath, Shifted;
    var key := h[idx].0;
    var p: seq<nat> :| p != [] && p[0] == idx && UpPath(cmp, k, h, key, p) && Shifted(h, p, r);
    var q: seq<nat> :| q != [] && q[0] == idx && UpPath(cmp, k, h, key, q) && Shifted(h, q, r');
    UpPathUnique(cmp, k, h, key, p, q);
    ShiftedUnique(h, p, r, r');
  }

  // ---------- downwards ----------

  /** c is the first of p's children with a least key. */
  ghost predicate FirstLeast<K, D>(cmp: (K, K) -> CompResult, k: nat, h: Heap<K, D>, p: nat, c: nat)
    requires k > 0
  {
    && 1 <= c < |h| && GetParentIdx(k, c) == p
    && forall j :: 1 <= j < |h| && GetParentIdx(k, j) == p ==>
         AtMost(cmp, h[c].0, h[j].0) && (j < c ==> cmp(h[c].0, h[j].0) == LessThan)
  }

  /** The path goes down from first least child to first least child as long as the child's key is not
      above the moved key, and no further. */
  ghost predicate DownPath<K, D>(cmp: (K, K) -> CompResult, k: nat, h: Heap<K, D>, moved: K, path: seq<nat>)
    requires k > 0
    decreases |path|
  {
    && path != [] && path[0] < |h|
    && if |path| == 1 then
         forall j :: 1 <= j < |h| && GetParentIdx(k, j) == path[0] ==> cmp(moved, h[j].0) == LessThan
       else
         && FirstLeast(cmp, k, h, path[0], path[1]) && AtMost(cmp, h[path[1]].0, moved)
         && DownPath(cmp, k, h, moved, path[1..])
  }

  /** The pair at idx sinks: r is h with that pair moved down such a path. */
  ghost predicate Sinks<K, D>(cmp: (K, K) -> CompResult, k: nat, h: Heap<K, D>, idx: nat, r: Heap<K, D>)
    requires k > 0 && idx < |h|
  {
    exists path: seq<nat> :: path != [] && path[0] == idx && DownPath(cmp, k, h, h[idx].0, path) && Shifted(h, path, r)
  }

  lemma {:induction false} LeastFromIsFirst<K(!new), D>(
    cmp: (K, K) -> CompResult, h: Heap<K, D>, least: nat, trav: nat, last: nat)
    requires TotalPreorder(cmp) && least < |h| && least < trav
    ensures var r := LeastFrom(cmp, h, least, trav, last);
      && (r != least ==> cmp(h[r].0, h[least].0) == LessThan)
      && forall j :: trav <= j < r && j < |h| ==> cmp(h[r].0, h[j].0) == LessThan
    decreases last + 1 - trav
  {
    if trav <= last {
      var lower := trav < |h| && cmp(h[least].0, h[trav].0) == GreaterThan;
      var next := if lower then trav else least;
      var r := LeastFrom(cmp, h, next, trav + 1, last);
      LeastFromIsFirst(cmp, h, next, trav + 1, last);
      assert cmp(h[r].0, h[least].0) == cmp(h[least].0, h[r].0).Flip();
      assert trav < |h| ==> cmp(h[r].0, h[trav].0) == cmp(h[trav].0, h[r].0).Flip();
      assert trav < |h| ==> cmp(h[least].0, h[trav].0) == cmp(h[trav].0, h[least].0).Flip();
    }
  }

  /** findMinChild returns the first of the least children. */
  lemma MinChildIsFirst<K(!new), D>(cmp: (K, K) -> CompResult, k: nat, h: Heap<K, D>, p: nat)
    requires TotalPreorder(cmp) && k > 0 && FindMinChild(cmp, k, h, p) != -1
    ensures FirstLeast(cmp, k, h, p, FindMinChild(cmp, k, h, p))
  {
    hide GetParentIdx;
    MinChildIsLeast(cmp, k, h, p);
    FirstChildAfter(k, p);
    LeastFromIsFirst(cmp, h, k * p + 1, k * p + 2, k * p + k);
  }

  lemma {:induction false} SiftedDownPath<K(!new), D>(cmp: (K, K) -> CompResult, k: nat, h: Heap<K, D>, idx: nat)
    returns (path: seq<nat>)
    requires TotalPreorder(cmp) && k > 0 && idx < |h|
    ensures path != [] && path[0] == idx && DownPath(cmp, k, h, h[idx].0, path)
    ensures Shifted(h, path, SiftedDown(cmp, k, h, idx))
    ensures forall i :: 1 <= i < |path| ==> path[i] > idx
    decreases |h| - idx
  {
    hide FindMinChild, GetParentIdx, FirstLeast;
    var c := FindMinChild(cmp, k, h, idx);
    if c != -1 {
      MinChildIsFirst(cmp, k, h, idx);
    }
    if c != -1 && cmp(h[idx].0, h[c].0) != LessThan {
      var h' := Swapped(h, idx, c);
      var rest := SiftedDownPath(cmp, k, h', c);
      path := [idx] + rest;
      assert cmp(h[idx].0, h[c].0) == cmp(h[c].0, h[idx].0).Flip();
      DownPathKept(cmp, k, h', h, h[idx].0, c, rest);
      assert path[1..] == rest;
      ShiftedLonger(h, idx, rest, SiftedDown(cmp, k, h, idx));
    } else {
      path := [idx];
      StopsHere(cmp, k, h, idx);
    }
  }

  lemma StopsHere<K(!new), D>(cmp: (K, K) -> CompResult, k: nat, h: Heap<K, D>, idx: nat)
    requires TotalPreorder(cmp) && k > 0 && idx < |h|
    requires var c := FindMinChild(cmp, k, h, idx); c == -1 || cmp(h[idx].0, h[c].0) == LessThan
    ensures forall j :: 1 <= j < |h| && GetParentIdx(k, j) == idx ==> cmp(h[idx].0, h[j].0) == LessThan
  {
    hide FindMinChild, GetParentIdx;
    MinChildIsLeast(cmp, k, h, idx);
    var c := FindMinChild(cmp, k, h, idx);
    forall j | 1 <= j < |h| && GetParentIdx(k, j) == idx ensures cmp(h[idx].0, h[j].0) == LessThan {
      assert cmp(h[idx].0, h[j].0) == cmp(h[j].0, h[idx].0).Flip();
      assert cmp(h[idx].0, h[c].0) == cmp(h[c].0, h[idx].0).Flip();
    }
  }

  /** Swapping above p does not change which of p's children is the first least. */
  lemma SameBelow<K, D>(
    cmp: (K, K) -> CompResult, k: nat, h: Heap<K, D>, h': Heap<K, D>, c: nat, p: nat, d: nat)
    requires k > 0 && |h'| == |h| && c <= p && FirstLeast(cmp, k, h', p, d)
    requires forall j :: c < j < |h| ==> h'[j] == h[j]
    ensures FirstLeast(cmp, k, h, p, d)
  {
    assert d > p;
    forall j | 1 <= j < |h| && GetParentIdx(k, j) == p ensures h'[j] == h[j] {
      assert j > p;
    }
  }

  /** Only what lies behind the path's start matters. */
  lemma {:induction false} DownPathKept<K, D>(
    cmp: (K, K) -> CompResult, k: nat, h: Heap<K, D>, h': Heap<K, D>, moved: K, c: nat, path: seq<nat>)
    requires k > 0 && |h'| == |h| && DownPath(cmp, k, h, moved, path) && c <= path[0]
    requires forall j :: c < j < |h| ==> h'[j] == h[j]
    ensures DownPath(cmp, k, h', moved, path)
    decreases |path|
  {
    if |path| > 1 {
      SameBelow(cmp, k, h', h, c, path[0], path[1]);
      DownPathKept(cmp, k, h, h', moved, c, path[1..]);
    } else {
      forall j | 1 <= j < |h| && GetParentIdx(k, j) == path[0] ensures h'[j] == h[j] {
        assert j > path[0];
      }
    }
  }

  lemma OneFirstLeast<K(!new), D>(cmp: (K, K) -> CompResult, k: nat, h: Heap<K, D>, p: nat, c: nat, d: nat)
    requires TotalPreorder(cmp) && k > 0 && FirstLeast(cmp, k, h, p, c) && FirstLeast(cmp, k, h, p, d)
    ensures c == d
  {
    hide GetParentIdx;
    assert cmp(h[c].0, h[d].0) == cmp(h[d].0, h[c].0).Flip();
  }

  lemma {:induction false} DownPathUnique<K(!new), D>(
    cmp: (K, K) -> CompResult, k: nat, h: Heap<K, D>, moved: K, p: seq<nat>, q: seq<nat>)
    requires TotalPreorder(cmp) && k > 0 && DownPath(cmp, k, h, moved, p) && DownPath(cmp, k, h, moved, q)
    requires p[0] == q[0]
    ensures p == q
    decreases |p|
  {
    hide GetParentIdx;
    StopOrGo(cmp, k, h, moved, p, q);
    StopOrGo(cmp, k, h, moved, q, p);
    if |p| > 1 {
      OneFirstLeast(cmp, k, h, p[0], p[1], q[1]);
      DownPathUnique(cmp, k, h, moved, p[1..], q[1..]);
      assert p == [p[0]] + p[1..] && q == [q[0]] + q[1..];
    }
  }

  /** Where one path goes on, no other stops. */
  lemma StopOrGo<K(!new), D>(
    cmp: (K, K) -> CompResult, k: nat, h: Heap<K, D>, moved: K, p: seq<nat>, q: seq<nat>)
    requires TotalPreorder(cmp) && k > 0 && DownPath(cmp, k, h, moved, p) && DownPath(cmp, k, h, moved, q)
    requires p[0] == q[0]
    ensures |p| > 1 ==> |q| > 1
  {
    hide GetParentIdx;
    if |p| > 1 {
      assert cmp(moved, h[p[1]].0) == cmp(h[p[1]].0, moved).Flip();
    }
  }

  /** There is one list the pair at idx sinks to. */
  lemma SinksUnique<K(!new), D>(
    cmp: (K, K) -> CompResult, k: nat, h: Heap<K, D>, idx: nat, r: Heap<K, D>, r': Heap<K, D>)
    requires TotalPreorder(cmp) && k > 0 && idx < |h| && Sinks(cmp, k, h, idx, r) && Sinks(cmp, k, h, idx, r')
    ensures r == r'
  {
    hide DownPath, Shifted;
    var key := h[idx].0;
    var p: seq<nat> :| p != [] && p[0] == idx && DownPath(cmp, k, h, key, p) && Shifted(h, p, r);
    var q: seq<nat> :| q != [] && q[0] == idx && DownPath(cmp, k, h, key, q) && Shifted(h, q, r');
    DownPathUnique(cmp, k, h, key, p, q);
    ShiftedUnique(h, p, r, r');
  }

  // ---------- the operations ----------

  /** push: the new pair rises from the last slot. */
  lemma PushedRises<K, D>(cmp: (K, K) -> CompResult, k: nat, h: Heap<K, D>, p: (K, D))
    requires k > 0
    ensures Rises(cmp, k, h + [p], |h|, Pushed(cmp, k, h, p))
  {
    var path := SiftedUpPath(cmp, k, h + [p], |h|);
  }

  /** erase(index), and pop at index 0: the last pair takes the slot and sinks; the last slot just goes. */
  lemma ErasedSinks<K(!new), D>(cmp: (K, K) -> CompResult, k: nat, h: Heap<K, D>, index: nat)
    requires TotalPreorder(cmp) && k > 0 && index < |h|
    ensures var rest := h[..|h| - 1];
      if index == |h| - 1 then ErasedAt(cmp, k, h, index) == rest
      else Sinks(cmp, k, rest[index := h[|h| - 1]], index, ErasedAt(cmp, k, h, index))
    ensures index == 0 ==> Popped(cmp, k, h) == ErasedAt(cmp, k, h, 0)
  {
    var rest := h[..|h| - 1];
    if index == |h| - 1 {
      assert LastMovedTo(h, index) == rest;
      FirstChildAfter(k, index);
    } else {
      assert LastMovedTo(h, index) == rest[index := h[|h| - 1]];
      var path := SiftedDownPath(cmp, k, rest[index := h[|h| - 1]], index);
    }
  }

  /** changeKey: a pair whose key grows sinks, any other rises. */
  lemma KeyChangedMoves<K(!new), D>(cmp: (K, K) -> CompResult, k: nat, h: Heap<K, D>, index: nat, newKey: K)
    requires TotalPreorder(cmp) && k > 0 && index < |h|
    ensures var h' := h[index := (newKey, h[index].1)];
      if cmp(h[index].0, newKey) == LessThan then Sinks(cmp, k, h', index, KeyChangedAt(cmp, k, h, index, newKey))
      else Rises(cmp, k, h', index, KeyChangedAt(cmp, k, h, index, newKey))
  {
    var h' := h[index := (newKey, h[index].1)];
    if cmp(h[index].0, newKey) == LessThan {
      var path := SiftedDownPath(cmp, k, h', index);
    } else {
      var path := SiftedUpPath(cmp, k, h', index);
    }
  }
}
