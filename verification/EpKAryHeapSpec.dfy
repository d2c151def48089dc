/** The list functions the K-ary heap (epKAryHeap.h) computes, and what they keep. */
module EpKAryHeapSpec {
  import opened EpAlgorithm

  // ---------- parents and children ----------

  /** The parent index as documented: -1 for the root. */
  function GetParentIdx(k: nat, childIdx: nat): (r: int)
    requires k > 0
    ensures childIdx == 0 ==> r == -1
    ensures childIdx > 0 ==> 0 <= r < childIdx && k * r + 1 <= childIdx <= k * r + k
  {
    if childIdx == 0 then -1
    else
      var p := (childIdx - 1) / k;
      ParentBounds(k, childIdx, p);
      p
  }

  lemma ParentBounds(k: nat, i: nat, p: int)
    requires k > 0 && i > 0 && p == (i - 1) / k
    ensures 0 <= p < i && k * p + 1 <= i <= k * p + k
  {
    assert i - 1 == k * p + (i - 1) % k;
    if p >= i {
      assert k * p >= 1 * p by { MulMono(1, k, p); }
    }
  }

  lemma MulMono(a: nat, b: nat, c: nat)
    requires a <= b
    ensures a * c <= b * c
  {
  }

  /** The children of p are exactly the indices k*p+1 .. k*p+k. */
  lemma ChildHasParent(k: nat, p: nat, i: nat)
    requires k > 0 && k * p + 1 <= i <= k * p + k
    ensures GetParentIdx(k, i) == p
  {
    hide GetParentIdx;
    var q := GetParentIdx(k, i);
    assert k * (q + 1) == k * q + k && k * (p + 1) == k * p + k;
    if q < p {
      MulMono(q + 1, p, k);
    } else if q > p {
      MulMono(p + 1, q, k);
    }
  }

  lemma FirstChildAfter(k: nat, p: nat)
    requires k > 0
    ensures k * p + 1 > p && k * p == p * k
  {
    MulMono(1, k, p);
  }

  const TWO32: nat := 0x1_0000_0000

  function WordSize(bits: nat): nat
    requires bits == 32 || bits == 64
  {
    if bits == 32 then TWO32 else TWO32 * TWO32
  }

  /** The parent index as compiled: childIdx - 1 is converted to size_t because k is one, and the
      quotient back to a 32-bit int. */
  function CompiledParentIdx(bits: nat, k: nat, childIdx: nat): int
    requires (bits == 32 || bits == 64) && 0 < k < WordSize(bits) && childIdx < TWO32 / 2
  {
    var quotient := ((childIdx - 1) % WordSize(bits)) / k;
    var low := quotient % TWO32;
    if low < TWO32 / 2 then low else low - TWO32
  }

  lemma CompiledNonRoot(bits: nat, k: nat, childIdx: nat)
    requires (bits == 32 || bits == 64) && 0 < k < WordSize(bits) && 0 < childIdx < TWO32 / 2
    ensures CompiledParentIdx(bits, k, childIdx) == GetParentIdx(k, childIdx)
  {
    assert (childIdx - 1) % WordSize(bits) == childIdx - 1;
    var p := (childIdx - 1) / k;
    ParentBounds(k, childIdx, p);
    assert p % TWO32 == p;
  }

  lemma CompiledRootWord(bits: nat, k: nat)
    requires (bits == 32 || bits == 64) && 0 < k < WordSize(bits)
    ensures CompiledParentIdx(bits, k, 0) == -1 <==> ((WordSize(bits) - 1) / k) % TWO32 == TWO32 - 1
  {
    assert (0 - 1) % WordSize(bits) == WordSize(bits) - 1;
  }

  /** With a 32-bit size_t only a unary heap sees -1 at the root. */
  lemma CompiledRoot32(k: nat)
    requires 0 < k < TWO32
    ensures CompiledParentIdx(32, k, 0) == -1 <==> k == 1
  {
    CompiledRootWord(32, k);
    var q := (TWO32 - 1) / k;
    QuotientBounds(TWO32 - 1, k, q);
    if k >= 2 {
      MulMono(2, k, q);
    }
  }

  lemma QuotientBounds(n: nat, k: nat, q: nat)
    requires k > 0 && q == n / k
    ensures k * q <= n < k * (q + 1) && q <= n && k * (q + 1) == k * q + k
  {
    assert n == k * q + n % k;
    MulMono(1, k, q);
  }

  /** With a 64-bit size_t the root sees -1 exactly for the divisors of 2^32, and for 2^32 + 1. */
  lemma CompiledRoot64(k: nat)
    requires 0 < k < WordSize(64)
    ensures CompiledParentIdx(64, k, 0) == -1 <==> (exists m: nat :: k * m == TWO32) || k == TWO32 + 1
  {
    CompiledRootWord(64, k);
    var n := TWO32 * TWO32 - 1;
    var q := n / k;
    QuotientBounds(n, k, q);
    if q % TWO32 == TWO32 - 1 {
      var m := q / TWO32 + 1;
      assert q + 1 == m * TWO32;
      OnlyDivisors(k, m);
    }
    if m: nat :| k * m == TWO32 {
      DivisorQuotient(k, m, q);
    } else if k == TWO32 + 1 {
      assert q == TWO32 - 1;
    }
  }

  lemma DivisorQuotient(k: nat, m: nat, q: nat)
    requires k > 0 && k * m == TWO32
    requires k * q <= TWO32 * TWO32 - 1 < k * (q + 1)
    ensures q % TWO32 == TWO32 - 1
  {
    assert k * (m * TWO32) == TWO32 * TWO32;
    if q + 1 < m * TWO32 {
      MulMono(q + 1, m * TWO32 - 1, k);
    } else if q + 1 > m * TWO32 {
      MulMono(m * TWO32, q, k);
    }
    assert q + 1 == m * TWO32;
    assert m >= 1;
    assert q == (m - 1) * TWO32 + (TWO32 - 1);
  }

  lemma ShortProduct(k: nat, m: nat)
    ensures k * m < TWO32 ==> (k * m) * TWO32 <= (TWO32 - 1) * TWO32
  {
  }

  lemma OnlyDivisors(k: nat, m: nat)
    requires k > 0 && m > 0
    requires k * (m * TWO32 - 1) <= TWO32 * TWO32 - 1 < k * (m * TWO32)
    ensures k * m == TWO32 || k == TWO32 + 1
  {
    var t := k * m - TWO32;
    assert k * (m * TWO32) == (k * m) * TWO32;
    assert k * (m * TWO32 - 1) == k * (m * TWO32) - k;
    assert t * TWO32 <= k - 1;
    ShortProduct(k, m);
    if t >= 1 {
      assert k >= t * TWO32 + 1;
      if m >= 2 {
        MulMono(2, m, k);
      }
      assert m == 1;
    }
  }

  /** The default arity is 5: there the compiled root has a parent far outside any heap. */
  lemma CompiledDefaultArity()
    ensures CompiledParentIdx(32, 5, 0) == CompiledParentIdx(64, 5, 0) == 858993459
  {
    assert (0 - 1) % WordSize(32) == TWO32 - 1;
    assert (0 - 1) % WordSize(64) == TWO32 * TWO32 - 1;
  }

  // ---------- the heap as a list of pairs ----------

  type Heap<K, D> = seq<(K, D)>

  ghost predicate HeapOrder<K, D>(cmp: (K, K) -> CompResult, k: nat, h: Heap<K, D>)
    requires k > 0
  {
    forall i :: 1 <= i < |h| ==> AtMost(cmp, h[GetParentIdx(k, i)].0, h[i].0)
  }

  function SiftedUp<K, D>(cmp: (K, K) -> CompResult, k: nat, h: Heap<K, D>, idx: nat): (r: Heap<K, D>)
    requires k > 0 && idx < |h|
    ensures |r| == |h|
    decreases idx
  {
    var p := GetParentIdx(k, idx);
    if p != -1 && cmp(h[p].0, h[idx].0) == GreaterThan then SiftedUp(cmp, k, Swapped(h, idx, p), p) else h
  }

  /** The first smallest of h[least] and h[trav..last]; indices past the heap are skipped. */
  function LeastFrom<K, D>(cmp: (K, K) -> CompResult, h: Heap<K, D>, least: nat, trav: nat, last: nat): (r: nat)
    requires least < |h| && least < trav
    ensures least <= r < |h| && (r == least || trav <= r <= last)
    decreases last + 1 - trav
  {
    if trav > last then least
    else
      var lower := trav < |h| && cmp(h[least].0, h[trav].0) == GreaterThan;
      LeastFrom(cmp, h, if lower then trav else least, trav + 1, last)
  }

  function FindMinChild<K, D>(cmp: (K, K) -> CompResult, k: nat, h: Heap<K, D>, parentIdx: nat): (r: int)
    requires k > 0
    ensures r == -1 || (parentIdx < r < |h| && k * parentIdx + 1 <= r <= k * parentIdx + k)
    ensures r == -1 <==> k * parentIdx + 1 >= |h|
  {
    FirstChildAfter(k, parentIdx);
    if k * parentIdx + 1 < |h|
    then LeastFrom(cmp, h, k * parentIdx + 1, k * parentIdx + 2, k * parentIdx + k)
    else -1
  }

  function SiftedDown<K, D>(cmp: (K, K) -> CompResult, k: nat, h: Heap<K, D>, idx: nat): (r: Heap<K, D>)
    requires k > 0 && idx <= |h|
    ensures |r| == |h|
    decreases |h| - idx
  {
    var c := FindMinChild(cmp, k, h, idx);
    if c != -1 && cmp(h[idx].0, h[c].0) != LessThan then SiftedDown(cmp, k, Swapped(h, idx, c), c) else h
  }

  function Pushed<K, D>(cmp: (K, K) -> CompResult, k: nat, h: Heap<K, D>, p: (K, D)): (r: Heap<K, D>)
    requires k > 0
    ensures |r| == |h| + 1
  {
    SiftedUp(cmp, k, h + [p], |h|)
  }

  /** The pair at index replaced by the last one, which leaves its own slot. */
  function LastMovedTo<T>(h: seq<T>, index: nat): (r: seq<T>)
    requires index < |h|
    ensures |r| == |h| - 1
  {
    Swapped(h, index, |h| - 1)[..|h| - 1]
  }

  lemma LastMovedPermutes<T>(h: seq<T>, index: nat)
    requires index < |h|
    ensures multiset(LastMovedTo(h, index)) == multiset(h) - multiset{h[index]}
    ensures multiset(h) == multiset(LastMovedTo(h, index)) + multiset{h[index]}
  {
    var s := Swapped(h, index, |h| - 1);
    SwappedPermutes(h, index, |h| - 1);
    assert s == s[..|h| - 1] + [h[index]];
  }

  function Popped<K, D>(cmp: (K, K) -> CompResult, k: nat, h: Heap<K, D>): (r: Heap<K, D>)
    requires k > 0 && h != []
    ensures |r| == |h| - 1
  {
    SiftedDown(cmp, k, LastMovedTo(h, 0), 0)
  }

  function ErasedAt<K, D>(cmp: (K, K) -> CompResult, k: nat, h: Heap<K, D>, index: nat): (r: Heap<K, D>)
    requires k > 0 && index < |h|
    ensures |r| == |h| - 1
  {
    SiftedDown(cmp, k, LastMovedTo(h, index), index)
  }

  function KeyChangedAt<K, D>(cmp: (K, K) -> CompResult, k: nat, h: Heap<K, D>, index: nat, newKey: K): (r: Heap<K, D>)
    requires k > 0 && index < |h|
    ensures |r| == |h|
  {
    var h' := h[index := (newKey, h[index].1)];
    if cmp(h[index].0, newKey) == LessThan then SiftedDown(cmp, k, h', index) else SiftedUp(cmp, k, h', index)
  }

  // ---------- sifting keeps the pairs and restores the order ----------

  lemma {:induction false} SiftedUpPermutes<K, D>(cmp: (K, K) -> CompResult, k: nat, h: Heap<K, D>, idx: nat)
    requires k > 0 && idx < |h|
    ensures multiset(SiftedUp(cmp, k, h, idx)) == multiset(h)
    decreases idx
  {
    var p := GetParentIdx(k, idx);
    if p != -1 && cmp(h[p].0, h[idx].0) == GreaterThan {
      SwappedPermutes(h, idx, p);
      SiftedUpPermutes(cmp, k, Swapped(h, idx, p), p);
    }
  }

  lemma {:induction false} SiftedDownPermutes<K, D>(cmp: (K, K) -> CompResult, k: nat, h: Heap<K, D>, idx: nat)
    requires k > 0 && idx <= |h|
    ensures multiset(SiftedDown(cmp, k, h, idx)) == multiset(h)
    decreases |h| - idx
  {
    var c := FindMinChild(cmp, k, h, idx);
    if c != -1 && cmp(h[idx].0, h[c].0) != LessThan {
      SwappedPermutes(h, idx, c);
      SiftedDownPermutes(cmp, k, Swapped(h, idx, c), c);
    }
  }

  /** Ordered but for the edge between at and its parent. */
  ghost predicate OrderedExceptAbove<K, D>(cmp: (K, K) -> CompResult, k: nat, h: Heap<K, D>, at: nat)
    requires k > 0 && at < |h|
  {
    && (forall i :: 1 <= i < |h| && i != at ==> AtMost(cmp, h[GetParentIdx(k, i)].0, h[i].0))
    && (at > 0 ==> forall i :: 1 <= i < |h| && GetParentIdx(k, i) == at ==>
          AtMost(cmp, h[GetParentIdx(k, at)].0, h[i].0))
  }

  /** Ordered but for the edges between at and its children. */
  ghost predicate OrderedExceptBelow<K, D>(cmp: (K, K) -> CompResult, k: nat, h: Heap<K, D>, at: nat)
    requires k > 0
  {
    && (forall i :: 1 <= i < |h| && GetParentIdx(k, i) != at ==> AtMost(cmp, h[GetParentIdx(k, i)].0, h[i].0))
    && (0 < at < |h| ==> forall i :: 1 <= i < |h| && GetParentIdx(k, i) == at ==>
          AtMost(cmp, h[GetParentIdx(k, at)].0, h[i].0))
  }

  lemma {:induction false} SiftedUpOrdered<K(!new), D>(cmp: (K, K) -> CompResult, k: nat, h: Heap<K, D>, idx: nat)
    requires TotalPreorder(cmp) && k > 0 && idx < |h|
    requires OrderedExceptAbove(cmp, k, h, idx)
    ensures HeapOrder(cmp, k, SiftedUp(cmp, k, h, idx))
    decreases idx
  {
    hide GetParentIdx;
    var p := GetParentIdx(k, idx);
    if p != -1 && cmp(h[p].0, h[idx].0) == GreaterThan {
      var h' := Swapped(h, idx, p);
      UpStep(cmp, k, h, idx);
      SiftedUpOrdered(cmp, k, h', p);
    }
  }

  lemma UpStep<K(!new), D>(cmp: (K, K) -> CompResult, k: nat, h: Heap<K, D>, idx: nat)
    requires TotalPreorder(cmp) && k > 0 && 0 < idx < |h|
    requires OrderedExceptAbove(cmp, k, h, idx)
    requires cmp(h[GetParentIdx(k, idx)].0, h[idx].0) == GreaterThan
    ensures OrderedExceptAbove(cmp, k, Swapped(h, idx, GetParentIdx(k, idx)), GetParentIdx(k, idx))
  {
    hide GetParentIdx;
    var p := GetParentIdx(k, idx);
    var h' := Swapped(h, idx, p);
    var q := GetParentIdx(k, p);
    assert cmp(h[p].0, h[idx].0) == cmp(h[idx].0, h[p].0).Flip();
    forall i | 1 <= i < |h| && i != p ensures AtMost(cmp, h'[GetParentIdx(k, i)].0, h'[i].0) {
    }
    forall i | p > 0 && 1 <= i < |h| && GetParentIdx(k, i) == p ensures AtMost(cmp, h'[q].0, h'[i].0) {
      assert AtMost(cmp, h[q].0, h[p].0);
    }
  }

  /** FindMinChild returns a child no other child is below. */
  lemma {:induction false} LeastFromIsLeast<K(!new), D>(
    cmp: (K, K) -> CompResult, h: Heap<K, D>, least: nat, trav: nat, last: nat)
    requires TotalPreorder(cmp)
    requires least < |h| && least < trav
    ensures var r := LeastFrom(cmp, h, least, trav, last);
      && AtMost(cmp, h[r].0, h[least].0)
      && forall j :: trav <= j <= last && j < |h| ==> AtMost(cmp, h[r].0, h[j].0)
    decreases last + 1 - trav
  {
    assert cmp(h[least].0, h[least].0) == Equal;
    if trav <= last {
      assert trav < |h| ==> cmp(h[least].0, h[trav].0) == cmp(h[trav].0, h[least].0).Flip();
      var lower := trav < |h| && cmp(h[least].0, h[trav].0) == GreaterThan;
      LeastFromIsLeast(cmp, h, if lower then trav else least, trav + 1, last);
    }
  }

  lemma MinChildIsLeast<K(!new), D>(cmp: (K, K) -> CompResult, k: nat, h: Heap<K, D>, parentIdx: nat)
    requires TotalPreorder(cmp) && k > 0
    ensures var c := FindMinChild(cmp, k, h, parentIdx);
      && (c != -1 ==> GetParentIdx(k, c) == parentIdx)
      && forall i :: 1 <= i < |h| && GetParentIdx(k, i) == parentIdx ==> c != -1 && AtMost(cmp, h[c].0, h[i].0)
  {
    hide GetParentIdx;
    FirstChildAfter(k, parentIdx);
    var c := FindMinChild(cmp, k, h, parentIdx);
    if c != -1 {
      ChildHasParent(k, parentIdx, c);
      LeastFromIsLeast(cmp, h, k * parentIdx + 1, k * parentIdx + 2, k * parentIdx + k);
    }
  }

  lemma {:induction false} SiftedDownOrdered<K(!new), D>(cmp: (K, K) -> CompResult, k: nat, h: Heap<K, D>, idx: nat)
    requires TotalPreorder(cmp) && k > 0 && idx <= |h|
    requires OrderedExceptBelow(cmp, k, h, idx)
    ensures HeapOrder(cmp, k, SiftedDown(cmp, k, h, idx))
    decreases |h| - idx
  {
    hide GetParentIdx, FindMinChild;
    var c := FindMinChild(cmp, k, h, idx);
    MinChildIsLeast(cmp, k, h, idx);
    if c != -1 && cmp(h[idx].0, h[c].0) != LessThan {
      DownStep(cmp, k, h, idx);
      SiftedDownOrdered(cmp, k, Swapped(h, idx, c), c);
    } else {
      NothingBelow(cmp, k, h, idx);
    }
  }

  lemma NothingBelow<K(!new), D>(cmp: (K, K) -> CompResult, k: nat, h: Heap<K, D>, idx: nat)
    requires TotalPreorder(cmp) && k > 0 && idx <= |h|
    requires OrderedExceptBelow(cmp, k, h, idx)
    requires var c := FindMinChild(cmp, k, h, idx); c == -1 || cmp(h[idx].0, h[c].0) == LessThan
    ensures HeapOrder(cmp, k, h)
  {
    hide GetParentIdx, FindMinChild;
    MinChildIsLeast(cmp, k, h, idx);
  }

  lemma DownStep<K(!new), D>(cmp: (K, K) -> CompResult, k: nat, h: Heap<K, D>, idx: nat)
    requires TotalPreorder(cmp) && k > 0 && idx < |h|
    requires OrderedExceptBelow(cmp, k, h, idx)
    requires var c := FindMinChild(cmp, k, h, idx); c != -1 && cmp(h[idx].0, h[c].0) != LessThan
    ensures var c := FindMinChild(cmp, k, h, idx); OrderedExceptBelow(cmp, k, Swapped(h, idx, c), c)
  {
    hide GetParentIdx, FindMinChild;
    var c := FindMinChild(cmp, k, h, idx);
    var h' := Swapped(h, idx, c);
    MinChildIsLeast(cmp, k, h, idx);
    assert cmp(h[idx].0, h[c].0) == cmp(h[c].0, h[idx].0).Flip();
    forall i | 1 <= i < |h| && GetParentIdx(k, i) != c ensures AtMost(cmp, h'[GetParentIdx(k, i)].0, h'[i].0) {
    }
    forall i | 1 <= i < |h| && GetParentIdx(k, i) == c ensures AtMost(cmp, h'[GetParentIdx(k, c)].0, h'[i].0) {
      assert AtMost(cmp, h[c].0, h[i].0);
    }
  }

  // ---------- every operation ----------

  lemma PushedKeepsOrder<K(!new), D>(cmp: (K, K) -> CompResult, k: nat, h: Heap<K, D>, p: (K, D))
    requires TotalPreorder(cmp) && k > 0 && HeapOrder(cmp, k, h)
    ensures HeapOrder(cmp, k, Pushed(cmp, k, h, p))
    ensures multiset(Pushed(cmp, k, h, p)) == multiset(h) + multiset{p}
  {
    hide GetParentIdx;
    var h' := h + [p];
    SiftedUpPermutes(cmp, k, h', |h|);
    assert OrderedExceptAbove(cmp, k, h', |h|);
    SiftedUpOrdered(cmp, k, h', |h|);
  }

  /** The root is a minimum. */
  lemma {:induction false} RootIsLeast<K(!new), D>(cmp: (K, K) -> CompResult, k: nat, h: Heap<K, D>, i: nat)
    requires TotalPreorder(cmp) && k > 0 && HeapOrder(cmp, k, h) && i < |h|
    ensures AtMost(cmp, h[0].0, h[i].0)
    decreases i
  {
    hide GetParentIdx;
    if i == 0 {
      assert cmp(h[0].0, h[0].0) == Equal;
    } else {
      RootIsLeast(cmp, k, h, GetParentIdx(k, i));
    }
  }

  lemma PoppedKeepsOrder<K(!new), D>(cmp: (K, K) -> CompResult, k: nat, h: Heap<K, D>)
    requires TotalPreorder(cmp) && k > 0 && HeapOrder(cmp, k, h) && h != []
    ensures HeapOrder(cmp, k, Popped(cmp, k, h))
    ensures multiset(h) == multiset(Popped(cmp, k, h)) + multiset{h[0]}
    ensures forall p :: p in h ==> AtMost(cmp, h[0].0, p.0)
  {
    hide GetParentIdx, SiftedDown, HeapOrder;
    LastMovedPermutes(h, 0);
    SiftedDownPermutes(cmp, k, LastMovedTo(h, 0), 0);
    MovedFitsBelow(cmp, k, h, 0);
    SiftedDownOrdered(cmp, k, LastMovedTo(h, 0), 0);
    forall p | p in h ensures AtMost(cmp, h[0].0, p.0) {
      var i :| 0 <= i < |h| && h[i] == p;
      RootIsLeast(cmp, k, h, i);
    }
  }

  lemma KeyChangedKeepsOrder<K(!new), D>(cmp: (K, K) -> CompResult, k: nat, h: Heap<K, D>, index: nat, newKey: K)
    requires TotalPreorder(cmp) && k > 0 && HeapOrder(cmp, k, h) && index < |h|
    ensures HeapOrder(cmp, k, KeyChangedAt(cmp, k, h, index, newKey))
    ensures multiset(KeyChangedAt(cmp, k, h, index, newKey))
            == multiset(h) - multiset{h[index]} + multiset{(newKey, h[index].1)}
  {
    hide GetParentIdx, SiftedDown, SiftedUp;
    var h' := h[index := (newKey, h[index].1)];
    assert cmp(h[index].0, newKey) == cmp(newKey, h[index].0).Flip();
    if cmp(h[index].0, newKey) == LessThan {
      RaisedKey(cmp, k, h, index, newKey);
      SiftedDownPermutes(cmp, k, h', index);
      SiftedDownOrdered(cmp, k, h', index);
    } else {
      LoweredKey(cmp, k, h, index, newKey);
      SiftedUpPermutes(cmp, k, h', index);
      SiftedUpOrdered(cmp, k, h', index);
    }
  }

  lemma GrandparentBelow<K(!new), D>(cmp: (K, K) -> CompResult, k: nat, h: Heap<K, D>, at: nat)
    requires TotalPreorder(cmp) && k > 0 && HeapOrder(cmp, k, h) && 0 < at < |h|
    ensures forall i :: 1 <= i < |h| && GetParentIdx(k, i) == at ==> AtMost(cmp, h[GetParentIdx(k, at)].0, h[i].0)
  {
    hide GetParentIdx;
    forall i | 1 <= i < |h| && GetParentIdx(k, i) == at ensures AtMost(cmp, h[GetParentIdx(k, at)].0, h[i].0) {
      assert AtMost(cmp, h[at].0, h[i].0);
    }
  }

  lemma RaisedKey<K(!new), D>(cmp: (K, K) -> CompResult, k: nat, h: Heap<K, D>, index: nat, newKey: K)
    requires TotalPreorder(cmp) && k > 0 && HeapOrder(cmp, k, h) && index < |h|
    requires cmp(h[index].0, newKey) == LessThan
    ensures OrderedExceptBelow(cmp, k, h[index := (newKey, h[index].1)], index)
  {
    hide GetParentIdx;
    if index > 0 {
      GrandparentBelow(cmp, k, h, index);
    }
  }

  lemma LoweredKey<K(!new), D>(cmp: (K, K) -> CompResult, k: nat, h: Heap<K, D>, index: nat, newKey: K)
    requires TotalPreorder(cmp) && k > 0 && HeapOrder(cmp, k, h) && index < |h|
    requires AtMost(cmp, newKey, h[index].0)
    ensures OrderedExceptAbove(cmp, k, h[index := (newKey, h[index].1)], index)
  {
    hide GetParentIdx;
    if index > 0 {
      GrandparentBelow(cmp, k, h, index);
    }
    var h' := h[index := (newKey, h[index].1)];
    forall i | 1 <= i < |h| && i != index ensures AtMost(cmp, h'[GetParentIdx(k, i)].0, h'[i].0) {
      assert AtMost(cmp, h[GetParentIdx(k, i)].0, h[i].0);
    }
  }

  /** erase(index) takes out exactly the pair at index. */
  lemma ErasedAtRemoves<K, D>(cmp: (K, K) -> CompResult, k: nat, h: Heap<K, D>, index: nat)
    requires k > 0 && index < |h|
    ensures multiset(ErasedAt(cmp, k, h, index)) == multiset(h) - multiset{h[index]}
  {
    LastMovedPermutes(h, index);
    SiftedDownPermutes(cmp, k, LastMovedTo(h, index), index);
  }

  /** When the pair moved into index is not below the parent there. */
  ghost predicate MovedFits<K, D>(cmp: (K, K) -> CompResult, k: nat, h: Heap<K, D>, index: nat)
    requires k > 0 && index < |h|
  {
    index == 0 || index == |h| - 1 || AtMost(cmp, h[GetParentIdx(k, index)].0, h[|h| - 1].0)
  }

  lemma MovedFitsBelow<K(!new), D>(cmp: (K, K) -> CompResult, k: nat, h: Heap<K, D>, index: nat)
    requires TotalPreorder(cmp) && k > 0 && HeapOrder(cmp, k, h) && index < |h|
    requires MovedFits(cmp, k, h, index)
    ensures OrderedExceptBelow(cmp, k, LastMovedTo(h, index), index)
  {
    hide GetParentIdx;
    if index > 0 {
      GrandparentBelow(cmp, k, h, index);
    }
  }

  /** A moved pair below its new parent is below its new children as well: it stays where it is. */
  lemma MovedStays<K(!new), D>(cmp: (K, K) -> CompResult, k: nat, h: Heap<K, D>, index: nat)
    requires TotalPreorder(cmp) && k > 0 && HeapOrder(cmp, k, h) && index < |h|
    requires !MovedFits(cmp, k, h, index)
    ensures ErasedAt(cmp, k, h, index) == LastMovedTo(h, index)
    ensures OrderedExceptAbove(cmp, k, LastMovedTo(h, index), index)
  {
    hide GetParentIdx, FindMinChild;
    var h' := LastMovedTo(h, index);
    var p := GetParentIdx(k, index);
    GrandparentBelow(cmp, k, h, index);
    assert cmp(h[p].0, h'[index].0) == cmp(h'[index].0, h[p].0).Flip();
    forall i | 1 <= i < |h'| && GetParentIdx(k, i) == index
      ensures AtMost(cmp, h[p].0, h'[i].0) && cmp(h'[index].0, h'[i].0) == LessThan
    {
      assert h'[i] == h[i];
      assert cmp(h'[index].0, h'[i].0) == cmp(h'[i].0, h'[index].0).Flip();
    }
    MinChildIsLeast(cmp, k, h', index);
  }

  /** erase(index) keeps the heap order exactly when the moved pair fits under its new parent. */
  lemma ErasedAtKeepsOrderIff<K(!new), D>(cmp: (K, K) -> CompResult, k: nat, h: Heap<K, D>, index: nat)
    requires TotalPreorder(cmp) && k > 0 && HeapOrder(cmp, k, h) && index < |h|
    ensures HeapOrder(cmp, k, ErasedAt(cmp, k, h, index)) <==> MovedFits(cmp, k, h, index)
  {
    hide GetParentIdx;
    if MovedFits(cmp, k, h, index) {
      MovedFitsBelow(cmp, k, h, index);
      SiftedDownOrdered(cmp, k, LastMovedTo(h, index), index);
    } else {
      MovedStays(cmp, k, h, index);
      var h' := LastMovedTo(h, index);
      assert h'[GetParentIdx(k, index)] == h[GetParentIdx(k, index)];
      assert !AtMost(cmp, h'[GetParentIdx(k, index)].0, h'[index].0);
    }
  }

  /** A sift-up after the erase repairs every index; behind the last slot there is nothing to sift. */
  lemma ErasedAtThenSiftedUp<K(!new), D>(cmp: (K, K) -> CompResult, k: nat, h: Heap<K, D>, index: nat)
    requires TotalPreorder(cmp) && k > 0 && HeapOrder(cmp, k, h) && index < |h|
    ensures var h' := ErasedAt(cmp, k, h, index);
      HeapOrder(cmp, k, if index < |h'| then SiftedUp(cmp, k, h', index) else h')
  {
    hide GetParentIdx, SiftedUp, ErasedAt;
    ErasedAtKeepsOrderIff(cmp, k, h, index);
    var h' := ErasedAt(cmp, k, h, index);
    if index < |h'| {
      if MovedFits(cmp, k, h, index) {
        if index > 0 {
          GrandparentBelow(cmp, k, h', index);
        }
        assert OrderedExceptAbove(cmp, k, h', index);
      } else {
        MovedStays(cmp, k, h, index);
      }
      SiftedUpOrdered(cmp, k, h', index);
    }
  }

  /** A binary heap where erase breaks the order: 4, the last key, moves under 10. */
  lemma ErasedAtCounterexample()
    ensures var h := [(1, 0), (10, 0), (2, 0), (11, 0), (12, 0), (3, 0), (4, 0)];
      HeapOrder(CompFunc, 2, h) && !HeapOrder(CompFunc, 2, ErasedAt(CompFunc, 2, h, 3))
  {
    var h := [(1, 0), (10, 0), (2, 0), (11, 0), (12, 0), (3, 0), (4, 0)];
    CompFuncTotal();
    assert HeapOrder(CompFunc, 2, h);
    ErasedAtKeepsOrderIff(CompFunc, 2, h, 3);
    assert GetParentIdx(2, 3) == 1;
  }
}
