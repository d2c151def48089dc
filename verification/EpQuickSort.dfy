/** Median-of-three quick sort over insertion sort, recursive and with a snapshot stack
    (epQuickSort.h). */
module EpQuickSort {
  import opened EpAlgorithm
  import opened EpInsertionSort

  datatype QSortMode = Recursive | Loop

  function MedianLocation<T>(cmp: (T, T) -> CompResult, s: seq<T>, i: nat, j: nat, k: nat): (r: nat)
    requires i < |s| && j < |s| && k < |s|
    ensures r == i || r == j || r == k
  {
    if cmp(s[i], s[j]) != GreaterThan then
      if cmp(s[j], s[k]) != GreaterThan then j
      else if cmp(s[i], s[k]) != GreaterThan then k
      else i
    else
      if cmp(s[i], s[k]) != GreaterThan then i
      else if cmp(s[j], s[k]) != GreaterThan then k
      else j
  }

  /** The median of the three is not below one of the other two and not above the other. */
  lemma MedianIsBetween<T(!new)>(cmp: (T, T) -> CompResult, s: seq<T>, i: nat, j: nat, k: nat)
    requires TotalPreorder(cmp) && i < |s| && j < |s| && k < |s|
    ensures var r := MedianLocation(cmp, s, i, j, k);
      || (r == i && Between(cmp, s[j], s[i], s[k]))
      || (r == j && Between(cmp, s[i], s[j], s[k]))
      || (r == k && Between(cmp, s[i], s[k], s[j]))
  {
  }

  predicate Between<T>(cmp: (T, T) -> CompResult, a: T, m: T, b: T) {
    || (AtMost(cmp, a, m) && AtMost(cmp, m, b))
    || (AtMost(cmp, b, m) && AtMost(cmp, m, a))
  }

  /** The pivot candidates are the second, the middle and the last element. The recursive form
      passes them as second, last, middle; the loop form as second, middle, last. */
  function PivotLocation<T>(mode: QSortMode, cmp: (T, T) -> CompResult, s: seq<T>): (r: nat)
    requires |s| >= 3
    ensures r < |s|
  {
    var high := |s| - 1;
    if mode == Recursive then MedianLocation(cmp, s, 1, high, high / 2) else MedianLocation(cmp, s, 1, high / 2, high)
  }

  /** The two-ended scan of s[low..high], both inclusive: the new content and the index where the
      pivot belongs. */
  function Partitioned<T>(cmp: (T, T) -> CompResult, s: seq<T>, low: nat, high: nat, pivot: T): (r: (seq<T>, nat))
    requires 1 <= low <= high < |s|
    ensures |r.0| == |s| && low - 1 <= r.1 <= high
    decreases high - low
  {
    if high == low then (s, if cmp(s[low], pivot) == LessThan then low else low - 1)
    else
      var res1 := cmp(s[low], pivot);
      var res2 := cmp(s[high], pivot);
      if res1 != GreaterThan then
        Partitioned(cmp, s, low + 1, if res2 != LessThan && high > low + 1 then high - 1 else high, pivot)
      else if res2 != LessThan then Partitioned(cmp, s, low, high - 1, pivot)
      else Partitioned(cmp, Swapped(s, low, high), low + 1, if high > low + 1 then high - 1 else high, pivot)
  }

  /** One round of the scan: where it stands next, and what it has swapped. */
  lemma PartitionedStep<T>(cmp: (T, T) -> CompResult, s: seq<T>, low: nat, high: nat, pivot: T)
    requires 1 <= low < high < |s|
    ensures var high' := if high > low + 1 then high - 1 else high;
      Partitioned(cmp, s, low, high, pivot)
      == if cmp(s[low], pivot) != GreaterThan then
           Partitioned(cmp, s, low + 1, if cmp(s[high], pivot) != LessThan then high' else high, pivot)
         else if cmp(s[high], pivot) != LessThan then Partitioned(cmp, s, low, high - 1, pivot)
         else Partitioned(cmp, Swapped(s, low, high), low + 1, high', pivot)
  {
  }

  lemma PartitionedEnd<T>(cmp: (T, T) -> CompResult, s: seq<T>, low: nat, pivot: T)
    requires 1 <= low < |s|
    ensures Partitioned(cmp, s, low, low, pivot) == (s, if cmp(s[low], pivot) == LessThan then low else low - 1)
  {
  }

  /** One whole partition of a list: the new list and the index of the pivot in it. */
  function Divided<T>(mode: QSortMode, cmp: (T, T) -> CompResult, s: seq<T>): (r: (seq<T>, nat))
    requires |s| >= 3
    ensures |r.0| == |s| && r.1 < |s|
  {
    var s1 := Swapped(s, 0, PivotLocation(mode, cmp, s));
    var (s2, med) := Partitioned(cmp, s1, 1, |s| - 1, s1[0]);
    (Swapped(s2, 0, med), med)
  }

  /** size <= minSize as compiled: the comparison is unsigned, so a negative threshold converts to one
      above the size of every list. */
  predicate Small(size: nat, minSize: int) {
    minSize < 0 || size <= minSize
  }

  function QuickSorted<T>(mode: QSortMode, cmp: (T, T) -> CompResult, s: seq<T>, minSize: int): (r: seq<T>)
    ensures |r| == |s|
    decreases |s|
  {
    if |s| <= 1 then s
    else if |s| == 2 then (if cmp(s[0], s[1]) == GreaterThan then [s[1], s[0]] else s)
    else if Small(|s|, minSize) then InsertionSorted(cmp, s)
    else
      var (d, index) := Divided(mode, cmp, s);
      QuickSorted(mode, cmp, d[..index], minSize) + [d[index]] + QuickSorted(mode, cmp, d[index + 1..], minSize)
  }

  // ---------- what the result is ----------

  /** pivot at index, nothing above it before, nothing below it behind. */
  ghost predicate Pivoted<T>(cmp: (T, T) -> CompResult, s: seq<T>, index: nat) {
    && index < |s|
    && (forall i :: 0 <= i < index ==> AtMost(cmp, s[i], s[index]))
    && (forall i :: index < i < |s| ==> AtMost(cmp, s[index], s[i]))
  }

  /** The scan rearranges s[low..high] only. */
  lemma {:induction false} PartitionedPermutes<T>(cmp: (T, T) -> CompResult, s: seq<T>, low: nat, high: nat, pivot: T)
    requires 1 <= low <= high < |s|
    ensures var (r, med) := Partitioned(cmp, s, low, high, pivot);
      && multiset(r) == multiset(s)
      && (forall i :: 0 <= i < low || high < i < |s| ==> r[i] == s[i])
    decreases high - low
  {
    if high != low {
      var res1, res2 := cmp(s[low], pivot), cmp(s[high], pivot);
      if res1 != GreaterThan {
        PartitionedPermutes(cmp, s, low + 1, if res2 != LessThan && high > low + 1 then high - 1 else high, pivot);
      } else if res2 != LessThan {
        PartitionedPermutes(cmp, s, low, high - 1, pivot);
      } else {
        SwappedPermutes(s, low, high);
        PartitionedPermutes(cmp, Swapped(s, low, high), low + 1, if high > low + 1 then high - 1 else high, pivot);
      }
    }
  }

  /** low and high part the list: not above the pivot before low, not below it behind high. */
  ghost predicate Parted<T>(cmp: (T, T) -> CompResult, s: seq<T>, low: nat, high: nat, pivot: T) {
    && (forall i :: 1 <= i < |s| && i < low ==> AtMost(cmp, s[i], pivot))
    && (forall i :: 0 <= i < |s| && high < i ==> AtMost(cmp, pivot, s[i]))
  }

  /** When low and high part the list, so does the returned index. */
  lemma {:induction false} PartitionedParts<T(!new)>(
    cmp: (T, T) -> CompResult, s: seq<T>, low: nat, high: nat, pivot: T)
    requires TotalPreorder(cmp)
    requires 1 <= low <= high < |s| && Parted(cmp, s, low, high, pivot)
    ensures var (r, med) := Partitioned(cmp, s, low, high, pivot);
      Parted(cmp, r, med + 1, med, pivot)
    decreases high - low
  {
    hide Partitioned, Swapped;
    Converse(cmp, s[low], pivot);
    Converse(cmp, s[high], pivot);
    if high == low {
      PartitionedEnd(cmp, s, low, pivot);
    } else {
      PartitionedStep(cmp, s, low, high, pivot);
      var high' := if high > low + 1 then high - 1 else high;
      if cmp(s[low], pivot) != GreaterThan {
        PartitionedParts(cmp, s, low + 1, if cmp(s[high], pivot) != LessThan then high' else high, pivot);
      } else if cmp(s[high], pivot) != LessThan {
        PartitionedParts(cmp, s, low, high - 1, pivot);
      } else {
        SwappedParts(cmp, s, low, high, pivot);
        PartitionedParts(cmp, Swapped(s, low, high), low + 1, high', pivot);
      }
    }
  }

  lemma SwappedParts<T>(cmp: (T, T) -> CompResult, s: seq<T>, low: nat, high: nat, pivot: T)
    requires 1 <= low < high < |s| && Parted(cmp, s, low, high, pivot)
    requires AtMost(cmp, s[high], pivot) && AtMost(cmp, pivot, s[low])
    ensures Parted(cmp, Swapped(s, low, high), low + 1, if high > low + 1 then high - 1 else high, pivot)
  {
  }

  lemma Converse<T(!new)>(cmp: (T, T) -> CompResult, a: T, b: T)
    requires TotalPreorder(cmp)
    ensures cmp(a, b) != LessThan <==> AtMost(cmp, b, a)
  {
    assert cmp(a, b) == cmp(b, a).Flip();
  }

  lemma DividedParts<T(!new)>(mode: QSortMode, cmp: (T, T) -> CompResult, s: seq<T>)
    requires TotalPreorder(cmp) && |s| >= 3
    ensures var (d, index) := Divided(mode, cmp, s);
      Pivoted(cmp, d, index) && multiset(d) == multiset(s)
  {
    hide Partitioned, PivotLocation, Swapped, Parted, Pivoted;
    var p := PivotLocation(mode, cmp, s);
    var s1 := Swapped(s, 0, p);
    var (s2, med) := Partitioned(cmp, s1, 1, |s| - 1, s1[0]);
    SwappedPermutes(s, 0, p);
    AllParted(cmp, s1);
    PartitionedPermutes(cmp, s1, 1, |s| - 1, s1[0]);
    PartitionedParts(cmp, s1, 1, |s| - 1, s1[0]);
    SwappedPermutes(s2, 0, med);
    PivotPlaced(cmp, s2, med);
  }

  lemma AllParted<T>(cmp: (T, T) -> CompResult, s: seq<T>)
    requires |s| >= 2
    ensures Parted(cmp, s, 1, |s| - 1, s[0])
  {
  }

  lemma PivotPlaced<T>(cmp: (T, T) -> CompResult, s: seq<T>, med: nat)
    requires med < |s| && Parted(cmp, s, med + 1, med, s[0])
    ensures Pivoted(cmp, Swapped(s, 0, med), med)
  {
  }

  lemma PivotedPermuted<T>(cmp: (T, T) -> CompResult, d: seq<T>, index: nat, l: seq<T>, r: seq<T>)
    requires Pivoted(cmp, d, index)
    requires multiset(l) == multiset(d[..index]) && multiset(r) == multiset(d[index + 1..])
    ensures multiset(l + [d[index]] + r) == multiset(d)
    ensures forall x :: x in l ==> AtMost(cmp, x, d[index])
    ensures forall x :: x in r ==> AtMost(cmp, d[index], x)
  {
    assert d == d[..index] + [d[index]] + d[index + 1..];
    forall x | x in l ensures AtMost(cmp, x, d[index]) {
      assert x in multiset(d[..index]);
    }
    forall x | x in r ensures AtMost(cmp, d[index], x) {
      assert x in multiset(d[index + 1..]);
    }
  }

  lemma JoinSorted<T(!new)>(cmp: (T, T) -> CompResult, l: seq<T>, p: T, r: seq<T>)
    requires TotalPreorder(cmp) && Sorted(cmp, l) && Sorted(cmp, r)
    requires forall x :: x in l ==> AtMost(cmp, x, p)
    requires forall x :: x in r ==> AtMost(cmp, p, x)
    ensures Sorted(cmp, l + [p] + r)
  {
    var s := l + [p] + r;
    forall i, j | 0 <= i < j < |s| ensures AtMost(cmp, s[i], s[j]) {
      if i < |l| {
        assert s[i] in l;
      }
      if j > |l| {
        assert s[j] in r;
      }
    }
  }

  /** Either form sorts, for every threshold. */
  lemma {:induction false} QuickSortedSorts<T(!new)>(
    mode: QSortMode, cmp: (T, T) -> CompResult, s: seq<T>, minSize: int)
    requires TotalPreorder(cmp)
    ensures Sorted(cmp, QuickSorted(mode, cmp, s, minSize))
    ensures multiset(QuickSorted(mode, cmp, s, minSize)) == multiset(s)
    decreases |s|
  {
    if |s| <= 1 {
    } else if |s| == 2 {
      Converse(cmp, s[0], s[1]);
      assert s == [s[0], s[1]];
    } else if Small(|s|, minSize) {
      InsertionSortedStable(cmp, s);
      ClassesPermute(cmp, InsertionSorted(cmp, s), s);
    } else {
      QuickSortedHalves(mode, cmp, s, minSize);
      hide QuickSorted, Divided, Sorted;
      var (d, index) := Divided(mode, cmp, s);
      var l := QuickSorted(mode, cmp, d[..index], minSize);
      var r := QuickSorted(mode, cmp, d[index + 1..], minSize);
      DividedParts(mode, cmp, s);
      QuickSortedSorts(mode, cmp, d[..index], minSize);
      QuickSortedSorts(mode, cmp, d[index + 1..], minSize);
      PivotedPermuted(cmp, d, index, l, r);
      JoinSorted(cmp, l, d[index], r);
    }
  }

  // ---------- the code ----------

  /** Partitioning a range of an array is partitioning the list in that range. */
  lemma {:induction false} PartitionedRange<T>(
    cmp: (T, T) -> CompResult, s: seq<T>, off: nat, end: nat, low: nat, high: nat, pivot: T)
    requires off <= end <= |s| && 1 <= low <= high < end - off
    ensures var (r, med) := Partitioned(cmp, s[off..end], low, high, pivot);
      Partitioned(cmp, s, off + low, off + high, pivot) == (Spliced(s, off, end, r), off + med)
    decreases high - low
  {
    hide Partitioned, Spliced, Swapped;
    var t := s[off..end];
    assert t[low] == s[off + low] && t[high] == s[off + high];
    if high == low {
      PartitionedEnd(cmp, t, low, pivot);
      PartitionedEnd(cmp, s, off + low, pivot);
      SplicedSame(s, off, end);
    } else {
      PartitionedStep(cmp, t, low, high, pivot);
      PartitionedStep(cmp, s, off + low, off + high, pivot);
      var high' := if high > low + 1 then high - 1 else high;
      if cmp(t[low], pivot) != GreaterThan {
        PartitionedRange(cmp, s, off, end, low + 1, if cmp(t[high], pivot) != LessThan then high' else high, pivot);
      } else if cmp(t[high], pivot) != LessThan {
        PartitionedRange(cmp, s, off, end, low, high - 1, pivot);
      } else {
        var t' := Swapped(t, low, high);
        SwappedRange(s, off, end, low, high);
        PartitionedRange(cmp, Swapped(s, off + low, off + high), off, end, low + 1, high', pivot);
        SplicedTwice(s, off, end, end, t', Partitioned(cmp, t', low + 1, high', pivot).0);
      }
    }
  }

  lemma SwappedRange<T>(s: seq<T>, off: nat, end: nat, i: nat, j: nat)
    requires off <= end <= |s| && i < end - off && j < end - off
    ensures Swapped(s, off + i, off + j) == Spliced(s, off, end, Swapped(s[off..end], i, j))
    ensures Swapped(s, off + i, off + j)[off..end] == Swapped(s[off..end], i, j)
  {
    var all := Spliced(s, off, end, Swapped(s[off..end], i, j));
    forall n | 0 <= n < |s| ensures Swapped(s, off + i, off + j)[n] == all[n] {
    }
  }

  method SwapFunc<T>(sortList: array<T>, a: nat, b: nat)
    requires a < sortList.Length && b < sortList.Length
    modifies sortList
    ensures sortList[..] == Swapped(old(sortList[..]), a, b)
  {
    if a == b {
      return;
    }
    var tmp := sortList[a];
    sortList[a] := sortList[b];
    sortList[b] := tmp;
  }

  method Median<T>(sortList: array<T>, i: nat, j: nat, k: nat, cmp: (T, T) -> CompResult) returns (r: nat)
    requires i < sortList.Length && j < sortList.Length && k < sortList.Length
    ensures r == MedianLocation(cmp, sortList[..], i, j, k)
  {
    if cmp(sortList[i], sortList[j]) != GreaterThan {
      if cmp(sortList[j], sortList[k]) != GreaterThan {
        return j;
      } else if cmp(sortList[i], sortList[k]) != GreaterThan {
        return k;
      } else {
        return i;
      }
    } else {
      if cmp(sortList[i], sortList[k]) != GreaterThan {
        return i;
      } else if cmp(sortList[j], sortList[k]) != GreaterThan {
        return k;
      } else {
        return j;
      }
    }
  }

  /** The scan of the recursive form, which compares afresh in every round. */
  method Partition<T>(sortList: array<T>, iLow: nat, iHigh: nat, pivot: T, cmp: (T, T) -> CompResult) returns (med: nat)
    requires 1 <= iLow <= iHigh < sortList.Length
    modifies sortList
    ensures (sortList[..], med) == Partitioned(cmp, old(sortList[..]), iLow, iHigh, pivot)
  {
    var low, high := iLow, iHigh;
    while high != low
      invariant 1 <= low <= high < sortList.Length
      invariant Partitioned(cmp, sortList[..], low, high, pivot)
          == Partitioned(cmp, old(sortList[..]), iLow, iHigh, pivot)
      decreases high - low
    {
      var res1 := cmp(sortList[low], pivot);
      var res2 := cmp(sortList[high], pivot);
      if res1 != GreaterThan {
        low := low + 1;
        if res2 != LessThan && high > low {
          high := high - 1;
        }
      } else if res2 != LessThan {
        high := high - 1;
      } else {
        SwapFunc(sortList, low, high);
        low := low + 1;
        if high > low {
          high := high - 1;
        }
      }
    }
    if cmp(sortList[low], pivot) == LessThan {
      return low;
    } else {
      return low - 1;
    }
  }

  /** The scan of the loop form, which carries the two comparison results over. */
  method PartitionCached<T>(
    sortList: array<T>, iLow: nat, iHigh: nat, pivot: T, cmp: (T, T) -> CompResult)
    returns (med: nat)
    requires 1 <= iLow <= iHigh < sortList.Length
    modifies sortList
    ensures (sortList[..], med) == Partitioned(cmp, old(sortList[..]), iLow, iHigh, pivot)
  {
    var relLow, relHigh := iLow, iHigh;
    var res1 := cmp(sortList[relLow], pivot);
    var res2 := cmp(sortList[relHigh], pivot);
    while relHigh != relLow
      invariant 1 <= relLow <= relHigh < sortList.Length
      invariant relHigh != relLow ==> res1 == cmp(sortList[relLow], pivot) && res2 == cmp(sortList[relHigh], pivot)
      invariant Partitioned(cmp, sortList[..], relLow, relHigh, pivot)
                == Partitioned(cmp, old(sortList[..]), iLow, iHigh, pivot)
      decreases relHigh - relLow
    {
      if res1 != GreaterThan {
        relLow := relLow + 1;
        res1 := cmp(sortList[relLow], pivot);
        if res2 != LessThan && relHigh > relLow {
          relHigh := relHigh - 1;
          res2 := cmp(sortList[relHigh], pivot);
        }
      } else if res2 != LessThan {
        relHigh := relHigh - 1;
        res2 := cmp(sortList[relHigh], pivot);
      } else {
        SwapFunc(sortList, relLow, relHigh);
        relLow := relLow + 1;
        res1 := cmp(sortList[relLow], pivot);
        if relHigh > relLow {
          relHigh := relHigh - 1;
          res2 := cmp(sortList[relHigh], pivot);
        }
      }
    }
    if cmp(sortList[relLow], pivot) == LessThan {
      return relLow;
    } else {
      return relLow - 1;
    }
  }

  /** One partition of [low, high] in either form: the median to the front, the scan of the rest,
      the pivot to its place. */
  method PartitionWrapper<T>(
    mode: QSortMode, sortList: array<T>, low: nat, high: nat, cmp: (T, T) -> CompResult)
    returns (med: nat)
    requires low + 2 <= high < sortList.Length
    modifies sortList
    ensures var (d, index) := Divided(mode, cmp, old(sortList[low..high + 1]));
      sortList[..] == Spliced(old(sortList[..]), low, high + 1, d) && med == low + index
  {
    hide Partitioned, Divided, Spliced, Swapped, PivotLocation, MedianLocation;
    ghost var s, t := sortList[..], sortList[low..high + 1];
    assert t == s[low..high + 1];
    var loc;
    if mode == Recursive {
      loc := Median(sortList, low + 1, high, (low + high) / 2, cmp);
    } else {
      loc := Median(sortList, low + 1, (low + high) / 2, high, cmp);
    }
    ghost var p := PivotLocation(mode, cmp, t);
    MedianRange(mode, cmp, s, low, high);
    SwapFunc(sortList, low, loc);
    ghost var s1 := Swapped(s, low, low + p);
    SwappedRange(s, low, high + 1, 0, p);
    var pivot := sortList[low];
    PartitionedRange(cmp, s1, low, high + 1, 1, high - low, pivot);
    if mode == Recursive {
      med := Partition(sortList, low + 1, high, pivot, cmp);
    } else {
      med := PartitionCached(sortList, low + 1, high, pivot, cmp);
    }
    ghost var s2 := sortList[..];
    DividedRange(mode, cmp, s, low, high + 1, s1, s2, med - low);
    SwapFunc(sortList, low, med);
  }

  lemma MedianRange<T>(mode: QSortMode, cmp: (T, T) -> CompResult, s: seq<T>, low: nat, high: nat)
    requires low + 2 <= high < |s|
    ensures low + PivotLocation(mode, cmp, s[low..high + 1])
            == if mode == Recursive then MedianLocation(cmp, s, low + 1, high, (low + high) / 2)
               else MedianLocation(cmp, s, low + 1, (low + high) / 2, high)
  {
    var t := s[low..high + 1];
    assert (low + high) / 2 == low + (high - low) / 2 && |t| - 1 == high - low;
    assert t[1] == s[low + 1] && t[high - low] == s[high] && t[(high - low) / 2] == s[(low + high) / 2];
  }

  lemma DividedRange<T>(
    mode: QSortMode, cmp: (T, T) -> CompResult, s: seq<T>, low: nat, end: nat, s1: seq<T>, s2: seq<T>, index: nat)
    requires low + 3 <= end <= |s|
    requires s1 == Spliced(s, low, end, Swapped(s[low..end], 0, PivotLocation(mode, cmp, s[low..end])))
    requires var (r, med) := Partitioned(cmp, s1[low..end], 1, end - low - 1, s1[low]);
      s2 == Spliced(s1, low, end, r) && index == med
    ensures var (d, i) := Divided(mode, cmp, s[low..end]);
      Swapped(s2, low, low + index) == Spliced(s, low, end, d) && index == i
  {
    hide Partitioned, PivotLocation;
    var r := Partitioned(cmp, s1[low..end], 1, end - low - 1, s1[low]).0;
    SwappedRange(s2, low, end, 0, index);
    SplicedTwice(s1, low, end, end, r, Swapped(r, 0, index));
    SplicedTwice(s, low, end, end, s1[low..end], Swapped(r, 0, index));
  }

  /** The array content after [low, high] has been sorted; an empty range changes nothing. */
  function RangeSorted<T>(
    mode: QSortMode, cmp: (T, T) -> CompResult, s: seq<T>, low: nat, end: nat, minSize: int): (r: seq<T>)
    requires low <= end <= |s|
    ensures |r| == |s|
  {
    Spliced(s, low, end, QuickSorted(mode, cmp, s[low..end], minSize))
  }

  lemma QuickSortedHalves<T>(mode: QSortMode, cmp: (T, T) -> CompResult, s: seq<T>, minSize: int)
    requires |s| >= 3 && !Small(|s|, minSize)
    ensures var (d, i) := Divided(mode, cmp, s);
      QuickSorted(mode, cmp, s, minSize)
      == QuickSorted(mode, cmp, d[..i], minSize) + [d[i]] + QuickSorted(mode, cmp, d[i + 1..], minSize)
  {
  }

  /** After the partition the two sides may be sorted in either order. */
  lemma SidesInAnyOrder<T>(
    mode: QSortMode, cmp: (T, T) -> CompResult, s: seq<T>, low: nat, end: nat, index: nat, minSize: int)
    requires low + 3 <= end <= |s| && !Small(end - low, minSize)
    requires index == low + Divided(mode, cmp, s[low..end]).1
    ensures var d := Spliced(s, low, end, Divided(mode, cmp, s[low..end]).0);
      && RangeSorted(mode, cmp, RangeSorted(mode, cmp, d, low, index, minSize), index + 1, end, minSize)
         == RangeSorted(mode, cmp, s, low, end, minSize)
      && RangeSorted(mode, cmp, RangeSorted(mode, cmp, d, index + 1, end, minSize), low, index, minSize)
         == RangeSorted(mode, cmp, s, low, end, minSize)
  {
    hide QuickSorted, Divided, Spliced;
    var (t, i) := Divided(mode, cmp, s[low..end]);
    QuickSortedHalves(mode, cmp, s[low..end], minSize);
    TwoSides(s, low, end, t, i, QuickSorted(mode, cmp, t[..i], minSize), QuickSorted(mode, cmp, t[i + 1..], minSize));
  }

  lemma TwoSides<T>(s: seq<T>, low: nat, end: nat, t: seq<T>, i: nat, l: seq<T>, r: seq<T>)
    requires low <= end <= |s| && |t| == end - low && i < |t| && |l| == i && |r| == |t| - i - 1
    ensures var d := Spliced(s, low, end, t);
      && d[low..low + i] == t[..i] && d[low + i + 1..end] == t[i + 1..]
      && Spliced(d, low, low + i, l)[low + i + 1..end] == t[i + 1..]
      && Spliced(d, low + i + 1, end, r)[low..low + i] == t[..i]
      && Spliced(Spliced(d, low, low + i, l), low + i + 1, end, r) == Spliced(s, low, end, l + [t[i]] + r)
      && Spliced(Spliced(d, low + i + 1, end, r), low, low + i, l) == Spliced(s, low, end, l + [t[i]] + r)
  {
    var x := [t[i]];
    assert (l + t[i..])[..i + 1] == l + x && (t[..i + 1] + r)[i..] == x + r;
    assert l + x + r == l + (x + r);
    LeftSide(s, low, end, t, i, l);
    RightSide(s, low, end, t, i, r);
    hide Spliced;
    RightSide(s, low, end, l + t[i..], i, r);
    LeftSide(s, low, end, t[..i + 1] + r, i, l);
  }

  lemma LeftSide<T>(s: seq<T>, low: nat, end: nat, t: seq<T>, i: nat, l: seq<T>)
    requires low <= end <= |s| && |t| == end - low && i < |t| && |l| == i
    ensures var d := Spliced(s, low, end, t);
      && d[low..low + i] == t[..i]
      && Spliced(d, low, low + i, l) == Spliced(s, low, end, l + t[i..])
      && Spliced(d, low, low + i, l)[low + i + 1..end] == t[i + 1..]
  {
  }

  lemma RightSide<T>(s: seq<T>, low: nat, end: nat, t: seq<T>, i: nat, r: seq<T>)
    requires low <= end <= |s| && |t| == end - low && i < |t| && |r| == |t| - i - 1
    ensures var d := Spliced(s, low, end, t);
      && d[low + i + 1..end] == t[i + 1..]
      && Spliced(d, low + i + 1, end, r) == Spliced(s, low, end, t[..i + 1] + r)
      && Spliced(d, low + i + 1, end, r)[low..low + i] == t[..i]
  {
  }

  /** high is an int: the call on an empty right side passes high == low - 1. */
  method SubQuickSortRecursive<T>(sortList: array<T>, low: nat, high: int, cmp: (T, T) -> CompResult, minSize: int)
    requires low <= high + 1 <= sortList.Length
    modifies sortList
    ensures sortList[..] == RangeSorted(Recursive, cmp, old(sortList[..]), low, high + 1, minSize)
    decreases high + 1 - low
  {
    hide QuickSorted, RangeSorted, Divided, Spliced, Swapped;
    ghost var s := sortList[..];
    assert s[low..high + 1] == sortList[low..high + 1];
    if high > low + 1 {
      if Small((high - low) + 1, minSize) {
        InsertedRange(Recursive, cmp, s, low, high + 1, minSize);
        InsertionSort(sortList, low, high, cmp);
      } else {
        var index := PartitionWrapper(Recursive, sortList, low, high, cmp);
        SidesInAnyOrder(Recursive, cmp, s, low, high + 1, index, minSize);
        ghost var d := sortList[..];
        if index >= 1 {
          SubQuickSortRecursive(sortList, low, index - 1, cmp, minSize);
        } else {
          SmallRange(Recursive, cmp, d, low, index, minSize);
        }
        SubQuickSortRecursive(sortList, index + 1, high, cmp, minSize);
      }
    } else {
      SmallRange(Recursive, cmp, s, low, high + 1, minSize);
      if high == low + 1 && cmp(sortList[low], sortList[high]) == GreaterThan {
        SwapFunc(sortList, low, high);
      }
    }
  }

  lemma SmallRange<T>(mode: QSortMode, cmp: (T, T) -> CompResult, s: seq<T>, low: nat, end: nat, minSize: int)
    requires low <= end <= |s| && end - low <= 2
    ensures RangeSorted(mode, cmp, s, low, end, minSize)
            == if end == low + 2 && cmp(s[low], s[low + 1]) == GreaterThan then Swapped(s, low, low + 1) else s
  {
    assert s == s[..low] + s[low..end] + s[end..];
  }

  datatype Snapshot = Snapshot(low: nat, high: int)

  ghost predicate Frames(stack: seq<Snapshot>, n: nat) {
    forall i :: 0 <= i < |stack| ==> stack[i].low <= stack[i].high + 1 <= n
  }

  /** What the saved ranges still have to do, the top of the stack (the last element) first. */
  ghost function ResumeAll<T>(cmp: (T, T) -> CompResult, stack: seq<Snapshot>, s: seq<T>, minSize: int): (r: seq<T>)
    requires Frames(stack, |s|)
    ensures |r| == |s|
    decreases |stack|
  {
    if stack == [] then s
    else
      var top := stack[|stack| - 1];
      ResumeAll(cmp, stack[..|stack| - 1], RangeSorted(Loop, cmp, s, top.low, top.high + 1, minSize), minSize)
  }

  function Weight(stack: seq<Snapshot>): int {
    if stack == [] then 0
    else Weight(stack[..|stack| - 1]) + 2 * (stack[|stack| - 1].high + 1 - stack[|stack| - 1].low) + 1
  }

  lemma {:induction false} WeightBound(stack: seq<Snapshot>, n: nat)
    requires Frames(stack, n)
    ensures Weight(stack) >= |stack|
  {
    if stack != [] {
      WeightBound(stack[..|stack| - 1], n);
    }
  }

  lemma Pushed<T>(cmp: (T, T) -> CompResult, below: seq<Snapshot>, f: Snapshot, s: seq<T>, minSize: int)
    requires Frames(below, |s|) && f.low <= f.high + 1 <= |s|
    ensures Frames(below + [f], |s|)
    ensures ResumeAll(cmp, below + [f], s, minSize)
            == ResumeAll(cmp, below, RangeSorted(Loop, cmp, s, f.low, f.high + 1, minSize), minSize)
    ensures Weight(below + [f]) == Weight(below) + 2 * (f.high + 1 - f.low) + 1
  {
    assert (below + [f])[..|below|] == below;
  }

  /** The two sides of a partitioned range on the stack, the right one on top: together they owe what
      the range owed after the partition, and weigh less than it. */
  lemma Halved<T>(cmp: (T, T) -> CompResult, below: seq<Snapshot>, f: Snapshot, index: nat, d: seq<T>, minSize: int)
    requires Frames(below, |d|) && f.low <= index <= f.high < |d|
    ensures var l := if index >= 1 then below + [Snapshot(f.low, index - 1)] else below;
      var stack := l + [Snapshot(index + 1, f.high)];
      && Frames(stack, |d|) && Weight(stack) < Weight(below) + 2 * (f.high + 1 - f.low) + 1
      && ResumeAll(cmp, stack, d, minSize)
         == ResumeAll(cmp, below,
                      RangeSorted(Loop, cmp, RangeSorted(Loop, cmp, d, index + 1, f.high + 1, minSize), f.low, index,
                                  minSize), minSize)
  {
    hide QuickSorted, RangeSorted, ResumeAll, Weight;
    var d' := RangeSorted(Loop, cmp, d, index + 1, f.high + 1, minSize);
    if index >= 1 {
      Pushed(cmp, below, Snapshot(f.low, index - 1), d', minSize);
      Pushed(cmp, below + [Snapshot(f.low, index - 1)], Snapshot(index + 1, f.high), d, minSize);
    } else {
      SmallRange(Loop, cmp, d', f.low, index, minSize);
      Pushed(cmp, below, Snapshot(index + 1, f.high), d, minSize);
    }
  }

  lemma Finish<T>(cmp: (T, T) -> CompResult, s: seq<T>, minSize: int)
    ensures ResumeAll(cmp, [], s, minSize) == s
  {
  }

  /** One round of the loop form before it saves anything: a short range is sorted, a long one divided. */
  method SortOrDivide<T>(sortList: array<T>, current: Snapshot, cmp: (T, T) -> CompResult, minSize: int)
    returns (divided: bool, index: nat)
    requires current.low <= current.high + 1 <= sortList.Length
    modifies sortList
    ensures var goal := RangeSorted(Loop, cmp, old(sortList[..]), current.low, current.high + 1, minSize);
      if divided then
        && current.low <= index <= current.high
        && RangeSorted(Loop, cmp, RangeSorted(Loop, cmp, sortList[..], index + 1, current.high + 1, minSize),
                       current.low, index, minSize) == goal
      else sortList[..] == goal
  {
    hide QuickSorted, RangeSorted, Divided, Spliced, Swapped, Small;
    ghost var s := sortList[..];
    assert s[current.low..current.high + 1] == sortList[current.low..current.high + 1];
    divided, index := false, 0;
    if current.high > current.low + 1 {
      if Small((current.high - current.low) + 1, minSize) {
        InsertedRange(Loop, cmp, s, current.low, current.high + 1, minSize);
        InsertionSort(sortList, current.low, current.high, cmp);
      } else {
        index := PartitionWrapper(Loop, sortList, current.low, current.high, cmp);
        SidesInAnyOrder(Loop, cmp, s, current.low, current.high + 1, index, minSize);
        divided := true;
      }
    } else {
      SmallRange(Loop, cmp, s, current.low, current.high + 1, minSize);
      if current.high == current.low + 1 && cmp(sortList[current.low], sortList[current.high]) == GreaterThan {
        SwapFunc(sortList, current.low, current.high);
      }
    }
  }

  method SubQuickSortLoop<T>(sortList: array<T>, iLow: nat, iHigh: nat, cmp: (T, T) -> CompResult, minSize: int)
    requires iLow <= iHigh < sortList.Length
    modifies sortList
    ensures sortList[..] == RangeSorted(Loop, cmp, old(sortList[..]), iLow, iHigh + 1, minSize)
  {
    hide QuickSorted, RangeSorted, ResumeAll, Weight;
    ghost var goal := RangeSorted(Loop, cmp, sortList[..], iLow, iHigh + 1, minSize);
    var snapshotStack := [Snapshot(iLow, iHigh)];
    assert [] + snapshotStack == snapshotStack;
    Pushed(cmp, [], snapshotStack[0], sortList[..], minSize);
    Finish(cmp, goal, minSize);
    while snapshotStack != []
      invariant Frames(snapshotStack, sortList.Length)
      invariant ResumeAll(cmp, snapshotStack, sortList[..], minSize) == goal
      decreases Weight(snapshotStack)
    {
      WeightBound(snapshotStack, sortList.Length);
      var current := snapshotStack[|snapshotStack| - 1];
      assert current.low <= current.high + 1 <= sortList.Length;
      assert snapshotStack == snapshotStack[..|snapshotStack| - 1] + [current];
      snapshotStack := snapshotStack[..|snapshotStack| - 1];
      Pushed(cmp, snapshotStack, current, sortList[..], minSize);
      var divided, index := SortOrDivide(sortList, current, cmp, minSize);
      if divided {
        Halved(cmp, snapshotStack, current, index, sortList[..], minSize);
        if index >= 1 {
          snapshotStack := snapshotStack + [Snapshot(current.low, index - 1)];
        }
        snapshotStack := snapshotStack + [Snapshot(index + 1, current.high)];
      }
    }
    Finish(cmp, sortList[..], minSize);
  }

  lemma InsertedRange<T>(mode: QSortMode, cmp: (T, T) -> CompResult, s: seq<T>, low: nat, end: nat, minSize: int)
    requires low + 3 <= end <= |s| && Small(end - low, minSize)
    ensures RangeSorted(mode, cmp, s, low, end, minSize) == Spliced(s, low, end, InsertionSorted(cmp, s[low..end]))
  {
  }

  /** The threshold QuickSort works with: a request outside [0, listSize] means half the list. */
  function Threshold(minSize: int, listSize: nat): (r: int)
    ensures 0 <= minSize <= listSize ==> r == minSize
    ensures !(0 <= minSize <= listSize) ==> 2 * r <= listSize < 2 * r + 2
  {
    if minSize < 0 || minSize > listSize then listSize / 2 else minSize
  }

  lemma WholeRange<T>(mode: QSortMode, cmp: (T, T) -> CompResult, s: seq<T>, minSize: int)
    ensures RangeSorted(mode, cmp, s, 0, |s|, minSize) == QuickSorted(mode, cmp, s, minSize)
  {
    assert s[0..|s|] == s;
  }

  method QuickSort<T(!new)>(sortList: array?<T>, cmp: (T, T) -> CompResult, mode: QSortMode, minSize: int)
    requires TotalPreorder(cmp)
    modifies if sortList == null then {} else {sortList}
    ensures sortList != null ==>
      && sortList[..] == QuickSorted(mode, cmp, old(sortList[..]), Threshold(minSize, sortList.Length))
      && Sorted(cmp, sortList[..]) && multiset(sortList[..]) == multiset(old(sortList[..]))
  {
    hide QuickSorted, RangeSorted, Sorted;
    if sortList == null {
      return;
    }
    ghost var s := sortList[..];
    var threshold := Threshold(minSize, sortList.Length);
    QuickSortedSorts(mode, cmp, s, threshold);
    WholeRange(mode, cmp, s, threshold);
    if sortList.Length <= 1 {
      SmallRange(mode, cmp, s, 0, |s|, threshold);
      return;
    }
    if mode == Recursive {
      SubQuickSortRecursive(sortList, 0, sortList.Length - 1, cmp, threshold);
    } else {
      SubQuickSortLoop(sortList, 0, sortList.Length - 1, cmp, threshold);
    }
  }
}
