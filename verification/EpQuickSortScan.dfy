/** What the pieces of quick sort's partition (epQuickSort.h) do, without their loops: which candidate is
    the pivot, which elements trade places, and where the two ends of the scan meet. */
module EpQuickSortScan {
  import opened EpAlgorithm
  import opened EpQuickSort

  // ---------- the pivot ----------

  /** x at place i of the argument list comes before y at place j in a stable sort. */
  predicate Ahead<T>(cmp: (T, T) -> CompResult, x: T, i: nat, y: T, j: nat) {
    cmp(x, y) == LessThan || (cmp(x, y) == Equal && i < j)
  }

  /** The median is the middle one in a stable sort of the three arguments. */
  lemma MedianIsMiddle<T(!new)>(cmp: (T, T) -> CompResult, s: seq<T>, i: nat, j: nat, k: nat)
    requires TotalPreorder(cmp) && i < |s| && j < |s| && k < |s|
    ensures var r := MedianLocation(cmp, s, i, j, k);
      var ij, jk, ik := Ahead(cmp, s[i], 0, s[j], 1), Ahead(cmp, s[j], 1, s[k], 2), Ahead(cmp, s[i], 0, s[k], 2);
      r == if ij == jk then j else if ij == ik then k else i
  {
    assert cmp(s[i], s[j]) == cmp(s[j], s[i]).Flip() && cmp(s[j], s[k]) == cmp(s[k], s[j]).Flip();
  }

  // ---------- the scan ----------

  /** g is the first element above the pivot, l the last one below it, and g stands before l. */
  ghost predicate OuterPair<T>(cmp: (T, T) -> CompResult, s: seq<T>, low: nat, high: nat, pivot: T, g: nat, l: nat) {
    && low <= g < l <= high < |s|
    && (forall i :: low <= i < g ==> cmp(s[i], pivot) != GreaterThan) && cmp(s[g], pivot) == GreaterThan
    && (forall i :: l < i <= high ==> cmp(s[i], pivot) != LessThan) && cmp(s[l], pivot) == LessThan
  }

  /** The outer pair trades places and the scan goes on between the two; nothing else has moved. */
  lemma {:induction false} OuterPairSwaps<T>(
    cmp: (T, T) -> CompResult, s: seq<T>, low: nat, high: nat, pivot: T, g: nat, l: nat)
    requires 1 <= low && OuterPair(cmp, s, low, high, pivot, g, l)
    ensures Partitioned(cmp, s, low, high, pivot)
            == Partitioned(cmp, Swapped(s, g, l), g + 1, if l > g + 1 then l - 1 else l, pivot)
    decreases high - low
  {
    hide Partitioned, Swapped;
    PartitionedStep(cmp, s, low, high, pivot);
    if low < g && l < high {
      OuterPairSwaps(cmp, s, low + 1, high - 1, pivot, g, l);
    } else if low < g {
      OuterPairSwaps(cmp, s, low + 1, high, pivot, g, l);
    } else if l < high {
      OuterPairSwaps(cmp, s, low, high - 1, pivot, g, l);
    }
  }

  /** Nothing above the pivot stands before anything below it. */
  ghost predicate NoPair<T>(cmp: (T, T) -> CompResult, s: seq<T>, low: nat, high: nat, pivot: T) {
    && high < |s|
    && forall g, l :: low <= g < l <= high ==>
         !(cmp(s[g], pivot) == GreaterThan && cmp(s[l], pivot) == LessThan)
  }

  /** Where the ends meet: in the middle; unless an element below the pivot stands behind the middle, then
      at the last such one, or an element above it stands before the middle, then at the first such one. */
  ghost predicate Meeting<T>(cmp: (T, T) -> CompResult, s: seq<T>, low: nat, high: nat, pivot: T, p: nat) {
    && low <= p <= high < |s|
    && var mid := low + (high - low + 1) / 2;
       && (forall i :: p < i <= high && mid < i ==> cmp(s[i], pivot) != LessThan)
       && (forall i :: low <= i < p && i < mid ==> cmp(s[i], pivot) != GreaterThan)
       && (p > mid ==> cmp(s[p], pivot) == LessThan)
       && (p < mid ==> cmp(s[p], pivot) == GreaterThan)
  }

  lemma MeetingUnique<T>(cmp: (T, T) -> CompResult, s: seq<T>, low: nat, high: nat, pivot: T, p: nat, q: nat)
    requires NoPair(cmp, s, low, high, pivot)
    requires Meeting(cmp, s, low, high, pivot, p) && Meeting(cmp, s, low, high, pivot, q)
    ensures p == q
  {
  }

  /** Without such a pair the scan moves nothing, and the pivot belongs where the ends meet, or one before
      when that element is not below it. */
  lemma {:induction false} ScanMeets<T>(cmp: (T, T) -> CompResult, s: seq<T>, low: nat, high: nat, pivot: T)
    returns (p: nat)
    requires 1 <= low <= high && NoPair(cmp, s, low, high, pivot)
    ensures Meeting(cmp, s, low, high, pivot, p)
    ensures Partitioned(cmp, s, low, high, pivot) == (s, if cmp(s[p], pivot) == LessThan then p else p - 1)
    decreases high - low
  {
    hide Partitioned;
    if high == low {
      PartitionedEnd(cmp, s, low, pivot);
      p := low;
    } else {
      PartitionedStep(cmp, s, low, high, pivot);
      if cmp(s[low], pivot) == GreaterThan {
        assert cmp(s[high], pivot) != LessThan;
        p := ScanMeets(cmp, s, low, high - 1, pivot);
        assert p == low;
      } else if cmp(s[high], pivot) == LessThan {
        p := ScanMeets(cmp, s, low + 1, high, pivot);
        assert p == high;
      } else {
        p := ScanMeets(cmp, s, low + 1, if high > low + 1 then high - 1 else high, pivot);
      }
    }
  }
}
