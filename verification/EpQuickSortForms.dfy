/** When the recursive and the stack form of quick sort (epQuickSort.h) leave the same list. */
module EpQuickSortForms {
  import opened EpAlgorithm
  import opened EpInsertionSort
  import opened EpQuickSort

  /** The two argument orders choose the same pivot exactly when the middle and the last element
      do not compare equal. */
  lemma PivotsAgree<T(!new)>(cmp: (T, T) -> CompResult, s: seq<T>)
    requires TotalPreorder(cmp) && |s| >= 3
    ensures PivotLocation(Recursive, cmp, s) == PivotLocation(Loop, cmp, s)
            <==> cmp(s[(|s| - 1) / 2], s[|s| - 1]) != Equal
  {
    var a, m, h := s[1], s[(|s| - 1) / 2], s[|s| - 1];
    assert cmp(a, m) == cmp(m, a).Flip() && cmp(a, h) == cmp(h, a).Flip() && cmp(m, h) == cmp(h, m).Flip();
    assert cmp(a, a) == Equal;
  }

  /** On an input without ties both forms leave the same list, although their pivots differ. */
  lemma FormsAgreeWithoutTies<T(!new)>(cmp: (T, T) -> CompResult, s: seq<T>, minSize: int)
    requires TotalPreorder(cmp) && NoTies(cmp, s)
    ensures QuickSorted(Recursive, cmp, s, minSize) == QuickSorted(Loop, cmp, s, minSize)
  {
    hide QuickSorted;
    var a, b := QuickSorted(Recursive, cmp, s, minSize), QuickSorted(Loop, cmp, s, minSize);
    QuickSortedSorts(Recursive, cmp, s, minSize);
    QuickSortedSorts(Loop, cmp, s, minSize);
    NoTiesPermuted(cmp, s, a);
    SortedPermutationUnique(cmp, a, b);
  }

  /** On every input the results agree in every position up to the comparator. */
  lemma FormsMatch<T(!new)>(cmp: (T, T) -> CompResult, s: seq<T>, minSize: int)
    requires TotalPreorder(cmp)
    ensures var rec, loop := QuickSorted(Recursive, cmp, s, minSize), QuickSorted(Loop, cmp, s, minSize);
      forall i :: 0 <= i < |s| ==> cmp(rec[i], loop[i]) == Equal
  {
    hide QuickSorted;
    var rec, loop := QuickSorted(Recursive, cmp, s, minSize), QuickSorted(Loop, cmp, s, minSize);
    QuickSortedSorts(Recursive, cmp, s, minSize);
    QuickSortedSorts(Loop, cmp, s, minSize);
    forall x ensures |Class(cmp, x, rec)| == |Class(cmp, x, loop)| {
      ClassSize(cmp, x, rec, loop);
    }
    SortedMatch(cmp, rec, loop);
  }

  ghost predicate OneClass<T>(cmp: (T, T) -> CompResult, s: seq<T>) {
    forall i, j :: 0 <= i < |s| && 0 <= j < |s| ==> cmp(s[i], s[j]) == Equal
  }

  /** On a list of one class the scan never swaps and ends in the middle. */
  lemma {:induction false} PartitionedOneClass<T>(cmp: (T, T) -> CompResult, s: seq<T>, low: nat, high: nat, pivot: T)
    requires 1 <= low <= high < |s| && forall i :: 0 <= i < |s| ==> cmp(s[i], pivot) == Equal
    ensures Partitioned(cmp, s, low, high, pivot) == (s, low - 1 + (high - low + 1) / 2)
    decreases high - low
  {
    if high != low {
      PartitionedOneClass(cmp, s, low + 1, if high > low + 1 then high - 1 else high, pivot);
    }
  }

  /** On a list of one class the loop form takes the middle element for the pivot and puts it back;
      the recursive form takes the last one and leaves it in the middle. */
  lemma DividedOneClass<T>(mode: QSortMode, cmp: (T, T) -> CompResult, s: seq<T>)
    requires |s| >= 3 && OneClass(cmp, s)
    ensures var m, h := (|s| - 1) / 2, |s| - 1;
      Divided(mode, cmp, s) == (if mode == Loop then s else Swapped(Swapped(s, 0, h), 0, m), m)
  {
    var m, h := (|s| - 1) / 2, |s| - 1;
    var p := if mode == Loop then m else h;
    assert PivotLocation(mode, cmp, s) == p;
    PartitionedOneClass(cmp, Swapped(s, 0, p), 1, h, s[p]);
    assert Swapped(Swapped(s, 0, m), 0, m) == s;
  }

  lemma {:induction false} LoopKeepsOneClass<T(!new)>(cmp: (T, T) -> CompResult, s: seq<T>, minSize: int)
    requires TotalPreorder(cmp) && OneClass(cmp, s)
    ensures QuickSorted(Loop, cmp, s, minSize) == s
    decreases |s|
  {
    hide QuickSorted, Divided, OneClass;
    if |s| <= 2 || Small(|s|, minSize) {
      SmallOneClass(cmp, s, minSize);
    } else {
      var m := (|s| - 1) / 2;
      QuickSortedHalves(Loop, cmp, s, minSize);
      DividedOneClass(Loop, cmp, s);
      PartsOfOneClass(cmp, s, m);
      LoopKeepsOneClass(cmp, s[..m], minSize);
      LoopKeepsOneClass(cmp, s[m + 1..], minSize);
    }
  }

  lemma SmallOneClass<T(!new)>(cmp: (T, T) -> CompResult, s: seq<T>, minSize: int)
    requires TotalPreorder(cmp) && OneClass(cmp, s) && (|s| <= 2 || Small(|s|, minSize))
    ensures QuickSorted(Loop, cmp, s, minSize) == s
  {
    hide InsertionSorted;
    InsertionSortedStable(cmp, s);
    SortedClassesUnique(cmp, InsertionSorted(cmp, s), s);
  }

  lemma PartsOfOneClass<T>(cmp: (T, T) -> CompResult, s: seq<T>, m: nat)
    requires OneClass(cmp, s) && m < |s|
    ensures OneClass(cmp, s[..m]) && OneClass(cmp, s[m + 1..])
    ensures s == s[..m] + [s[m]] + s[m + 1..]
  {
  }

  /** Sorting cannot change a list of one value. */
  lemma CopiesStay<T(!new)>(mode: QSortMode, cmp: (T, T) -> CompResult, a: T, n: nat, minSize: int)
    requires TotalPreorder(cmp)
    ensures QuickSorted(mode, cmp, Copies(a, n), minSize) == Copies(a, n)
  {
    hide QuickSorted;
    var r := QuickSorted(mode, cmp, Copies(a, n), minSize);
    QuickSortedSorts(mode, cmp, Copies(a, n), minSize);
    forall i | 0 <= i < n ensures r[i] == a {
      assert r[i] in multiset(Copies(a, n));
    }
  }

  /** Copies of one value and behind them another of its class: the loop form leaves the list as it
      is, the recursive form moves the last element to the middle. */
  lemma FormsDiffer<T(!new)>(cmp: (T, T) -> CompResult, a: T, b: T, n: nat, minSize: int)
    requires TotalPreorder(cmp) && cmp(a, b) == Equal && n > 2 && !Small(n, minSize)
    ensures var s := Copies(a, n - 1) + [b];
      && QuickSorted(Loop, cmp, s, minSize) == s
      && QuickSorted(Recursive, cmp, s, minSize) == Copies(a, (n - 1) / 2) + [b] + Copies(a, n / 2)
  {
    hide QuickSorted, Divided, Swapped;
    var s, m := Copies(a, n - 1) + [b], (n - 1) / 2;
    LastInClass(cmp, a, b, n);
    LoopKeepsOneClass(cmp, s, minSize);
    QuickSortedHalves(Recursive, cmp, s, minSize);
    DividedOneClass(Recursive, cmp, s);
    LastToMiddle(a, b, n);
    CopiesStay(Recursive, cmp, a, m, minSize);
    CopiesStay(Recursive, cmp, a, n / 2, minSize);
  }

  lemma LastInClass<T(!new)>(cmp: (T, T) -> CompResult, a: T, b: T, n: nat)
    requires TotalPreorder(cmp) && cmp(a, b) == Equal && n > 2
    ensures OneClass(cmp, Copies(a, n - 1) + [b])
  {
    assert cmp(a, b) == cmp(b, a).Flip() && cmp(a, a) == Equal && cmp(b, b) == Equal;
  }

  lemma LastToMiddle<T>(a: T, b: T, n: nat)
    requires n > 2
    ensures var m := (n - 1) / 2;
      var d := Swapped(Swapped(Copies(a, n - 1) + [b], 0, n - 1), 0, m);
      d[..m] == Copies(a, m) && d[m] == b && d[m + 1..] == Copies(a, n / 2)
  {
  }

  /** For lists of length n and a threshold, the forms agree on every input exactly when no list of
      that length is partitioned or the comparator's Equal is identity. */
  lemma FormsAgreeIff<T(!new)>(cmp: (T, T) -> CompResult, n: nat, minSize: int)
    requires TotalPreorder(cmp)
    ensures (forall s | |s| == n :: QuickSorted(Recursive, cmp, s, minSize) == QuickSorted(Loop, cmp, s, minSize))
            <==> n <= 2 || minSize < 0 || n <= minSize || Antisymmetric(cmp)
  {
    if n > 2 && !Small(n, minSize) {
      hide QuickSorted;
      if Antisymmetric(cmp) {
        forall s | |s| == n ensures QuickSorted(Recursive, cmp, s, minSize) == QuickSorted(Loop, cmp, s, minSize) {
          FormsAgreeWithoutTies(cmp, s, minSize);
        }
      } else {
        var a, b :| cmp(a, b) == Equal && a != b;
        var s := Copies(a, n - 1) + [b];
        FormsDiffer(cmp, a, b, n, minSize);
        assert QuickSorted(Recursive, cmp, s, minSize)[n - 1] == a && s[n - 1] == b;
        assert |s| == n && QuickSorted(Recursive, cmp, s, minSize) != QuickSorted(Loop, cmp, s, minSize);
      }
    }
  }

  /** The same for a call of QuickSort: its two modes agree on every list of length n exactly when
      the list has at most two elements, the whole list is asked to be insertion sorted, or the
      comparator's Equal is identity. */
  lemma ModesAgreeIff<T(!new)>(cmp: (T, T) -> CompResult, n: nat, minSize: int)
    requires TotalPreorder(cmp)
    ensures (forall s | |s| == n :: QuickSorted(Recursive, cmp, s, Threshold(minSize, n))
                                    == QuickSorted(Loop, cmp, s, Threshold(minSize, n)))
            <==> n <= 2 || minSize == n || Antisymmetric(cmp)
  {
    FormsAgreeIff(cmp, n, Threshold(minSize, n));
  }
}
