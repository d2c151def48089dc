/** Merge sort with one shared workspace, recursive and with a snapshot stack (epMergeSort.h). */
module EpMergeSort {
  import opened EpAlgorithm
  import opened EpInsertionSort

  datatype MSortMode = Recursive | Loop

  /** Two runs merged; on a tie the right run goes first. */
  function Merged<T>(cmp: (T, T) -> CompResult, l: seq<T>, r: seq<T>): (m: seq<T>)
    ensures |m| == |l| + |r|
    decreases |l| + |r|
  {
    if l == [] then r
    else if r == [] then l
    else if cmp(l[0], r[0]) == LessThan then [l[0]] + Merged(cmp, l[1..], r)
    else [r[0]] + Merged(cmp, l, r[1..])
  }

  function MergeSorted<T>(cmp: (T, T) -> CompResult, s: seq<T>): (r: seq<T>)
    ensures |r| == |s|
    decreases |s|
  {
    if |s| <= 1 then s
    else Merged(cmp, MergeSorted(cmp, s[..|s| / 2]), MergeSorted(cmp, s[|s| / 2..]))
  }

  // ---------- what the result is ----------

  lemma {:induction false} MergedClass<T(!new)>(cmp: (T, T) -> CompResult, l: seq<T>, r: seq<T>, x: T)
    requires TotalPreorder(cmp) && Sorted(cmp, l) && Sorted(cmp, r)
    ensures Class(cmp, x, Merged(cmp, l, r)) == Class(cmp, x, r) + Class(cmp, x, l)
    decreases |l| + |r|
  {
    if l != [] && r != [] {
      if cmp(l[0], r[0]) == LessThan {
        MergedClass(cmp, l[1..], r, x);
        assert Merged(cmp, l, r)[1..] == Merged(cmp, l[1..], r);
        if cmp(x, l[0]) == Equal {
          forall i | 0 <= i < |r| ensures cmp(x, r[i]) != Equal {
            LessThanAll(cmp, l[0], r, i);
            NotBothInClass(cmp, x, l[0], r[i]);
          }
          ClassEmpty(cmp, x, r);
        }
      } else {
        MergedClass(cmp, l, r[1..], x);
        assert Merged(cmp, l, r)[1..] == Merged(cmp, l, r[1..]);
      }
    }
  }

  lemma LessThanAll<T(!new)>(cmp: (T, T) -> CompResult, x: T, r: seq<T>, i: nat)
    requires TotalPreorder(cmp) && Sorted(cmp, r) && i < |r|
    requires cmp(x, r[0]) == LessThan
    ensures cmp(x, r[i]) == LessThan
  {
    assert i == 0 || AtMost(cmp, r[0], r[i]);
    assert cmp(r[0], x) == cmp(x, r[0]).Flip() && cmp(r[i], x) == cmp(x, r[i]).Flip();
  }

  lemma {:induction false} MergedSorted<T(!new)>(cmp: (T, T) -> CompResult, l: seq<T>, r: seq<T>)
    requires TotalPreorder(cmp) && Sorted(cmp, l) && Sorted(cmp, r)
    ensures Sorted(cmp, Merged(cmp, l, r))
    ensures forall y | y in Merged(cmp, l, r) :: y in l || y in r
    decreases |l| + |r|
  {
    if l != [] && r != [] {
      if cmp(l[0], r[0]) == LessThan {
        MergedSorted(cmp, l[1..], r);
        ConsSorted(cmp, l[0], l[1..], r, Merged(cmp, l[1..], r));
      } else {
        MergedSorted(cmp, l, r[1..]);
        assert cmp(r[0], l[0]) == cmp(l[0], r[0]).Flip();
        ConsSorted(cmp, r[0], r[1..], l, Merged(cmp, l, r[1..]));
      }
    }
  }

  /** A head not above either part may go in front of their merge. */
  lemma ConsSorted<T(!new)>(cmp: (T, T) -> CompResult, x: T, own: seq<T>, other: seq<T>, m: seq<T>)
    requires TotalPreorder(cmp) && Sorted(cmp, [x] + own) && Sorted(cmp, other) && Sorted(cmp, m)
    requires forall y | y in m :: y in own || y in other
    requires other != [] && AtMost(cmp, x, other[0])
    ensures Sorted(cmp, [x] + m)
  {
    forall y | y in m ensures AtMost(cmp, x, y) {
      if y in own {
        var i :| 0 <= i < |own| && own[i] == y;
        assert ([x] + own)[0] == x && ([x] + own)[i + 1] == y;
      } else {
        var i :| 0 <= i < |other| && other[i] == y;
        assert i == 0 || AtMost(cmp, other[0], other[i]);
      }
    }
  }

  /** The result is sorted and every class of equal elements stands in exactly reversed input
      order. */
  lemma {:induction false} MergeSortedReversesTies<T(!new)>(cmp: (T, T) -> CompResult, s: seq<T>)
    requires TotalPreorder(cmp)
    ensures Sorted(cmp, MergeSorted(cmp, s))
    ensures forall x :: Class(cmp, x, MergeSorted(cmp, s)) == Reverse(Class(cmp, x, s))
    decreases |s|
  {
    if |s| <= 1 {
      forall x ensures Class(cmp, x, s) == Reverse(Class(cmp, x, s)) {
        assert |Class(cmp, x, s)| <= 1;
        assert |Class(cmp, x, s)| == 1 ==> Reverse(Class(cmp, x, s)) == [Class(cmp, x, s)[0]];
      }
    } else {
      var a, b := s[..|s| / 2], s[|s| / 2..];
      assert s == a + b;
      MergeSortedReversesTies(cmp, a);
      MergeSortedReversesTies(cmp, b);
      MergedSorted(cmp, MergeSorted(cmp, a), MergeSorted(cmp, b));
      forall x ensures Class(cmp, x, MergeSorted(cmp, s)) == Reverse(Class(cmp, x, s)) {
        MergedClass(cmp, MergeSorted(cmp, a), MergeSorted(cmp, b), x);
        ClassAppend(cmp, x, a, b);
        ReverseAppend(Class(cmp, x, a), Class(cmp, x, b));
      }
    }
  }

  /** It is the only such list, and a permutation of the input. */
  lemma MergeSortedOnly<T(!new)>(cmp: (T, T) -> CompResult, s: seq<T>, r: seq<T>)
    requires TotalPreorder(cmp) && Sorted(cmp, r)
    requires forall x :: Class(cmp, x, r) == Reverse(Class(cmp, x, s))
    ensures r == MergeSorted(cmp, s) && multiset(r) == multiset(s)
  {
    MergeSortedReversesTies(cmp, s);
    SortedClassesUnique(cmp, r, MergeSorted(cmp, s));
    forall x ensures multiset(Class(cmp, x, r)) == multiset(Class(cmp, x, s)) {
      ReversePermutes(Class(cmp, x, s));
    }
    ClassesPermute(cmp, r, s);
  }

  /** Merge sort of a list is insertion sort of the reversed list. */
  lemma MergeSortIsReversedInsertionSort<T(!new)>(cmp: (T, T) -> CompResult, s: seq<T>)
    requires TotalPreorder(cmp)
    ensures MergeSorted(cmp, s) == InsertionSorted(cmp, Reverse(s))
  {
    InsertionSortedStable(cmp, Reverse(s));
    forall x ensures Class(cmp, x, InsertionSorted(cmp, Reverse(s))) == Reverse(Class(cmp, x, s)) {
      ClassReverse(cmp, x, s);
    }
    MergeSortedOnly(cmp, s, InsertionSorted(cmp, Reverse(s)));
  }

  // ---------- the code ----------

  /** The content of the array after the range [off, off + n) has been sorted. */
  function RangeSorted<T>(cmp: (T, T) -> CompResult, s: seq<T>, off: nat, n: nat): (r: seq<T>)
    requires off + n <= |s|
    ensures |r| == |s|
  {
    Spliced(s, off, off + n, MergeSorted(cmp, s[off..off + n]))
  }

  /** The content of the array after the neighbouring runs of left and right elements at off
      have been merged. */
  function RangeMerged<T>(cmp: (T, T) -> CompResult, s: seq<T>, off: nat, left: nat, right: nat): (r: seq<T>)
    requires off + left + right <= |s|
    ensures |r| == |s|
  {
    Spliced(s, off, off + left + right, Merged(cmp, s[off..off + left], s[off + left..off + left + right]))
  }

  lemma MergeSortedHalves<T>(cmp: (T, T) -> CompResult, s: seq<T>)
    requires |s| > 1
    ensures MergeSorted(cmp, s) == Merged(cmp, MergeSorted(cmp, s[..|s| / 2]), MergeSorted(cmp, s[|s| / 2..]))
  {
  }

  /** Sorting a range is sorting its halves and merging them. */
  lemma SplitRange<T>(cmp: (T, T) -> CompResult, s: seq<T>, off: nat, n: nat)
    requires n > 1 && off + n <= |s|
    ensures var l := n / 2;
      RangeSorted(cmp, s, off, n)
      == RangeMerged(cmp, RangeSorted(cmp, RangeSorted(cmp, s, off, l), off + l, n - l), off, l, n - l)
  {
    hide MergeSorted, Merged;
    MergeSortedHalves(cmp, s[off..off + n]);
    var l := n / 2;
    var s1 := RangeSorted(cmp, s, off, l);
    var s2 := RangeSorted(cmp, s1, off + l, n - l);
    assert s1[off + l..off + n] == s[off + l..off + n];
    assert s2[off..off + l] == MergeSorted(cmp, s[off..off + l]);
    assert s2[off + l..off + n] == MergeSorted(cmp, s[off + l..off + n]);
    assert s[off..off + n][..l] == s[off..off + l] && s[off..off + n][l..] == s[off + l..off + n];
    assert s2[..off] == s1[..off + l][..off] == s[..off];
    assert s1[off + n..] == s1[off + l..][n - l..] == s[off + l..][n - l..] == s[off + n..];
    assert s2[off + n..] == s[off + n..];
  }

  lemma SortOne<T>(cmp: (T, T) -> CompResult, s: seq<T>, off: nat)
    requires off < |s|
    ensures RangeSorted(cmp, s, off, 1) == s
  {
    assert s == s[..off] + s[off..off + 1] + s[off + 1..];
  }

  /** One step of the merge of s[li..le] and s[ri..re] behind what is already written. */
  lemma MergedStep<T>(cmp: (T, T) -> CompResult, s: seq<T>, li: nat, le: nat, ri: nat, re: nat, written: seq<T>)
    requires li <= le <= |s| && ri <= re <= |s| && (li < le || ri < re)
    ensures written + Merged(cmp, s[li..le], s[ri..re])
            == if li == le || (ri < re && cmp(s[li], s[ri]) != LessThan)
               then written + [s[ri]] + Merged(cmp, s[li..le], s[ri + 1..re])
               else written + [s[li]] + Merged(cmp, s[li + 1..le], s[ri..re])
  {
    assert li < le ==> s[li..le][1..] == s[li + 1..le];
    assert ri < re ==> s[ri..re][1..] == s[ri + 1..re];
    MergedHead(cmp, s[li..le], s[ri..re]);
  }

  lemma MergedHead<T>(cmp: (T, T) -> CompResult, l: seq<T>, r: seq<T>)
    requires l != [] || r != []
    ensures Merged(cmp, l, r)
            == if l == [] || (r != [] && cmp(l[0], r[0]) != LessThan) then [r[0]] + Merged(cmp, l, r[1..])
               else [l[0]] + Merged(cmp, l[1..], r)
  {
  }

  /** The merge loop, which the source writes out in both forms. li and ri play the moving
      pointers leftSortedList and rightSortedList. */
  method MergeToWorkSpace<T>(sortList: array<T>, leftList: nat, leftSize: nat, rightList: nat, rightSize: nat,
                             workSpace: array<T>, cmp: (T, T) -> CompResult)
    requires sortList != workSpace && leftSize + rightSize <= workSpace.Length
    requires leftList + leftSize <= sortList.Length && rightList + rightSize <= sortList.Length
    modifies workSpace
    ensures workSpace[..leftSize + rightSize]
            == Merged(cmp, sortList[leftList..leftList + leftSize], sortList[rightList..rightList + rightSize])
  {
    hide Merged;
    ghost var was := sortList[..];
    ghost var leftEnd, rightEnd := leftList + leftSize, rightList + rightSize;
    var li, ls, ri, rs := leftList, leftSize, rightList, rightSize;
    ghost var whole := Merged(cmp, was[li..leftEnd], was[ri..rightEnd]);
    ghost var written: seq<T> := [];
    for trav := 0 to leftSize + rightSize
      invariant 0 <= ls <= leftSize && 0 <= rs <= rightSize && ls + rs == leftSize + rightSize - trav
      invariant li + ls == leftEnd && ri + rs == rightEnd
      invariant |written| == trav && forall n :: 0 <= n < trav ==> workSpace[n] == written[n]
      invariant whole == written + Merged(cmp, was[li..leftEnd], was[ri..rightEnd])
    {
      MergedStep(cmp, was, li, leftEnd, ri, rightEnd, written);
      if ls == 0 || (rs != 0 && cmp(sortList[li], sortList[ri]) != LessThan) {
        workSpace[trav] := sortList[ri];
        written := written + [was[ri]];
        ri, rs := ri + 1, rs - 1;
      } else {
        workSpace[trav] := sortList[li];
        written := written + [was[li]];
        li, ls := li + 1, ls - 1;
      }
    }
    MergedNothing(cmp, was[li..leftEnd], was[ri..rightEnd]);
    assert workSpace[..leftSize + rightSize] == written;
    assert was[leftList..leftEnd] == sortList[leftList..leftEnd];
    assert was[rightList..rightEnd] == sortList[rightList..rightEnd];
  }

  lemma MergedNothing<T>(cmp: (T, T) -> CompResult, l: seq<T>, r: seq<T>)
    requires l == [] && r == []
    ensures Merged(cmp, l, r) == []
  {
  }

  /** The merge loop and the copy back. */
  method MergeRuns<T>(sortList: array<T>, off: nat, listSize: nat, leftList: nat, leftSize: nat,
                      rightList: nat, rightSize: nat, workSpace: array<T>, cmp: (T, T) -> CompResult)
    requires sortList != workSpace && listSize <= workSpace.Length
    requires leftList == off && rightList == off + leftSize && leftSize + rightSize == listSize
    requires off + listSize <= sortList.Length
    modifies sortList, workSpace
    ensures sortList[..] == RangeMerged(cmp, old(sortList[..]), off, leftSize, rightSize)
  {
    hide Merged, Spliced;
    ghost var was := sortList[..];
    MergeToWorkSpace(sortList, leftList, leftSize, rightList, rightSize, workSpace, cmp);
    assert was[off..off + leftSize] == sortList[leftList..leftList + leftSize];
    assert was[off + leftSize..off + listSize] == sortList[rightList..rightList + rightSize];
    CopyBack(sortList, off, listSize, workSpace);
  }

  method CopyBack<T>(sortList: array<T>, off: nat, listSize: nat, workSpace: array<T>)
    requires sortList != workSpace && listSize <= workSpace.Length && off + listSize <= sortList.Length
    modifies sortList
    ensures sortList[..] == Spliced(old(sortList[..]), off, off + listSize, workSpace[..listSize])
  {
    ghost var was := sortList[..];
    for trav := 0 to listSize
      invariant forall n :: 0 <= n < sortList.Length ==>
        sortList[n] == if off <= n < off + trav then workSpace[n - off] else was[n]
    {
      sortList[off + trav] := workSpace[trav];
    }
  }

  method SubMergeSortRecursive<T>(sortList: array<T>, off: nat, listSize: nat, workSpace: array<T>,
                                  cmp: (T, T) -> CompResult) returns (ret: nat)
    requires sortList != workSpace
    requires 1 <= listSize <= workSpace.Length && off + listSize <= sortList.Length
    modifies sortList, workSpace
    ensures ret == off
    ensures sortList[..] == RangeSorted(cmp, old(sortList[..]), off, listSize)
    decreases listSize
  {
    hide RangeSorted, RangeMerged, MergeSorted;
    if listSize != 1 {
      SplitRange(cmp, sortList[..], off, listSize);
      var leftSize := listSize / 2;
      var rightSize := listSize - leftSize;
      var leftSortedList := SubMergeSortRecursive(sortList, off, leftSize, workSpace, cmp);
      var rightSortedList := SubMergeSortRecursive(sortList, off + leftSize, rightSize, workSpace, cmp);
      MergeRuns(sortList, off, listSize, leftSortedList, leftSize, rightSortedList, rightSize, workSpace, cmp);
    } else {
      SortOne(cmp, sortList[..], off);
    }
    ret := off;
  }

  /** One saved call: its range, the run lengths and list positions it has learnt, and its stage. */
  datatype Snapshot = Snapshot(off: nat, listSize: nat, leftSize: nat, rightSize: nat,
                               leftList: nat, rightList: nat, stage: int)

  /** What a saved call still has to do to the array. */
  function Resume<T>(cmp: (T, T) -> CompResult, f: Snapshot, s: seq<T>): (r: seq<T>)
    requires Frame(f, |s|)
    ensures |r| == |s|
  {
    if f.stage == 0 then RangeSorted(cmp, s, f.off, f.listSize)
    else if f.stage == 1 then
      RangeMerged(cmp, RangeSorted(cmp, s, f.off + f.leftSize, f.rightSize), f.off, f.leftSize, f.rightSize)
    else RangeMerged(cmp, s, f.off, f.leftSize, f.rightSize)
  }

  ghost predicate Frame(f: Snapshot, n: nat) {
    && 1 <= f.listSize && f.off + f.listSize <= n && 0 <= f.stage <= 2
    && (f.stage > 0 ==> f.leftSize + f.rightSize == f.listSize && 1 <= f.leftSize && 1 <= f.rightSize)
    && (f.stage == 2 ==> f.leftList == f.off)
  }

  /** The list a saved call expects to have been returned when it is resumed. */
  ghost predicate Expects(f: Snapshot, ret: nat) {
    && (f.stage == 1 ==> ret == f.off)
    && (f.stage == 2 ==> ret == f.off + f.leftSize)
  }

  /** Top of stack last. Each saved call waits for exactly the list the call above it returns. */
  ghost predicate Stacked(stack: seq<Snapshot>, ret: nat, n: nat) {
    && (forall i :: 0 <= i < |stack| ==> Frame(stack[i], n))
    && (forall i :: 0 <= i < |stack| - 1 ==> stack[i].stage != 0 && Expects(stack[i], stack[i + 1].off))
    && (stack != [] ==> Expects(stack[|stack| - 1], ret))
  }

  ghost function ResumeAll<T>(cmp: (T, T) -> CompResult, stack: seq<Snapshot>, s: seq<T>): (r: seq<T>)
    requires forall i :: 0 <= i < |stack| ==> Frame(stack[i], |s|)
    decreases |stack|
  {
    if stack == [] then s
    else ResumeAll(cmp, stack[..|stack| - 1], Resume(cmp, stack[|stack| - 1], s))
  }

  function Weight(f: Snapshot): int {
    if f.stage == 0 then 4 * f.listSize - 3 else if f.stage == 1 then 4 * f.rightSize - 1 else 1
  }

  function TotalWeight(stack: seq<Snapshot>): int {
    if stack == [] then 0 else TotalWeight(stack[..|stack| - 1]) + Weight(stack[|stack| - 1])
  }

  lemma {:induction false} WeightBound(stack: seq<Snapshot>, n: nat)
    requires forall i :: 0 <= i < |stack| ==> Frame(stack[i], n)
    ensures TotalWeight(stack) >= |stack|
  {
    if stack != [] {
      WeightBound(stack[..|stack| - 1], n);
    }
  }

  lemma Pushed<T>(cmp: (T, T) -> CompResult, below: seq<Snapshot>, f: Snapshot, s: seq<T>)
    requires forall i :: 0 <= i < |below| ==> Frame(below[i], |s|)
    requires Frame(f, |s|)
    ensures ResumeAll(cmp, below + [f], s) == ResumeAll(cmp, below, Resume(cmp, f, s))
    ensures TotalWeight(below + [f]) == TotalWeight(below) + Weight(f)
  {
    assert (below + [f])[..|below|] == below;
  }

  lemma Start<T>(cmp: (T, T) -> CompResult, f: Snapshot, s: seq<T>)
    requires Frame(f, |s|)
    ensures ResumeAll(cmp, [f], s) == Resume(cmp, f, s)
  {
    Pushed(cmp, [], f, s);
    assert [] + [f] == [f];
  }

  lemma Finish<T>(cmp: (T, T) -> CompResult, s: seq<T>)
    ensures ResumeAll(cmp, [], s) == s
  {
  }

  /** Replacing the top call f by its continuation g with the call c above it: if c followed by g
      does what f did, the stack as a whole still does what it did, and has become lighter. */
  lemma Called<T>(cmp: (T, T) -> CompResult, below: seq<Snapshot>, f: Snapshot, g: Snapshot, c: Snapshot,
                  ret: nat, s: seq<T>)
    requires Stacked(below + [f], ret, |s|)
    requires Frame(g, |s|) && Frame(c, |s|) && g.off == f.off
    requires g.stage != 0 && c.stage == 0 && Expects(g, c.off)
    requires Resume(cmp, g, Resume(cmp, c, s)) == Resume(cmp, f, s)
    requires Weight(g) + Weight(c) < Weight(f)
    ensures Stacked(below + [g] + [c], ret, |s|)
    ensures ResumeAll(cmp, below + [g] + [c], s) == ResumeAll(cmp, below + [f], s)
    ensures TotalWeight(below + [g] + [c]) < TotalWeight(below + [f])
  {
    CalledStacks(below, f, g, c, ret, |s|);
    hide Stacked, Frame, Expects, Resume, ResumeAll, Weight, TotalWeight;
    Pushed(cmp, below, f, s);
    Pushed(cmp, below, g, Resume(cmp, c, s));
    Pushed(cmp, below + [g], c, s);
  }

  lemma StageZero(f: Snapshot, ret: nat)
    requires f.stage == 0
    ensures Expects(f, ret)
  {
  }

  lemma CalledStacks(below: seq<Snapshot>, f: Snapshot, g: Snapshot, c: Snapshot, ret: nat, n: nat)
    requires Stacked(below + [f], ret, n)
    requires Frame(g, n) && Frame(c, n) && g.off == f.off
    requires g.stage != 0 && c.stage == 0 && Expects(g, c.off)
    ensures forall i :: 0 <= i < |below| ==> Frame(below[i], n)
    ensures forall i :: 0 <= i < |below + [g]| ==> Frame((below + [g])[i], n)
    ensures Frame(f, n) && Stacked(below + [g] + [c], ret, n)
  {
    hide Frame, Expects;
    var was, now := below + [f], below + [g] + [c];
    assert was[|below|] == f && now[|below|] == g && now[|below| + 1] == c;
    assert forall i :: 0 <= i < |below| ==> was[i] == below[i] == now[i];
    forall i | 0 <= i < |below| ensures now[i].stage != 0 && Expects(now[i], now[i + 1].off) {
      assert was[i].stage != 0 && Expects(was[i], was[i + 1].off) && was[i + 1].off == now[i + 1].off;
    }
    assert Expects(c, ret) by {
      StageZero(c, ret);
    }
  }

  /** When the top call is done and has returned its list, the one below may go on. */
  lemma Returned<T>(cmp: (T, T) -> CompResult, below: seq<Snapshot>, f: Snapshot, ret: nat, s: seq<T>)
    requires Stacked(below + [f], ret, |s|)
    ensures Stacked(below, f.off, |s|)
    ensures ResumeAll(cmp, below, Resume(cmp, f, s)) == ResumeAll(cmp, below + [f], s)
    ensures TotalWeight(below) < TotalWeight(below + [f])
  {
    forall i | 0 <= i < |below|
      ensures Frame(below[i], |s|)
      ensures Expects(below[i], if i + 1 < |below| then below[i + 1].off else f.off)
      ensures i + 1 < |below| ==> below[i].stage != 0
    {
      assert (below + [f])[i] == below[i] && (below + [f])[i + 1] == if i + 1 < |below| then below[i + 1] else f;
    }
    assert (below + [f])[|below|] == f;
    Pushed(cmp, below, f, s);
  }

  method SubMergeSortLoop<T>(sortList: array<T>, listSize: nat, workSpace: array<T>,
                             cmp: (T, T) -> CompResult) returns (ret: nat)
    requires sortList != workSpace
    requires 1 <= listSize <= workSpace.Length && listSize <= sortList.Length
    modifies sortList, workSpace
    ensures ret == 0
    ensures sortList[..] == RangeSorted(cmp, old(sortList[..]), 0, listSize)
  {
    hide RangeSorted, RangeMerged, MergeSorted, ResumeAll, TotalWeight;
    ghost var goal := RangeSorted(cmp, sortList[..], 0, listSize);
    var snapshotStack := [Snapshot(0, listSize, 0, 0, 0, 0, 0)];
    Start(cmp, snapshotStack[0], sortList[..]);
    var retList := 0;
    while snapshotStack != []
      invariant Stacked(snapshotStack, retList, sortList.Length)
      invariant forall i :: 0 <= i < |snapshotStack| ==> snapshotStack[i].listSize <= workSpace.Length
      invariant ResumeAll(cmp, snapshotStack, sortList[..]) == goal
      decreases TotalWeight(snapshotStack)
    {
      WeightBound(snapshotStack, sortList.Length);
      ghost var was := sortList[..];
      var current := snapshotStack[|snapshotStack| - 1];
      assert snapshotStack == snapshotStack[..|snapshotStack| - 1] + [current];
      snapshotStack := snapshotStack[..|snapshotStack| - 1];
      ghost var popped := current;
      if current.stage == 0 && current.listSize != 1 {
        SplitRange(cmp, was, current.off, current.listSize);
        var leftSize := current.listSize / 2;
        current := current.(leftSize := leftSize, rightSize := current.listSize - leftSize, stage := 1);
        var newSnapshot := Snapshot(current.off, current.leftSize, 0, 0, 0, 0, 0);
        Called(cmp, snapshotStack, popped, current, newSnapshot, retList, was);
        snapshotStack := snapshotStack + [current] + [newSnapshot];
      } else if current.stage == 0 {
        SortOne(cmp, was, current.off);
        Returned(cmp, snapshotStack, popped, retList, was);
        retList := current.off;
      } else if current.stage == 1 {
        current := current.(stage := 2, leftList := retList);
        var newSnapshot := Snapshot(current.off + current.leftSize, current.rightSize, 0, 0, 0, 0, 0);
        Called(cmp, snapshotStack, popped, current, newSnapshot, retList, was);
        snapshotStack := snapshotStack + [current] + [newSnapshot];
      } else {
        Returned(cmp, snapshotStack, popped, retList, was);
        current := current.(rightList := retList);
        MergeRuns(sortList, current.off, current.listSize, current.leftList, current.leftSize,
                  current.rightList, current.rightSize, workSpace, cmp);
        retList := current.off;
      }
    }
    Finish(cmp, sortList[..]);
    ret := 0;
  }

  /** Both modes leave the same array: the input sorted, ties reversed. */
  method MergeSort<T(0)>(sortList: array?<T>, cmp: (T, T) -> CompResult, mode: MSortMode)
    modifies if sortList == null then {} else {sortList}
    ensures sortList != null ==> sortList[..] == MergeSorted(cmp, old(sortList[..]))
  {
    if sortList == null || sortList.Length <= 1 {
      return;
    }
    var mergeSpace := new T[sortList.Length];
    var sortedList;
    assert sortList[0..sortList.Length] == sortList[..];
    if mode == Recursive {
      sortedList := SubMergeSortRecursive(sortList, 0, sortList.Length, mergeSpace, cmp);
    } else {
      sortedList := SubMergeSortLoop(sortList, sortList.Length, mergeSpace, cmp);
    }
  }
}
