/** Insertion sort of a sub-range, in place (epInsertionSort.h). */
module EpInsertionSort {
  import opened EpAlgorithm

  /** The array content with the range [low, high) replaced. */
  function Spliced<T>(s: seq<T>, low: nat, high: nat, r: seq<T>): (res: seq<T>)
    requires low <= high <= |s| && |r| == high - low
    ensures |res| == |s|
    ensures res[..low] == s[..low] && res[low..high] == r && res[high..] == s[high..]
  {
    s[..low] + r + s[high..]
  }

  lemma SplicedTwice<T>(s: seq<T>, low: nat, mid: nat, high: nat, r1: seq<T>, r2: seq<T>)
    requires low <= mid <= high <= |s| && |r1| == mid - low && |r2| == high - low
    ensures Spliced(Spliced(s, low, mid, r1), low, high, r2) == Spliced(s, low, high, r2)
  {
  }

  lemma SplicedSame<T>(s: seq<T>, low: nat, high: nat)
    requires low <= high <= |s|
    ensures Spliced(s, low, high, s[low..high]) == s
  {
  }

  /** x goes behind the last element that is not above it. */
  function Inserted<T>(cmp: (T, T) -> CompResult, s: seq<T>, x: T): (r: seq<T>)
    ensures |r| == |s| + 1
  {
    if s == [] || cmp(s[|s| - 1], x) != GreaterThan then s + [x]
    else Inserted(cmp, s[..|s| - 1], x) + [s[|s| - 1]]
  }

  function InsertionSorted<T>(cmp: (T, T) -> CompResult, s: seq<T>): (r: seq<T>)
    ensures |r| == |s|
  {
    if s == [] then [] else Inserted(cmp, InsertionSorted(cmp, s[..|s| - 1]), s[|s| - 1])
  }

  /** The inner loop: the element at i moves down into the sorted range before it. The source
      tests j against size_t(-1); here j is an int. */
  method InsertAt<T>(sortList: array<T>, low: nat, i: nat, cmp: (T, T) -> CompResult)
    requires low < i < sortList.Length
    modifies sortList
    ensures sortList[..]
            == Spliced(old(sortList[..]), low, i + 1, Inserted(cmp, old(sortList[low..i]), old(sortList[i])))
  {
    hide Inserted, Spliced, InsertedWithin;
    ghost var was := sortList[..];
    ghost var before := was[low..i];
    var tmp := sortList[i];
    var j: int := i - 1;
    while j >= low && cmp(sortList[j], tmp) == GreaterThan
      invariant low - 1 <= j < i
      invariant forall n :: 0 <= n < sortList.Length && (n <= j || i < n) ==> sortList[n] == was[n]
      invariant forall n :: j + 2 <= n <= i ==> sortList[n] == was[n - 1]
      invariant InsertedWithin(cmp, before, i - low, tmp) == InsertedWithin(cmp, before, j + 1 - low, tmp)
    {
      MoveUp(cmp, before, j + 1 - low, tmp);
      sortList[j + 1] := sortList[j];
      j := j - 1;
    }
    sortList[j + 1] := tmp;
    assert old(sortList[low..i]) == before;
    Stop(cmp, was, sortList[..], low, i, j + 1, tmp);
  }

  /** x inserted among the first m elements only. */
  ghost function InsertedWithin<T>(cmp: (T, T) -> CompResult, s: seq<T>, m: nat, x: T): seq<T>
    requires m <= |s|
  {
    Inserted(cmp, s[..m], x) + s[m..]
  }

  lemma MoveUp<T>(cmp: (T, T) -> CompResult, s: seq<T>, m: nat, x: T)
    requires 1 <= m <= |s| && cmp(s[m - 1], x) == GreaterThan
    ensures InsertedWithin(cmp, s, m, x) == InsertedWithin(cmp, s, m - 1, x)
  {
    assert s[..m][..m - 1] == s[..m - 1];
    assert s[m - 1..] == [s[m - 1]] + s[m..];
  }

  /** The scan stops at m: the array holds tmp there and the elements from m to i moved up by one. */
  lemma Stop<T>(cmp: (T, T) -> CompResult, was: seq<T>, now: seq<T>, low: nat, i: nat, m: nat, tmp: T)
    requires low <= m <= i < |was| == |now|
    requires forall n :: 0 <= n < m || i < n < |was| ==> now[n] == was[n]
    requires now[m] == tmp && forall n :: m < n <= i ==> now[n] == was[n - 1]
    requires m > low ==> cmp(was[m - 1], tmp) != GreaterThan
    requires InsertedWithin(cmp, was[low..i], i - low, tmp) == InsertedWithin(cmp, was[low..i], m - low, tmp)
    ensures now == Spliced(was, low, i + 1, Inserted(cmp, was[low..i], tmp))
  {
    var before := was[low..i];
    assert before[..i - low] == before && before[i - low..] == [];
    hide Spliced;
    assert Inserted(cmp, before, tmp) == before[..m - low] + [tmp] + before[m - low..];
    Shifted(was, now, low, i, m, tmp);
  }

  lemma Shifted<T>(was: seq<T>, now: seq<T>, low: nat, i: nat, m: nat, tmp: T)
    requires low <= m <= i < |was| == |now|
    requires forall n :: 0 <= n < m || i < n < |was| ==> now[n] == was[n]
    requires now[m] == tmp && forall n :: m < n <= i ==> now[n] == was[n - 1]
    ensures now == Spliced(was, low, i + 1, was[low..i][..m - low] + [tmp] + was[low..i][m - low..])
  {
    var r := was[low..i][..m - low] + [tmp] + was[low..i][m - low..];
    assert now[low..i + 1] == r;
    assert now == now[..low] + now[low..i + 1] + now[i + 1..];
    assert now[..low] == was[..low] && now[i + 1..] == was[i + 1..];
  }

  /** Both ends of the range are inclusive. */
  method InsertionSort<T>(sortList: array<T>, low: nat, high: nat, cmp: (T, T) -> CompResult)
    requires low <= high < sortList.Length
    modifies sortList
    ensures sortList[..]
        == Spliced(old(sortList[..]), low, high + 1, InsertionSorted(cmp, old(sortList[low..high + 1])))
  {
    hide Inserted, Spliced;
    ghost var was := sortList[..];
    var i := low + 1;
    SortedOne(cmp, was[low..low + 1]);
    while i <= high
      invariant low < i <= high + 1
      invariant sortList[..] == Spliced(was, low, i, InsertionSorted(cmp, was[low..i]))
    {
      assert was[low..i + 1][..i - low] == was[low..i] && sortList[..][low..i] == sortList[low..i];
      SplicedTwice(was, low, i, i + 1, InsertionSorted(cmp, was[low..i]), InsertionSorted(cmp, was[low..i + 1]));
      assert sortList[i] == was[i..][0] == was[i];
      InsertAt(sortList, low, i, cmp);
      i := i + 1;
    }
    assert was[low..high + 1] == old(sortList[low..high + 1]);
  }

  lemma SortedOne<T>(cmp: (T, T) -> CompResult, s: seq<T>)
    requires |s| == 1
    ensures InsertionSorted(cmp, s) == s
  {
    assert InsertionSorted(cmp, s[..0]) == [];
  }

  lemma {:induction false} InsertedSorted<T(!new)>(cmp: (T, T) -> CompResult, s: seq<T>, x: T)
    requires TotalPreorder(cmp) && Sorted(cmp, s)
    ensures Sorted(cmp, Inserted(cmp, s, x))
    ensures forall y | y in Inserted(cmp, s, x) :: y == x || y in s
  {
    if s != [] {
      var last := s[|s| - 1];
      if cmp(last, x) != GreaterThan {
        forall i | 0 <= i < |s| ensures AtMost(cmp, s[i], x) {
          assert i == |s| - 1 || AtMost(cmp, s[i], last);
        }
      } else {
        InsertedSorted(cmp, s[..|s| - 1], x);
        assert cmp(x, last) == cmp(last, x).Flip();
        forall y | y in Inserted(cmp, s[..|s| - 1], x) ensures AtMost(cmp, y, last) {
        }
      }
    }
  }

  /** Insertion puts x at the end of its own class and leaves every class in order. */
  lemma {:induction false} InsertedClass<T(!new)>(cmp: (T, T) -> CompResult, s: seq<T>, x: T, y: T)
    requires TotalPreorder(cmp)
    ensures Class(cmp, y, Inserted(cmp, s, x)) == Class(cmp, y, s) + Class(cmp, y, [x])
  {
    if s == [] || cmp(s[|s| - 1], x) != GreaterThan {
      ClassAppend(cmp, y, s, [x]);
    } else {
      var last := s[|s| - 1];
      var front := s[..|s| - 1];
      assert s == front + [last];
      InsertedClass(cmp, front, x, y);
      ClassAppend(cmp, y, Inserted(cmp, front, x), [last]);
      ClassAppend(cmp, y, front, [last]);
      NotBothInClass(cmp, y, last, x);
    }
  }

  lemma NotBothInClass<T(!new)>(cmp: (T, T) -> CompResult, y: T, a: T, b: T)
    requires TotalPreorder(cmp) && cmp(a, b) != Equal
    ensures cmp(y, a) != Equal || cmp(y, b) != Equal
  {
    assert cmp(a, y) == cmp(y, a).Flip() && cmp(b, y) == cmp(y, b).Flip();
    assert cmp(a, b) == cmp(b, a).Flip();
  }

  /** The result is sorted and stable; with SortedClassesUnique it is the only such list. */
  lemma {:induction false} InsertionSortedStable<T(!new)>(cmp: (T, T) -> CompResult, s: seq<T>)
    requires TotalPreorder(cmp)
    ensures Sorted(cmp, InsertionSorted(cmp, s))
    ensures forall x :: Class(cmp, x, InsertionSorted(cmp, s)) == Class(cmp, x, s)
  {
    if s != [] {
      var front, last := s[..|s| - 1], s[|s| - 1];
      InsertionSortedStable(cmp, front);
      InsertedSorted(cmp, InsertionSorted(cmp, front), last);
      forall x ensures Class(cmp, x, InsertionSorted(cmp, s)) == Class(cmp, x, s) {
        InsertedClass(cmp, InsertionSorted(cmp, front), last, x);
        assert s == front + [last];
        ClassAppend(cmp, x, front, [last]);
      }
    }
  }
}
