/** Binary search with a hit index or a miss index (epBinarySearch.h). */
module EpBinarySearch {
  import opened EpAlgorithm

  /** Along the list the key compares greater, then equal, then less. */
  ghost predicate Ordered<K, T>(cmp: (K, T) -> CompResult, key: K, list: seq<T>) {
    forall i, j :: 0 <= i < j < |list| ==>
      && (cmp(key, list[i]) == LessThan ==> cmp(key, list[j]) == LessThan)
      && (cmp(key, list[j]) == GreaterThan ==> cmp(key, list[i]) == GreaterThan)
  }

  /** i cuts the list: everything before it is below the key, everything from it on above. */
  ghost predicate Cuts<K, T>(cmp: (K, T) -> CompResult, key: K, list: seq<T>, i: nat) {
    && i <= |list|
    && (forall j :: 0 <= j < i ==> cmp(key, list[j]) == GreaterThan)
    && (forall j :: i <= j < |list| ==> cmp(key, list[j]) == LessThan)
  }

  /** The probes made between low and high, both inclusive. */
  function Probe<K, T>(cmp: (K, T) -> CompResult, key: K, list: seq<T>, low: nat, high: nat): (r: (bool, nat))
    requires low <= high < |list|
    ensures r.1 <= |list|
    ensures r.0 ==> r.1 < |list| && cmp(key, list[r.1]) == Equal
    decreases high - low
  {
    var med := (low + high) / 2;
    match cmp(key, list[med])
    case Equal => (true, med)
    case GreaterThan => if high < med + 1 then (false, med + 1) else Probe(cmp, key, list, med + 1, high)
    case LessThan => if med < 1 || med - 1 < low then (false, low) else Probe(cmp, key, list, low, med - 1)
  }

  /** What the search finds: a flag and the hit index or the miss index. */
  function Search<K, T>(cmp: (K, T) -> CompResult, key: K, list: seq<T>): (r: (bool, nat))
    ensures r.1 <= |list|
    ensures r.0 ==> r.1 < |list| && cmp(key, list[r.1]) == Equal
  {
    if list == [] then (false, 0) else Probe(cmp, key, list, 0, |list| - 1)
  }

  /** The loop of the source. high and med are size_t there: the nat types below are the proof
      that no subtraction underflows, on any list, sorted or not. */
  method BinarySearch<K, T>(cmp: (K, T) -> CompResult, key: K, searchList: seq<T>) returns (found: bool, retIdx: nat)
    ensures (found, retIdx) == Search(cmp, key, searchList)
  {
    if |searchList| < 1 {
      return false, |searchList|;
    }
    var low: nat := 0;
    var high: nat := |searchList| - 1;
    var med: nat := (low + high) / 2;
    while true
      invariant low <= high < |searchList| && med == (low + high) / 2
      invariant Probe(cmp, key, searchList, low, high) == Search(cmp, key, searchList)
      decreases high - low
    {
      var ret := cmp(key, searchList[med]);
      if ret == Equal {
        return true, med;
      } else if ret == GreaterThan {
        low := med + 1;
      } else {
        if med < 1 {
          break;
        }
        high := med - 1;
      }
      med := (high + low) / 2;
      if high < low {
        break;
      }
    }
    retIdx := low;
    found := false;
  }

  lemma {:induction false} ProbeCuts<K, T>(cmp: (K, T) -> CompResult, key: K, list: seq<T>, low: nat, high: nat)
    requires low <= high < |list|
    requires Ordered(cmp, key, list)
    requires forall j :: 0 <= j < low ==> cmp(key, list[j]) == GreaterThan
    requires forall j :: high < j < |list| ==> cmp(key, list[j]) == LessThan
    ensures var r := Probe(cmp, key, list, low, high);
      if r.0 then cmp(key, list[r.1]) == Equal else Cuts(cmp, key, list, r.1)
    decreases high - low
  {
    var med := (low + high) / 2;
    match cmp(key, list[med])
    case Equal =>
    case GreaterThan =>
      forall j | 0 <= j <= med ensures cmp(key, list[j]) == GreaterThan {
      }
      if med + 1 <= high {
        ProbeCuts(cmp, key, list, med + 1, high);
      }
    case LessThan =>
      forall j | med <= j < |list| ensures cmp(key, list[j]) == LessThan {
      }
      if 1 <= med && low <= med - 1 {
        ProbeCuts(cmp, key, list, low, med - 1);
      }
  }

  lemma CutUnique<K, T>(cmp: (K, T) -> CompResult, key: K, list: seq<T>, i: nat, j: nat)
    requires Cuts(cmp, key, list, i) && Cuts(cmp, key, list, j)
    ensures i == j
  {
    var least := if i < j then i else j;
    assert least < |list| ==> cmp(key, list[least]) == LessThan;
  }

  /** On an ordered list the search hits iff an equal element is there; a miss returns the one
      index that cuts the list. */
  lemma SearchCorrect<K, T>(cmp: (K, T) -> CompResult, key: K, list: seq<T>)
    requires Ordered(cmp, key, list)
    ensures var (hit, idx) := Search(cmp, key, list);
      && (hit <==> exists j :: 0 <= j < |list| && cmp(key, list[j]) == Equal)
      && (!hit ==> Cuts(cmp, key, list, idx) && forall j: nat :: Cuts(cmp, key, list, j) ==> j == idx)
  {
    if list != [] {
      ProbeCuts(cmp, key, list, 0, |list| - 1);
    }
    var (hit, idx) := Search(cmp, key, list);
    if !hit {
      forall j: nat | Cuts(cmp, key, list, j) ensures j == idx {
        CutUnique(cmp, key, list, idx, j);
      }
    }
  }

  /** A list sorted by a total preorder is ordered for every key. */
  lemma SortedIsOrdered<T(!new)>(cmp: (T, T) -> CompResult, key: T, list: seq<T>)
    requires TotalPreorder(cmp) && Sorted(cmp, list)
    ensures Ordered(cmp, key, list)
  {
    forall i, j | 0 <= i < j < |list|
      ensures cmp(key, list[i]) == LessThan ==> cmp(key, list[j]) == LessThan
      ensures cmp(key, list[j]) == GreaterThan ==> cmp(key, list[i]) == GreaterThan
    {
      assert AtMost(cmp, list[i], list[j]);
      assert cmp(key, list[i]) == cmp(list[i], key).Flip();
      assert cmp(key, list[j]) == cmp(list[j], key).Flip();
    }
  }

  /** Inserting at the index the search returns, hit or miss, keeps the list sorted. */
  lemma InsertKeepsSorted<T(!new)>(cmp: (T, T) -> CompResult, key: T, list: seq<T>)
    requires TotalPreorder(cmp) && Sorted(cmp, list)
    ensures var i := Search(cmp, key, list).1;
      Sorted(cmp, list[..i] + [key] + list[i..])
  {
    SortedIsOrdered(cmp, key, list);
    SearchCorrect(cmp, key, list);
    var (hit, i) := Search(cmp, key, list);
    forall j | 0 <= j < i ensures AtMost(cmp, list[j], key) {
      assert cmp(list[j], key) == cmp(key, list[j]).Flip();
      assert hit ==> AtMost(cmp, list[j], list[i]) && cmp(list[i], key) == cmp(key, list[i]).Flip();
    }
    forall j | i <= j < |list| ensures AtMost(cmp, key, list[j]) {
      assert hit && i < j ==> AtMost(cmp, list[i], list[j]);
    }
  }

  // ---------- which of several equal elements is hit ----------

  /** The key is above everything before a, equal to everything from a to b, below everything after. */
  ghost predicate EqualRun<K, T>(cmp: (K, T) -> CompResult, key: K, list: seq<T>, a: nat, b: nat) {
    && a <= b < |list|
    && (forall j :: 0 <= j < a ==> cmp(key, list[j]) == GreaterThan)
    && (forall j :: a <= j <= b ==> cmp(key, list[j]) == Equal)
    && (forall j :: b < j < |list| ==> cmp(key, list[j]) == LessThan)
  }

  /** Halving low..high, the first middle that lies in a..b. */
  function FirstMiddle(low: nat, high: nat, a: nat, b: nat): (r: nat)
    requires low <= a <= b <= high
    ensures a <= r <= b
    decreases high - low
  {
    var med := (low + high) / 2;
    if med < a then FirstMiddle(med + 1, high, a, b)
    else if med > b then FirstMiddle(low, med - 1, a, b)
    else med
  }

  /** The hit depends only on the length of the list and on where the equal elements stand. */
  lemma {:induction false} ProbeHits<K, T>(
    cmp: (K, T) -> CompResult, key: K, list: seq<T>, low: nat, high: nat, a: nat, b: nat)
    requires low <= a <= b <= high < |list| && EqualRun(cmp, key, list, a, b)
    ensures Probe(cmp, key, list, low, high) == (true, FirstMiddle(low, high, a, b))
    decreases high - low
  {
    var med := (low + high) / 2;
    if med < a {
      ProbeHits(cmp, key, list, med + 1, high, a, b);
    } else if med > b {
      ProbeHits(cmp, key, list, low, med - 1, a, b);
    }
  }

  lemma SearchHits<K, T>(cmp: (K, T) -> CompResult, key: K, list: seq<T>, a: nat, b: nat)
    requires EqualRun(cmp, key, list, a, b)
    ensures Search(cmp, key, list) == (true, FirstMiddle(0, |list| - 1, a, b))
    ensures a == 0 && b == |list| - 1 ==> Search(cmp, key, list).1 == (|list| - 1) / 2
  {
    ProbeHits(cmp, key, list, 0, |list| - 1, a, b);
  }
}
