/** Whole runs of the K-ary heap (epKAryHeap.h), and what its Erase leaves. */
module EpKAryHeapRun {
  import opened EpAlgorithm
  import opened EpKAryHeapSpec
  import opened EpKAryHeap

  datatype Call<K, D> = DoPush(key: K, data: D) | DoPop | DoChangeKey(key: K, newKey: K)

  datatype Trace<K, D> = Trace(heap: Heap<K, D>, taken: seq<(K, D)>)

  function Step<K, D>(cmp: (K, K) -> CompResult, k: nat, h: Heap<K, D>, c: Call<K, D>): Trace<K, D>
    requires k > 0
  {
    match c
    case DoPush(key, data) => Trace(Pushed(cmp, k, h, (key, data)), [])
    case DoPop => if h == [] then Trace(h, []) else Trace(Popped(cmp, k, h), [h[0]])
    case DoChangeKey(key, newKey) => Trace(KeyChanged(cmp, k, h, key, newKey), [])
  }

  function Run<K, D>(cmp: (K, K) -> CompResult, k: nat, h: Heap<K, D>, calls: seq<Call<K, D>>): Trace<K, D>
    requires k > 0
    decreases calls
  {
    if calls == [] then Trace(h, [])
    else
      var step := Step(cmp, k, h, calls[0]);
      var rest := Run(cmp, k, step.heap, calls[1..]);
      Trace(rest.heap, step.taken + rest.taken)
  }

  /** What a priority queue on a multiset of pairs may do in one call: m becomes m', out is taken.
      Among equal keys it is free to choose. */
  ghost predicate Asked<K(!new), D(!new)>(
    cmp: (K, K) -> CompResult, m: multiset<(K, D)>, c: Call<K, D>, m': multiset<(K, D)>, out: seq<(K, D)>) {
    match c
    case DoPush(key, data) => m' == m + multiset{(key, data)} && out == []
    case DoPop => if m == multiset{} then m' == m && out == [] else |out| == 1 && TakesLeast(cmp, m, m', out[0])
    case DoChangeKey(key, newKey) =>
      && out == []
      && if forall p :: p in m ==> cmp(p.0, key) != Equal then m' == m
         else exists p :: MovesKey(cmp, m, m', key, newKey, p)
  }

  ghost predicate TakesLeast<K(!new), D(!new)>(
    cmp: (K, K) -> CompResult, m: multiset<(K, D)>, m': multiset<(K, D)>, p: (K, D)) {
    p in m && m' == m - multiset{p} && forall q :: q in m ==> AtMost(cmp, p.0, q.0)
  }

  /** p had the key; now it has newKey and the same data, and nothing else changed. */
  ghost predicate MovesKey<K, D>(
    cmp: (K, K) -> CompResult, m: multiset<(K, D)>, m': multiset<(K, D)>, key: K, newKey: K, p: (K, D)) {
    p in m && cmp(p.0, key) == Equal && m' == m - multiset{p} + multiset{(newKey, p.1)}
  }

  /** One call on the class does what Step says. */
  method Perform<K(!new), D>(t: KAryHeap<K, D>, c: Call<K, D>) returns (taken: seq<(K, D)>)
    requires t.Valid() && t.Ordered()
    modifies t
    ensures t.Ordered() && Trace(t.heap, taken) == Step(t.cmp, t.k, old(t.heap), c)
  {
    hide HeapOrder, Pushed, Popped, KeyChanged;
    taken := [];
    match c {
      case DoPush(key, data) =>
        t.PushPair(key, data);
      case DoPop =>
        var out := t.Pop();
        taken := if out == None then [] else [out.value];
      case DoChangeKey(key, newKey) =>
        var changed := t.ChangeKey(key, newKey);
    }
  }

  /** A whole run on the class is the run of Step. */
  method PerformAll<K(!new), D>(t: KAryHeap<K, D>, calls: seq<Call<K, D>>) returns (taken: seq<(K, D)>)
    requires t.Valid() && t.Ordered()
    modifies t
    ensures t.Ordered() && Trace(t.heap, taken) == Run(t.cmp, t.k, old(t.heap), calls)
  {
    hide Step, HeapOrder, Run;
    taken := [];
    RunFrom(t.cmp, t.k, t.heap, calls, 0, []);
    for i := 0 to |calls|
      invariant t.Ordered()
      invariant Run(t.cmp, t.k, old(t.heap), calls) == Then(taken, Run(t.cmp, t.k, t.heap, calls[i..]))
    {
      RunFrom(t.cmp, t.k, t.heap, calls, i, taken);
      var out := Perform(t, calls[i]);
      taken := taken + out;
    }
    RunFrom(t.cmp, t.k, t.heap, calls, |calls|, taken);
  }

  /** What a run leaves and takes out when the pairs before were taken out already. */
  function Then<K, D>(before: seq<(K, D)>, t: Trace<K, D>): Trace<K, D> {
    Trace(t.heap, before + t.taken)
  }

  lemma RunFrom<K, D>(
    cmp: (K, K) -> CompResult, k: nat, h: Heap<K, D>, calls: seq<Call<K, D>>, i: nat, before: seq<(K, D)>)
    requires k > 0 && i <= |calls|
    ensures i == |calls| ==> Then(before, Run(cmp, k, h, calls[i..])) == Trace(h, before)
    ensures i == 0 && before == [] ==> Run(cmp, k, h, calls) == Then(before, Run(cmp, k, h, calls[i..]))
    ensures i < |calls| ==>
      var step := Step(cmp, k, h, calls[i]);
      Then(before, Run(cmp, k, h, calls[i..])) == Then(before + step.taken, Run(cmp, k, step.heap, calls[i + 1..]))
  {
    hide Step;
    assert calls[0..] == calls;
    if i < |calls| {
      assert calls[i..][1..] == calls[i + 1..];
      var step := Step(cmp, k, h, calls[i]);
      var rest := Run(cmp, k, step.heap, calls[i + 1..]);
      assert before + (step.taken + rest.taken) == (before + step.taken) + rest.taken;
    }
  }

  /** A whole run of such a queue. */
  ghost predicate AskedAll<K(!new), D(!new)>(
    cmp: (K, K) -> CompResult, m: multiset<(K, D)>, calls: seq<Call<K, D>>, m': multiset<(K, D)>, taken: seq<(K, D)>)
    decreases calls
  {
    if calls == [] then m' == m && taken == []
    else exists mid, out: seq<(K, D)> ::
      && Asked(cmp, m, calls[0], mid, out)
      && out <= taken && AskedAll(cmp, mid, calls[1..], m', taken[|out|..])
  }

  /** One call keeps the order and does what the call on a multiset may do. */
  lemma StepKeepsOrder<K(!new), D(!new)>(cmp: (K, K) -> CompResult, k: nat, h: Heap<K, D>, c: Call<K, D>)
    requires TotalPreorder(cmp) && k > 0 && HeapOrder(cmp, k, h)
    ensures var step := Step(cmp, k, h, c);
      HeapOrder(cmp, k, step.heap) && Asked(cmp, multiset(h), c, multiset(step.heap), step.taken)
  {
    hide HeapOrder, Pushed, Popped, KeyChanged;
    match c
    case DoPush(key, data) => PushedKeepsOrder(cmp, k, h, (key, data));
    case DoPop =>
      if h != [] {
        PoppedTakesLeast(cmp, k, h);
      }
    case DoChangeKey(key, newKey) => KeyChangedAsAsked(cmp, k, h, key, newKey);
  }

  lemma PoppedTakesLeast<K(!new), D(!new)>(cmp: (K, K) -> CompResult, k: nat, h: Heap<K, D>)
    requires TotalPreorder(cmp) && k > 0 && HeapOrder(cmp, k, h) && h != []
    ensures HeapOrder(cmp, k, Popped(cmp, k, h))
    ensures TakesLeast(cmp, multiset(h), multiset(Popped(cmp, k, h)), h[0])
  {
    hide HeapOrder, Popped;
    PoppedKeepsOrder(cmp, k, h);
    assert h[0] in multiset(h);
    forall q | q in multiset(h) ensures AtMost(cmp, h[0].0, q.0) {
      assert q in h;
    }
  }

  lemma KeyChangedAsAsked<K(!new), D(!new)>(cmp: (K, K) -> CompResult, k: nat, h: Heap<K, D>, key: K, newKey: K)
    requires TotalPreorder(cmp) && k > 0 && HeapOrder(cmp, k, h)
    ensures var h' := KeyChanged(cmp, k, h, key, newKey);
      HeapOrder(cmp, k, h') && Asked(cmp, multiset(h), DoChangeKey(key, newKey), multiset(h'), [])
  {
    hide HeapOrder, FoundIndex, KeyChangedAt;
    SearchIsExact(cmp, k, h, key);
    var i := FoundIndex(cmp, k, h, key, 0);
    if i >= 0 {
      KeyChangedKeepsOrder(cmp, k, h, i, newKey);
      assert h[i] in multiset(h);
      assert MovesKey(cmp, multiset(h), multiset(KeyChangedAt(cmp, k, h, i, newKey)), key, newKey, h[i]);
    } else {
      forall p | p in multiset(h) ensures cmp(p.0, key) != Equal {
        assert p in h;
      }
    }
  }

  /** Every run keeps the order and is a run of the priority queue on a multiset: each pair taken is
      a minimum of what was there, and the pairs change exactly as asked. */
  lemma {:induction false} RunKeepsOrder<K(!new), D(!new)>(
    cmp: (K, K) -> CompResult, k: nat, h: Heap<K, D>, calls: seq<Call<K, D>>)
    requires TotalPreorder(cmp) && k > 0 && HeapOrder(cmp, k, h)
    ensures var end := Run(cmp, k, h, calls);
      HeapOrder(cmp, k, end.heap) && AskedAll(cmp, multiset(h), calls, multiset(end.heap), end.taken)
    decreases calls
  {
    hide HeapOrder, Step, Asked;
    if calls != [] {
      var step := Step(cmp, k, h, calls[0]);
      var rest := Run(cmp, k, step.heap, calls[1..]);
      StepKeepsOrder(cmp, k, h, calls[0]);
      RunKeepsOrder(cmp, k, step.heap, calls[1..]);
      assert (step.taken + rest.taken)[|step.taken|..] == rest.taken;
      assert Asked(cmp, multiset(h), calls[0], multiset(step.heap), step.taken);
    }
  }

  function PushedBy<K, D>(calls: seq<Call<K, D>>): seq<(K, D)> {
    if calls == [] then []
    else (if calls[0].DoPush? then [(calls[0].key, calls[0].data)] else []) + PushedBy(calls[1..])
  }

  /** Without key changes no run loses or invents a pair. */
  lemma {:induction false} RunConserves<K(!new), D(!new)>(
    cmp: (K, K) -> CompResult, k: nat, h: Heap<K, D>, calls: seq<Call<K, D>>)
    requires TotalPreorder(cmp) && k > 0 && HeapOrder(cmp, k, h)
    requires forall i :: 0 <= i < |calls| ==> !calls[i].DoChangeKey?
    ensures var end := Run(cmp, k, h, calls);
      multiset(end.heap) + multiset(end.taken) == multiset(h) + multiset(PushedBy(calls))
    decreases calls
  {
    hide HeapOrder, Step;
    if calls != [] {
      var step := Step(cmp, k, h, calls[0]);
      var rest := Run(cmp, k, step.heap, calls[1..]);
      var pushed := if calls[0].DoPush? then [(calls[0].key, calls[0].data)] else [];
      StepConserves(cmp, k, h, calls[0]);
      RunConserves(cmp, k, step.heap, calls[1..]);
      assert PushedBy(calls) == pushed + PushedBy(calls[1..]);
      SumUp(h, step.heap, rest.heap, step.taken, rest.taken, pushed, PushedBy(calls[1..]));
    }
  }

  lemma StepConserves<K(!new), D(!new)>(cmp: (K, K) -> CompResult, k: nat, h: Heap<K, D>, c: Call<K, D>)
    requires TotalPreorder(cmp) && k > 0 && HeapOrder(cmp, k, h) && !c.DoChangeKey?
    ensures var step := Step(cmp, k, h, c);
      && HeapOrder(cmp, k, step.heap)
      && multiset(step.heap) + multiset(step.taken)
         == multiset(h) + multiset(if c.DoPush? then [(c.key, c.data)] else [])
  {
    hide HeapOrder, Pushed, Popped;
    if c.DoPush? {
      PushedKeepsOrder(cmp, k, h, (c.key, c.data));
    } else if h != [] {
      PoppedKeepsOrder(cmp, k, h);
    }
  }

  function Datas<K, D>(s: seq<(K, D)>): (r: seq<D>)
    ensures |r| == |s|
  {
    Mapped((p: (K, D)) => p.1, s)
  }

  /** With key changes too, no run loses or invents data. */
  lemma {:induction false} RunConservesData<K(!new), D(!new)>(
    cmp: (K, K) -> CompResult, k: nat, h: Heap<K, D>, calls: seq<Call<K, D>>)
    requires TotalPreorder(cmp) && k > 0 && HeapOrder(cmp, k, h)
    ensures var end := Run(cmp, k, h, calls);
      multiset(Datas(end.heap)) + multiset(Datas(end.taken)) == multiset(Datas(h)) + multiset(Datas(PushedBy(calls)))
    decreases calls
  {
    hide HeapOrder, Step, Datas;
    if calls == [] {
      assert Datas<K, D>([]) == [];
    } else {
      var step := Step(cmp, k, h, calls[0]);
      var rest := Run(cmp, k, step.heap, calls[1..]);
      var pushed := if calls[0].DoPush? then [(calls[0].key, calls[0].data)] else [];
      StepKeepsOrder(cmp, k, h, calls[0]);
      StepConservesData(cmp, k, h, calls[0]);
      RunConservesData(cmp, k, step.heap, calls[1..]);
      DatasAppend(step.taken, rest.taken);
      DatasAppend(pushed, PushedBy(calls[1..]));
      SumUp(Datas(h), Datas(step.heap), Datas(rest.heap), Datas(step.taken), Datas(rest.taken),
            Datas(pushed), Datas(PushedBy(calls[1..])));
    }
  }

  lemma DatasAppend<K, D>(a: seq<(K, D)>, b: seq<(K, D)>)
    ensures Datas(a + b) == Datas(a) + Datas(b)
  {
  }

  lemma StepConservesData<K(!new), D(!new)>(cmp: (K, K) -> CompResult, k: nat, h: Heap<K, D>, c: Call<K, D>)
    requires TotalPreorder(cmp) && k > 0 && HeapOrder(cmp, k, h)
    ensures var step := Step(cmp, k, h, c);
      multiset(Datas(step.heap)) + multiset(Datas(step.taken))
      == multiset(Datas(h)) + multiset(Datas(if c.DoPush? then [(c.key, c.data)] else []))
  {
    hide HeapOrder, Pushed, Popped, KeyChanged, Datas;
    if c.DoPush? {
      var h' := Pushed(cmp, k, h, (c.key, c.data));
      PushedKeepsOrder(cmp, k, h, (c.key, c.data));
      SameDatas(h', h + [(c.key, c.data)]);
      DatasAppend(h, [(c.key, c.data)]);
      assert Datas<K, D>([]) == [];
    } else if c.DoPop? {
      PoppedConservesData(cmp, k, h);
    } else {
      KeyChangedConservesData(cmp, k, h, c.key, c.newKey);
      assert Datas<K, D>([]) == [];
    }
  }

  lemma PoppedConservesData<K(!new), D(!new)>(cmp: (K, K) -> CompResult, k: nat, h: Heap<K, D>)
    requires TotalPreorder(cmp) && k > 0 && HeapOrder(cmp, k, h)
    ensures var step := Step(cmp, k, h, DoPop);
      multiset(Datas(step.heap)) + multiset(Datas(step.taken)) == multiset(Datas(h)) + multiset(Datas<K, D>([]))
  {
    hide HeapOrder, Popped;
    if h != [] {
      PoppedKeepsOrder(cmp, k, h);
      SameDatas(Popped(cmp, k, h) + [h[0]], h);
      DatasAppend(Popped(cmp, k, h), [h[0]]);
    }
  }

  lemma KeyChangedConservesData<K(!new), D(!new)>(
    cmp: (K, K) -> CompResult, k: nat, h: Heap<K, D>, key: K, newKey: K)
    requires TotalPreorder(cmp) && k > 0 && HeapOrder(cmp, k, h)
    ensures multiset(Datas(KeyChanged(cmp, k, h, key, newKey))) == multiset(Datas(h))
  {
    hide HeapOrder, FoundIndex, KeyChangedAt;
    var i := FoundIndex(cmp, k, h, key, 0);
    if i >= 0 {
      KeyChangedKeepsOrder(cmp, k, h, i, newKey);
      var h' := h[i := (newKey, h[i].1)];
      TakenOut(h, i);
      TakenOut(h', i);
      assert Without(h, i) == Without(h', i);
      SameDatas(KeyChangedAt(cmp, k, h, i, newKey), h');
      assert Datas(h') == Datas(h);
    }
  }

  lemma SameDatas<K, D>(a: seq<(K, D)>, b: seq<(K, D)>)
    requires multiset(a) == multiset(b)
    ensures multiset(Datas(a)) == multiset(Datas(b))
  {
    MappedPermutes((p: (K, D)) => p.1, a, b);
  }

  ghost predicate KeysAscend<K, D>(cmp: (K, K) -> CompResult, s: seq<(K, D)>) {
    forall i, j :: 0 <= i < j < |s| ==> AtMost(cmp, s[i].0, s[j].0)
  }

  function Pops<K, D>(n: nat): seq<Call<K, D>> {
    if n == 0 then [] else [DoPop] + Pops(n - 1)
  }

  /** Popping everything takes out exactly the pairs of the heap, keys ascending. */
  lemma {:induction false} DrainSorts<K(!new), D>(cmp: (K, K) -> CompResult, k: nat, h: Heap<K, D>)
    requires TotalPreorder(cmp) && k > 0 && HeapOrder(cmp, k, h)
    ensures var end := Run(cmp, k, h, Pops(|h|));
      end.heap == [] && KeysAscend(cmp, end.taken) && multiset(end.taken) == multiset(h)
    decreases |h|
  {
    if h != [] {
      DrainStep(cmp, k, h);
      hide HeapOrder, Run, Popped, Pops;
      PoppedKeepsOrder(cmp, k, h);
      DrainSorts(cmp, k, Popped(cmp, k, h));
      LeastFirst(cmp, h, Run(cmp, k, Popped(cmp, k, h), Pops(|h| - 1)).taken);
    }
  }

  lemma LeastFirst<K(!new), D>(cmp: (K, K) -> CompResult, h: Heap<K, D>, rest: seq<(K, D)>)
    requires h != [] && KeysAscend(cmp, rest) && multiset(h) == multiset(rest) + multiset{h[0]}
    requires forall p :: p in h ==> AtMost(cmp, h[0].0, p.0)
    ensures KeysAscend(cmp, [h[0]] + rest) && multiset([h[0]] + rest) == multiset(h)
  {
    forall p | p in rest ensures AtMost(cmp, h[0].0, p.0) {
      assert p in multiset(rest);
      assert p in multiset(h);
    }
  }

  lemma DrainStep<K, D>(cmp: (K, K) -> CompResult, k: nat, h: Heap<K, D>)
    requires k > 0 && h != []
    ensures var rest := Run(cmp, k, Popped(cmp, k, h), Pops(|h| - 1));
      Run(cmp, k, h, Pops(|h|)) == Trace(rest.heap, [h[0]] + rest.taken)
  {
    assert Pops<K, D>(|h|)[1..] == Pops<K, D>(|h| - 1);
  }

  function Pushes<K, D>(ps: seq<(K, D)>): seq<Call<K, D>> {
    if ps == [] then [] else [DoPush(ps[0].0, ps[0].1)] + Pushes(ps[1..])
  }

  lemma PushFirst<K, D>(cmp: (K, K) -> CompResult, k: nat, h: Heap<K, D>, p: (K, D), rest: seq<Call<K, D>>)
    requires k > 0
    ensures Run(cmp, k, h, [DoPush(p.0, p.1)] + rest) == Run(cmp, k, Pushed(cmp, k, h, p), rest)
  {
    hide Pushed;
    var calls := [DoPush(p.0, p.1)] + rest;
    assert calls[1..] == rest && Step(cmp, k, h, calls[0]) == Trace(Pushed(cmp, k, h, p), []);
    var end := Run(cmp, k, Pushed(cmp, k, h, p), rest);
    assert [] + end.taken == end.taken;
  }

  lemma PushesFirst<K, D>(ps: seq<(K, D)>, rest: seq<Call<K, D>>)
    ensures ps == [] ==> Pushes(ps) + rest == rest
    ensures ps != [] ==> Pushes(ps) + rest == [DoPush(ps[0].0, ps[0].1)] + (Pushes(ps[1..]) + rest)
  {
  }

  /** Pushing any pairs into a heap and popping everything sorts them by key. */
  lemma {:induction false} PushAllPopAllSorts<K(!new), D>(
    cmp: (K, K) -> CompResult, k: nat, h: Heap<K, D>, ps: seq<(K, D)>)
    requires TotalPreorder(cmp) && k > 0 && HeapOrder(cmp, k, h)
    ensures var end := Run(cmp, k, h, Pushes(ps) + Pops(|h| + |ps|));
      end.heap == [] && KeysAscend(cmp, end.taken) && multiset(end.taken) == multiset(h) + multiset(ps)
    decreases ps
  {
    hide HeapOrder, Run, Pushed, Pushes, Pops, KeysAscend;
    PushesFirst(ps, Pops(|h| + |ps|));
    if ps == [] {
      DrainSorts(cmp, k, h);
    } else {
      var next := Pushed(cmp, k, h, ps[0]);
      PushFirst(cmp, k, h, ps[0], Pushes(ps[1..]) + Pops(|h| + |ps|));
      PushedKeepsOrder(cmp, k, h, ps[0]);
      PushAllPopAllSorts(cmp, k, next, ps[1..]);
      assert |next| + |ps[1..]| == |h| + |ps|;
      assert ps == [ps[0]] + ps[1..];
    }
  }

  ghost predicate HoldsKey<K(!new), D(!new)>(cmp: (K, K) -> CompResult, h: Heap<K, D>, key: K) {
    exists i :: 0 <= i < |h| && cmp(h[i].0, key) == Equal
  }

  ghost predicate RemovesKey<K(!new), D(!new)>(cmp: (K, K) -> CompResult, h: Heap<K, D>, h': Heap<K, D>, key: K) {
    exists p :: p in h && cmp(p.0, key) == Equal && multiset(h') == multiset(h) - multiset{p}
  }

  /** Erase promises that a pair with the key goes, or nothing when there is none. As written it keeps
      the promise exactly when the key is not there, or the slot whose index the key converts to exists
      and holds it. */
  lemma ErasedKeepsPromiseIff<K(!new), D(!new)>(cmp: (K, K) -> CompResult, k: nat, h: Heap<K, D>, key: K, index: int)
    requires TotalPreorder(cmp) && k > 0 && HeapOrder(cmp, k, h)
    ensures var h' := Erased(cmp, k, h, key, index);
      (if HoldsKey(cmp, h, key) then RemovesKey(cmp, h, h', key) else h' == h)
      <==> !HoldsKey(cmp, h, key) || (0 <= index < |h| && cmp(h[index].0, key) == Equal)
  {
    hide HeapOrder, ErasedAt, FoundIndex, RemovesKey;
    SearchIsExact(cmp, k, h, key);
    NothingRemoved(cmp, h, key);
    if 0 <= index < |h| {
      ErasedAtHits(cmp, k, h, key, index);
    }
  }

  /** On every ordered heap: when the key is there and its index names a slot, exactly that slot's pair
      goes, whatever its key; else nothing does. */
  lemma ErasedIs<K(!new), D(!new)>(cmp: (K, K) -> CompResult, k: nat, h: Heap<K, D>, key: K, index: int)
    requires TotalPreorder(cmp) && k > 0 && HeapOrder(cmp, k, h)
    ensures var hit, h' := HoldsKey(cmp, h, key) && 0 <= index < |h|, Erased(cmp, k, h, key, index);
      && h' == (if hit then ErasedAt(cmp, k, h, index) else h)
      && multiset(h') == (if hit then multiset(h) - multiset{h[index]} else multiset(h))
  {
    hide HeapOrder, ErasedAt, FoundIndex;
    SearchIsExact(cmp, k, h, key);
    if 0 <= index < |h| {
      ErasedAtRemoves(cmp, k, h, index);
    }
  }

  /** Erase as written keeps heap order exactly when it removes nothing or the moved last key fits. */
  lemma ErasedKeepsOrderIff<K(!new), D(!new)>(cmp: (K, K) -> CompResult, k: nat, h: Heap<K, D>, key: K, index: int)
    requires TotalPreorder(cmp) && k > 0 && HeapOrder(cmp, k, h)
    ensures HeapOrder(cmp, k, Erased(cmp, k, h, key, index))
            <==> !HoldsKey(cmp, h, key) || !(0 <= index < |h|) || MovedFits(cmp, k, h, index)
  {
    hide HeapOrder, ErasedAt, FoundIndex, MovedFits;
    SearchIsExact(cmp, k, h, key);
    if 0 <= index < |h| {
      ErasedAtKeepsOrderIff(cmp, k, h, index);
    }
  }

  lemma NothingRemoved<K(!new), D(!new)>(cmp: (K, K) -> CompResult, h: Heap<K, D>, key: K)
    ensures !RemovesKey(cmp, h, h, key)
  {
    forall p | p in h ensures multiset(h) != multiset(h) - multiset{p} {
      assert p in multiset(h) && (multiset(h) - multiset{p})[p] == multiset(h)[p] - 1;
    }
  }

  lemma ErasedAtHits<K(!new), D(!new)>(cmp: (K, K) -> CompResult, k: nat, h: Heap<K, D>, key: K, index: nat)
    requires k > 0 && index < |h|
    ensures RemovesKey(cmp, h, ErasedAt(cmp, k, h, index), key) <==> cmp(h[index].0, key) == Equal
  {
    hide ErasedAt;
    ErasedAtRemoves(cmp, k, h, index);
    assert h[index] in multiset(h);
    if p :| p in h && cmp(p.0, key) == Equal && multiset(ErasedAt(cmp, k, h, index)) == multiset(h) - multiset{p} {
      assert p in multiset(h);
      assert (multiset(h) - multiset{p})[p] == multiset(h)[p] - 1;
      assert (multiset(h) - multiset{h[index]})[p] == if p == h[index] then multiset(h)[p] - 1 else multiset(h)[p];
    }
  }

  /** Of integer keys that convert to themselves: erasing 5 from a heap of that one key does nothing,
      and erasing 0 from a heap whose root is another key removes that root. */
  lemma EraseCounterexample()
    ensures Erased(CompFunc, 2, [(5, 0)], 5, 5) == [(5, 0)]
    ensures HeapOrder(CompFunc, 2, [(-1, 7), (0, 8)]) && Erased(CompFunc, 2, [(-1, 7), (0, 8)], 0, 0) == [(0, 8)]
  {
    assert FoundIndex(CompFunc, 2, [(-1, 7), (0, 8)], 0, 1) == 1;
    assert FoundBelow(CompFunc, 2, [(-1, 7), (0, 8)], 0, 0, 1) == 1;
    assert LastMovedTo([(-1, 7), (0, 8)], 0) == [(0, 8)];
  }
}
