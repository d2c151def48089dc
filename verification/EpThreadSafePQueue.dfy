/** The sorted priority queue (epThreadSafePQueue.h) with what it inherits
    from the queue (epThreadSafeQueue.h). Each call is one atomic step. */
module EpThreadSafePQueue {
  import opened EpAlgorithm
  import opened EpBinarySearch

  /** The queue after Push: the item goes to the index the search returns, even on a hit. */
  function Pushed<T>(cmp: (T, T) -> CompResult, q: seq<T>, data: T): (r: seq<T>)
    ensures |r| == |q| + 1
  {
    var i := Search(cmp, data, q).1;
    q[..i] + [data] + q[i..]
  }

  /** The index of the first item that the element type's own == takes for data; |q| if none does. */
  function Matched<T>(eq: (T, T) -> bool, q: seq<T>, data: T): (r: nat)
    ensures r <= |q|
    ensures forall i :: 0 <= i < r ==> !eq(q[i], data)
    ensures r < |q| ==> eq(q[r], data)
  {
    if q == [] || eq(q[0], data) then 0 else Matched(eq, q[1..], data) + 1
  }

  /** The queue after Erase. */
  function Erased<T>(eq: (T, T) -> bool, q: seq<T>, data: T): seq<T> {
    var i := Matched(eq, q, data);
    if i < |q| then Without(q, i) else q
  }

  /** cmp is the template's compare function, eq the element type's ==, on which nothing is asked. */
  class ThreadSafePQueue<T(!new)> {
    const cmp: (T, T) -> CompResult
    const eq: (T, T) -> bool
    var queue: seq<T>

    ghost predicate Valid()
      reads this
    {
      TotalPreorder(cmp) && Sorted(cmp, queue)
    }

    constructor (cmp: (T, T) -> CompResult, eq: (T, T) -> bool)
      requires TotalPreorder(cmp)
      ensures Valid() && queue == [] && this.cmp == cmp && this.eq == eq
    {
      this.cmp, this.eq := cmp, eq;
      queue := [];
    }

    method Push(data: T)
      requires Valid()
      modifies this
      ensures Valid() && queue == Pushed(cmp, old(queue), data)
    {
      InsertKeepsSorted(cmp, data, queue);
      if |queue| > 0 {
        var found, retIdx := BinarySearch(cmp, data, queue);
        // a hit only fails an assertion that release builds compile out
        queue := queue[..retIdx] + [data] + queue[retIdx..];
      } else {
        queue := queue + [data];
      }
    }

    method Pop()
      requires Valid() && queue != []
      modifies this
      ensures Valid() && queue == old(queue)[1..]
    {
      queue := queue[1..];
    }

    method Front() returns (r: T)
      requires Valid() && queue != []
      ensures r == queue[0] && forall x :: x in queue ==> AtMost(cmp, r, x)
    {
      r := queue[0];
      assert cmp(r, r) == Equal;
      forall x | x in queue ensures AtMost(cmp, r, x) {
        var i :| 0 <= i < |queue| && queue[i] == x;
        assert i == 0 || AtMost(cmp, queue[0], queue[i]);
      }
    }

    method Back() returns (r: T)
      requires Valid() && queue != []
      ensures r == queue[|queue| - 1] && forall x :: x in queue ==> AtMost(cmp, x, r)
    {
      r := queue[|queue| - 1];
      assert cmp(r, r) == Equal;
      forall x | x in queue ensures AtMost(cmp, x, r) {
        var i :| 0 <= i < |queue| && queue[i] == x;
        assert i == |queue| - 1 || AtMost(cmp, queue[i], queue[|queue| - 1]);
      }
    }

    method IsExist(data: T) returns (r: bool)
      ensures r <==> exists x :: x in queue && eq(x, data)
    {
      if |queue| == 0 {
        return false;
      }
      var iter := 0;
      while iter != |queue|
        invariant 0 <= iter <= |queue| && forall i :: 0 <= i < iter ==> !eq(queue[i], data)
      {
        if eq(queue[iter], data) {
          assert queue[iter] in queue;
          return true;
        }
        iter := iter + 1;
      }
      return false;
    }

    method Erase(data: T) returns (r: bool)
      requires Valid()
      modifies this
      ensures Valid() && queue == Erased(eq, old(queue), data)
      ensures r <==> exists x :: x in old(queue) && eq(x, data)
    {
      ErasedKeepsSorted(cmp, eq, queue, data);
      var iter := 0;
      while iter != |queue|
        invariant 0 <= iter <= |queue| && forall i :: 0 <= i < iter ==> !eq(queue[i], data)
        invariant queue == old(queue)
      {
        if eq(queue[iter], data) {
          assert queue[iter] in queue && Matched(eq, queue, data) == iter;
          queue := queue[..iter] + queue[iter + 1..];
          return true;
        }
        iter := iter + 1;
      }
      return false;
    }

    method Clear()
      requires Valid()
      modifies this
      ensures Valid() && queue == []
    {
      queue := [];
    }
  }

  /** Erasing takes out the first item that matches and nothing else; without one the queue stays. */
  lemma ErasedAt<T(!new)>(eq: (T, T) -> bool, q: seq<T>, data: T, i: nat)
    requires i <= |q| && forall j :: 0 <= j < i ==> !eq(q[j], data)
    requires i < |q| ==> eq(q[i], data)
    ensures Erased(eq, q, data) == if i < |q| then q[..i] + q[i + 1..] else q
    ensures i < |q| ==> multiset(q) == multiset(Erased(eq, q, data)) + multiset{q[i]}
  {
    assert Matched(eq, q, data) == i;
    if i < |q| {
      TakenOut(q, i);
    }
  }

  lemma ErasedKeepsSorted<T(!new)>(cmp: (T, T) -> CompResult, eq: (T, T) -> bool, q: seq<T>, data: T)
    requires Sorted(cmp, q)
    ensures Sorted(cmp, Erased(eq, q, data))
  {
  }

  lemma PushedAdds<T>(cmp: (T, T) -> CompResult, q: seq<T>, data: T)
    ensures multiset(Pushed(cmp, q, data)) == multiset(q) + multiset{data}
  {
    var i := Search(cmp, data, q).1;
    assert q == q[..i] + q[i..];
  }

  /** One call, with what it takes out of the queue. */
  datatype Call<T> = DoPush(data: T) | DoPop | DoErase(data: T)

  datatype Trace<T> = Trace(queue: seq<T>, taken: seq<T>)

  /** Pop asserts a non-empty queue; the other calls are always allowed. */
  predicate Allowed<T>(q: seq<T>, c: Call<T>) {
    c.DoPop? ==> q != []
  }

  function Step<T>(cmp: (T, T) -> CompResult, eq: (T, T) -> bool, q: seq<T>, c: Call<T>): Trace<T>
    requires Allowed(q, c)
  {
    match c
    case DoPush(x) => Trace(Pushed(cmp, q, x), [])
    case DoPop => Trace(q[1..], [q[0]])
    case DoErase(x) =>
      var i := Matched(eq, q, x);
      Trace(Erased(eq, q, x), if i < |q| then [q[i]] else [])
  }

  // ---------- what one call does, without the functions above ----------

  /** q with x inserted: directly before an equal item when there is one, else where it belongs. */
  ghost predicate PushedRight<T(!new)>(cmp: (T, T) -> CompResult, q: seq<T>, x: T, q': seq<T>) {
    exists i :: PushedAt(cmp, q, x, q', i)
  }

  ghost predicate PushedAt<T(!new)>(cmp: (T, T) -> CompResult, q: seq<T>, x: T, q': seq<T>, i: nat) {
    && i <= |q| && q' == q[..i] + [x] + q[i..]
    && if exists j :: 0 <= j < |q| && cmp(x, q[j]) == Equal then i < |q| && cmp(x, q[i]) == Equal
       else Cuts(cmp, x, q, i)
  }

  ghost predicate FirstMatch<T>(eq: (T, T) -> bool, q: seq<T>, x: T, i: nat) {
    i < |q| && eq(q[i], x) && forall j :: 0 <= j < i ==> !eq(q[j], x)
  }

  ghost predicate Asked<T(!new)>(
    cmp: (T, T) -> CompResult, eq: (T, T) -> bool, q: seq<T>, c: Call<T>, t: Trace<T>) {
    match c
    case DoPush(x) => t.taken == [] && PushedRight(cmp, q, x, t.queue)
    case DoPop => q != [] && t == Trace(q[1..], [q[0]]) && forall y :: y in q ==> AtMost(cmp, q[0], y)
    case DoErase(x) =>
      if exists i: nat :: FirstMatch(eq, q, x, i)
      then exists i: nat :: FirstMatch(eq, q, x, i) && t == Trace(q[..i] + q[i + 1..], [q[i]])
      else t == Trace(q, [])
  }

  lemma PushedBeside<T(!new)>(cmp: (T, T) -> CompResult, q: seq<T>, x: T)
    requires TotalPreorder(cmp) && Sorted(cmp, q)
    ensures PushedRight(cmp, q, x, Pushed(cmp, q, x))
  {
    SortedIsOrdered(cmp, x, q);
    SearchCorrect(cmp, x, q);
    assert PushedAt(cmp, q, x, Pushed(cmp, q, x), Search(cmp, x, q).1);
  }

  /** Among the equal items a..b the new one goes before the first middle that the halving of the whole
      queue meets; in a queue of equal items, before the middle one. */
  lemma PushedAmongEquals<T(!new)>(cmp: (T, T) -> CompResult, q: seq<T>, x: T, a: nat, b: nat)
    requires EqualRun(cmp, x, q, a, b)
    ensures var i := FirstMiddle(0, |q| - 1, a, b); Pushed(cmp, q, x) == q[..i] + [x] + q[i..]
    ensures a == 0 && b == |q| - 1 ==>
      var i := (|q| - 1) / 2; Pushed(cmp, q, x) == q[..i] + [x] + q[i..]
  {
    SearchHits(cmp, x, q, a, b);
  }

  /** On a sorted queue every call does exactly that. */
  lemma StepAsAsked<T(!new)>(cmp: (T, T) -> CompResult, eq: (T, T) -> bool, q: seq<T>, c: Call<T>)
    requires TotalPreorder(cmp) && Sorted(cmp, q) && Allowed(q, c)
    ensures Asked(cmp, eq, q, c, Step(cmp, eq, q, c))
  {
    match c
    case DoPush(x) => PushedBeside(cmp, q, x);
    case DoPop =>
      assert cmp(q[0], q[0]) == Equal;
      forall y | y in q ensures AtMost(cmp, q[0], y) {
        var i :| 0 <= i < |q| && q[i] == y;
        assert i == 0 || AtMost(cmp, q[0], q[i]);
      }
    case DoErase(x) =>
      var i := Matched(eq, q, x);
      assert i < |q| ==> FirstMatch(eq, q, x, i);
  }

  /** One call on the class does what Step says. */
  method Perform<T(!new)>(t: ThreadSafePQueue<T>, c: Call<T>) returns (taken: seq<T>)
    requires t.Valid() && Allowed(t.queue, c)
    modifies t
    ensures t.Valid() && Trace(t.queue, taken) == Step(t.cmp, t.eq, old(t.queue), c)
  {
    match c {
      case DoPush(x) =>
        t.Push(x);
        taken := [];
      case DoPop =>
        var front := t.Front();
        t.Pop();
        taken := [front];
      case DoErase(x) =>
        var i := Matched(t.eq, t.queue, x);
        taken := if i < |t.queue| then [t.queue[i]] else [];
        var erased := t.Erase(x);
    }
  }

  /** A whole run; None when it pops an empty queue. */
  function Run<T>(
    cmp: (T, T) -> CompResult, eq: (T, T) -> bool, q: seq<T>, calls: seq<Call<T>>): Option<Trace<T>>
    decreases calls
  {
    if calls == [] then Some(Trace(q, []))
    else if !Allowed(q, calls[0]) then None
    else
      var step := Step(cmp, eq, q, calls[0]);
      match Run(cmp, eq, step.queue, calls[1..])
      case None => None
      case Some(rest) => Some(Trace(rest.queue, step.taken + rest.taken))
  }

  ghost predicate AskedAll<T(!new)>(
    cmp: (T, T) -> CompResult, eq: (T, T) -> bool, q: seq<T>, calls: seq<Call<T>>, end: Trace<T>)
    decreases calls
  {
    if calls == [] then end == Trace(q, [])
    else exists t ::
      && Asked(cmp, eq, q, calls[0], t) && t.taken <= end.taken
      && AskedAll(cmp, eq, t.queue, calls[1..], Trace(end.queue, end.taken[|t.taken|..]))
  }

  /** On a sorted queue every run does call by call what is asked, and keeps the queue sorted. */
  lemma {:induction false} RunAsAsked<T(!new)>(
    cmp: (T, T) -> CompResult, eq: (T, T) -> bool, q: seq<T>, calls: seq<Call<T>>)
    requires TotalPreorder(cmp) && Sorted(cmp, q) && Run(cmp, eq, q, calls).Some?
    ensures AskedAll(cmp, eq, q, calls, Run(cmp, eq, q, calls).value)
    decreases calls
  {
    hide Asked, Step;
    if calls != [] {
      var step := Step(cmp, eq, q, calls[0]);
      var rest := Run(cmp, eq, step.queue, calls[1..]).value;
      StepAsAsked(cmp, eq, q, calls[0]);
      StepKeepsSorted(cmp, eq, q, calls[0]);
      RunAsAsked(cmp, eq, step.queue, calls[1..]);
      assert (step.taken + rest.taken)[|step.taken|..] == rest.taken;
      assert Asked(cmp, eq, q, calls[0], step);
    }
  }

  /** A whole run on the class is the run of Step. */
  method PerformAll<T(!new)>(t: ThreadSafePQueue<T>, calls: seq<Call<T>>) returns (taken: seq<T>)
    requires t.Valid() && Run(t.cmp, t.eq, t.queue, calls).Some?
    modifies t
    ensures t.Valid() && Run(t.cmp, t.eq, old(t.queue), calls) == Some(Trace(t.queue, taken))
  {
    hide Step;
    taken := [];
    ghost var all := Run(t.cmp, t.eq, t.queue, calls).value;
    assert calls[0..] == calls && [] + all.taken == all.taken;
    for i := 0 to |calls|
      invariant t.Valid() && Run(t.cmp, t.eq, t.queue, calls[i..]).Some?
      invariant var rest := Run(t.cmp, t.eq, t.queue, calls[i..]).value;
        Run(t.cmp, t.eq, old(t.queue), calls) == Some(Trace(rest.queue, taken + rest.taken))
    {
      assert calls[i..][1..] == calls[i + 1..];
      var out := Perform(t, calls[i]);
      ghost var rest := Run(t.cmp, t.eq, t.queue, calls[i + 1..]).value;
      assert taken + (out + rest.taken) == (taken + out) + rest.taken;
      taken := taken + out;
    }
    assert calls[|calls|..] == [] && taken + [] == taken;
  }

  function PushedBy<T>(calls: seq<Call<T>>): seq<T> {
    if calls == [] then []
    else (if calls[0].DoPush? then [calls[0].data] else []) + PushedBy(calls[1..])
  }

  /** Every run keeps the queue sorted. */
  lemma {:induction false} RunKeepsSorted<T(!new)>(
    cmp: (T, T) -> CompResult, eq: (T, T) -> bool, q: seq<T>, calls: seq<Call<T>>)
    requires TotalPreorder(cmp) && Sorted(cmp, q)
    requires Run(cmp, eq, q, calls).Some?
    ensures Sorted(cmp, Run(cmp, eq, q, calls).value.queue)
    decreases calls
  {
    if calls != [] {
      StepKeepsSorted(cmp, eq, q, calls[0]);
      RunKeepsSorted(cmp, eq, Step(cmp, eq, q, calls[0]).queue, calls[1..]);
    }
  }

  /** No run loses or invents an item. */
  lemma {:induction false} RunConserves<T>(
    cmp: (T, T) -> CompResult, eq: (T, T) -> bool, q: seq<T>, calls: seq<Call<T>>)
    requires Run(cmp, eq, q, calls).Some?
    ensures var end := Run(cmp, eq, q, calls).value;
      multiset(end.queue) + multiset(end.taken) == multiset(q) + multiset(PushedBy(calls))
    decreases calls
  {
    if calls != [] {
      var step := Step(cmp, eq, q, calls[0]);
      var rest := Run(cmp, eq, step.queue, calls[1..]).value;
      StepConserves(cmp, eq, q, calls[0]);
      RunConserves(cmp, eq, step.queue, calls[1..]);
      var pushed := if calls[0].DoPush? then [calls[0].data] else [];
      assert PushedBy(calls) == pushed + PushedBy(calls[1..]);
      SumUp(q, step.queue, rest.queue, step.taken, rest.taken, pushed, PushedBy(calls[1..]));
    }
  }

  lemma StepKeepsSorted<T(!new)>(
    cmp: (T, T) -> CompResult, eq: (T, T) -> bool, q: seq<T>, c: Call<T>)
    requires TotalPreorder(cmp) && Sorted(cmp, q)
    requires Allowed(q, c)
    ensures Sorted(cmp, Step(cmp, eq, q, c).queue)
  {
    match c
    case DoPush(x) => InsertKeepsSorted(cmp, x, q);
    case DoPop =>
    case DoErase(x) => ErasedKeepsSorted(cmp, eq, q, x);
  }

  lemma StepConserves<T>(
    cmp: (T, T) -> CompResult, eq: (T, T) -> bool, q: seq<T>, c: Call<T>)
    requires Allowed(q, c)
    ensures var step := Step(cmp, eq, q, c);
      multiset(step.queue) + multiset(step.taken)
      == multiset(q) + multiset(if c.DoPush? then [c.data] else [])
  {
    match c
    case DoPush(x) => PushedAdds(cmp, q, x);
    case DoPop => assert q == [q[0]] + q[1..];
    case DoErase(x) =>
      var i := Matched(eq, q, x);
      if i < |q| {
        TakenOut(q, i);
      }
  }

  function Pushes<T>(xs: seq<T>): seq<Call<T>> {
    if xs == [] then [] else [DoPush(xs[0])] + Pushes(xs[1..])
  }

  function Pops<T>(n: nat): seq<Call<T>> {
    if n == 0 then [] else [DoPop] + Pops(n - 1)
  }

  lemma {:induction false} PopsTakeAll<T>(
    cmp: (T, T) -> CompResult, eq: (T, T) -> bool, q: seq<T>)
    ensures Run(cmp, eq, q, Pops(|q|)) == Some(Trace([], q))
  {
    if q != [] {
      assert Pops<T>(|q|)[1..] == Pops<T>(|q| - 1);
      PopsTakeAll(cmp, eq, q[1..]);
      assert q == [q[0]] + q[1..];
    }
  }

  /** What PushAll leaves in the queue. */
  function AllPushed<T>(cmp: (T, T) -> CompResult, q: seq<T>, xs: seq<T>): (r: seq<T>)
    ensures |r| == |q| + |xs|
    decreases xs
  {
    if xs == [] then q else AllPushed(cmp, Pushed(cmp, q, xs[0]), xs[1..])
  }

  lemma {:induction false} AllPushedSorted<T(!new)>(cmp: (T, T) -> CompResult, q: seq<T>, xs: seq<T>)
    requires TotalPreorder(cmp) && Sorted(cmp, q)
    ensures Sorted(cmp, AllPushed(cmp, q, xs))
    ensures multiset(AllPushed(cmp, q, xs)) == multiset(q) + multiset(xs)
    decreases xs
  {
    if xs != [] {
      InsertKeepsSorted(cmp, xs[0], q);
      PushedAdds(cmp, q, xs[0]);
      AllPushedSorted(cmp, Pushed(cmp, q, xs[0]), xs[1..]);
      assert xs == [xs[0]] + xs[1..];
    }
  }

  lemma {:induction false} PushesThen<T>(
    cmp: (T, T) -> CompResult, eq: (T, T) -> bool, q: seq<T>, xs: seq<T>, more: seq<Call<T>>)
    ensures Run(cmp, eq, q, Pushes(xs) + more) == Run(cmp, eq, AllPushed(cmp, q, xs), more)
    decreases xs
  {
    if xs == [] {
      assert Pushes(xs) + more == more;
    } else {
      var calls := Pushes(xs) + more;
      var next := Pushed(cmp, q, xs[0]);
      assert calls[1..] == Pushes(xs[1..]) + more;
      PushesThen(cmp, eq, next, xs[1..], more);
      assert Step(cmp, eq, q, calls[0]) == Trace(next, []);
      assert Run(cmp, eq, next, calls[1..]).Some? ==>
        [] + Run(cmp, eq, next, calls[1..]).value.taken == Run(cmp, eq, next, calls[1..]).value.taken;
    }
  }

  /** Pushing any list into a queue and popping it all takes out, in sorted order, exactly what
      was in the queue and the list. */
  lemma PushAllPopAllSorts<T(!new)>(
    cmp: (T, T) -> CompResult, eq: (T, T) -> bool, q: seq<T>, xs: seq<T>)
    requires TotalPreorder(cmp) && Sorted(cmp, q)
    ensures var end := Run(cmp, eq, q, Pushes(xs) + Pops(|q| + |xs|));
      && end.Some? && end.value.queue == []
      && Sorted(cmp, end.value.taken)
      && multiset(end.value.taken) == multiset(q) + multiset(xs)
  {
    hide Run, AllPushed, Pushes, Pops;
    PushesThen(cmp, eq, q, xs, Pops(|q| + |xs|));
    PopsTakeAll(cmp, eq, AllPushed(cmp, q, xs));
    AllPushedSorted(cmp, q, xs);
  }
}
