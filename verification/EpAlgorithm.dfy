/** Comparison results and comparators (epAlgorithm.h). */
module EpAlgorithm {

  datatype Option<+T> = None | Some(value: T)

  datatype CompResult = LessThan | Equal | GreaterThan {
    function Flip(): CompResult {
      match this
      case LessThan => GreaterThan
      case Equal => Equal
      case GreaterThan => LessThan
    }
  }

  /** What every algorithm here asks of its compare function: a total preorder.
      Two different values may compare equal. */
  ghost predicate TotalPreorder<T(!new)>(cmp: (T, T) -> CompResult) {
    && (forall a, b :: cmp(a, b) == cmp(b, a).Flip())
    && (forall a, b, c ::
          cmp(a, b) != GreaterThan && cmp(b, c) != GreaterThan ==> cmp(a, c) != GreaterThan)
  }

  /** Values that compare equal are one value. */
  ghost predicate Antisymmetric<T(!new)>(cmp: (T, T) -> CompResult) {
    forall a, b :: cmp(a, b) == Equal ==> a == b
  }

  predicate AtMost<T>(cmp: (T, T) -> CompResult, a: T, b: T) {
    cmp(a, b) != GreaterThan
  }

  ghost predicate Sorted<T>(cmp: (T, T) -> CompResult, s: seq<T>) {
    forall i, j :: 0 <= i < j < |s| ==> AtMost(cmp, s[i], s[j])
  }

  /** The default compare function, on an ordered scalar type. */
  function CompFunc(a: int, b: int): CompResult {
    if a == b then Equal else if a > b then GreaterThan else LessThan
  }

  /** The elements of s in the class of x, in the order they stand in s. */
  function Class<T>(cmp: (T, T) -> CompResult, x: T, s: seq<T>): (r: seq<T>)
    ensures |r| <= |s|
  {
    if s == [] then []
    else if cmp(x, s[0]) == Equal then [s[0]] + Class(cmp, x, s[1..])
    else Class(cmp, x, s[1..])
  }

  /** What SwapFunc makes of a list. */
  function Swapped<T>(s: seq<T>, i: nat, j: nat): (r: seq<T>)
    requires i < |s| && j < |s|
    ensures |r| == |s|
  {
    s[i := s[j]][j := s[i]]
  }

  lemma SwappedPermutes<T>(s: seq<T>, i: nat, j: nat)
    requires i < |s| && j < |s|
    ensures multiset(Swapped(s, i, j)) == multiset(s)
  {
  }

  function Reverse<T>(s: seq<T>): (r: seq<T>)
    ensures |r| == |s|
  {
    if s == [] then [] else Reverse(s[1..]) + [s[0]]
  }

  lemma {:induction false} ReverseAppend<T>(a: seq<T>, b: seq<T>)
    ensures Reverse(a + b) == Reverse(b) + Reverse(a)
  {
    if a == [] {
      assert a + b == b;
    } else {
      assert (a + b)[1..] == a[1..] + b;
      ReverseAppend(a[1..], b);
    }
  }

  lemma {:induction false} ReverseAt<T>(s: seq<T>, i: nat)
    requires i < |s|
    ensures Reverse(s)[i] == s[|s| - 1 - i]
  {
    if i < |s| - 1 {
      ReverseAt(s[1..], i);
    }
  }

  lemma {:induction false} ClassAppend<T>(cmp: (T, T) -> CompResult, x: T, a: seq<T>, b: seq<T>)
    ensures Class(cmp, x, a + b) == Class(cmp, x, a) + Class(cmp, x, b)
  {
    if a == [] {
      assert a + b == b;
    } else {
      assert (a + b)[1..] == a[1..] + b;
      ClassAppend(cmp, x, a[1..], b);
    }
  }

  lemma {:induction false} ClassReverse<T>(cmp: (T, T) -> CompResult, x: T, s: seq<T>)
    ensures Class(cmp, x, Reverse(s)) == Reverse(Class(cmp, x, s))
  {
    if s != [] {
      ClassReverse(cmp, x, s[1..]);
      ClassAppend(cmp, x, Reverse(s[1..]), [s[0]]);
    }
  }

  lemma {:induction false} ClassMember<T(!new)>(cmp: (T, T) -> CompResult, x: T, s: seq<T>, i: nat)
    requires i < |Class(cmp, x, s)|
    ensures Class(cmp, x, s)[i] in s && cmp(x, Class(cmp, x, s)[i]) == Equal
  {
    if cmp(x, s[0]) == Equal {
      if i > 0 {
        ClassMember(cmp, x, s[1..], i - 1);
      }
    } else {
      ClassMember(cmp, x, s[1..], i);
    }
  }

  /** A class that no element of s belongs to is empty. */
  lemma {:induction false} ClassEmpty<T>(cmp: (T, T) -> CompResult, x: T, s: seq<T>)
    requires forall i :: 0 <= i < |s| ==> cmp(x, s[i]) != Equal
    ensures Class(cmp, x, s) == []
  {
    if s != [] {
      ClassEmpty(cmp, x, s[1..]);
    }
  }

  /** A sorted list is determined by its classes: sortedness and the order inside each class
      of equal elements leave exactly one list. */
  lemma {:induction false} SortedClassesUnique<T(!new)>(cmp: (T, T) -> CompResult, a: seq<T>, b: seq<T>)
    requires TotalPreorder(cmp)
    requires Sorted(cmp, a) && Sorted(cmp, b)
    requires forall x :: Class(cmp, x, a) == Class(cmp, x, b)
    ensures a == b
  {
    SortedMatch(cmp, a, b);
    if a != [] {
      assert cmp(a[0], a[0]) == Equal && cmp(a[0], b[0]) == Equal;
      assert Class(cmp, a[0], a)[0] == a[0] && Class(cmp, a[0], b)[0] == b[0];
      forall x ensures Class(cmp, x, a[1..]) == Class(cmp, x, b[1..]) {
        assert Class(cmp, x, a) == Class(cmp, x, b);
        if cmp(x, a[0]) == Equal {
          assert Class(cmp, x, a[1..]) == Class(cmp, x, a)[1..];
          assert Class(cmp, x, b[1..]) == Class(cmp, x, b)[1..];
        }
      }
      SortedClassesUnique(cmp, a[1..], b[1..]);
    }
  }

  lemma {:induction false} ClassCount<T(!new)>(cmp: (T, T) -> CompResult, x: T, s: seq<T>)
    requires TotalPreorder(cmp)
    ensures multiset(s)[x] == multiset(Class(cmp, x, s))[x]
  {
    assert cmp(x, x) == Equal;
    if s != [] {
      ClassCount(cmp, x, s[1..]);
      assert s == [s[0]] + s[1..];
    }
  }

  /** Lists with the same classes are permutations of each other. */
  lemma ClassesPermute<T(!new)>(cmp: (T, T) -> CompResult, a: seq<T>, b: seq<T>)
    requires TotalPreorder(cmp)
    requires forall x :: multiset(Class(cmp, x, a)) == multiset(Class(cmp, x, b))
    ensures multiset(a) == multiset(b)
  {
    forall x ensures multiset(a)[x] == multiset(b)[x] {
      ClassCount(cmp, x, a);
      ClassCount(cmp, x, b);
      assert multiset(Class(cmp, x, a)) == multiset(Class(cmp, x, b));
    }
  }

  /** Different elements of the list never compare equal. */
  ghost predicate NoTies<T>(cmp: (T, T) -> CompResult, s: seq<T>) {
    forall x, y :: x in s && y in s && cmp(x, y) == Equal ==> x == y
  }

  lemma {:induction false} CountInClass<T(!new)>(cmp: (T, T) -> CompResult, x: T, v: T, s: seq<T>)
    requires cmp(x, v) == Equal
    ensures multiset(Class(cmp, x, s))[v] == multiset(s)[v]
  {
    if s != [] {
      CountInClass(cmp, x, v, s[1..]);
      assert s == [s[0]] + s[1..];
    }
  }

  lemma {:induction false} ConstantCount<T>(s: seq<T>, v: T)
    requires forall i :: 0 <= i < |s| ==> s[i] == v
    ensures multiset(s)[v] == |s|
  {
    if s != [] {
      ConstantCount(s[1..], v);
      assert s == [s[0]] + s[1..];
    }
  }

  lemma ClassConstant<T(!new)>(cmp: (T, T) -> CompResult, x: T, v: T, s: seq<T>)
    requires TotalPreorder(cmp) && NoTies(cmp, s)
    requires v in s && cmp(x, v) == Equal
    ensures |Class(cmp, x, s)| == multiset(s)[v]
    ensures forall i :: 0 <= i < |Class(cmp, x, s)| ==> Class(cmp, x, s)[i] == v
  {
    forall i | 0 <= i < |Class(cmp, x, s)| ensures Class(cmp, x, s)[i] == v {
      ClassMember(cmp, x, s, i);
      var y := Class(cmp, x, s)[i];
      assert cmp(x, v) == cmp(v, x).Flip() && cmp(v, y) == cmp(y, v).Flip() && cmp(x, y) == cmp(y, x).Flip();
    }
    ConstantCount(Class(cmp, x, s), v);
    CountInClass(cmp, x, v, s);
  }

  lemma SameClass<T(!new)>(cmp: (T, T) -> CompResult, x: T, a: seq<T>, b: seq<T>)
    requires TotalPreorder(cmp) && NoTies(cmp, a) && NoTies(cmp, b) && multiset(a) == multiset(b)
    ensures Class(cmp, x, a) == Class(cmp, x, b)
  {
    if v :| v in a && cmp(x, v) == Equal {
      assert v in multiset(b);
      ClassConstant(cmp, x, v, a);
      ClassConstant(cmp, x, v, b);
    } else {
      forall i | 0 <= i < |b| ensures cmp(x, b[i]) != Equal {
        assert b[i] in multiset(a);
      }
      ClassEmpty(cmp, x, a);
      ClassEmpty(cmp, x, b);
    }
  }

  lemma NoTiesPermuted<T>(cmp: (T, T) -> CompResult, s: seq<T>, r: seq<T>)
    requires NoTies(cmp, s) && multiset(r) == multiset(s)
    ensures NoTies(cmp, r)
  {
    forall x, y | x in r && y in r && cmp(x, y) == Equal ensures x == y {
      assert x in multiset(s) && y in multiset(s);
    }
  }

  /** Without ties there is one sorted permutation. */
  lemma SortedPermutationUnique<T(!new)>(cmp: (T, T) -> CompResult, a: seq<T>, b: seq<T>)
    requires TotalPreorder(cmp) && NoTies(cmp, a) && multiset(a) == multiset(b)
    requires Sorted(cmp, a) && Sorted(cmp, b)
    ensures a == b
  {
    NoTiesPermuted(cmp, a, b);
    forall x ensures Class(cmp, x, a) == Class(cmp, x, b) {
      SameClass(cmp, x, a, b);
    }
    SortedClassesUnique(cmp, a, b);
  }

  lemma {:induction false} ReversePermutes<T>(s: seq<T>)
    ensures multiset(Reverse(s)) == multiset(s)
  {
    if s != [] {
      ReversePermutes(s[1..]);
      assert s == [s[0]] + s[1..];
    }
  }

  function Without<T>(s: seq<T>, i: nat): (r: seq<T>)
    requires i < |s|
    ensures |r| == |s| - 1
  {
    s[..i] + s[i + 1..]
  }

  lemma TakenOut<T>(s: seq<T>, i: nat)
    requires i < |s|
    ensures multiset(Without(s, i)) == multiset(s) - multiset{s[i]}
    ensures multiset(s) == multiset(Without(s, i)) + multiset{s[i]}
  {
    assert s == s[..i] + [s[i]] + s[i + 1..];
  }

  function Mapped<A, B>(f: A -> B, s: seq<A>): (r: seq<B>)
    ensures |r| == |s|
  {
    seq(|s|, i requires 0 <= i < |s| => f(s[i]))
  }

  function Copies<T>(a: T, n: nat): (r: seq<T>)
    ensures |r| == n && forall i :: 0 <= i < n ==> r[i] == a
  {
    seq(n, _ => a)
  }

  /** Permuting a list permutes its image. */
  lemma {:induction false} MappedPermutes<A, B>(f: A -> B, a: seq<A>, b: seq<A>)
    requires multiset(a) == multiset(b)
    ensures multiset(Mapped(f, a)) == multiset(Mapped(f, b))
    decreases |a|
  {
    if a == [] {
      assert |b| == |multiset(b)|;
    } else {
      assert a[0] in multiset(b);
      var j :| 0 <= j < |b| && b[j] == a[0];
      var x, y := Mapped(f, a), Mapped(f, b);
      TakenOut(a, 0);
      TakenOut(b, j);
      MappedPermutes(f, Without(a, 0), Without(b, j));
      assert Mapped(f, Without(a, 0)) == Without(x, 0) && Mapped(f, Without(b, j)) == Without(y, j);
      TakenOut(x, 0);
      TakenOut(y, j);
    }
  }

  /** Two balanced steps after each other are balanced. */
  lemma SumUp<T>(q: seq<T>, mid: seq<T>, end: seq<T>, out1: seq<T>, out2: seq<T>, in1: seq<T>, in2: seq<T>)
    requires multiset(mid) + multiset(out1) == multiset(q) + multiset(in1)
    requires multiset(end) + multiset(out2) == multiset(mid) + multiset(in2)
    ensures multiset(end) + multiset(out1 + out2) == multiset(q) + multiset(in1 + in2)
  {
    forall x ensures (multiset(end) + multiset(out1 + out2))[x] == (multiset(q) + multiset(in1 + in2))[x] {
      assert (multiset(mid) + multiset(out1))[x] == (multiset(q) + multiset(in1))[x];
      assert (multiset(end) + multiset(out2))[x] == (multiset(mid) + multiset(in2))[x];
    }
  }

  /** A class has the same size in every permutation of a list. */
  lemma ClassSize<T(!new)>(cmp: (T, T) -> CompResult, x: T, a: seq<T>, b: seq<T>)
    requires multiset(a) == multiset(b)
    ensures |Class(cmp, x, a)| == |Class(cmp, x, b)|
  {
    var c, d := Class(cmp, x, a), Class(cmp, x, b);
    forall v ensures multiset(c)[v] == multiset(d)[v] {
      if cmp(x, v) == Equal {
        CountInClass(cmp, x, v, a);
        CountInClass(cmp, x, v, b);
      } else {
        NotInClass(cmp, x, v, a);
        NotInClass(cmp, x, v, b);
      }
    }
    assert multiset(c) == multiset(d) && |c| == |multiset(c)| && |d| == |multiset(d)|;
  }

  lemma NotInClass<T(!new)>(cmp: (T, T) -> CompResult, x: T, v: T, s: seq<T>)
    requires cmp(x, v) != Equal
    ensures multiset(Class(cmp, x, s))[v] == 0
  {
    if v in Class(cmp, x, s) {
      var i :| 0 <= i < |Class(cmp, x, s)| && Class(cmp, x, s)[i] == v;
      ClassMember(cmp, x, s, i);
    }
  }

  /** Sorted lists whose classes have the same sizes agree in every position up to the comparator. */
  lemma {:induction false} SortedMatch<T(!new)>(cmp: (T, T) -> CompResult, a: seq<T>, b: seq<T>)
    requires TotalPreorder(cmp) && Sorted(cmp, a) && Sorted(cmp, b)
    requires forall x :: |Class(cmp, x, a)| == |Class(cmp, x, b)|
    ensures |a| == |b| && forall i :: 0 <= i < |a| ==> cmp(a[i], b[i]) == Equal
  {
    if a != [] {
      FirstNotAbove(cmp, b, a);
    }
    if b != [] {
      FirstNotAbove(cmp, a, b);
    }
    if a != [] {
      assert cmp(a[0], b[0]) == cmp(b[0], a[0]).Flip();
      forall x ensures |Class(cmp, x, a[1..])| == |Class(cmp, x, b[1..])| {
        assert |Class(cmp, x, a)| == |Class(cmp, x, b)|;
        SameClassMember(cmp, x, a[0], b[0]);
      }
      SortedMatch(cmp, a[1..], b[1..]);
    }
  }

  lemma SameClassMember<T(!new)>(cmp: (T, T) -> CompResult, x: T, a: T, b: T)
    requires TotalPreorder(cmp) && cmp(a, b) == Equal
    ensures cmp(x, a) == Equal <==> cmp(x, b) == Equal
  {
    assert cmp(a, b) == cmp(b, a).Flip() && cmp(x, a) == cmp(a, x).Flip() && cmp(x, b) == cmp(b, x).Flip();
  }

  /** The first element of a has a counterpart in b, so b's first is not above it. */
  lemma FirstNotAbove<T(!new)>(cmp: (T, T) -> CompResult, b: seq<T>, a: seq<T>)
    requires TotalPreorder(cmp) && Sorted(cmp, b)
    requires a != [] && |Class(cmp, a[0], a)| == |Class(cmp, a[0], b)|
    ensures b != [] && AtMost(cmp, b[0], a[0])
  {
    assert cmp(a[0], a[0]) == Equal;
    ClassMember(cmp, a[0], b, 0);
    var y := Class(cmp, a[0], b)[0];
    var i :| 0 <= i < |b| && b[i] == y;
    assert cmp(b[0], b[0]) == Equal && cmp(a[0], y) == cmp(y, a[0]).Flip();
    assert i == 0 || AtMost(cmp, b[0], b[i]);
  }

  lemma CompFuncTotal()
    ensures TotalPreorder(CompFunc) && Antisymmetric(CompFunc)
  {
  }
}
