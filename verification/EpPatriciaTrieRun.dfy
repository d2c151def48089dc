/** Whole runs of a Patricia trie (epPatriciaTrie.h) against the map it stands for. */
module EpPatriciaTrieRun {
  import opened EpAlgorithm
  import opened EpPatriciaTrieSpec
  import opened EpPatriciaTrie

  /** One call. Assign is operator[] with a value written through the returned reference; list is what
      stands in FindAll's output list before the call. */
  datatype Call<C, D> =
    | Insert(str: Option<seq<C>>, data: D)
    | Erase(str: Option<seq<C>>)
    | Find(str: Option<seq<C>>, data: D)
    | FindAll(str: Option<seq<C>>, list: seq<(seq<C>, D)>)
    | Assign(text: seq<C>, data: D)
    | Clear
    | IsEmpty
    | Size

  datatype Outcome<C, D> =
    | Flag(r: bool) | Data(r: bool, data: D) | Listing(r: bool, list: seq<(seq<C>, D)>) | Count(n: int) | Nothing

  type Entries<C, D> = map<Path, (seq<C>, D)>

  ghost predicate CallOk<C, D>(rank: C -> int, terminator: C, call: Call<C, D>) {
    match call
    case Insert(str, _) => str != None ==> Terminated(rank, terminator, str.value)
    case Erase(str) => str != None ==> Terminated(rank, terminator, str.value)
    case Find(str, _) => str != None ==> Terminated(rank, terminator, str.value)
    case FindAll(str, _) => str != None ==> Terminated(rank, terminator, str.value)
    case Assign(text, _) => Terminated(rank, terminator, text)
    case Clear => true
    case IsEmpty => true
    case Size => true
  }

  /** What the call makes of a map from strings to data. NULL strings do nothing. */
  ghost function Next<C, D>(rank: C -> int, terminator: C, m: Entries<C, D>, call: Call<C, D>): Entries<C, D>
    requires CallOk(rank, terminator, call)
  {
    match call
    case Insert(Some(s), data) =>
      var k := Ranks(rank, s);
      if k in m then m else m[k := (s[..|s| - 1] + [terminator], data)]
    case Erase(Some(s)) => m - {Ranks(rank, s)}
    case Assign(s, data) =>
      var k := Ranks(rank, s);
      m[k := (if k in m then m[k].0 else s[..|s| - 1] + [terminator], data)]
    case Clear => map[]
    case _ => m
  }

  /** now is list, and behind it the part of the map below the query s in the order of the trie's mode. */
  ghost predicate Finds<C(!new), D(!new)>(
    rank: C -> int, terminator: C, mode: PatriciaTrieMode, m: Entries<C, D>, s: seq<C>,
    list: seq<(seq<C>, D)>, now: seq<(seq<C>, D)>)
    requires Terminated(rank, terminator, s)
  {
    && list <= now
    && Lists(Query(|s| - 1, rank(terminator), mode == Recursive), EntryKey(rank), now[|list|..],
             Under(m, Ranks(rank, s)[..|s| - 1]))
  }

  lemma FindsUnique<C(!new), D(!new)>(
    rank: C -> int, terminator: C, mode: PatriciaTrieMode, m: Entries<C, D>, s: seq<C>,
    list: seq<(seq<C>, D)>, a: seq<(seq<C>, D)>, b: seq<(seq<C>, D)>)
    requires Terminated(rank, terminator, s)
    requires Finds(rank, terminator, mode, m, s, list, a) && Finds(rank, terminator, mode, m, s, list, b)
    ensures a == b
  {
    hide Lists, Under;
    var n := |list|;
    ListingUnique(Query(|s| - 1, rank(terminator), mode == Recursive), EntryKey(rank), a[n..], b[n..],
                  Under(m, Ranks(rank, s)[..|s| - 1]));
    assert a == list + a[n..] && b == list + b[n..];
  }

  /** What the call returns on the map. FindAll's true means that the list is not empty. */
  ghost predicate Answers<C(!new), D(!new)>(
    rank: C -> int, terminator: C, mode: PatriciaTrieMode, m: Entries<C, D>, call: Call<C, D>, out: Outcome<C, D>)
    requires CallOk(rank, terminator, call)
  {
    match call
    case Insert(str, _) => out == Flag(str != None && Ranks(rank, str.value) !in m)
    case Erase(str) => out == Flag(str != None && Ranks(rank, str.value) in m)
    case Find(str, data) =>
      out == if str != None && Ranks(rank, str.value) in m then Data(true, m[Ranks(rank, str.value)].1)
             else Data(false, data)
    case FindAll(None, list) => out == Listing(false, list)
    case FindAll(Some(s), list) =>
      out.Listing? && (out.r <==> out.list != []) && Finds(rank, terminator, mode, m, s, list, out.list)
    case Assign(_, _) => out == Nothing
    case Clear => out == Nothing
    case IsEmpty => out == Flag(m != map[])
    case Size => out == Count(|m|)
  }

  /** A call has one answer. */
  lemma AnswerUnique<C(!new), D(!new)>(
    rank: C -> int, terminator: C, mode: PatriciaTrieMode, m: Entries<C, D>, call: Call<C, D>,
    out: Outcome<C, D>, out': Outcome<C, D>)
    requires CallOk(rank, terminator, call)
    requires Answers(rank, terminator, mode, m, call, out) && Answers(rank, terminator, mode, m, call, out')
    ensures out == out'
  {
    hide Finds;
    if call.FindAll? && call.str != None {
      FindsUnique(rank, terminator, mode, m, call.str.value, call.list, out.list, out'.list);
    }
  }

  ghost predicate CallsOk<C, D>(rank: C -> int, terminator: C, calls: seq<Call<C, D>>) {
    forall i :: 0 <= i < |calls| ==> CallOk(rank, terminator, calls[i])
  }

  ghost function NextAll<C, D>(
    rank: C -> int, terminator: C, m: Entries<C, D>, calls: seq<Call<C, D>>): Entries<C, D>
    requires CallsOk(rank, terminator, calls)
  {
    if calls == [] then m
    else Next(rank, terminator, NextAll(rank, terminator, m, calls[..|calls| - 1]), calls[|calls| - 1])
  }

  ghost predicate AnswersAll<C(!new), D(!new)>(
    rank: C -> int, terminator: C, mode: PatriciaTrieMode, m: Entries<C, D>, calls: seq<Call<C, D>>,
    outs: seq<Outcome<C, D>>)
    requires CallsOk(rank, terminator, calls)
  {
    && |outs| == |calls|
    && forall i :: 0 <= i < |calls| ==>
         Answers(rank, terminator, mode, NextAll(rank, terminator, m, calls[..i]), calls[i], outs[i])
  }

  /** A run has one list of answers. */
  lemma AnswersAllUnique<C(!new), D(!new)>(
    rank: C -> int, terminator: C, mode: PatriciaTrieMode, m: Entries<C, D>, calls: seq<Call<C, D>>,
    outs: seq<Outcome<C, D>>, outs': seq<Outcome<C, D>>)
    requires CallsOk(rank, terminator, calls)
    requires AnswersAll(rank, terminator, mode, m, calls, outs) && AnswersAll(rank, terminator, mode, m, calls, outs')
    ensures outs == outs'
  {
    hide Answers, NextAll, CallOk;
    forall i | 0 <= i < |calls| ensures outs[i] == outs'[i] {
      AnswerUnique(rank, terminator, mode, NextAll(rank, terminator, m, calls[..i]), calls[i], outs[i], outs'[i]);
    }
  }

  /** One call on a trie does to its dictionary, and returns, what the call on the map does and returns. */
  method Perform<C(!new), D(0,!new)>(t: PatriciaTrie<C, D>, call: Call<C, D>, defaultData: D)
    returns (out: Outcome<C, D>)
    requires t.Valid() && CallOk(t.rank, t.terminator, call)
    modifies t`root, t`at, t`repr, t`totalCount, t.repr`charList, t.repr`data
    ensures t.Valid() && fresh(t.repr - old(t.repr))
    ensures t.Dict() == Next(t.rank, t.terminator, old(t.Dict()), call)
    ensures Answers(t.rank, t.terminator, t.mode, old(t.Dict()), call, out)
  {
    hide PatriciaTrie.Valid, PatriciaTrie.Linked, PatriciaTrie.Dict, PatriciaTrie.Shape, Lists, Under;
    if call.Insert? {
      var r := t.Insert(call.str, call.data);
      out := Flag(r);
    } else if call.Erase? {
      ghost var m := t.Dict();
      var r := t.Erase(call.str);
      assert call.str != None && !r ==> m - {t.Key(call.str.value)} == m;
      out := Flag(r);
    } else if call.Find? {
      var r, data := t.Find(call.str, call.data);
      out := Data(r, data);
    } else if call.FindAll? {
      var r, list := t.FindAll(call.str, call.list);
      out := Listing(r, list);
    } else if call.Assign? {
      ghost var m, k, text := t.Dict(), t.Key(call.text), call.text[..|call.text| - 1] + [t.terminator];
      var leaf := t.Ref(call.text, defaultData);
      t.SetData(leaf, call.data);
      assert m[k := (text, defaultData)][k := (text, call.data)] == m[k := (text, call.data)];
      out := Nothing;
    } else if call.Clear? {
      t.Clear();
      out := Nothing;
    } else if call.IsEmpty? {
      var r := t.IsEmpty();
      out := Flag(r);
    } else {
      var n := t.Size();
      out := Count(n);
    }
  }

  /** Every run of calls leaves the map's entries and returns the map's answers. */
  method Run<C(!new), D(0,!new)>(
    t: PatriciaTrie<C, D>, calls: seq<Call<C, D>>, defaultData: D)
    returns (outs: seq<Outcome<C, D>>)
    requires t.Valid() && CallsOk(t.rank, t.terminator, calls)
    modifies t`root, t`at, t`repr, t`totalCount, t.repr`charList, t.repr`data
    ensures t.Valid() && fresh(t.repr - old(t.repr))
    ensures t.Dict() == NextAll(t.rank, t.terminator, old(t.Dict()), calls)
    ensures AnswersAll(t.rank, t.terminator, t.mode, old(t.Dict()), calls, outs)
  {
    hide Next, Answers, CallOk, PatriciaTrie.Valid, PatriciaTrie.Linked, PatriciaTrie.Dict, PatriciaTrie.Shape;
    outs := [];
    for i := 0 to |calls|
      invariant t.Valid() && fresh(t.repr - old(t.repr))
      invariant t.Dict() == NextAll(t.rank, t.terminator, old(t.Dict()), calls[..i])
      invariant AnswersAll(t.rank, t.terminator, t.mode, old(t.Dict()), calls[..i], outs)
    {
      var out := Perform(t, calls[i], defaultData);
      outs := outs + [out];
      assert forall j :: 0 <= j <= i ==> calls[..i + 1][..j] == calls[..j];
      assert forall j :: 0 <= j <= i ==> calls[..i][..j] == calls[..j];
    }
    assert calls[..|calls|] == calls;
  }

  /** How the answers of the two modes are related: they are the same, except that FindAll lists the
      pairs that share the character after the query in exactly reversed order. */
  ghost predicate Alike<C(!new), D(!new)>(
    rank: C -> int, call: Call<C, D>, out: Outcome<C, D>, out': Outcome<C, D>) {
    if call.FindAll? && call.str != None then
      && out.Listing? && out'.Listing? && out.r == out'.r && call.list <= out.list && call.list <= out'.list
      && FoundAlike(rank, call.str.value, out.list[|call.list|..], out'.list[|call.list|..])
    else out == out'
  }

  ghost predicate FoundAlike<C(!new), D(!new)>(
    rank: C -> int, s: seq<C>, found: seq<(seq<C>, D)>, found': seq<(seq<C>, D)>) {
    && s != [] && multiset(found') == multiset(found)
    && Nexts(EntryKey(rank), |s| - 1, found') == Nexts(EntryKey(rank), |s| - 1, found)
    && var next := NextCompare(EntryKey<C, D>(rank), |s| - 1);
       forall x :: Class(next, x, found') == Reverse(Class(next, x, found))
  }

  lemma AnswersAlike<C(!new), D(!new)>(
    rank: C -> int, terminator: C, m: Entries<C, D>, call: Call<C, D>, out: Outcome<C, D>, out': Outcome<C, D>)
    requires CallOk(rank, terminator, call)
    requires Answers(rank, terminator, Recursive, m, call, out) && Answers(rank, terminator, Loop, m, call, out')
    ensures Alike(rank, call, out, out')
  {
    hide Finds, FoundAlike;
    if call.FindAll? && call.str != None {
      FindsAlike(rank, terminator, m, call.str.value, call.list, out.list, out'.list);
    }
  }

  lemma FindsAlike<C(!new), D(!new)>(
    rank: C -> int, terminator: C, m: Entries<C, D>, s: seq<C>, list: seq<(seq<C>, D)>,
    rec: seq<(seq<C>, D)>, loop: seq<(seq<C>, D)>)
    requires Terminated(rank, terminator, s)
    requires Finds(rank, terminator, Recursive, m, s, list, rec) && Finds(rank, terminator, Loop, m, s, list, loop)
    ensures list <= rec && list <= loop && FoundAlike(rank, s, rec[|list|..], loop[|list|..])
    ensures rec == [] <==> loop == []
  {
    hide Lists, Under, Nexts, NextCompare, Class;
    var a, b := rec[|list|..], loop[|list|..];
    QueryModes(EntryKey(rank), |s| - 1, rank(terminator), a, b, Under(m, Ranks(rank, s)[..|s| - 1]));
    assert |multiset(a)| == |multiset(b)|;
  }

  /** The two modes agree on every run: like answers, the same entries, the same tree. */
  method BothModes<C(!new), D(0,!new)>(rank: C -> int, terminator: C, calls: seq<Call<C, D>>, defaultData: D)
    returns (rec: PatriciaTrie<C, D>, loop: PatriciaTrie<C, D>, outs: seq<Outcome<C, D>>, outs': seq<Outcome<C, D>>)
    requires CallsOk(rank, terminator, calls)
    ensures rec.Valid() && loop.Valid() && rec.mode == Recursive && loop.mode == Loop
    ensures rec.Dict() == loop.Dict() && rec.Shape() == loop.Shape()
    ensures |outs| == |outs'| == |calls|
    ensures forall i :: 0 <= i < |calls| ==> Alike(rank, calls[i], outs[i], outs'[i])
  {
    hide NextAll, Answers, CallOk, Alike, PatriciaTrie.Linked, PatriciaTrie.Dict, PatriciaTrie.Shape;
    rec := new PatriciaTrie(rank, terminator, Recursive);
    outs := Run(rec, calls, defaultData);
    loop := new PatriciaTrie(rank, terminator, Loop);
    outs' := Run(loop, calls, defaultData);
    SameKeysSameTree(rec, loop);
    forall i | 0 <= i < |calls| ensures Alike(rank, calls[i], outs[i], outs'[i]) {
      AnswersAlike(rank, terminator, NextAll(rank, terminator, map[], calls[..i]), calls[i], outs[i], outs'[i]);
    }
  }

  /** Inserting an absent key and erasing it again restores the tree. */
  method InsertThenErase<C(!new), D(0,!new)>(t: PatriciaTrie<C, D>, s: seq<C>, data: D)
    requires t.Valid() && t.Str(s) && t.Key(s) !in t.Dict()
    modifies t`at, t`repr, t`totalCount, t.repr`charList
    ensures t.Valid() && t.Dict() == old(t.Dict()) && t.Shape() == old(t.Shape())
  {
    hide IsTree, PatriciaTrie.Valid, PatriciaTrie.Linked, PatriciaTrie.Dict, PatriciaTrie.Shape, PatriciaTrie.Key,
        PatriciaTrie.Str;
    ghost var tr, keys, paths, shape := t.rank(t.terminator), t.Dict().Keys, t.at.Keys, t.Shape();
    t.TreeOf();
    t.StrKey(s);
    assert t.Dict()[t.Key(s) := t.Entry(s, data)] - {t.Key(s)} == t.Dict();
    var inserted := t.Insert(Some(s), data);
    var erased := t.Erase(Some(s));
    t.TreeOf();
    TreeUnique(tr, keys, paths, shape, t.at.Keys, t.Shape());
  }

  /** FindAll in the two modes on the same entries, however each trie has got them. */
  method BothFindAll<C(!new), D(0,!new)>(rec: PatriciaTrie<C, D>, loop: PatriciaTrie<C, D>, s: seq<C>)
    returns (found: seq<(seq<C>, D)>, found': seq<(seq<C>, D)>)
    requires rec.Valid() && loop.Valid() && rec.mode == Recursive && loop.mode == Loop
    requires rec.rank == loop.rank && rec.terminator == loop.terminator && rec.Dict() == loop.Dict()
    requires rec.Str(s)
    ensures FoundAlike(rec.rank, s, found, found')
  {
    hide Lists, Under, PatriciaTrie.Valid, PatriciaTrie.Linked, PatriciaTrie.Dict;
    var r, r';
    r, found := rec.FindAll(Some(s), []);
    r', found' := loop.FindAll(Some(s), []);
    assert found[0..] == found && found'[0..] == found';
    QueryModes(EntryKey(rec.rank), |s| - 1, rec.rank(rec.terminator), found, found',
               Under(rec.Dict(), rec.Key(s)[..|s| - 1]));
  }
}
