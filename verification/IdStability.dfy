/**
 What the id allocator promises: ids are never changed or reused, every listed function has one, and
 no two functions share one.
 */
module IdStability {
  import opened Options
  import opened Names
  import opened FunctionIds

  // ----- Growth: what an update leaves alone -----

  /** Functions are only added at the end, and only under names that were not there. */
  ghost predicate GrownFunctions(before: seq<FunctionEntry>, after: seq<FunctionEntry>) {
    && before <= after
    && forall i :: |before| <= i < |after| ==> !Has(before, after[i].name)
  }

  ghost predicate Grown(before: IdFile, after: IdFile) {
    && |before| <= |after|
    && forall k :: 0 <= k < |before| ==> GrownEntry(before[k], after[k])
  }

  ghost predicate GrownEntry(before: ExtensionEntry, after: ExtensionEntry) {
    after.name == before.name && after.id == before.id && GrownFunctions(before.functions, after.functions)
  }

  lemma HasPrefix(before: seq<FunctionEntry>, after: seq<FunctionEntry>, name: string)
    requires before <= after && Has(before, name)
    ensures Has(after, name)
  {
    var i :| 0 <= i < |before| && before[i].name == name;
    assert after[i] == before[i];
  }

  lemma GrownFunctionsJoin(a: seq<FunctionEntry>, b: seq<FunctionEntry>, c: seq<FunctionEntry>)
    requires GrownFunctions(a, b) && GrownFunctions(b, c)
    ensures GrownFunctions(a, c)
  {
    forall i | |a| <= i < |c|
      ensures !Has(a, c[i].name)
    {
      if i >= |b| {
        if Has(a, c[i].name) {
          HasPrefix(a, b, c[i].name);
        }
      } else {
        assert c[i] == b[i];
      }
    }
  }

  lemma GrownJoin(a: IdFile, b: IdFile, c: IdFile)
    requires Grown(a, b) && Grown(b, c)
    ensures Grown(a, c)
  {
    forall k | 0 <= k < |a|
      ensures GrownEntry(a[k], c[k])
    {
      assert GrownEntry(a[k], b[k]) && GrownEntry(b[k], c[k]);
      GrownFunctionsJoin(a[k].functions, b[k].functions, c[k].functions);
    }
  }

  lemma {:induction false} MissingAreMissing(functions: seq<FunctionEntry>, names: seq<string>, name: string)
    ensures name in Missing(functions, names) <==> name in names && !Has(functions, name)
  {
    if names == [] {
    } else {
      MissingAreMissing(functions, names[1..], name);
    }
  }

  lemma ExtendGrows(functions: seq<FunctionEntry>, names: seq<string>)
    ensures GrownFunctions(functions, Extend(functions, names))
  {
    var missing := Missing(functions, names);
    forall i | |functions| <= i < |functions| + |missing|
      ensures !Has(functions, Extend(functions, names)[i].name)
    {
      MissingAreMissing(functions, names, missing[i - |functions|]);
    }
  }

  /** Extending adds exactly the names that were not there. */
  lemma ExtendHas(functions: seq<FunctionEntry>, names: seq<string>, name: string)
    ensures Has(Extend(functions, names), name) <==> Has(functions, name) || name in names
  {
    var all, missing := Extend(functions, names), Missing(functions, names);
    MissingAreMissing(functions, names, name);
    if Has(functions, name) {
      HasPrefix(functions, all, name);
    } else if name in missing {
      var i :| 0 <= i < |missing| && missing[i] == name;
      assert all[|functions| + i].name == name;
    }
    if Has(all, name) {
      var i :| 0 <= i < |all| && all[i].name == name;
      assert i < |functions| ==> all[i] == functions[i];
      assert i >= |functions| ==> missing[i - |functions|] == name;
    }
  }

  lemma UpdateOneGrows(before: IdFile, ids: IdFile, e: Extension)
    requires |before| <= |ids|
    ensures Grown(ids, UpdateOne(before, ids, e))
  {
    var k := Find(before, e.name);
    if k < |before| {
      ExtendGrows(ids[k].functions, e.functions);
    }
  }

  /** Existing entries keep their place, their names and their ids, for every spec. */
  lemma {:induction false} UpdateGrows(spec: seq<Extension>, ids: IdFile)
    ensures Grown(ids, Update(spec, ids))
    decreases |spec|
  {
    if spec == [] {
    } else {
      var init := spec[..|spec| - 1];
      UpdateGrows(init, ids);
      UpdateOneGrows(ids, UpdateFrom(ids, init), spec[|spec| - 1]);
      GrownJoin(ids, UpdateFrom(ids, init), Update(spec, ids));
    }
  }

  // ----- Coverage -----

  ghost predicate DistinctExtensions(spec: seq<Extension>) {
    forall i, j :: 0 <= i < j < |spec| ==> spec[i].name != spec[j].name
  }

  /** The extension's entry has all its functions. */
  ghost predicate Lists(ids: IdFile, e: Extension) {
    var k := Find(ids, e.name);
    k < |ids| && forall f <- e.functions :: Has(ids[k].functions, f)
  }

  lemma FindOther(ids: IdFile, x: ExtensionEntry, name: Option<string>)
    requires x.name != name
    ensures Find(ids + [x], name) == if Find(ids, name) < |ids| then Find(ids, name) else |ids| + 1
  {
    assert (ids + [x])[..|ids|] == ids;
  }

  lemma {:induction false} FindDepends(a: IdFile, b: IdFile, name: Option<string>)
    requires |a| == |b| && forall k :: 0 <= k < |a| ==> a[k].name == b[k].name
    ensures Find(a, name) == Find(b, name)
  {
    if a == [] {
    } else {
      FindDepends(a[..|a| - 1], b[..|b| - 1], name);
    }
  }

  /** Handling other extensions does not move an extension's entry. */
  lemma {:induction false} FindStays(before: IdFile, spec: seq<Extension>, name: Option<string>)
    requires forall e <- spec :: e.name == name ==> Find(before, name) < |before|
    ensures var ids := UpdateFrom(before, spec);
            Find(ids, name) == if Find(before, name) < |before| then Find(before, name) else |ids|
    decreases |spec|
  {
    if spec == [] {
    } else {
      var init, e := spec[..|spec| - 1], spec[|spec| - 1];
      assert e in spec;
      FindStays(before, init, name);
      var ids := UpdateFrom(before, init);
      if Find(before, e.name) < |before| {
        FindDepends(ids, UpdateOne(before, ids, e), name);
      } else {
        FindOther(ids, NewEntry(e), name);
      }
    }
  }

  lemma NewEntryHas(e: Extension, name: string)
    ensures Has(NewEntry(e).functions, name) <==> name in e.functions
  {
    SortMembers(e.functions, name);
    var sorted := Sort(e.functions);
    if name in sorted {
      var i :| 0 <= i < |sorted| && sorted[i] == name;
      assert NewEntry(e).functions[i].name == name;
    }
  }

  lemma UpdateOneLists(before: IdFile, ids: IdFile, e: Extension)
    requires |before| <= |ids|
    requires Find(ids, e.name) == if Find(before, e.name) < |before| then Find(before, e.name) else |ids|
    ensures Lists(UpdateOne(before, ids, e), e)
  {
    var after := UpdateOne(before, ids, e);
    if Find(before, e.name) < |before| {
      FindDepends(ids, after, e.name);
    }
    forall f | f in e.functions
      ensures Has(after[Find(after, e.name)].functions, f)
    {
      if Find(before, e.name) < |before| {
        ExtendHas(ids[Find(before, e.name)].functions, e.functions, f);
      } else {
        NewEntryHas(e, f);
      }
    }
  }

  lemma UpdateOneKeepsListed(before: IdFile, ids: IdFile, e: Extension, other: Extension)
    requires |before| <= |ids| && Lists(ids, other) && e.name != other.name
    ensures Lists(UpdateOne(before, ids, e), other)
  {
    var after, k := UpdateOne(before, ids, e), Find(ids, other.name);
    UpdateOneGrows(before, ids, e);
    if Find(before, e.name) < |before| {
      FindDepends(ids, after, other.name);
    } else {
      FindOther(ids, NewEntry(e), other.name);
    }
    assert GrownEntry(ids[k], after[k]);
    forall f | f in other.functions
      ensures Has(after[k].functions, f)
    {
      HasPrefix(ids[k].functions, after[k].functions, f);
    }
  }

  /** After an update, every function of every extension of the spec is in the file. */
  lemma {:induction false} UpdateCovers(spec: seq<Extension>, ids: IdFile, e: Extension)
    requires DistinctExtensions(spec) && e in spec
    ensures Lists(Update(spec, ids), e)
    decreases |spec|
  {
    var init, last := spec[..|spec| - 1], spec[|spec| - 1];
    if e == last {
      forall d | d in init
        ensures d.name != e.name
      {
        var i :| 0 <= i < |init| && init[i] == d;
        assert spec[i] == d;
      }
      FindStays(ids, init, e.name);
      UpdateOneLists(ids, UpdateFrom(ids, init), e);
    } else {
      var i :| 0 <= i < |spec| && spec[i] == e;
      assert init[i] == e;
      UpdateCovers(init, ids, e);
      UpdateOneKeepsListed(ids, UpdateFrom(ids, init), last, e);
    }
  }

  lemma NothingMissing(functions: seq<FunctionEntry>, names: seq<string>)
    requires forall f <- names :: Has(functions, f)
    ensures Extend(functions, names) == functions
  {
    var missing := Missing(functions, names);
    if missing != [] {
      MissingAreMissing(functions, names, missing[0]);
    }
    assert Missing(functions, names) == [];
  }

  /** An update with a spec that is already in the file changes nothing. */
  lemma {:induction false} ListedChangesNothing(spec: seq<Extension>, ids: IdFile)
    requires forall e <- spec :: Lists(ids, e)
    ensures Update(spec, ids) == ids
    decreases |spec|
  {
    if spec == [] {
    } else {
      var init, e := spec[..|spec| - 1], spec[|spec| - 1];
      ListedChangesNothing(init, ids);
      assert e in spec;
      NothingMissing(ids[Find(ids, e.name)].functions, e.functions);
    }
  }

  /** Repeating an update adds nothing. */
  lemma UpdateIdempotent(spec: seq<Extension>, ids: IdFile)
    requires DistinctExtensions(spec)
    ensures Update(spec, Update(spec, ids)) == Update(spec, ids)
  {
    forall e | e in spec
      ensures Lists(Update(spec, ids), e)
    {
      UpdateCovers(spec, ids, e);
    }
    ListedChangesNothing(spec, Update(spec, ids));
  }

  // ----- A fresh file -----

  function EntryNames(functions: seq<FunctionEntry>): (names: seq<string>)
    ensures |names| == |functions|
  {
    seq(|functions|, i requires 0 <= i < |functions| => functions[i].name)
  }

  lemma NumberedNames(names: seq<string>, start: nat)
    ensures EntryNames(Number(names, start)) == names
  {
  }

  // ----- Which ids an update hands out -----

  /** The largest id in use, or 0. */
  ghost predicate IsMaxId(functions: seq<FunctionEntry>, m: nat) {
    (forall f <- functions :: f.id <= m) && (m == 0 || exists f :: f in functions && f.id == m)
  }

  lemma {:induction false} MaxIdIsMax(functions: seq<FunctionEntry>)
    ensures IsMaxId(functions, MaxId(functions))
  {
    if functions == [] {
    } else {
      MaxIdIsMax(functions[1..]);
      assert functions[0] in functions;
      assert forall f <- functions[1..] :: f in functions;
    }
  }

  lemma {:induction false} MissingCounts(functions: seq<FunctionEntry>, names: seq<string>, name: string)
    ensures multiset(Missing(functions, names))[name] ==
            if exists i :: 0 <= i < |functions| && functions[i].name == name then 0 else multiset(names)[name]
  {
    if names == [] {
    } else {
      MissingCounts(functions, names[1..], name);
      assert names == [names[0]] + names[1..];
    }
  }

  /** An entry keeps what it has; the names it lacks are added, each as often as it is listed, and get
      the ids after the largest one in use. */
  lemma ExtendExactly(functions: seq<FunctionEntry>, names: seq<string>, m: nat, name: string)
    requires IsMaxId(functions, m)
    ensures var all, n := Extend(functions, names), |functions|;
      && |all| >= n && all[..n] == functions
      && (forall i :: n <= i < |all| ==> all[i].id == m + 1 + i - n)
      && multiset(EntryNames(all[n..]))[name] ==
         if exists i :: 0 <= i < n && functions[i].name == name then 0 else multiset(names)[name]
  {
    MaxIdIsMax(functions);
    assert MaxId(functions) == m;
    MissingCounts(functions, names, name);
    var missing := Missing(functions, names);
    assert EntryNames(Extend(functions, names)[|functions|..]) == missing;
  }

  lemma {:induction false} MissingJoin(functions: seq<FunctionEntry>, a: seq<string>, b: seq<string>)
    ensures Missing(functions, a + b) == Missing(functions, a) + Missing(functions, b)
  {
    if a == [] {
      assert a + b == b;
    } else {
      assert (a + b)[0] == a[0] && (a + b)[1..] == a[1..] + b;
      MissingJoin(functions, a[1..], b);
    }
  }

  /** The added names come in the order of the list: one more list adds, at the end, what it adds to the
      old entry. */
  lemma ExtendInOrder(functions: seq<FunctionEntry>, a: seq<string>, b: seq<string>)
    ensures var n := |functions|;
            EntryNames(Extend(functions, a + b)[n..]) ==
            EntryNames(Extend(functions, a)[n..]) + EntryNames(Extend(functions, b)[n..])
  {
    MissingJoin(functions, a, b);
    var n, start := |functions|, MaxId(functions) + 1;
    forall names: seq<string>
      ensures EntryNames(Extend(functions, names)[n..]) == Missing(functions, names)
    {
      assert Extend(functions, names)[n..] == Number(Missing(functions, names), start);
      NumberedNames(Missing(functions, names), start);
    }
  }

  /** Sorted functions, numbered from 1. */
  lemma NumberedInOrder(functions: seq<string>)
    ensures var fs := Number(Sort(functions), 1);
      && (forall i :: 0 <= i < |fs| ==> fs[i].id == i + 1)
      && IsSorted(EntryNames(fs)) && multiset(EntryNames(fs)) == multiset(functions)
  {
    SortSorts(functions);
    NumberedNames(Sort(functions), 1);
  }

  /** The entry of an extension, as a generated file and as an update that finds none for it have it:
      its functions, numbered from 1 in name order, under its own number. */
  lemma NewEntryExactly(e: Extension)
    ensures forall x <- [GeneratedEntry(e), NewEntry(e)] ::
      && x.name == e.name
      && (forall i :: 0 <= i < |x.functions| ==> x.functions[i].id == i + 1)
      && IsSorted(EntryNames(x.functions))
      && multiset(EntryNames(x.functions)) == multiset(e.functions)
    ensures NewEntry(e).id == e.number
    ensures GeneratedEntry(e).id == if e.name == None || e.name == Some("") then 0 else e.number
  {
    NumberedInOrder(e.functions);
  }
}
