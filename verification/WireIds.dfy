/**
 Wire ids: two functions never share one, and when an update changes one.
 */
module WireIds {
  import opened Options
  import opened Names
  import opened FunctionIds
  import opened IdStability

  // ----- Local ids -----

  /** Local ids count from 1 and are not repeated. */
  ghost predicate GoodLocals(functions: seq<FunctionEntry>) {
    && (forall i :: 0 <= i < |functions| ==> functions[i].id >= 1)
    && (forall i, j :: 0 <= i < j < |functions| ==> functions[i].id != functions[j].id)
  }

  /** The extensions' numbers come from a registry that gives every name its own number; the core
      functions are number 0. */
  ghost predicate Registry(reg: map<Option<string>, nat>) {
    && None in reg && reg[None] == 0 && Some("") !in reg
    && forall a, b :: a in reg && b in reg && a != b ==> reg[a] != reg[b]
  }

  ghost predicate RegisteredSpec(reg: map<Option<string>, nat>, spec: seq<Extension>) {
    forall e <- spec :: e.name in reg && e.number == reg[e.name]
  }

  ghost predicate Good(reg: map<Option<string>, nat>, ids: IdFile) {
    && (forall k :: 0 <= k < |ids| ==>
          ids[k].name in reg && ids[k].id == reg[ids[k].name] && GoodLocals(ids[k].functions))
    && (forall j, k :: 0 <= j < k < |ids| ==> ids[j].name != ids[k].name)
  }

  lemma NumberedGood(names: seq<string>)
    ensures GoodLocals(Number(names, 1))
  {
  }

  lemma ExtendGood(functions: seq<FunctionEntry>, names: seq<string>)
    requires GoodLocals(functions)
    ensures GoodLocals(Extend(functions, names))
  {
    var all := Extend(functions, names);
    forall i, j | 0 <= i < j < |all|
      ensures all[i].id != all[j].id
    {
      if i < |functions| <= j {
        assert functions[i] in functions;
      }
    }
  }

  lemma GenerateGood(reg: map<Option<string>, nat>, spec: seq<Extension>)
    requires Registry(reg) && RegisteredSpec(reg, spec) && DistinctExtensions(spec)
    ensures Good(reg, Generate(spec))
  {
    forall k | 0 <= k < |spec|
      ensures GeneratedEntry(spec[k]).name in reg && GeneratedEntry(spec[k]).id == reg[spec[k].name]
      ensures GoodLocals(GeneratedEntry(spec[k]).functions)
    {
      assert spec[k] in spec;
      NumberedGood(Sort(spec[k].functions));
    }
  }

  lemma UpdateOneGood(reg: map<Option<string>, nat>, before: IdFile, ids: IdFile, e: Extension)
    requires Good(reg, ids) && |before| <= |ids| && e.name in reg && e.number == reg[e.name]
    requires Find(ids, e.name) == if Find(before, e.name) < |before| then Find(before, e.name) else |ids|
    ensures Good(reg, UpdateOne(before, ids, e))
  {
    if Find(before, e.name) < |before| {
      ExtendGood(ids[Find(before, e.name)].functions, e.functions);
    } else {
      NumberedGood(Sort(e.functions));
    }
  }

  lemma {:induction false} UpdateGood(reg: map<Option<string>, nat>, spec: seq<Extension>, ids: IdFile)
    requires Good(reg, ids) && RegisteredSpec(reg, spec) && DistinctExtensions(spec)
    ensures Good(reg, Update(spec, ids))
    decreases |spec|
  {
    if spec == [] {
    } else {
      var init, last := spec[..|spec| - 1], spec[|spec| - 1];
      UpdateGood(reg, init, ids);
      forall d | d in init
        ensures d.name != last.name
      {
        var i :| 0 <= i < |init| && init[i] == d;
        assert spec[i] == d;
      }
      assert last in spec;
      FindStays(ids, init, last.name);
      UpdateOneGood(reg, ids, UpdateFrom(ids, init), last);
    }
  }

  // ----- Who decides a wire id -----

  lemma {:induction false} LocalIdEntry(functions: seq<FunctionEntry>, name: string)
    ensures LocalId(functions, name).Some? <==> Has(functions, name)
    ensures LocalId(functions, name).Some? ==>
              exists i :: 0 <= i < |functions| && functions[i] == FunctionEntry(name, LocalId(functions, name).value)
    decreases |functions|
  {
    if functions == [] {
    } else {
      var init := functions[..|functions| - 1];
      LocalIdEntry(init, name);
      assert forall i :: 0 <= i < |init| ==> init[i] == functions[i];
    }
  }

  /** Entry k is the last one that lists the function. */
  ghost predicate Owns(ids: IdFile, k: nat, name: string) {
    k < |ids| && Has(ids[k].functions, name) && forall j :: k < j < |ids| ==> !Has(ids[j].functions, name)
  }

  lemma {:induction false} OwnerDecides(ids: IdFile, name: string) returns (k: nat)
    ensures WireId(ids, name).None? ==> forall j :: 0 <= j < |ids| ==> !Has(ids[j].functions, name)
    ensures WireId(ids, name).Some? ==>
              Owns(ids, k, name) && LocalId(ids[k].functions, name).Some? &&
              WireId(ids, name).value == ids[k].id * 1000 + LocalId(ids[k].functions, name).value
    decreases |ids|
  {
    k := 0;
    if ids == [] {
    } else {
      var n := |ids| - 1;
      LocalIdEntry(ids[n].functions, name);
      if Has(ids[n].functions, name) {
        k := n;
      } else {
        k := OwnerDecides(ids[..n], name);
        assert forall j :: 0 <= j < n ==> ids[..n][j] == ids[j];
      }
    }
  }

  lemma OwnerDetermines(ids: IdFile, name: string, k: nat)
    requires Owns(ids, k, name)
    ensures LocalId(ids[k].functions, name).Some?
    ensures WireId(ids, name) == Some(ids[k].id * 1000 + LocalId(ids[k].functions, name).value)
  {
    var j := OwnerDecides(ids, name);
    LocalIdEntry(ids[k].functions, name);
  }

  /** Every function that some entry lists has a wire id. */
  lemma ListedHasWireId(ids: IdFile, k: nat, name: string)
    requires k < |ids| && Has(ids[k].functions, name)
    ensures WireId(ids, name).Some?
  {
    var j := OwnerDecides(ids, name);
  }

  /** No extension has more than 1000 functions. */
  ghost predicate Bounded(ids: IdFile) {
    forall k :: 0 <= k < |ids| ==> forall f <- ids[k].functions :: f.id <= 1000
  }

  lemma WirePartsUnique(a: nat, b: nat, c: nat, d: nat)
    requires 1 <= b <= 1000 && 1 <= d <= 1000
    ensures a * 1000 + b == c * 1000 + d <==> a == c && b == d
  {
  }

  lemma LocalInRange(reg: map<Option<string>, nat>, ids: IdFile, k: nat, name: string)
    requires Good(reg, ids) && Bounded(ids) && k < |ids| && LocalId(ids[k].functions, name).Some?
    ensures 1 <= LocalId(ids[k].functions, name).value <= 1000
  {
    LocalIdEntry(ids[k].functions, name);
  }

  /** Two functions never share a wire id. */
  lemma WireIdsDistinct(reg: map<Option<string>, nat>, ids: IdFile, f: string, g: string)
    requires Registry(reg) && Good(reg, ids) && Bounded(ids)
    requires f != g && WireId(ids, f).Some? && WireId(ids, g).Some?
    ensures WireId(ids, f) != WireId(ids, g)
  {
    var j := OwnerDecides(ids, f);
    var k := OwnerDecides(ids, g);
    LocalInRange(reg, ids, j, f);
    LocalInRange(reg, ids, k, g);
    var a, b := LocalId(ids[j].functions, f).value, LocalId(ids[k].functions, g).value;
    WirePartsUnique(ids[j].id, a, ids[k].id, b);
    if j == k {
      LocalIdEntry(ids[j].functions, f);
      LocalIdEntry(ids[j].functions, g);
    }
  }

  // ----- When an update changes a wire id -----

  lemma {:induction false} LocalIdStays(before: seq<FunctionEntry>, after: seq<FunctionEntry>, name: string)
    requires GrownFunctions(before, after) && Has(before, name)
    ensures LocalId(after, name) == LocalId(before, name)
    decreases |after|
  {
    if |after| == |before| {
      assert after == before;
    } else {
      var n := |after| - 1;
      assert !Has(before, after[n].name);
      assert GrownFunctions(before, after[..n]);
      LocalIdStays(before, after[..n], name);
    }
  }

  /** Some extension of the spec lists the function, and its entry comes after the function's. */
  ghost predicate ListedLater(spec: seq<Extension>, ids: IdFile, k: nat, name: string) {
    exists e :: e in spec && name in e.functions && Find(ids, e.name) > k
  }

  /** Where the functions of an updated file come from. */
  lemma {:induction false} Origin(spec: seq<Extension>, ids: IdFile, j: nat, name: string)
    requires j < |Update(spec, ids)| && Has(Update(spec, ids)[j].functions, name)
    requires !(j < |ids| && Has(ids[j].functions, name))
    ensures exists e :: e in spec && name in e.functions && Find(ids, e.name) == if j < |ids| then j else |ids|
    decreases |spec|
  {
    var init, last := spec[..|spec| - 1], spec[|spec| - 1];
    var before := UpdateFrom(ids, init);
    assert last in spec;
    if j < |before| && Has(before[j].functions, name) {
      Origin(init, ids, j, name);
      var e :| e in init && name in e.functions && Find(ids, e.name) == if j < |ids| then j else |ids|;
      assert e in spec;
    } else if j < |before| {
      ExtendHas(before[j].functions, last.functions, name);
    } else {
      NewEntryHas(last, name);
    }
  }

  lemma LaterInFile(spec: seq<Extension>, ids: IdFile, k: nat, name: string)
    requires DistinctExtensions(spec) && Owns(ids, k, name)
    ensures ListedLater(spec, ids, k, name) <==>
            exists j :: k < j < |Update(spec, ids)| && Has(Update(spec, ids)[j].functions, name)
  {
    var after := Update(spec, ids);
    UpdateGrows(spec, ids);
    if ListedLater(spec, ids, k, name) {
      var e :| e in spec && name in e.functions && Find(ids, e.name) > k;
      UpdateCovers(spec, ids, e);
      var j := Find(after, e.name);
      assert Has(after[j].functions, name);
      if j <= k {
        assert GrownEntry(ids[j], after[j]);
        EntryIsFound(spec, ids, e.name);
      }
    }
    if j :| k < j < |after| && Has(after[j].functions, name) {
      Origin(spec, ids, j, name);
    }
  }

  /** An entry that is there is still the one found after an update. */
  lemma {:induction false} EntryIsFound(spec: seq<Extension>, ids: IdFile, name: Option<string>)
    ensures Find(ids, name) < |ids| ==> Find(Update(spec, ids), name) == Find(ids, name)
    ensures Find(ids, name) == |ids| ==> Find(Update(spec, ids), name) >= |ids|
    decreases |spec|
  {
    if spec == [] {
    } else {
      var init, last := spec[..|spec| - 1], spec[|spec| - 1];
      EntryIsFound(init, ids, name);
      var mid := UpdateFrom(ids, init);
      if Find(ids, last.name) < |ids| {
        FindDepends(mid, UpdateOne(ids, mid, last), name);
      } else if last.name != name {
        FindOther(mid, NewEntry(last), name);
      }
    }
  }

  lemma SameOwnerSameId(ids: IdFile, after: IdFile, k: nat, name: string)
    requires k < |ids| && k < |after| && GrownEntry(ids[k], after[k]) && Owns(ids, k, name) && Owns(after, k, name)
    ensures WireId(after, name) == WireId(ids, name)
  {
    LocalIdStays(ids[k].functions, after[k].functions, name);
    OwnerDetermines(ids, name, k);
    OwnerDetermines(after, name, k);
  }

  lemma OtherOwnerOtherId(reg: map<Option<string>, nat>, ids: IdFile, after: IdFile, k: nat, j: nat, name: string)
    requires Registry(reg) && Good(reg, after) && Bounded(after)
    requires k < |ids| && k < |after| && GrownEntry(ids[k], after[k]) && Owns(ids, k, name)
    requires j != k && Owns(after, j, name)
    ensures WireId(after, name) != WireId(ids, name)
  {
    LocalIdStays(ids[k].functions, after[k].functions, name);
    OwnerDetermines(ids, name, k);
    OwnerDetermines(after, name, j);
    LocalInRange(reg, after, k, name);
    LocalInRange(reg, after, j, name);
    WirePartsUnique(
      after[k].id, LocalId(after[k].functions, name).value, after[j].id, LocalId(after[j].functions, name).value);
  }

  /** The wire id a function has is kept by an update if and only if the spec does not list the
      function under an extension whose entry comes after the function's present one. */
  lemma WireIdKeptExactly(reg: map<Option<string>, nat>, spec: seq<Extension>, ids: IdFile, k: nat, name: string)
    requires Registry(reg) && Good(reg, ids) && RegisteredSpec(reg, spec) && DistinctExtensions(spec)
    requires Bounded(Update(spec, ids)) && Owns(ids, k, name)
    ensures WireId(Update(spec, ids), name) == WireId(ids, name) <==> !ListedLater(spec, ids, k, name)
  {
    var after := Update(spec, ids);
    UpdateGrows(spec, ids);
    UpdateGood(reg, spec, ids);
    LaterInFile(spec, ids, k, name);
    assert GrownEntry(ids[k], after[k]);
    HasPrefix(ids[k].functions, after[k].functions, name);
    if ListedLater(spec, ids, k, name) {
      ListedHasWireId(after, k, name);
      var j := OwnerDecides(after, name);
      OtherOwnerOtherId(reg, ids, after, k, j, name);
    } else {
      SameOwnerSameId(ids, after, k, name);
    }
  }

  // ----- Any number of updates -----

  function UpdateAll(ids: IdFile, specs: seq<seq<Extension>>): IdFile
    decreases |specs|
  {
    if specs == [] then ids else UpdateAll(Update(specs[0], ids), specs[1..])
  }

  /** Over any sequence of updates, what is in the file stays. */
  lemma {:induction false} UpdatesGrow(ids: IdFile, specs: seq<seq<Extension>>)
    ensures Grown(ids, UpdateAll(ids, specs))
    decreases |specs|
  {
    if specs == [] {
    } else {
      UpdateGrows(specs[0], ids);
      UpdatesGrow(Update(specs[0], ids), specs[1..]);
      GrownJoin(ids, Update(specs[0], ids), UpdateAll(ids, specs));
    }
  }

  ghost predicate GoodSpecs(reg: map<Option<string>, nat>, specs: seq<seq<Extension>>) {
    forall s <- specs :: RegisteredSpec(reg, s) && DistinctExtensions(s)
  }

  lemma {:induction false} UpdatesGood(reg: map<Option<string>, nat>, ids: IdFile, specs: seq<seq<Extension>>)
    requires Good(reg, ids) && GoodSpecs(reg, specs)
    ensures Good(reg, UpdateAll(ids, specs))
    decreases |specs|
  {
    if specs == [] {
    } else {
      assert specs[0] in specs;
      UpdateGood(reg, specs[0], ids);
      UpdatesGood(reg, Update(specs[0], ids), specs[1..]);
    }
  }

  /** From a generated file, over any sequence of updates within the documented bound, no two functions
      ever share a wire id. */
  lemma UpdatedIdsDistinct(
    reg: map<Option<string>, nat>, first: seq<Extension>, specs: seq<seq<Extension>>, f: string, g: string)
    requires Registry(reg) && RegisteredSpec(reg, first) && DistinctExtensions(first) && GoodSpecs(reg, specs)
    requires Bounded(UpdateAll(Generate(first), specs)) && f != g
    ensures var ids := UpdateAll(Generate(first), specs);
            WireId(ids, f).Some? && WireId(ids, g).Some? ==> WireId(ids, f) != WireId(ids, g)
  {
    GenerateGood(reg, first);
    UpdatesGood(reg, Generate(first), specs);
    var ids := UpdateAll(Generate(first), specs);
    if WireId(ids, f).Some? && WireId(ids, g).Some? {
      WireIdsDistinct(reg, ids, f, g);
    }
  }

  /** The function is listed under at most one extension. */
  ghost predicate OnlyUnder(spec: seq<Extension>, owner: Option<string>, name: string) {
    forall e <- spec :: name in e.functions ==> e.name == owner
  }

  lemma {:induction false} BoundedBefore(ids: IdFile, specs: seq<seq<Extension>>)
    requires Bounded(UpdateAll(ids, specs))
    ensures Bounded(ids)
  {
    UpdatesGrow(ids, specs);
    var after := UpdateAll(ids, specs);
    forall k | 0 <= k < |ids|
      ensures forall f <- ids[k].functions :: f.id <= 1000
    {
      assert GrownEntry(ids[k], after[k]);
      assert forall i :: 0 <= i < |ids[k].functions| ==> ids[k].functions[i] == after[k].functions[i];
    }
  }

  /** A function that no spec moves to another extension keeps its wire id for ever, and shares it with
      no other function. */
  lemma {:induction false} UpdatesNeverRenumber(
    reg: map<Option<string>, nat>, ids: IdFile, specs: seq<seq<Extension>>, k: nat, name: string)
    requires Registry(reg) && Good(reg, ids) && GoodSpecs(reg, specs) && Bounded(UpdateAll(ids, specs))
    requires Owns(ids, k, name) && forall s <- specs :: OnlyUnder(s, ids[k].name, name)
    ensures WireId(UpdateAll(ids, specs), name) == WireId(ids, name)
    ensures forall g: string :: g != name && WireId(UpdateAll(ids, specs), g).Some? ==>
              WireId(UpdateAll(ids, specs), g) != WireId(ids, name)
    decreases |specs|
  {
    if specs == [] {
      ListedHasWireId(ids, k, name);
      forall g: string | g != name && WireId(ids, g).Some?
        ensures WireId(ids, g) != WireId(ids, name)
      {
        WireIdsDistinct(reg, ids, g, name);
      }
    } else {
      var spec := specs[0];
      assert spec in specs;
      var next := Update(spec, ids);
      UpdateGood(reg, spec, ids);
      UpdateGrows(spec, ids);
      BoundedBefore(next, specs[1..]);
      assert !ListedLater(spec, ids, k, name) by {
        FindSelf(reg, ids, k);
      }
      WireIdKeptExactly(reg, spec, ids, k, name);
      LaterInFile(spec, ids, k, name);
      assert GrownEntry(ids[k], next[k]);
      HasPrefix(ids[k].functions, next[k].functions, name);
      assert Owns(next, k, name);
      UpdatesNeverRenumber(reg, next, specs[1..], k, name);
    }
  }

  lemma FindSelf(reg: map<Option<string>, nat>, ids: IdFile, k: nat)
    requires Good(reg, ids) && k < |ids|
    ensures Find(ids, ids[k].name) == k
  {
  }

  /** A function that a later spec also lists under a new extension changes its wire id. */
  lemma MovedFunctionRenumbered()
    ensures var ids := Generate([Extension(Some("A"), 1, [], ["f"])]);
            var spec := [Extension(Some("A"), 1, [], ["f"]), Extension(Some("B"), 2, [], ["f"])];
            WireId(ids, "f") == Some(1001) && WireId(Update(spec, ids), "f") == Some(2001)
  {
    var e, b := Extension(Some("A"), 1, [], ["f"]), Extension(Some("B"), 2, [], ["f"]);
    var ids, spec := Generate([e]), [e, b];
    assert Sort(["f"]) == ["f"];
    var fs := [FunctionEntry("f", 1)];
    assert GeneratedEntry(e).functions == fs;
    assert ids[0] == GeneratedEntry(e);
    assert ids == [ExtensionEntry(Some("A"), 1, fs)];
    assert LocalId(fs, "f") == Some(1);
    assert spec[..1] == [e] && [e][..0] == [];
    assert Has(fs, "f") by { assert fs[0].name == "f"; }
    NothingMissing(fs, ["f"]);
    assert Find(ids, Some("A")) == 0 && Find(ids, Some("B")) == 1;
    assert UpdateFrom(ids, [e]) == ids;
    assert Update(spec, ids) == ids + [ExtensionEntry(Some("B"), 2, fs)];
  }
}
