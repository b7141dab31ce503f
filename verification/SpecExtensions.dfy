/**
 Dividing the functions of the specification among its extensions; what no extension mentions is
 core.
 */
module SpecExtensions {
  import opened Options
  import opened Names
  import opened FunctionIds
  import opened IdStability
  import opened WireIds

  /** A struct of the specification, and its structure type if it has one. */
  datatype StructDef = StructDef(name: string, xrType: Option<string>)

  /** An extension element: its number, the types and commands it requires, and the structure types it
      adds. */
  datatype Tag = Tag(name: string, number: nat, types: seq<string>, commands: seq<string>, enums: seq<string>)

  /** The required names that the specification defines. */
  function Picked(defined: seq<string>, names: seq<string>): seq<string>
    decreases |names|
  {
    if names == [] then []
    else
      var n := |names| - 1;
      Picked(defined, names[..n]) + if names[n] in defined then [names[n]] else []
  }

  function StructNames(structs: seq<StructDef>): (names: seq<string>)
    ensures |names| == |structs|
  {
    seq(|structs|, i requires 0 <= i < |structs| => structs[i].name)
  }

  /** The first struct with this structure type. */
  function OfType(structs: seq<StructDef>, xrType: string): Option<string> {
    if structs == [] then None
    else if structs[0].xrType == Some(xrType) then Some(structs[0].name)
    else OfType(structs[1..], xrType)
  }

  /** The structs that belong to the added structure types. */
  function PickedByType(structs: seq<StructDef>, enums: seq<string>): seq<string>
    decreases |enums|
  {
    if enums == [] then []
    else
      var n := |enums| - 1;
      var s := OfType(structs, enums[n]);
      PickedByType(structs, enums[..n]) + if s.Some? then [s.value] else []
  }

  /** The structs of an element: by name, then by structure type. */
  function PickedStructs(structs: seq<StructDef>, tag: Tag): seq<string> {
    Picked(StructNames(structs), tag.types) + PickedByType(structs, tag.enums)
  }

  predicate Stored(structs: seq<StructDef>, functions: seq<string>, tag: Tag) {
    PickedStructs(structs, tag) != [] || Picked(functions, tag.commands) != []
  }

  function Entry(structs: seq<StructDef>, functions: seq<string>, tag: Tag): Extension {
    Extension(Some(tag.name), tag.number, Sort(PickedStructs(structs, tag)), Sort(Picked(functions, tag.commands)))
  }

  /** The dictionary of extensions: a later element of the same name replaces an earlier one. */
  function Entries(structs: seq<StructDef>, functions: seq<string>, tags: seq<Tag>): map<string, Extension>
    decreases |tags|
  {
    if tags == [] then map[]
    else
      var before, tag := Entries(structs, functions, tags[..|tags| - 1]), tags[|tags| - 1];
      if Stored(structs, functions, tag) then before[tag.name := Entry(structs, functions, tag)] else before
  }

  /** Its keys in insertion order. */
  function Keys(structs: seq<StructDef>, functions: seq<string>, tags: seq<Tag>): seq<string>
    decreases |tags|
  {
    if tags == [] then []
    else
      var before, tag := Keys(structs, functions, tags[..|tags| - 1]), tags[|tags| - 1];
      if Stored(structs, functions, tag) && tag.name !in before then before + [tag.name] else before
  }

  ghost predicate DistinctNames(names: seq<string>) {
    forall i, j :: 0 <= i < j < |names| ==> names[i] != names[j]
  }

  predicate Mentions(functions: seq<string>, tag: Tag, f: string) {
    f in Picked(functions, tag.commands)
  }

  predicate MentionedIn(functions: seq<string>, tags: seq<Tag>, f: string) {
    exists i :: 0 <= i < |tags| && Mentions(functions, tags[i], f)
  }

  function Kept(all: seq<string>, rest: set<string>): seq<string> {
    if all == [] then [] else (if all[0] in rest then [all[0]] else []) + Kept(all[1..], rest)
  }

  /** The functions no extension mentions. */
  function CoreFunctions(functions: seq<string>, tags: seq<Tag>): seq<string> {
    Kept(functions, set f | f in functions && !MentionedIn(functions, tags, f))
  }

  predicate StructIn(structs: seq<StructDef>, tags: seq<Tag>, name: string) {
    exists i :: 0 <= i < |tags| && name in PickedStructs(structs, tags[i])
  }

  /** The structs that no extension has. */
  function CoreStructs(structs: seq<StructDef>, tags: seq<Tag>): seq<string> {
    var names := StructNames(structs);
    Kept(names, set s | s in names && !StructIn(structs, tags, s))
  }

  function Lookups(entries: map<string, Extension>, keys: seq<string>): seq<Extension>
    requires forall k <- keys :: k in entries
  {
    if keys == [] then [] else [entries[keys[0]]] + Lookups(entries, keys[1..])
  }

  lemma {:induction false} KeysOfEntries(structs: seq<StructDef>, functions: seq<string>, tags: seq<Tag>)
    ensures forall n :: n in Keys(structs, functions, tags) <==> n in Entries(structs, functions, tags)
    ensures DistinctNames(Keys(structs, functions, tags))
    ensures forall n <- Entries(structs, functions, tags) :: Entries(structs, functions, tags)[n].name == Some(n)
    decreases |tags|
  {
    if tags == [] {
    } else {
      KeysOfEntries(structs, functions, tags[..|tags| - 1]);
    }
  }

  function CoreExtension(structs: seq<StructDef>, functions: seq<string>, tags: seq<Tag>): Extension {
    var coreStructs := Sort(CoreStructs(structs, tags));
    Extension(None, 0, coreStructs, Sort(CoreFunctions(functions, tags)))
  }

  /** Extensions by name, core last. */
  function Collected(structs: seq<StructDef>, functions: seq<string>, tags: seq<Tag>): seq<Extension> {
    var keys := Sort(Keys(structs, functions, tags));
    assert forall k <- keys :: k in Entries(structs, functions, tags) by {
      KeysOfEntries(structs, functions, tags);
      forall k | k in keys
        ensures k in Entries(structs, functions, tags)
      {
        SortMembers(Keys(structs, functions, tags), k);
      }
    }
    Lookups(Entries(structs, functions, tags), keys) + [CoreExtension(structs, functions, tags)]
  }

  /** The loop over the required types or commands of one element: what is picked is no longer core. */
  method PickNames(defined: seq<string>, names: seq<string>, rest: set<string>)
    returns (picked: seq<string>, remaining: set<string>)
    ensures picked == Picked(defined, names)
    ensures remaining == rest - set f | f in picked
  {
    picked, remaining := [], rest;
    for j := 0 to |names|
      invariant picked == Picked(defined, names[..j])
      invariant remaining == rest - set f | f in picked
    {
      assert names[..j + 1][..j] == names[..j];
      if names[j] in defined {
        picked := picked + [names[j]];
        remaining := remaining - {names[j]};
      }
    }
    assert names[..|names|] == names;
  }

  /** The loop over the structure types of one element. */
  method PickTypes(structs: seq<StructDef>, enums: seq<string>, rest: set<string>)
    returns (picked: seq<string>, remaining: set<string>)
    ensures picked == PickedByType(structs, enums)
    ensures remaining == rest - set f | f in picked
  {
    picked, remaining := [], rest;
    for j := 0 to |enums|
      invariant picked == PickedByType(structs, enums[..j])
      invariant remaining == rest - set f | f in picked
    {
      assert enums[..j + 1][..j] == enums[..j];
      var s := OfType(structs, enums[j]);
      if s.Some? {
        picked := picked + [s.value];
        remaining := remaining - {s.value};
      }
    }
    assert enums[..|enums|] == enums;
  }

  method LookupAll(entries: map<string, Extension>, keys: seq<string>) returns (spec: seq<Extension>)
    requires forall k <- keys :: k in entries
    ensures spec == Lookups(entries, keys)
  {
    spec := [];
    for i := 0 to |keys|
      invariant spec + Lookups(entries, keys[i..]) == Lookups(entries, keys)
    {
      assert keys[i..][1..] == keys[i + 1..];
      spec := spec + [entries[keys[i]]];
    }
  }

  /** The sorted dictionary as a list, core last. */
  method ListExtensions(
      structs: seq<StructDef>, functions: seq<string>, ghost tags: seq<Tag>, entries: map<string, Extension>,
      keys: seq<string>, coreStructs: seq<string>, core: seq<string>)
    returns (spec: seq<Extension>)
    requires entries == Entries(structs, functions, tags) && keys == Keys(structs, functions, tags)
    requires coreStructs == CoreStructs(structs, tags)
    requires core == CoreFunctions(functions, tags)
    ensures spec == Collected(structs, functions, tags)
  {
    KeysOfEntries(structs, functions, tags);
    var sorted := Sort(keys);
    forall k | k in sorted
      ensures k in entries
    {
      SortMembers(keys, k);
    }
    spec := LookupAll(entries, sorted);
    spec := spec + [Extension(None, 0, Sort(coreStructs), Sort(core))];
  }

  /** One element: its structs and functions, and what is left for the core. */
  method PickElement(
      structs: seq<StructDef>, functions: seq<string>, tag: Tag, restStructs: set<string>, rest: set<string>)
    returns (e: Extension, leftStructs: set<string>, left: set<string>)
    ensures e == Entry(structs, functions, tag)
    ensures e.structs != [] || e.functions != [] <==> Stored(structs, functions, tag)
    ensures forall s :: s in leftStructs <==> s in restStructs && s !in PickedStructs(structs, tag)
    ensures forall f :: f in left <==> f in rest && !Mentions(functions, tag, f)
  {
    var byName, byType, picked;
    byName, leftStructs := PickNames(StructNames(structs), tag.types, restStructs);
    picked, left := PickNames(functions, tag.commands, rest);
    byType, leftStructs := PickTypes(structs, tag.enums, leftStructs);
    SortSorts(byName + byType);
    SortSorts(picked);
    e := Extension(Some(tag.name), tag.number, Sort(byName + byType), Sort(picked));
  }

  /** The structs and functions that the first elements have left for the core. */
  ghost predicate LeftOver(
      structs: seq<StructDef>, functions: seq<string>, tags: seq<Tag>, restStructs: set<string>, rest: set<string>)
  {
    && restStructs == (set s | s in StructNames(structs) && !StructIn(structs, tags, s))
    && rest == (set f | f in functions && !MentionedIn(functions, tags, f))
  }

  lemma LeftOverMore(
      structs: seq<StructDef>, functions: seq<string>, tags: seq<Tag>, i: nat,
      restStructs: set<string>, rest: set<string>, leftStructs: set<string>, left: set<string>)
    requires i < |tags| && LeftOver(structs, functions, tags[..i], restStructs, rest)
    requires forall s :: s in leftStructs <==> s in restStructs && s !in PickedStructs(structs, tags[i])
    requires forall f :: f in left <==> f in rest && !Mentions(functions, tags[i], f)
    ensures LeftOver(structs, functions, tags[..i + 1], leftStructs, left)
  {
    MentionedMore(functions, tags, i);
    StructInMore(structs, tags, i);
  }

  method CollectExtensions(structs: seq<StructDef>, functions: seq<string>, tags: seq<Tag>)
    returns (spec: seq<Extension>)
    ensures spec == Collected(structs, functions, tags)
  {
    var restStructs, rest := set s | s in StructNames(structs), set f | f in functions;
    var entries: map<string, Extension> := map[];
    var keys: seq<string> := [];
    for i := 0 to |tags|
      invariant entries == Entries(structs, functions, tags[..i]) && keys == Keys(structs, functions, tags[..i])
      invariant LeftOver(structs, functions, tags[..i], restStructs, rest)
    {
      var tag := tags[i];
      assert tags[..i + 1][..i] == tags[..i];
      var e, leftStructs, left := PickElement(structs, functions, tag, restStructs, rest);
      LeftOverMore(structs, functions, tags, i, restStructs, rest, leftStructs, left);
      restStructs, rest := leftStructs, left;
      if e.structs != [] || e.functions != [] {
        if tag.name !in keys {
          keys := keys + [tag.name];
        }
        entries := entries[tag.name := e];
      }
    }
    assert tags[..|tags|] == tags;
    var coreStructs := KeepNames(StructNames(structs), restStructs);
    var core := KeepNames(functions, rest);
    spec := ListExtensions(structs, functions, tags, entries, keys, coreStructs, core);
  }

  lemma StructInMore(structs: seq<StructDef>, tags: seq<Tag>, i: nat)
    requires i < |tags|
    ensures forall s :: StructIn(structs, tags[..i + 1], s) <==>
                          StructIn(structs, tags[..i], s) || s in PickedStructs(structs, tags[i])
  {
    forall s: string
      ensures StructIn(structs, tags[..i + 1], s) <==>
                StructIn(structs, tags[..i], s) || s in PickedStructs(structs, tags[i])
    {
      assert forall k :: 0 <= k < i ==> tags[..i + 1][k] == tags[..i][k];
      assert tags[..i + 1][i] == tags[i];
    }
  }

  lemma MentionedMore(functions: seq<string>, tags: seq<Tag>, i: nat)
    requires i < |tags|
    ensures forall f :: MentionedIn(functions, tags[..i + 1], f) <==>
                          MentionedIn(functions, tags[..i], f) || Mentions(functions, tags[i], f)
  {
    forall f: string
      ensures MentionedIn(functions, tags[..i + 1], f) <==>
                MentionedIn(functions, tags[..i], f) || Mentions(functions, tags[i], f)
    {
      assert forall k :: 0 <= k < i ==> tags[..i + 1][k] == tags[..i][k];
      assert tags[..i + 1][i] == tags[i];
    }
  }

  /** The names that are left over. */
  method KeepNames(all: seq<string>, rest: set<string>) returns (core: seq<string>)
    ensures core == Kept(all, rest)
  {
    core := [];
    for i := 0 to |all|
      invariant core + Kept(all[i..], rest) == Kept(all, rest)
    {
      assert all[i..][1..] == all[i + 1..];
      if all[i] in rest {
        core := core + [all[i]];
      }
    }
  }

  // ----- Which functions end up in some extension -----

  predicate Listed(spec: seq<Extension>, f: string) {
    exists e :: e in spec && f in e.functions
  }

  /** The element is replaced by a later one of the same name. */
  predicate Replaced(structs: seq<StructDef>, functions: seq<string>, tags: seq<Tag>, i: nat)
    requires i < |tags|
  {
    exists j :: i < j < |tags| && tags[j].name == tags[i].name && Stored(structs, functions, tags[j])
  }

  /** Elements mention the function, but every one of them is replaced. */
  predicate Dropped(structs: seq<StructDef>, functions: seq<string>, tags: seq<Tag>, f: string) {
    && MentionedIn(functions, tags, f)
    && forall i :: 0 <= i < |tags| && Mentions(functions, tags[i], f) ==> Replaced(structs, functions, tags, i)
  }

  /** An element is replaced if it was before, or if the last one replaces it. */
  lemma ReplacedMore(structs: seq<StructDef>, functions: seq<string>, tags: seq<Tag>, i: nat)
    requires i < |tags| - 1
    ensures var last := tags[|tags| - 1];
            Replaced(structs, functions, tags, i) <==>
            || Replaced(structs, functions, tags[..|tags| - 1], i)
            || (last.name == tags[i].name && Stored(structs, functions, last))
  {
    var init := tags[..|tags| - 1];
    assert forall j :: 0 <= j < |init| ==> init[j] == tags[j];
  }

  lemma {:induction false} EntriesAreLast(
      structs: seq<StructDef>, functions: seq<string>, tags: seq<Tag>, name: string)
    returns (i: nat)
    requires name in Entries(structs, functions, tags)
    ensures i < |tags| && tags[i].name == name && !Replaced(structs, functions, tags, i)
    ensures Stored(structs, functions, tags[i])
    ensures Entries(structs, functions, tags)[name] == Entry(structs, functions, tags[i])
    decreases |tags|
  {
    var n := |tags| - 1;
    if tags[n].name == name && Stored(structs, functions, tags[n]) {
      i := n;
    } else {
      i := EntriesAreLast(structs, functions, tags[..n], name);
      ReplacedMore(structs, functions, tags, i);
    }
  }

  lemma {:induction false} LastIsEntry(structs: seq<StructDef>, functions: seq<string>, tags: seq<Tag>, i: nat)
    requires i < |tags| && Stored(structs, functions, tags[i]) && !Replaced(structs, functions, tags, i)
    ensures tags[i].name in Entries(structs, functions, tags)
    ensures Entries(structs, functions, tags)[tags[i].name] == Entry(structs, functions, tags[i])
    decreases |tags|
  {
    var n := |tags| - 1;
    if i < n {
      ReplacedMore(structs, functions, tags, i);
      LastIsEntry(structs, functions, tags[..n], i);
    }
  }

  lemma {:induction false} LookupsMembers(entries: map<string, Extension>, keys: seq<string>, e: Extension)
    requires forall k <- keys :: k in entries
    ensures e in Lookups(entries, keys) <==> exists k :: k in keys && entries[k] == e
  {
    if keys == [] {
    } else {
      LookupsMembers(entries, keys[1..], e);
      assert keys[0] in keys;
    }
  }

  lemma {:induction false} KeptMembers(all: seq<string>, rest: set<string>, f: string)
    ensures f in Kept(all, rest) <==> f in all && f in rest
  {
    if all == [] {
    } else {
      KeptMembers(all[1..], rest, f);
    }
  }

  lemma CoreMembers(functions: seq<string>, tags: seq<Tag>, f: string)
    ensures f in CoreFunctions(functions, tags) <==> f in functions && !MentionedIn(functions, tags, f)
  {
    KeptMembers(functions, (set g | g in functions && !MentionedIn(functions, tags, g)), f);
  }

  lemma CollectedMembers(structs: seq<StructDef>, functions: seq<string>, tags: seq<Tag>, e: Extension)
    ensures e in Collected(structs, functions, tags) <==>
              e == CoreExtension(structs, functions, tags) || e in Entries(structs, functions, tags).Values
  {
    var entries, keys := Entries(structs, functions, tags), Keys(structs, functions, tags);
    KeysOfEntries(structs, functions, tags);
    forall k: string
      ensures k in Sort(keys) <==> k in entries
    {
      SortMembers(keys, k);
    }
    LookupsMembers(entries, Sort(keys), e);
    assert Collected(structs, functions, tags)
        == Lookups(entries, Sort(keys)) + [CoreExtension(structs, functions, tags)];
    if e in entries.Values {
      var n :| n in entries && entries[n] == e;
      assert n in Sort(keys);
    }
    if e in Lookups(entries, Sort(keys)) {
      var k :| k in Sort(keys) && entries[k] == e;
      assert k in entries && e in entries.Values;
    }
  }

  lemma ListedNotDropped(structs: seq<StructDef>, functions: seq<string>, tags: seq<Tag>, f: string)
    requires Listed(Collected(structs, functions, tags), f)
    ensures !Dropped(structs, functions, tags, f)
  {
    var e :| e in Collected(structs, functions, tags) && f in e.functions;
    CollectedMembers(structs, functions, tags, e);
    if e == CoreExtension(structs, functions, tags) {
      SortMembers(CoreFunctions(functions, tags), f);
      CoreMembers(functions, tags, f);
    } else {
      var n :| n in Entries(structs, functions, tags) && Entries(structs, functions, tags)[n] == e;
      var i := EntriesAreLast(structs, functions, tags, n);
      SortMembers(Picked(functions, tags[i].commands), f);
      assert Mentions(functions, tags[i], f);
    }
  }

  lemma NotDroppedListed(structs: seq<StructDef>, functions: seq<string>, tags: seq<Tag>, f: string)
    requires f in functions && !Dropped(structs, functions, tags, f)
    ensures Listed(Collected(structs, functions, tags), f)
  {
    if MentionedIn(functions, tags, f) {
      var i :| 0 <= i < |tags| && Mentions(functions, tags[i], f) && !Replaced(structs, functions, tags, i);
      LastIsEntry(structs, functions, tags, i);
      assert Entry(structs, functions, tags[i]) in Entries(structs, functions, tags).Values;
      CollectedMembers(structs, functions, tags, Entry(structs, functions, tags[i]));
      SortMembers(Picked(functions, tags[i].commands), f);
    } else {
      CoreMembers(functions, tags, f);
      SortMembers(CoreFunctions(functions, tags), f);
      CollectedMembers(structs, functions, tags, CoreExtension(structs, functions, tags));
    }
  }

  /** A function of the specification is listed under some extension, or as core, if and only if not
      every element that mentions it is replaced by a later element of the same name. */
  lemma CollectedCoversExactly(structs: seq<StructDef>, functions: seq<string>, tags: seq<Tag>, f: string)
    requires f in functions
    ensures Listed(Collected(structs, functions, tags), f) <==> !Dropped(structs, functions, tags, f)
  {
    if Listed(Collected(structs, functions, tags), f) {
      ListedNotDropped(structs, functions, tags, f);
    } else if !Dropped(structs, functions, tags, f) {
      NotDroppedListed(structs, functions, tags, f);
    }
  }

  /** The extensions have distinct names. */
  lemma CollectedDistinct(structs: seq<StructDef>, functions: seq<string>, tags: seq<Tag>)
    ensures DistinctExtensions(Collected(structs, functions, tags))
  {
    var entries, sorted := Entries(structs, functions, tags), Sort(Keys(structs, functions, tags));
    SortedKeys(structs, functions, tags);
    LookupsDistinct(entries, sorted);
    CoreIsLast(Lookups(entries, sorted), sorted, CoreExtension(structs, functions, tags));
  }

  lemma SortedKeys(structs: seq<StructDef>, functions: seq<string>, tags: seq<Tag>)
    ensures var entries, sorted := Entries(structs, functions, tags), Sort(Keys(structs, functions, tags));
            DistinctNames(sorted) && forall k <- sorted :: k in entries && entries[k].name == Some(k)
  {
    var keys := Keys(structs, functions, tags);
    KeysOfEntries(structs, functions, tags);
    forall k | k in Sort(keys)
      ensures k in keys
    {
      SortMembers(keys, k);
    }
    DistinctCounts(keys);
    SortSorts(keys);
    CountsDistinct(Sort(keys));
  }

  lemma CoreIsLast(named: seq<Extension>, names: seq<string>, core: Extension)
    requires |named| == |names| && DistinctNames(names) && core.name == None
    requires forall i :: 0 <= i < |named| ==> named[i].name == Some(names[i])
    ensures DistinctExtensions(named + [core])
  {
  }

  lemma {:induction false} DistinctCounts(s: seq<string>)
    requires DistinctNames(s)
    ensures forall x :: multiset(s)[x] <= 1
  {
    if s == [] {
    } else {
      DistinctCounts(s[1..]);
      assert s == [s[0]] + s[1..];
    }
  }

  lemma CountsDistinct(s: seq<string>)
    requires forall x :: multiset(s)[x] <= 1
    ensures DistinctNames(s)
  {
    forall i, j | 0 <= i < j < |s|
      ensures s[i] != s[j]
    {
      assert s == s[..j] + [s[j]] + s[j + 1..];
      assert s[..j][i] == s[i];
      assert s[i] in multiset(s[..j]);
      assert multiset(s)[s[j]] == multiset(s[..j])[s[j]] + 1 + multiset(s[j + 1..])[s[j]];
    }
  }

  lemma {:induction false} LookupsDistinct(entries: map<string, Extension>, keys: seq<string>)
    requires forall k <- keys :: k in entries && entries[k].name == Some(k)
    requires DistinctNames(keys)
    ensures |Lookups(entries, keys)| == |keys|
    ensures forall i :: 0 <= i < |keys| ==> Lookups(entries, keys)[i].name == Some(keys[i])
  {
    if keys == [] {
    } else {
      LookupsDistinct(entries, keys[1..]);
    }
  }

  lemma UnlistedIsOld(spec: seq<Extension>, ids: IdFile, f: string)
    requires WireId(Update(spec, ids), f).Some? && !Listed(spec, f)
    ensures exists k :: 0 <= k < |ids| && Has(ids[k].functions, f)
  {
    var j := OwnerDecides(Update(spec, ids), f);
    if !(j < |ids| && Has(ids[j].functions, f)) {
      Origin(spec, ids, j, f);
    }
  }

  /** From the specification to the wire: after an update, a function of the specification has a wire id
      if and only if it is listed somewhere or the file had it already. */
  lemma HasWireIdExactly(
      structs: seq<StructDef>, functions: seq<string>, tags: seq<Tag>, ids: IdFile, f: string)
    requires f in functions
    ensures WireId(Update(Collected(structs, functions, tags), ids), f).Some? <==>
            !Dropped(structs, functions, tags, f) || exists k :: 0 <= k < |ids| && Has(ids[k].functions, f)
  {
    var spec := Collected(structs, functions, tags);
    var after := Update(spec, ids);
    CollectedCoversExactly(structs, functions, tags, f);
    CollectedDistinct(structs, functions, tags);
    if Listed(spec, f) {
      var e :| e in spec && f in e.functions;
      UpdateCovers(spec, ids, e);
      ListedHasWireId(after, Find(after, e.name), f);
    } else if k :| 0 <= k < |ids| && Has(ids[k].functions, f) {
      UpdateGrows(spec, ids);
      assert GrownEntry(ids[k], after[k]);
      HasPrefix(ids[k].functions, after[k].functions, f);
      ListedHasWireId(after, k, f);
    } else if WireId(after, f).Some? {
      UnlistedIsOld(spec, ids, f);
    }
  }

  lemma OnePicked(defined: seq<string>, name: string)
    ensures Picked(defined, [name]) == if name in defined then [name] else []
  {
    assert [name][..0] == [];
  }

  lemma FirstIsDropped(functions: seq<string>, a: Tag, b: Tag, f: string)
    requires a.name == b.name && Mentions(functions, a, f) && !Mentions(functions, b, f)
    requires Stored([], functions, b)
    ensures Dropped([], functions, [a, b], f)
  {
    var tags := [a, b];
    assert tags[0] == a && tags[1] == b;
    assert Replaced([], functions, tags, 0);
  }

  /** Two elements of the same name: the first one's function gets no wire id in a fresh file. */
  lemma RepeatedElementDrops(f: string, g: string)
    requires f != g
    ensures var tags := [Tag("A", 1, [], [f], []), Tag("A", 1, [], [g], [])];
            Dropped([], [f, g], tags, f) && WireId(Update(Collected([], [f, g], tags), []), f) == None
  {
    var a, b := Tag("A", 1, [], [f], []), Tag("A", 1, [], [g], []);
    assert f in [f, g] && g in [f, g];
    OnePicked([f, g], f);
    OnePicked([f, g], g);
    FirstIsDropped([f, g], a, b, f);
    HasWireIdExactly([], [f, g], [a, b], [], f);
  }

  // ----- How often an extension lists a struct -----

  /** How many of the added structure types belong to the struct. */
  function TypesOf(structs: seq<StructDef>, enums: seq<string>, name: string): nat
    decreases |enums|
  {
    if enums == [] then 0
    else
      var n := |enums| - 1;
      TypesOf(structs, enums[..n], name) + if OfType(structs, enums[n]) == Some(name) then 1 else 0
  }

  lemma {:induction false} PickedCount(defined: seq<string>, names: seq<string>, x: string)
    ensures multiset(Picked(defined, names))[x] == if x in defined then multiset(names)[x] else 0
    decreases |names|
  {
    if names == [] {
    } else {
      var n := |names| - 1;
      PickedCount(defined, names[..n], x);
      assert names == names[..n] + [names[n]];
    }
  }

  lemma {:induction false} PickedByTypeCount(structs: seq<StructDef>, enums: seq<string>, name: string)
    ensures multiset(PickedByType(structs, enums))[name] == TypesOf(structs, enums, name)
    decreases |enums|
  {
    if enums == [] {
    } else {
      PickedByTypeCount(structs, enums[..|enums| - 1], name);
    }
  }

  /** An extension lists a struct once for every time its element requires it by name, and once more for
      every structure type of the struct that the element adds; nothing removes the repetition. */
  lemma StructMultiplicity(structs: seq<StructDef>, functions: seq<string>, tag: Tag, name: string)
    requires name in StructNames(structs)
    ensures multiset(Entry(structs, functions, tag).structs)[name] ==
            multiset(tag.types)[name] + TypesOf(structs, tag.enums, name)
  {
    SortSorts(PickedStructs(structs, tag));
    PickedCount(StructNames(structs), tag.types, name);
    PickedByTypeCount(structs, tag.enums, name);
  }

  // ----- What is collected, read off the specification -----

  /** Struct i is the first with the structure type. */
  predicate IsFirstOfType(structs: seq<StructDef>, xrType: string, i: int) {
    && 0 <= i < |structs| && structs[i].xrType == Some(xrType)
    && forall j :: 0 <= j < i ==> structs[j].xrType != Some(xrType)
  }

  lemma {:induction false} OfTypeExactly(structs: seq<StructDef>, xrType: string, name: string)
    ensures OfType(structs, xrType) == Some(name) <==>
              exists i :: IsFirstOfType(structs, xrType, i) && structs[i].name == name
  {
    if structs == [] {
    } else if structs[0].xrType == Some(xrType) {
      assert IsFirstOfType(structs, xrType, 0);
    } else {
      var rest := structs[1..];
      OfTypeExactly(rest, xrType, name);
      if i :| IsFirstOfType(rest, xrType, i) && rest[i].name == name {
        assert IsFirstOfType(structs, xrType, i + 1);
      }
      if i :| IsFirstOfType(structs, xrType, i) && structs[i].name == name {
        assert IsFirstOfType(rest, xrType, i - 1);
      }
    }
  }

  /** The element mentions the struct: by name, or by adding a structure type that it is the first with. */
  ghost predicate MentionsStruct(structs: seq<StructDef>, tag: Tag, name: string) {
    || (name in tag.types && exists i :: 0 <= i < |structs| && structs[i].name == name)
    || exists t, i :: t in tag.enums && IsFirstOfType(structs, t, i) && structs[i].name == name
  }

  lemma {:induction false} PickedByTypeExactly(structs: seq<StructDef>, enums: seq<string>, name: string)
    ensures name in PickedByType(structs, enums) <==>
              exists t, i :: t in enums && IsFirstOfType(structs, t, i) && structs[i].name == name
    decreases |enums|
  {
    if enums == [] {
    } else {
      var n := |enums| - 1;
      PickedByTypeExactly(structs, enums[..n], name);
      OfTypeExactly(structs, enums[n], name);
      assert enums == enums[..n] + [enums[n]];
    }
  }

  lemma PickedStructsExactly(structs: seq<StructDef>, tag: Tag, name: string)
    ensures name in PickedStructs(structs, tag) <==> MentionsStruct(structs, tag, name)
  {
    var names := StructNames(structs);
    PickedCount(names, tag.types, name);
    PickedByTypeExactly(structs, tag.enums, name);
    assert name in Picked(names, tag.types) <==> multiset(Picked(names, tag.types))[name] > 0;
    assert forall i :: 0 <= i < |structs| ==> names[i] == structs[i].name;
  }

  lemma MentionsExactly(functions: seq<string>, tag: Tag, f: string)
    ensures Mentions(functions, tag, f) <==> f in functions && f in tag.commands
  {
    PickedCount(functions, tag.commands, f);
    assert Mentions(functions, tag, f) <==> multiset(Picked(functions, tag.commands))[f] > 0;
  }

  /** An element is stored if it mentions a function or a struct of the specification. */
  lemma StoredExactly(structs: seq<StructDef>, functions: seq<string>, tag: Tag)
    ensures Stored(structs, functions, tag) <==>
              || (exists f :: f in functions && f in tag.commands)
              || exists s :: MentionsStruct(structs, tag, s)
  {
    var byName, commands := PickedStructs(structs, tag), Picked(functions, tag.commands);
    if commands != [] {
      MentionsExactly(functions, tag, commands[0]);
    } else if f :| f in functions && f in tag.commands {
      MentionsExactly(functions, tag, f);
    }
    if byName != [] {
      PickedStructsExactly(structs, tag, byName[0]);
    } else if s :| MentionsStruct(structs, tag, s) {
      PickedStructsExactly(structs, tag, s);
    }
  }

  /** The extension of an element: its name and number, and, in name order, the commands that are functions
      of the specification, each as often as the element requires it, and its structs. */
  ghost predicate IsEntryOf(structs: seq<StructDef>, functions: seq<string>, tag: Tag, e: Extension) {
    && e.name == Some(tag.name) && e.number == tag.number
    && IsSorted(e.functions) && IsSorted(e.structs)
    && (forall f :: multiset(e.functions)[f] == if f in functions then multiset(tag.commands)[f] else 0)
    && (forall s :: s in e.structs <==> MentionsStruct(structs, tag, s))
  }

  lemma EntryExactly(structs: seq<StructDef>, functions: seq<string>, tag: Tag)
    ensures IsEntryOf(structs, functions, tag, Entry(structs, functions, tag))
  {
    SortSorts(PickedStructs(structs, tag));
    SortSorts(Picked(functions, tag.commands));
    forall f: string
      ensures multiset(Picked(functions, tag.commands))[f] == if f in functions then multiset(tag.commands)[f] else 0
    {
      PickedCount(functions, tag.commands, f);
    }
    forall s: string
      ensures s in Sort(PickedStructs(structs, tag)) <==> MentionsStruct(structs, tag, s)
    {
      SortMembers(PickedStructs(structs, tag), s);
      PickedStructsExactly(structs, tag, s);
    }
  }

  /** The core: in name order, the functions and structs of the specification that no element mentions. */
  ghost predicate IsCore(structs: seq<StructDef>, functions: seq<string>, tags: seq<Tag>, e: Extension) {
    && e.name == None && e.number == 0 && IsSorted(e.functions) && IsSorted(e.structs)
    && (forall f :: multiset(e.functions)[f] ==
          if exists i :: 0 <= i < |tags| && f in tags[i].commands then 0 else multiset(functions)[f])
    && (forall s :: multiset(e.structs)[s] ==
          if exists i :: 0 <= i < |tags| && MentionsStruct(structs, tags[i], s) then 0
          else multiset(StructNames(structs))[s])
  }

  lemma {:induction false} KeptCounts(all: seq<string>, rest: set<string>, x: string)
    ensures multiset(Kept(all, rest))[x] == if x in rest then multiset(all)[x] else 0
  {
    if all == [] {
    } else {
      KeptCounts(all[1..], rest, x);
      assert all == [all[0]] + all[1..];
    }
  }

  lemma CoreFunctionsCount(functions: seq<string>, tags: seq<Tag>, f: string)
    ensures multiset(CoreFunctions(functions, tags))[f] ==
            if exists i :: 0 <= i < |tags| && f in tags[i].commands then 0 else multiset(functions)[f]
  {
    KeptCounts(functions, (set g | g in functions && !MentionedIn(functions, tags, g)), f);
    forall i | 0 <= i < |tags|
      ensures Mentions(functions, tags[i], f) <==> f in functions && f in tags[i].commands
    {
      MentionsExactly(functions, tags[i], f);
    }
  }

  lemma CoreStructsCount(structs: seq<StructDef>, tags: seq<Tag>, s: string)
    ensures multiset(CoreStructs(structs, tags))[s] ==
            if exists i :: 0 <= i < |tags| && MentionsStruct(structs, tags[i], s) then 0
            else multiset(StructNames(structs))[s]
  {
    var names := StructNames(structs);
    KeptCounts(names, (set x | x in names && !StructIn(structs, tags, x)), s);
    forall i | 0 <= i < |tags|
      ensures s in PickedStructs(structs, tags[i]) <==> MentionsStruct(structs, tags[i], s)
    {
      PickedStructsExactly(structs, tags[i], s);
    }
  }

  lemma CoreExactly(structs: seq<StructDef>, functions: seq<string>, tags: seq<Tag>)
    ensures IsCore(structs, functions, tags, CoreExtension(structs, functions, tags))
  {
    SortSorts(CoreFunctions(functions, tags));
    SortSorts(CoreStructs(structs, tags));
    forall f: string
      ensures multiset(CoreFunctions(functions, tags))[f] ==
              if exists i :: 0 <= i < |tags| && f in tags[i].commands then 0 else multiset(functions)[f]
    {
      CoreFunctionsCount(functions, tags, f);
    }
    forall s: string
      ensures multiset(CoreStructs(structs, tags))[s] ==
              if exists i :: 0 <= i < |tags| && MentionsStruct(structs, tags[i], s) then 0
              else multiset(StructNames(structs))[s]
    {
      CoreStructsCount(structs, tags, s);
    }
  }

  /** A later element of the same name that mentions something replaces the element. */
  ghost predicate IsReplaced(structs: seq<StructDef>, functions: seq<string>, tags: seq<Tag>, i: nat)
    requires i < |tags|
  {
    exists j :: i < j < |tags| && tags[j].name == tags[i].name && MentionsSome(structs, functions, tags[j])
  }

  ghost predicate MentionsSome(structs: seq<StructDef>, functions: seq<string>, tag: Tag) {
    || (exists f :: f in functions && f in tag.commands)
    || exists s :: MentionsStruct(structs, tag, s)
  }

  lemma ReplacedExactly(structs: seq<StructDef>, functions: seq<string>, tags: seq<Tag>, i: nat)
    requires i < |tags|
    ensures Replaced(structs, functions, tags, i) <==> IsReplaced(structs, functions, tags, i)
  {
    forall j | i < j < |tags|
      ensures Stored(structs, functions, tags[j]) <==> MentionsSome(structs, functions, tags[j])
    {
      StoredExactly(structs, functions, tags[j]);
    }
  }

  ghost predicate IsCollected(structs: seq<StructDef>, functions: seq<string>, tags: seq<Tag>, i: nat, e: Extension)
    requires i < |tags|
  {
    && MentionsSome(structs, functions, tags[i]) && !IsReplaced(structs, functions, tags, i)
    && IsEntryOf(structs, functions, tags[i], e)
  }

  lemma CollectedParts(structs: seq<StructDef>, functions: seq<string>, tags: seq<Tag>)
    ensures var spec, entries := Collected(structs, functions, tags), Entries(structs, functions, tags);
            var sorted := Sort(Keys(structs, functions, tags));
            && (forall k <- sorted :: k in entries)
            && |spec| == |sorted| + 1 && spec[..|sorted|] == Lookups(entries, sorted)
            && spec[|sorted|] == CoreExtension(structs, functions, tags)
  {
    var entries, sorted := Entries(structs, functions, tags), Sort(Keys(structs, functions, tags));
    SortedKeys(structs, functions, tags);
    LookupsDistinct(entries, sorted);
  }

  lemma CollectedInOrder(structs: seq<StructDef>, functions: seq<string>, tags: seq<Tag>, k: nat, l: nat)
    requires k < l < |Collected(structs, functions, tags)| - 1
    ensures var spec := Collected(structs, functions, tags);
            && spec[k].name.Some? && spec[l].name.Some? && spec[k].name != spec[l].name
            && Leq(spec[k].name.value, spec[l].name.value)
  {
    var entries, sorted := Entries(structs, functions, tags), Sort(Keys(structs, functions, tags));
    var spec := Collected(structs, functions, tags);
    CollectedParts(structs, functions, tags);
    SortedKeys(structs, functions, tags);
    SortSorts(Keys(structs, functions, tags));
    LookupsDistinct(entries, sorted);
    assert spec[k] == spec[..|sorted|][k] && spec[l] == spec[..|sorted|][l];
  }

  lemma CollectedComesFrom(structs: seq<StructDef>, functions: seq<string>, tags: seq<Tag>, k: nat)
    requires k < |Collected(structs, functions, tags)| - 1
    ensures ComesFrom(structs, functions, tags, Collected(structs, functions, tags), k)
  {
    var spec := Collected(structs, functions, tags);
    var entries, sorted := Entries(structs, functions, tags), Sort(Keys(structs, functions, tags));
    CollectedParts(structs, functions, tags);
    assert spec[k] == spec[..|sorted|][k];
    LookupsMembers(entries, sorted, spec[k]);
    var name :| name in sorted && entries[name] == spec[k];
    var i := EntriesAreLast(structs, functions, tags, name);
    StoredExactly(structs, functions, tags[i]);
    ReplacedExactly(structs, functions, tags, i);
    EntryExactly(structs, functions, tags[i]);
    assert IsCollected(structs, functions, tags, i, spec[k]);
  }

  lemma NameIsCollected(structs: seq<StructDef>, functions: seq<string>, tags: seq<Tag>, name: string)
    returns (k: nat)
    requires name in Entries(structs, functions, tags)
    ensures k < |Collected(structs, functions, tags)| - 1
    ensures Collected(structs, functions, tags)[k] == Entries(structs, functions, tags)[name]
  {
    var spec := Collected(structs, functions, tags);
    var entries, sorted := Entries(structs, functions, tags), Sort(Keys(structs, functions, tags));
    KeysOfEntries(structs, functions, tags);
    SortMembers(Keys(structs, functions, tags), name);
    CollectedParts(structs, functions, tags);
    LookupsMembers(entries, sorted, entries[name]);
    k :| 0 <= k < |sorted| && spec[..|sorted|][k] == entries[name];
  }

  lemma KeptIsEntry(structs: seq<StructDef>, functions: seq<string>, tags: seq<Tag>, i: nat)
    requires i < |tags| && MentionsSome(structs, functions, tags[i]) && !IsReplaced(structs, functions, tags, i)
    ensures tags[i].name in Entries(structs, functions, tags)
    ensures Entries(structs, functions, tags)[tags[i].name] == Entry(structs, functions, tags[i])
  {
    StoredExactly(structs, functions, tags[i]);
    ReplacedExactly(structs, functions, tags, i);
    LastIsEntry(structs, functions, tags, i);
  }

  ghost predicate InNameOrder(spec: seq<Extension>, k: nat, l: nat)
    requires k < l < |spec|
  {
    && spec[k].name.Some? && spec[l].name.Some? && spec[k].name != spec[l].name
    && Leq(spec[k].name.value, spec[l].name.value)
  }

  /** Extension k is that of an element that is not replaced. */
  ghost predicate ComesFrom(
      structs: seq<StructDef>, functions: seq<string>, tags: seq<Tag>, spec: seq<Extension>, k: nat)
    requires k < |spec|
  {
    exists i :: 0 <= i < |tags| && IsCollected(structs, functions, tags, i, spec[k])
  }

  /** Element i, unless it is replaced or mentions nothing, has its extension before the core. */
  ghost predicate IsThere(
      structs: seq<StructDef>, functions: seq<string>, tags: seq<Tag>, spec: seq<Extension>, i: nat)
    requires i < |tags|
  {
    MentionsSome(structs, functions, tags[i]) && !IsReplaced(structs, functions, tags, i) ==>
      exists k :: 0 <= k < |spec| - 1 && IsEntryOf(structs, functions, tags[i], spec[k])
  }

  lemma ElementIsThere(structs: seq<StructDef>, functions: seq<string>, tags: seq<Tag>, i: nat)
    requires i < |tags|
    ensures IsThere(structs, functions, tags, Collected(structs, functions, tags), i)
  {
    if MentionsSome(structs, functions, tags[i]) && !IsReplaced(structs, functions, tags, i) {
      KeptIsEntry(structs, functions, tags, i);
      EntryExactly(structs, functions, tags[i]);
      var k := NameIsCollected(structs, functions, tags, tags[i].name);
    }
  }

  /** What is collected: first, in name order and once for each name, an extension for every element that
      mentions something and is not replaced; last, the core. */
  lemma CollectedExactly(structs: seq<StructDef>, functions: seq<string>, tags: seq<Tag>)
    ensures var spec := Collected(structs, functions, tags); var n := |spec| - 1;
      && n >= 0 && IsCore(structs, functions, tags, spec[n])
      && (forall k, l :: 0 <= k < l < n ==> InNameOrder(spec, k, l))
      && (forall k :: 0 <= k < n ==> ComesFrom(structs, functions, tags, spec, k))
      && (forall i :: 0 <= i < |tags| ==> IsThere(structs, functions, tags, spec, i))
  {
    var spec := Collected(structs, functions, tags);
    var n := |spec| - 1;
    CollectedParts(structs, functions, tags);
    CoreExactly(structs, functions, tags);
    forall k, l | 0 <= k < l < n
      ensures InNameOrder(spec, k, l)
    {
      CollectedInOrder(structs, functions, tags, k, l);
    }
    forall k | 0 <= k < n
      ensures ComesFrom(structs, functions, tags, spec, k)
    {
      CollectedComesFrom(structs, functions, tags, k);
    }
    forall i | 0 <= i < |tags|
      ensures IsThere(structs, functions, tags, spec, i)
    {
      ElementIsThere(structs, functions, tags, i);
    }
  }
}
