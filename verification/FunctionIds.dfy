/**
 The allocator of function ids on the wire.  An id file lists extensions in order, each with its own
 id and its functions' local ids; a function's wire id is 1000 times the extension id plus the
 local id.  The core functions are the extension without a name.
 */
module FunctionIds {
  import opened Options
  import opened Names

  /** An extension of the specification, or the core, with the names of its structs and functions. */
  datatype Extension = Extension(name: Option<string>, number: nat, structs: seq<string>, functions: seq<string>)

  datatype FunctionEntry = FunctionEntry(name: string, id: nat)

  datatype ExtensionEntry = ExtensionEntry(name: Option<string>, id: nat, functions: seq<FunctionEntry>)

  type IdFile = seq<ExtensionEntry>

  /** Consecutive ids from `start` on. */
  function Number(names: seq<string>, start: nat): (entries: seq<FunctionEntry>)
    ensures |entries| == |names|
  {
    seq(|names|, i requires 0 <= i < |names| => FunctionEntry(names[i], start + i))
  }

  function MaxId(functions: seq<FunctionEntry>): (m: nat)
    ensures forall f <- functions :: f.id <= m
  {
    if functions == [] then 0
    else
      var m := MaxId(functions[1..]);
      if functions[0].id < m then m else functions[0].id
  }

  predicate Has(functions: seq<FunctionEntry>, name: string) {
    exists i :: 0 <= i < |functions| && functions[i].name == name
  }

  function Missing(functions: seq<FunctionEntry>, names: seq<string>): seq<string> {
    if names == [] then []
    else (if Has(functions, names[0]) then [] else [names[0]]) + Missing(functions, names[1..])
  }

  function Extend(functions: seq<FunctionEntry>, names: seq<string>): seq<FunctionEntry> {
    functions + Number(Missing(functions, names), MaxId(functions) + 1)
  }

  /** The last entry of that name, or |ids|. */
  function Find(ids: IdFile, name: Option<string>): (k: nat)
    ensures k <= |ids|
    ensures k < |ids| ==> ids[k].name == name && forall i :: k < i < |ids| ==> ids[i].name != name
    ensures k == |ids| ==> forall i :: 0 <= i < |ids| ==> ids[i].name != name
  {
    if ids == [] then 0
    else if ids[|ids| - 1].name == name then |ids| - 1
    else
      var k := Find(ids[..|ids| - 1], name);
      if k == |ids| - 1 then |ids| else k
  }

  function NewEntry(e: Extension): ExtensionEntry {
    ExtensionEntry(e.name, e.number, Number(Sort(e.functions), 1))
  }

  /** One extension; `before` is the file as it was when the update began. */
  function UpdateOne(before: IdFile, ids: IdFile, e: Extension): IdFile
    requires |before| <= |ids|
  {
    var k := Find(before, e.name);
    if k < |before| then ids[k := ids[k].(functions := Extend(ids[k].functions, e.functions))]
    else ids + [NewEntry(e)]
  }

  function UpdateFrom(before: IdFile, spec: seq<Extension>): (ids: IdFile)
    ensures |before| <= |ids|
    decreases |spec|
  {
    if spec == [] then before
    else UpdateOne(before, UpdateFrom(before, spec[..|spec| - 1]), spec[|spec| - 1])
  }

  /** Adds what is new in `spec` to an id file. */
  function Update(spec: seq<Extension>, ids: IdFile): IdFile {
    UpdateFrom(ids, spec)
  }

  function GeneratedEntry(e: Extension): ExtensionEntry {
    ExtensionEntry(e.name, if e.name in {None, Some("")} then 0 else e.number, Number(Sort(e.functions), 1))
  }

  /** An id file from scratch. */
  function Generate(spec: seq<Extension>): (ids: IdFile)
    ensures |ids| == |spec|
  {
    seq(|spec|, i requires 0 <= i < |spec| => GeneratedEntry(spec[i]))
  }

  // ----- The generator as it runs -----

  /** Counts up from `start`. */
  method NumberNames(names: seq<string>, start: nat) returns (entries: seq<FunctionEntry>)
    ensures entries == Number(names, start)
  {
    entries := [];
    var counter := start;
    for i := 0 to |names|
      invariant counter == start + i && entries == Number(names[..i], start)
    {
      entries := entries + [FunctionEntry(names[i], counter)];
      counter := counter + 1;
    }
    assert names[..|names|] == names;
  }

  lemma NumberMore(names: seq<string>, x: string, start: nat)
    ensures Number(names + [x], start) == Number(names, start) + [FunctionEntry(x, start + |names|)]
  {
  }

  lemma {:induction false} MissingMore(functions: seq<FunctionEntry>, names: seq<string>, x: string)
    ensures Missing(functions, names + [x]) == Missing(functions, names) + if Has(functions, x) then [] else [x]
  {
    if names == [] {
      assert names + [x] == [x] && [x][1..] == [];
    } else {
      assert (names + [x])[0] == names[0] && (names + [x])[1..] == names[1..] + [x];
      MissingMore(functions, names[1..], x);
    }
  }

  method ExtendFunctions(functions: seq<FunctionEntry>, names: seq<string>) returns (extended: seq<FunctionEntry>)
    ensures extended == Extend(functions, names)
  {
    var existing := set f | f in functions :: f.name;
    var start := MaxId(functions) + 1;
    var counter := start;
    var added: seq<FunctionEntry> := [];
    for i := 0 to |names|
      invariant added == Number(Missing(functions, names[..i]), start) && counter == start + |added|
    {
      var x := names[i];
      assert names[..i + 1] == names[..i] + [x];
      MissingMore(functions, names[..i], x);
      assert x in existing <==> Has(functions, x);
      if x in existing {
        continue;
      }
      NumberMore(Missing(functions, names[..i]), x, start);
      added := added + [FunctionEntry(x, counter)];
      counter := counter + 1;
    }
    assert names[..|names|] == names;
    extended := functions + added;
  }

  lemma GenerateMore(spec: seq<Extension>, e: Extension)
    ensures Generate(spec + [e]) == Generate(spec) + [GeneratedEntry(e)]
  {
  }

  /** Where the last entry of each name is. */
  method IndexEntries(ids: IdFile) returns (existing: map<Option<string>, nat>)
    ensures forall n :: n in existing <==> Find(ids, n) < |ids|
    ensures forall n <- existing :: existing[n] == Find(ids, n)
  {
    existing := map[];
    for i := 0 to |ids|
      invariant forall n :: n in existing <==> Find(ids[..i], n) < i
      invariant forall n <- existing :: existing[n] == Find(ids[..i], n)
    {
      assert ids[..i + 1][..i] == ids[..i];
      existing := existing[ids[i].name := i];
    }
    assert ids[..|ids|] == ids;
  }

  class IdStore {
    var ids: IdFile

    constructor (ids: IdFile)
      ensures this.ids == ids
    {
      this.ids := ids;
    }

    method GenerateIds(spec: seq<Extension>)
      modifies this
      ensures ids == Generate(spec)
    {
      ids := [];
      for i := 0 to |spec|
        invariant ids == Generate(spec[..i])
      {
        var functions := NumberNames(Sort(spec[i].functions), 1);
        GenerateMore(spec[..i], spec[i]);
        assert spec[..i + 1] == spec[..i] + [spec[i]];
        var id := if spec[i].name in {None, Some("")} then 0 else spec[i].number;
        ids := ids + [ExtensionEntry(spec[i].name, id, functions)];
      }
      assert spec[..|spec|] == spec;
    }

    method UpdateIds(spec: seq<Extension>)
      modifies this
      ensures ids == Update(spec, old(ids))
    {
      ghost var before := ids;
      var existing := IndexEntries(ids);
      for i := 0 to |spec|
        invariant ids == UpdateFrom(before, spec[..i])
      {
        assert spec[..i + 1][..i] == spec[..i];
        var e := spec[i];
        if e.name in existing {
          var k := existing[e.name];
          var functions := ExtendFunctions(ids[k].functions, e.functions);
          ids := ids[k := ids[k].(functions := functions)];
        } else {
          var functions := NumberNames(Sort(e.functions), 1);
          ids := ids + [ExtensionEntry(e.name, e.number, functions)];
        }
      }
      assert spec[..|spec|] == spec;
    }
  }

  // ----- Wire ids -----

  /** The local id of the last entry of that name. */
  function LocalId(functions: seq<FunctionEntry>, name: string): Option<nat>
    decreases |functions|
  {
    if functions == [] then None
    else if functions[|functions| - 1].name == name then Some(functions[|functions| - 1].id)
    else LocalId(functions[..|functions| - 1], name)
  }

  function WithExtension(extension: nat, local: Option<nat>): Option<nat> {
    match local
    case Some(id) => Some(extension * 1000 + id)
    case None => None
  }

  /** The last entry in the file decides. */
  function WireId(ids: IdFile, name: string): Option<nat>
    decreases |ids|
  {
    if ids == [] then None
    else
      var e := ids[|ids| - 1];
      if LocalId(e.functions, name).Some? then WithExtension(e.id, LocalId(e.functions, name))
      else WireId(ids[..|ids| - 1], name)
  }

  class SpecFunction {
    const name: string
    var id: Option<nat>

    constructor (name: string)
      ensures this.name == name && id == None
    {
      this.name, id := name, None;
    }
  }

  /** What a function's id is once `pending` has been assigned over `current`. */
  function Assigned(current: Option<nat>, pending: Option<nat>): Option<nat> {
    if pending.Some? then pending else current
  }

  predicate DistinctFunctions(functions: seq<SpecFunction>)
  {
    forall i, j :: 0 <= i < j < |functions| ==> functions[i].name != functions[j].name
  }

  method FindFunction(functions: seq<SpecFunction>, name: string) returns (f: SpecFunction?)
    ensures f == null ==> forall g <- functions :: g.name != name
    ensures f != null ==> f in functions && f.name == name
  {
    for i := 0 to |functions|
      invariant forall k :: 0 <= k < i ==> functions[k].name != name
    {
      if functions[i].name == name {
        return functions[i];
      }
    }
    return null;
  }

  method ApplyEntry(functions: seq<SpecFunction>, e: ExtensionEntry)
    requires DistinctFunctions(functions)
    modifies functions
    ensures forall f <- functions ::
              f.id == Assigned(old(f.id), WithExtension(e.id, LocalId(e.functions, f.name)))
  {
    for j := 0 to |e.functions|
      invariant forall f <- functions ::
                  f.id == Assigned(old(f.id), WithExtension(e.id, LocalId(e.functions[..j], f.name)))
    {
      assert e.functions[..j + 1][..j] == e.functions[..j];
      var f := FindFunction(functions, e.functions[j].name);
      if f != null {
        f.id := Some(e.id * 1000 + e.functions[j].id);
      }
    }
    assert e.functions[..|e.functions|] == e.functions;
  }

  method ApplyFunctionIds(functions: seq<SpecFunction>, ids: IdFile)
    requires DistinctFunctions(functions)
    modifies functions
    ensures forall f <- functions :: f.id == Assigned(old(f.id), WireId(ids, f.name))
  {
    for i := 0 to |ids|
      invariant forall f <- functions :: f.id == Assigned(old(f.id), WireId(ids[..i], f.name))
    {
      assert ids[..i + 1][..i] == ids[..i];
      ApplyEntry(functions, ids[i]);
    }
    assert ids[..|ids|] == ids;
  }
}
