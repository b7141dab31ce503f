/**
 The client runtime's entry points: which extensions and functions are available, creating the one
 instance, and looking up functions.
 */
module ClientEntry {
  import opened Options
  import opened FunctionTables
  import opened OpenXr

  const BOOT_FUNCTIONS: set<string> :=
    {"xrEnumerateInstanceExtensionProperties", "xrEnumerateApiLayerProperties", "xrCreateInstance"}

  const GET_TRANSPORT := "xrtransportGetTransport"

  const ANDROID_CREATE := "XR_KHR_android_create_instance"

  datatype ExtensionInfo = ExtensionInfo(version: nat, functions: seq<string>)

  datatype ModuleExtension = ModuleExtension(name: string, info: ExtensionInfo)

  datatype Module = Module(extensions: seq<ModuleExtension>, layers: seq<Layer>)

  // ----- Available extensions -----

  /** The tables generated for the build: compiled-in extensions with their versions, the functions
      of each, and the extensions this runtime implements itself on its platform. */
  datatype Build = Build(
    enabled: map<string, nat>, functions: map<string, seq<string>>, builtIn: map<string, ExtensionInfo>,
    core: seq<string>, android: bool, apiVersion: nat)
  {
    /** Both tables are generated from the same list. */
    predicate Valid() {
      enabled.Keys <= functions.Keys
    }
  }

  datatype Property = Property(name: string, version: nat)

  function Min(a: nat, b: nat): nat { if a < b then a else b }

  /** First entry wins, for names the build knows. */
  function RpcExtensions(build: Build, reported: seq<Property>): map<string, ExtensionInfo>
    requires build.Valid()
    decreases |reported|
  {
    if reported == [] then map[]
    else
      var before, p := RpcExtensions(build, reported[..|reported| - 1]), reported[|reported| - 1];
      if p.name !in build.enabled || p.name in before then before
      else before[p.name := ExtensionInfo(Min(build.enabled[p.name], p.version), build.functions[p.name])]
  }

  /** Last entry wins, for what modules provide. */
  function ModuleExtensions(
      base: map<string, ExtensionInfo>, provided: seq<ModuleExtension>): map<string, ExtensionInfo>
    decreases |provided|
  {
    if provided == [] then base
    else
      var last := provided[|provided| - 1];
      ModuleExtensions(base, provided[..|provided| - 1])[last.name := last.info]
  }

  function Provided(modules: seq<Module>): seq<ModuleExtension>
    decreases |modules|
  {
    if modules == [] then [] else Provided(modules[..|modules| - 1]) + modules[|modules| - 1].extensions
  }

  /** The extensions offered to the application; `reply` is what the server enumerates, None if
      either enumeration call fails. */
  function AvailableExtensions(
      build: Build, reply: Option<seq<Property>>, modules: seq<Module>): map<string, ExtensionInfo>
    requires build.Valid()
  {
    var base := match reply
      case None => map[]
      case Some(reported) => build.builtIn + RpcExtensions(build, reported);
    ModuleExtensions(base, Provided(modules))
  }

  method CollectRpcExtensions(
      build: Build, reply: Option<seq<Property>>)
    returns (available: map<string, ExtensionInfo>)
    requires build.Valid()
    ensures available == AvailableExtensions(build, reply, [])
  {
    available := map[];
    if reply.None? {
      return;
    }
    var reported := reply.value;
    for i := 0 to |reported|
      invariant available == RpcExtensions(build, reported[..i])
    {
      assert reported[..i + 1][..i] == reported[..i];
      var p := reported[i];
      if p.name !in build.enabled {
        continue;
      }
      var version := Min(build.enabled[p.name], p.version);
      if p.name !in available {
        available := available[p.name := ExtensionInfo(version, build.functions[p.name])];
      }
    }
    assert reported[..|reported|] == reported;
    available := build.builtIn + available;
  }

  method AddModuleExtensions(base: map<string, ExtensionInfo>, extensions: seq<ModuleExtension>)
    returns (available: map<string, ExtensionInfo>)
    ensures available == ModuleExtensions(base, extensions)
  {
    available := base;
    for j := 0 to |extensions|
      invariant available == ModuleExtensions(base, extensions[..j])
    {
      assert extensions[..j + 1][..j] == extensions[..j];
      available := available[extensions[j].name := extensions[j].info];
    }
    assert extensions[..|extensions|] == extensions;
  }

  lemma {:induction false} ModuleExtensionsJoin(
      base: map<string, ExtensionInfo>, a: seq<ModuleExtension>, b: seq<ModuleExtension>)
    ensures ModuleExtensions(base, a + b) == ModuleExtensions(ModuleExtensions(base, a), b)
    decreases |b|
  {
    if b == [] {
      assert a + b == a;
    } else {
      assert (a + b)[..|a + b| - 1] == a + b[..|b| - 1];
      ModuleExtensionsJoin(base, a, b[..|b| - 1]);
    }
  }

  method CollectAvailableExtensions(build: Build, reply: Option<seq<Property>>, modules: seq<Module>)
    returns (available: map<string, ExtensionInfo>)
    requires build.Valid()
    ensures available == AvailableExtensions(build, reply, modules)
  {
    available := CollectRpcExtensions(build, reply);
    ghost var base := available;
    for i := 0 to |modules|
      invariant available == ModuleExtensions(base, Provided(modules[..i]))
    {
      assert modules[..i + 1][..i] == modules[..i];
      ModuleExtensionsJoin(base, Provided(modules[..i]), modules[i].extensions);
      available := AddModuleExtensions(available, modules[i].extensions);
    }
    assert modules[..|modules|] == modules;
  }

  /** What the server contributes: exactly the reported extensions the build knows, each at the lower
      of its two versions, taken from its first report. */
  lemma {:induction false} RpcExtensionsMeaning(build: Build, reported: seq<Property>, name: string)
    requires build.Valid()
    ensures name in RpcExtensions(build, reported) <==>
              name in build.enabled && exists i :: 0 <= i < |reported| && reported[i].name == name
    decreases |reported|
  {
    if reported == [] {
    } else {
      var init := reported[..|reported| - 1];
      RpcExtensionsMeaning(build, init, name);
      assert forall i :: 0 <= i < |init| ==> init[i] == reported[i];
    }
  }

  lemma {:induction false} FirstReportWins(build: Build, reported: seq<Property>, i: nat)
    requires build.Valid()
    requires i < |reported| && reported[i].name in build.enabled
    requires forall j :: 0 <= j < i ==> reported[j].name != reported[i].name
    ensures var name := reported[i].name;
            name in RpcExtensions(build, reported) &&
            var version := if reported[i].version <= build.enabled[name] then reported[i].version
                           else build.enabled[name];
            RpcExtensions(build, reported)[name] == ExtensionInfo(version, build.functions[name])
    decreases |reported|
  {
    var init, name := reported[..|reported| - 1], reported[i].name;
    if i < |init| {
      FirstReportWins(build, init, i);
    } else {
      RpcExtensionsMeaning(build, init, name);
    }
  }

  /** Modules override the server, and a later module entry overrides an earlier one. */
  lemma {:induction false} LastModuleWins(base: map<string, ExtensionInfo>, provided: seq<ModuleExtension>, i: nat)
    requires i < |provided|
    requires forall j :: i < j < |provided| ==> provided[j].name != provided[i].name
    ensures var name := provided[i].name;
            name in ModuleExtensions(base, provided) && ModuleExtensions(base, provided)[name] == provided[i].info
    decreases |provided|
  {
    if i < |provided| - 1 {
      LastModuleWins(base, provided[..|provided| - 1], i);
    }
  }

  /** Some module provides the extension. */
  ghost predicate HasModuleExtension(modules: seq<Module>, name: string) {
    exists i, j :: 0 <= i < |modules| && 0 <= j < |modules[i].extensions| && modules[i].extensions[j].name == name
  }

  lemma {:induction false} ProvidedIsHere(modules: seq<Module>, name: string)
    ensures (exists e :: e in Provided(modules) && e.name == name) <==> HasModuleExtension(modules, name)
    decreases |modules|
  {
    if modules == [] {
    } else {
      var n := |modules| - 1;
      var init := modules[..n];
      ProvidedIsHere(init, name);
      assert forall i :: 0 <= i < n ==> init[i] == modules[i];
      if HasModuleExtension(modules, name) {
        var i, j :| 0 <= i < |modules| && 0 <= j < |modules[i].extensions| && modules[i].extensions[j].name == name;
        assert i == n ==> modules[n].extensions[j] in Provided(modules);
        assert i < n ==> init[i].extensions[j].name == name;
      }
    }
  }

  /** What is offered in all: what modules provide, and, if the server could be asked, the extensions
      the runtime implements itself and those that are both reported and compiled in. */
  lemma {:induction false} AvailableMeaning(
      build: Build, reply: Option<seq<Property>>, modules: seq<Module>, name: string)
    requires build.Valid()
    ensures name in AvailableExtensions(build, reply, modules) <==>
              || HasModuleExtension(modules, name)
              || (reply.Some? && name in build.builtIn)
              || (reply.Some? && name in build.enabled &&
                  exists i :: 0 <= i < |reply.value| && reply.value[i].name == name)
  {
    var base := AvailableExtensions(build, reply, []);
    if reply.Some? {
      RpcExtensionsMeaning(build, reply.value, name);
    }
    ProvidedNames(base, Provided(modules), name);
    ProvidedIsHere(modules, name);
  }

  lemma {:induction false} ProvidedNames(
      base: map<string, ExtensionInfo>, provided: seq<ModuleExtension>, name: string)
    ensures name in ModuleExtensions(base, provided) <==>
              name in base || exists e :: e in provided && e.name == name
    decreases |provided|
  {
    if provided == [] {
    } else {
      var init, last := provided[..|provided| - 1], provided[|provided| - 1];
      ProvidedNames(base, init, name);
      assert provided == init + [last];
    }
  }

  lemma {:induction false} ModulesKeepOthers(
      base: map<string, ExtensionInfo>, provided: seq<ModuleExtension>, name: string)
    requires forall e <- provided :: e.name != name
    ensures name in ModuleExtensions(base, provided) <==> name in base
    ensures name in base ==> ModuleExtensions(base, provided)[name] == base[name]
    decreases |provided|
  {
    if provided == [] {
    } else {
      assert provided[|provided| - 1] in provided;
      ModulesKeepOthers(base, provided[..|provided| - 1], name);
    }
  }

  /** No module entry with the name comes after entry j of module i. */
  ghost predicate IsLastEntry(modules: seq<Module>, i: nat, j: nat)
    requires i < |modules| && j < |modules[i].extensions|
  {
    forall k, l :: 0 <= k < |modules| && 0 <= l < |modules[k].extensions| && (k > i || (k == i && l > j)) ==>
      modules[k].extensions[l].name != modules[i].extensions[j].name
  }

  lemma {:induction false} LastEntryWins(base: map<string, ExtensionInfo>, modules: seq<Module>, i: nat, j: nat)
    requires i < |modules| && j < |modules[i].extensions| && IsLastEntry(modules, i, j)
    ensures var e, all := modules[i].extensions[j], ModuleExtensions(base, Provided(modules));
            e.name in all && all[e.name] == e.info
    decreases |modules|
  {
    var n := |modules| - 1;
    var init, last := modules[..n], modules[n].extensions;
    var before := ModuleExtensions(base, Provided(init));
    ModuleExtensionsJoin(base, Provided(init), last);
    if i == n {
      LastModuleWins(before, last, j);
    } else {
      assert forall k :: 0 <= k < n ==> init[k] == modules[k];
      assert IsLastEntry(init, i, j);
      LastEntryWins(base, init, i, j);
      ModulesKeepOthers(before, last, modules[i].extensions[j].name);
    }
  }

  /** Which entry is offered for a name: that of the last module entry with the name; without one, that
      of the first report, at the lower version, if the build knows it; else the built-in one. */
  lemma OfferedEntry(build: Build, reply: Option<seq<Property>>, modules: seq<Module>, name: string)
    requires build.Valid() && name in AvailableExtensions(build, reply, modules)
    ensures var entry := AvailableExtensions(build, reply, modules)[name];
      && (forall i, j :: 0 <= i < |modules| && 0 <= j < |modules[i].extensions| ==>
            modules[i].extensions[j].name == name && IsLastEntry(modules, i, j) ==>
              entry == modules[i].extensions[j].info)
      && (!HasModuleExtension(modules, name) ==>
            && reply.Some?
            && (forall i :: 0 <= i < |reply.value| && IsFirstReport(reply.value, i) && reply.value[i].name == name ==>
                  if name in build.enabled then
                    && entry.functions == build.functions[name]
                    && entry.version == (if reply.value[i].version <= build.enabled[name] then reply.value[i].version
                                         else build.enabled[name])
                  else name in build.builtIn && entry == build.builtIn[name])
            && ((forall p <- reply.value :: p.name != name) ==>
                  name in build.builtIn && entry == build.builtIn[name]))
  {
    var entry := AvailableExtensions(build, reply, modules)[name];
    var base := AvailableExtensions(build, reply, []);
    forall i, j | 0 <= i < |modules| && 0 <= j < |modules[i].extensions|
      ensures modules[i].extensions[j].name == name && IsLastEntry(modules, i, j) ==>
                entry == modules[i].extensions[j].info
    {
      if modules[i].extensions[j].name == name && IsLastEntry(modules, i, j) {
        LastEntryWins(base, modules, i, j);
      }
    }
    if !HasModuleExtension(modules, name) {
      ProvidedIsHere(modules, name);
      ModulesKeepOthers(base, Provided(modules), name);
      RpcExtensionsMeaning(build, reply.value, name);
      forall i | 0 <= i < |reply.value| && IsFirstReport(reply.value, i) && reply.value[i].name == name
        ensures name in build.enabled ==>
                  name in RpcExtensions(build, reply.value) && entry == RpcExtensions(build, reply.value)[name]
        ensures name in build.enabled ==>
                  && entry.functions == build.functions[name]
                  && entry.version == if reply.value[i].version <= build.enabled[name] then reply.value[i].version
                                      else build.enabled[name]
      {
        if name in build.enabled {
          FirstReportWins(build, reply.value, i);
        }
      }
    }
  }

  ghost predicate IsFirstReport(reported: seq<Property>, i: nat)
    requires i < |reported|
  {
    forall j :: 0 <= j < i ==> reported[j].name != reported[i].name
  }
}
