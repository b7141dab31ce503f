/**
 Start-up of the client runtime: fill the function table, layer the built-in functions and those of
 the modules, and collect the extensions.  What start-up promises is that a function which becomes
 available later is in the table.
 */
module Negotiation {
  import opened Options
  import opened FunctionTables
  import opened OpenXr
  import opened ClientEntry
  import opened ClientInstance

  function ModuleLayers(modules: seq<Module>): seq<Layer>
    decreases |modules|
  {
    if modules == [] then [] else ModuleLayers(modules[..|modules| - 1]) + modules[|modules| - 1].layers
  }

  /** Where the layers of module i start. */
  function LayersBefore(modules: seq<Module>, i: nat): nat
    requires i <= |modules|
  {
    if i == 0 then 0 else LayersBefore(modules, i - 1) + |modules[i - 1].layers|
  }

  lemma {:induction false} LayersBeforePrefix(modules: seq<Module>, n: nat, i: nat)
    requires i <= n <= |modules|
    ensures LayersBefore(modules[..n], i) == LayersBefore(modules, i)
  {
    if i == 0 {
    } else {
      LayersBeforePrefix(modules, n, i - 1);
    }
  }

  lemma {:induction false} ModuleLayersLength(modules: seq<Module>)
    ensures |ModuleLayers(modules)| == LayersBefore(modules, |modules|)
    decreases |modules|
  {
    if modules == [] {
    } else {
      ModuleLayersLength(modules[..|modules| - 1]);
      LayersBeforePrefix(modules, |modules| - 1, |modules| - 1);
    }
  }

  /** The layers of all modules are those of the first module, then those of the second, and so on. */
  lemma {:induction false} ModuleLayersAt(modules: seq<Module>, i: nat, j: nat)
    requires i < |modules| && j < |modules[i].layers|
    ensures |ModuleLayers(modules)| == LayersBefore(modules, |modules|)
    ensures LayersBefore(modules, i) + j < |ModuleLayers(modules)|
    ensures ModuleLayers(modules)[LayersBefore(modules, i) + j] == modules[i].layers[j]
    decreases |modules|
  {
    var n := |modules| - 1;
    ModuleLayersLength(modules);
    ModuleLayersLength(modules[..n]);
    LayersBeforePrefix(modules, n, n);
    LayersBeforePrefix(modules, n, i);
    if i < n {
      ModuleLayersAt(modules[..n], i, j);
    }
  }

  lemma {:induction false} AddLayersJoin(t: Tables, a: seq<Layer>, b: seq<Layer>)
    ensures AddLayers(t, a + b) == AddLayers(AddLayers(t, a), b)
    decreases |b|
  {
    if b == [] {
      assert a + b == a;
    } else {
      assert (a + b)[..|a + b| - 1] == a + b[..|b| - 1];
      AddLayersJoin(t, a, b[..|b| - 1]);
    }
  }

  method LayerModuleFunctions(functions: FunctionTable, slots: Slots, modules: seq<Module>)
    modifies functions, slots
    ensures Tables(functions.table, slots.saved)
         == AddLayers(Tables(old(functions.table), old(slots.saved)), ModuleLayers(modules))
  {
    ghost var start := Tables(functions.table, slots.saved);
    for i := 0 to |modules|
      invariant Tables(functions.table, slots.saved) == AddLayers(start, ModuleLayers(modules[..i]))
    {
      assert modules[..i + 1][..i] == modules[..i];
      AddLayersJoin(start, ModuleLayers(modules[..i]), modules[i].layers);
      LayerFunctions(functions, slots, modules[i].layers);
    }
    assert modules[..|modules|] == modules;
  }

  /** The RPC functions, under the built-in layers, under the layers of the modules in load order;
      and the extensions offered. */
  method Negotiate(
      build: Build, rpc: map<string, Pointer>, builtIn: seq<Layer>, reply: Option<seq<Property>>,
      modules: seq<Module>)
    returns (functions: FunctionTable, slots: Slots, setup: Setup)
    requires build.Valid()
    ensures fresh(functions) && fresh(slots)
    ensures Tables(functions.table, slots.saved) == AddLayers(Tables(rpc, map[]), builtIn + ModuleLayers(modules))
    ensures setup == Setup(build, AvailableExtensions(build, reply, modules), modules)
  {
    functions := new FunctionTable(rpc);
    slots := new Slots();
    LayerFunctions(functions, slots, builtIn);
    var extensions := CollectAvailableExtensions(build, reply, modules);
    LayerModuleFunctions(functions, slots, modules);
    AddLayersJoin(Tables(rpc, map[]), builtIn, ModuleLayers(modules));
    setup := Setup(build, extensions, modules);
  }

  /** The name has an RPC function or some layer. */
  ghost predicate Implemented(rpc: map<string, Pointer>, layers: seq<Layer>, name: string) {
    name in rpc || exists k :: 0 <= k < |layers| && layers[k].name == name
  }

  lemma {:induction false} ImplementedIsInTable(t: Tables, layers: seq<Layer>, name: string)
    requires NULL !in t.table.Values && forall l <- layers :: l.fn != NULL
    ensures Lookup(AddLayers(t, layers).table, name) != NULL <==> Implemented(t.table, layers, name)
    decreases |layers|
  {
    if layers == [] {
      if name in t.table {
        assert t.table[name] in t.table.Values;
      }
    } else {
      var init := layers[..|layers| - 1];
      ImplementedIsInTable(t, init, name);
      assert forall k :: 0 <= k < |init| ==> init[k] == layers[k];
      assert layers[|layers| - 1] in layers;
    }
  }

  /** Every function a list names is implemented. */
  ghost predicate AllImplemented(rpc: map<string, Pointer>, layers: seq<Layer>, names: seq<string>) {
    forall n <- names :: Implemented(rpc, layers, n)
  }

  /** What the generator and the module authors owe: the boot and core functions, the functions of
      every compiled-in or built-in extension, and those of every extension a module offers are
      implemented by RPC or by some layer. */
  ghost predicate Owed(build: Build, rpc: map<string, Pointer>, layers: seq<Layer>, modules: seq<Module>)
    requires build.Valid()
  {
    && (forall n <- BOOT_FUNCTIONS :: Implemented(rpc, layers, n))
    && AllImplemented(rpc, layers, build.core)
    && (forall e <- build.enabled :: AllImplemented(rpc, layers, build.functions[e]))
    && (forall e <- build.builtIn :: AllImplemented(rpc, layers, build.builtIn[e].functions))
    && (forall e <- Provided(modules) :: AllImplemented(rpc, layers, e.info.functions))
  }

  lemma {:induction false} RpcFunctionsOwed(build: Build, reported: seq<Property>, name: string)
    requires build.Valid() && name in RpcExtensions(build, reported)
    ensures name in build.enabled && RpcExtensions(build, reported)[name].functions == build.functions[name]
    decreases |reported|
  {
    var init := reported[..|reported| - 1];
    if name in RpcExtensions(build, init) {
      RpcFunctionsOwed(build, init, name);
    }
  }

  lemma {:induction false} ModuleFunctionsOwed(
      base: map<string, ExtensionInfo>, provided: seq<ModuleExtension>, name: string)
    requires name in ModuleExtensions(base, provided)
    ensures (name in base && ModuleExtensions(base, provided)[name] == base[name]) ||
            exists e :: e in provided && ModuleExtensions(base, provided)[name] == e.info
    decreases |provided|
  {
    if provided == [] {
    } else {
      var init, last := provided[..|provided| - 1], provided[|provided| - 1];
      assert last in provided;
      if name != last.name {
        ModuleFunctionsOwed(base, init, name);
        if e :| e in init && ModuleExtensions(base, init)[name] == e.info {
          assert e in provided;
        }
      }
    }
  }

  /** After start-up, if everything owed is there, no state that create calls can reach has an
      available function without a table entry, and a lookup of an available function through the
      saved instance gives the topmost layer of that function. */
  lemma AvailableMeansCallable(
    build: Build, rpc: map<string, Pointer>, builtIn: seq<Layer>, reply: Option<seq<Property>>, modules: seq<Module>,
    calls: seq<Call>, transport: Pointer, name: string)
    requires build.Valid() && NULL !in rpc.Values
    requires forall l <- builtIn + ModuleLayers(modules) :: l.fn != NULL
    requires Owed(build, rpc, builtIn + ModuleLayers(modules), modules)
    requires name != GET_TRANSPORT
    ensures var layers := builtIn + ModuleLayers(modules);
            var table := AddLayers(Tables(rpc, map[]), layers).table;
            var c := Run(Setup(build, AvailableExtensions(build, reply, modules), modules), calls);
            && !MissingFromTable(c, table, name)
            && (name in c.functions && c.instance != NULL_INSTANCE ==>
                  LookupFunction(c, table, transport, c.instance, name) ==
                  LookupResult(SUCCESS, Some(Stack(rpc, layers, name)[0])))
  {
    var layers := builtIn + ModuleLayers(modules);
    var table := AddLayers(Tables(rpc, map[]), layers).table;
    var setup := Setup(build, AvailableExtensions(build, reply, modules), modules);
    forall n | n in BOOT_FUNCTIONS + Core(setup)
      ensures Lookup(table, n) != NULL
    {
      ImplementedIsInTable(Tables(rpc, map[]), layers, n);
    }
    forall e, f | e in setup.extensions && f in setup.extensions[e].functions
      ensures Lookup(table, f) != NULL
    {
      OfferedIsImplemented(build, rpc, layers, reply, modules, e);
      ImplementedIsInTable(Tables(rpc, map[]), layers, f);
    }
    ConsistentNeverMissing(setup, table, calls, name);
    TableIsStackTop(Tables(rpc, map[]), layers, name);
  }

  lemma OfferedIsImplemented(
    build: Build, rpc: map<string, Pointer>, layers: seq<Layer>, reply: Option<seq<Property>>, modules: seq<Module>,
    e: string)
    requires build.Valid() && Owed(build, rpc, layers, modules)
    requires e in AvailableExtensions(build, reply, modules)
    ensures AllImplemented(rpc, layers, AvailableExtensions(build, reply, modules)[e].functions)
  {
    var base := match reply
      case None => map[]
      case Some(reported) => build.builtIn + RpcExtensions(build, reported);
    ModuleFunctionsOwed(base, Provided(modules), e);
    if e in base && reply.Some? && e in RpcExtensions(build, reply.value) {
      RpcFunctionsOwed(build, reply.value, e);
    }
  }

  lemma {:induction false} TableIsStackTop(t: Tables, layers: seq<Layer>, name: string)
    ensures Stack(t.table, layers, name)[0] == Lookup(AddLayers(t, layers).table, name)
    decreases |layers|
  {
    if layers == [] {
    } else {
      TableIsStackTop(t, layers[..|layers| - 1], name);
    }
  }
}
