/**
 The client's function table and the layers put on top of it.  A function pointer is a number and
 null is 0.  A layer is a new function for a name together with the address of the save slot that
 the previous function is written to, through which the new function calls down.
 */
module FunctionTables {
  import opened Options

  type Pointer = nat

  const NULL: Pointer := 0

  datatype Layer = Layer(name: string, fn: Pointer, slot: nat)

  function Lookup(table: map<string, Pointer>, name: string): Pointer {
    if name in table then table[name] else NULL
  }

  class FunctionTable {
    var table: map<string, Pointer>

    constructor (rpc: map<string, Pointer>)
      ensures table == rpc
    {
      table := rpc;
    }

    method GetFunction(name: string) returns (fn: Pointer)
      ensures fn == if name in table then table[name] else 0
    {
      fn := if name in table then table[name] else NULL;
    }

    /** Puts `fn` in the table and hands out what was there before. */
    method AddFunctionLayer(name: string, fn: Pointer) returns (previous: Pointer)
      modifies this
      ensures previous == if name in old(table) then old(table)[name] else 0
      ensures table == old(table)[name := fn]
    {
      if name in table {
        previous := table[name];
        table := map n | n in table && n != name :: table[n];
      } else {
        previous := NULL;
      }
      table := table[name := fn];
    }
  }

  /** The memory the save slots live in. */
  class Slots {
    var saved: map<nat, Pointer>

    constructor ()
      ensures saved == map[]
    {
      saved := map[];
    }
  }

  datatype Tables = Tables(table: map<string, Pointer>, saved: map<nat, Pointer>)

  function AddLayer(t: Tables, l: Layer): Tables {
    Tables(t.table[l.name := l.fn], t.saved[l.slot := Lookup(t.table, l.name)])
  }

  /** Layers are added in order. */
  function AddLayers(t: Tables, layers: seq<Layer>): Tables
    decreases |layers|
  {
    if layers == [] then t
    else AddLayer(AddLayers(t, layers[..|layers| - 1]), layers[|layers| - 1])
  }

  method LayerFunctions(functions: FunctionTable, slots: Slots, layers: seq<Layer>)
    modifies functions, slots
    ensures Tables(functions.table, slots.saved) == AddLayers(Tables(old(functions.table), old(slots.saved)), layers)
  {
    ghost var start := Tables(functions.table, slots.saved);
    for i := 0 to |layers|
      invariant Tables(functions.table, slots.saved) == AddLayers(start, layers[..i])
    {
      var l := layers[i];
      var previous := functions.AddFunctionLayer(l.name, l.fn);
      slots.saved := slots.saved[l.slot := previous];
      assert layers[..i + 1][..i] == layers[..i];
    }
    assert layers[..|layers|] == layers;
  }

  // ----- Calling down the layers -----

  /** Function `fn` is one of the layers, and its save slot holds `below`. */
  ghost predicate CallsDown(layers: seq<Layer>, saved: map<nat, Pointer>, fn: Pointer, below: Pointer) {
    exists k :: 0 <= k < |layers| && layers[k].fn == fn && layers[k].slot in saved && saved[layers[k].slot] == below
  }

  ghost predicate IsLayer(layers: seq<Layer>, fn: Pointer) {
    exists k :: 0 <= k < |layers| && layers[k].fn == fn
  }

  /** `path` follows the saved pointers from `fn` until it leaves the layers. */
  ghost predicate CallChain(layers: seq<Layer>, saved: map<nat, Pointer>, fn: Pointer, path: seq<Pointer>) {
    && path != [] && path[0] == fn
    && (forall i :: 0 < i < |path| ==> CallsDown(layers, saved, path[i - 1], path[i]))
    && !IsLayer(layers, path[|path| - 1])
  }

  /** The layers of one name, most recent first, above what the table held at the start. */
  function Stack(start: map<string, Pointer>, layers: seq<Layer>, name: string): (stack: seq<Pointer>)
    ensures stack != []
    decreases |layers|
  {
    if layers == [] then [Lookup(start, name)]
    else
      var l := layers[|layers| - 1];
      var rest := Stack(start, layers[..|layers| - 1], name);
      if l.name == name then [l.fn] + rest else rest
  }

  ghost predicate DistinctLayers(start: map<string, Pointer>, layers: seq<Layer>) {
    && (forall i, j :: 0 <= i < j < |layers| ==> layers[i].fn != layers[j].fn && layers[i].slot != layers[j].slot)
    && (forall i :: 0 <= i < |layers| ==> layers[i].fn != NULL && layers[i].fn !in start.Values)
  }

  lemma OneMoreLayer(
      layers: seq<Layer>, l: Layer, before: map<nat, Pointer>, after: map<nat, Pointer>, fn: Pointer,
      path: seq<Pointer>)
    requires CallChain(layers, before, fn, path)
    requires forall k :: 0 <= k < |layers| ==> layers[k].slot != l.slot
    requires l.slot in after && after == before[l.slot := after[l.slot]]
    requires path[|path| - 1] != l.fn
    ensures CallChain(layers + [l], after, fn, path)
  {
    var all := layers + [l];
    forall i | 0 < i < |path|
      ensures CallsDown(all, after, path[i - 1], path[i])
    {
      assert CallsDown(layers, before, path[i - 1], path[i]);
      var k :| 0 <= k < |layers| && layers[k].fn == path[i - 1] &&
        layers[k].slot in before && before[layers[k].slot] == path[i];
      assert all[k] == layers[k];
    }
    assert forall k :: 0 <= k < |layers| ==> all[k] == layers[k];
  }

  lemma {:induction false} StackBottom(start: map<string, Pointer>, layers: seq<Layer>, name: string)
    ensures Stack(start, layers, name)[|Stack(start, layers, name)| - 1] == Lookup(start, name)
    decreases |layers|
  {
    if layers == [] {
    } else {
      StackBottom(start, layers[..|layers| - 1], name);
    }
  }

  /** For every name, calling down from the table entry visits exactly that name's layers, most
      recent first, and ends at the function the table held at the start, or null. */
  lemma {:induction false} LayersStack(t: Tables, layers: seq<Layer>, name: string)
    requires DistinctLayers(t.table, layers)
    ensures var all := AddLayers(t, layers);
            CallChain(layers, all.saved, Lookup(all.table, name), Stack(t.table, layers, name))
    decreases |layers|
  {
    if layers == [] {
      assert !IsLayer([], Lookup(t.table, name));
    } else {
      var init, l := layers[..|layers| - 1], layers[|layers| - 1];
      var before, after := AddLayers(t, init), AddLayers(t, layers);
      assert layers == init + [l];
      assert forall i :: 0 <= i < |init| ==> init[i] == layers[i];
      LayersStack(t, init, name);
      StackBottom(t.table, init, name);
      var path := Stack(t.table, init, name);
      OneMoreLayer(init, l, before.saved, after.saved, Lookup(before.table, name), path);
      if l.name == name {
        assert layers[|layers| - 1].fn == l.fn && after.saved[l.slot] == path[0];
        LayerOnTop(layers, after.saved, l.fn, path);
      }
    }
  }

  lemma LayerOnTop(layers: seq<Layer>, saved: map<nat, Pointer>, fn: Pointer, path: seq<Pointer>)
    requires path != [] && CallChain(layers, saved, path[0], path) && CallsDown(layers, saved, fn, path[0])
    ensures CallChain(layers, saved, fn, [fn] + path)
  {
    var longer := [fn] + path;
    forall i | 0 < i < |longer|
      ensures CallsDown(layers, saved, longer[i - 1], longer[i])
    {
      assert i > 1 ==> CallsDown(layers, saved, path[i - 2], path[i - 1]);
    }
  }

  /** Calling down is deterministic, so there is only one way to go down from a function, and it
      never comes back to a function it has passed. */
  lemma {:induction false} CallChainUnique(
      layers: seq<Layer>, saved: map<nat, Pointer>, fn: Pointer, a: seq<Pointer>, b: seq<Pointer>)
    requires forall i, j :: 0 <= i < j < |layers| ==> layers[i].fn != layers[j].fn
    requires CallChain(layers, saved, fn, a) && CallChain(layers, saved, fn, b)
    ensures a == b
    decreases |a|
  {
    if |a| > 1 {
      assert CallsDown(layers, saved, a[0], a[1]);
      assert IsLayer(layers, a[0]);
      assert |b| > 1;
      assert CallsDown(layers, saved, b[0], b[1]);
      CallChainTail(layers, saved, a);
      CallChainTail(layers, saved, b);
      CallChainUnique(layers, saved, a[1], a[1..], b[1..]);
      assert a == [fn] + a[1..] && b == [fn] + b[1..];
    } else {
      assert |b| > 1 ==> CallsDown(layers, saved, b[0], b[1]);
    }
  }

  lemma CallChainTail(layers: seq<Layer>, saved: map<nat, Pointer>, path: seq<Pointer>)
    requires |path| > 1 && CallChain(layers, saved, path[0], path)
    ensures CallChain(layers, saved, path[1], path[1..])
  {
    var rest := path[1..];
    forall i | 0 < i < |rest|
      ensures CallsDown(layers, saved, rest[i - 1], rest[i])
    {
      assert CallsDown(layers, saved, path[i], path[i + 1]);
    }
  }

  lemma {:induction false} CallChainSuffix(layers: seq<Layer>, saved: map<nat, Pointer>, path: seq<Pointer>, i: nat)
    requires i < |path| && CallChain(layers, saved, path[0], path)
    ensures CallChain(layers, saved, path[i], path[i..])
    decreases i
  {
    if i > 0 {
      CallChainSuffix(layers, saved, path, i - 1);
      CallChainTail(layers, saved, path[i - 1..]);
      assert path[i - 1..][1..] == path[i..];
    } else {
      assert path[0..] == path;
    }
  }

  /** No function is called twice on the way down. */
  lemma LayersNeverCycle(t: Tables, layers: seq<Layer>, name: string, i: nat, j: nat)
    requires DistinctLayers(t.table, layers)
    requires i < j < |Stack(t.table, layers, name)|
    ensures Stack(t.table, layers, name)[i] != Stack(t.table, layers, name)[j]
  {
    LayersStack(t, layers, name);
    var saved, path := AddLayers(t, layers).saved, Stack(t.table, layers, name);
    CallChainSuffix(layers, saved, path, i);
    CallChainSuffix(layers, saved, path, j);
    if path[i] == path[j] {
      CallChainUnique(layers, saved, path[i], path[i..], path[j..]);
    }
  }

  /** Without distinctness the chain can turn into a loop: a function layered twice calls itself. */
  lemma LayeredTwiceCallsItself(t: Tables, name: string, fn: Pointer, slot: nat)
    ensures var layers := [Layer(name, fn, slot), Layer(name, fn, slot)];
            CallsDown(layers, AddLayers(t, layers).saved, fn, fn)
  {
    var layers := [Layer(name, fn, slot), Layer(name, fn, slot)];
    assert layers[..1] == [Layer(name, fn, slot)];
    assert AddLayers(t, layers).saved[slot] == fn;
    assert layers[0].fn == fn;
  }
}
