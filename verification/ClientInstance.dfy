/**
 Creating the client's one instance, and looking up functions before and after.
 */
module ClientInstance {
  import opened Options
  import opened FunctionTables
  import opened OpenXr
  import opened ClientEntry
  import opened NextChain

  /** What an application asks for; `chain` has the types of the structs in the next chain. */
  datatype CreateInfo = CreateInfo(apiVersion: nat, extensions: seq<string>, chain: seq<int>)

  /** XR_TYPE_INSTANCE_CREATE_INFO_ANDROID_KHR */
  const ANDROID_STRUCT := 1000008000

  datatype Setup = Setup(build: Build, extensions: map<string, ExtensionInfo>, modules: seq<Module>)

  datatype Client = Client(
    instance: Instance, functions: set<string>, syncEnabled: bool, notified: seq<(nat, Instance)>)

  const BOOT := Client(NULL_INSTANCE, BOOT_FUNCTIONS, false, [])

  /** The new state, the result code, the extension list sent to the server, if any, and the types that
      are left in the application's next chain. */
  datatype Outcome = Outcome(client: Client, result: int, sent: Option<seq<string>>, chain: seq<int>)

  function FunctionsOf(extensions: map<string, ExtensionInfo>, names: seq<string>): set<string> {
    set n, f | n in names && n in extensions && f in extensions[n].functions :: f
  }

  function Core(setup: Setup): set<string> {
    set f | f in setup.build.core
  }

  /** Extensions the client provides itself, which the server must not see. */
  function Local(setup: Setup): set<string> {
    (set e | e in Provided(setup.modules) :: e.name) + (if setup.build.android then {ANDROID_CREATE} else {})
  }

  function Forwarded(names: seq<string>, local: set<string>): seq<string> {
    if names == [] then []
    else (if names[0] in local then [] else [names[0]]) + Forwarded(names[1..], local)
  }

  predicate AllAvailable(setup: Setup, names: seq<string>) {
    forall n <- names :: n in setup.extensions
  }

  predicate RejectedAtOnce(setup: Setup, c: Client, info: CreateInfo) {
    c.instance != NULL_INSTANCE || info.apiVersion > setup.build.apiVersion || !AllAvailable(setup, info.extensions)
  }

  /** On Android, the struct is required. */
  predicate RejectedForAndroid(setup: Setup, info: CreateInfo) {
    setup.build.android && ANDROID_STRUCT !in info.chain
  }

  function Notifications(modules: seq<Module>, instance: Instance): seq<(nat, Instance)> {
    seq(|modules|, i => (i, instance))
  }

  /** The functions that a call marks as available once it has passed the first checks. */
  function Marked(setup: Setup, info: CreateInfo): set<string> {
    FunctionsOf(setup.extensions, info.extensions) + Core(setup)
  }

  function Cut(chain: seq<int>, typ: int): seq<int> {
    if chain == [] then [] else (if chain[0] == typ then [] else [chain[0]]) + Cut(chain[1..], typ)
  }

  /** What is left of the application's next chain. */
  function ChainLeft(setup: Setup, c: Client, info: CreateInfo): seq<int> {
    if setup.build.android && !RejectedAtOnce(setup, c, info) then Cut(info.chain, ANDROID_STRUCT) else info.chain
  }

  /** What the server's reply to a forwarded call does. */
  function Replied(setup: Setup, c: Client, reply: Reply): Client {
    if Succeeded(reply.result) then
      Client(reply.instance, c.functions, true, c.notified + Notifications(setup.modules, reply.instance))
    else c.(functions := {})
  }

  function Create(setup: Setup, c: Client, info: CreateInfo, reply: Reply): Outcome {
    var left := ChainLeft(setup, c, info);
    if c.instance != NULL_INSTANCE then Outcome(c, ERROR_LIMIT_REACHED, None, left)
    else if info.apiVersion > setup.build.apiVersion then Outcome(c, ERROR_API_VERSION_UNSUPPORTED, None, left)
    else if !AllAvailable(setup, info.extensions) then Outcome(c, ERROR_EXTENSION_NOT_PRESENT, None, left)
    else
      var functions := c.functions + Marked(setup, info);
      if RejectedForAndroid(setup, info) then
        Outcome(c.(functions := functions), ERROR_INITIALIZATION_FAILED, None, left)
      else
        var sent := Some(Forwarded(info.extensions, Local(setup)));
        Outcome(Replied(setup, c.(functions := functions), reply), reply.result, sent, left)
  }

  lemma CreateReached(setup: Setup, c: Client, info: CreateInfo, reply: Reply)
    requires !RejectedAtOnce(setup, c, info)
    ensures var left := if setup.build.android then Cut(info.chain, ANDROID_STRUCT) else info.chain;
            var marked := c.(functions := c.functions + Marked(setup, info));
            Create(setup, c, info, reply) ==
            if RejectedForAndroid(setup, info) then Outcome(marked, ERROR_INITIALIZATION_FAILED, None, left)
            else
              Outcome(Replied(setup, marked, reply), reply.result, Some(Forwarded(info.extensions, Local(setup))), left)
  {
  }

  // ----- The same without the functions it is made of -----

  /** A module provides the extension, or the runtime itself does on Android. */
  ghost predicate ProvidedHere(setup: Setup, name: string) {
    (setup.build.android && name == "XR_KHR_android_create_instance") || HasModuleExtension(setup.modules, name)
  }

  /** A core function, or one of a requested extension. */
  ghost predicate Enables(setup: Setup, info: CreateInfo, f: string) {
    f in setup.build.core ||
    exists n :: n in info.extensions && n in setup.extensions && f in setup.extensions[n].functions
  }

  ghost predicate Adds(setup: Setup, info: CreateInfo, before: set<string>, after: set<string>) {
    forall f :: f in after <==> f in before || Enables(setup, info, f)
  }

  /** What is sent: every occurrence of a requested name that is not provided here, and nothing else. */
  ghost predicate SentFor(setup: Setup, info: CreateInfo, sent: seq<string>) {
    forall name :: multiset(sent)[name] == if ProvidedHere(setup, name) then 0 else multiset(info.extensions)[name]
  }

  ghost predicate TellsModules(
      setup: Setup, instance: Instance, before: seq<(nat, Instance)>, after: seq<(nat, Instance)>)
  {
    && |after| == |before| + |setup.modules| && after[..|before|] == before
    && forall k :: 0 <= k < |setup.modules| ==> after[|before| + k] == (k, instance)
  }

  /** The platform struct is taken out of the chain, on its platform. */
  ghost predicate ChainCut(setup: Setup, before: seq<int>, after: seq<int>) {
    && (!setup.build.android ==> after == before)
    && (setup.build.android ==> forall t :: multiset(after)[t] == if t == 1000008000 then 0 else multiset(before)[t])
  }

  /** The call is forwarded. */
  ghost predicate Forwards(setup: Setup, c: Client, info: CreateInfo) {
    && c.instance == 0 && info.apiVersion <= setup.build.apiVersion
    && (forall n <- info.extensions :: n in setup.extensions)
    && (setup.build.android ==> 1000008000 in info.chain)
  }

  /** What a create call answers, marks, sends, tells its modules, and leaves of the chain. */
  ghost predicate Answered(setup: Setup, c: Client, info: CreateInfo, reply: Reply, o: Outcome) {
    if c.instance != 0 then o == Outcome(c, -10, None, info.chain)
    else if info.apiVersion > setup.build.apiVersion then o == Outcome(c, -4, None, info.chain)
    else if exists n :: n in info.extensions && n !in setup.extensions then o == Outcome(c, -9, None, info.chain)
    else
      && ChainCut(setup, info.chain, o.chain)
      && if setup.build.android && 1000008000 !in info.chain then
           && o.result == -6 && o.sent.None?
           && o.client == c.(functions := o.client.functions)
           && Adds(setup, info, c.functions, o.client.functions)
         else
           && o.result == reply.result && o.sent.Some? && SentFor(setup, info, o.sent.value)
           && if reply.result >= 0 then
                && o.client.instance == reply.instance && o.client.syncEnabled
                && Adds(setup, info, c.functions, o.client.functions)
                && TellsModules(setup, reply.instance, c.notified, o.client.notified)
              else o.client == c.(functions := {})
  }

  lemma LocalIsHere(setup: Setup, name: string)
    ensures name in Local(setup) <==> ProvidedHere(setup, name)
  {
    ProvidedIsHere(setup.modules, name);
  }

  /** Filtering keeps every occurrence of every other name and no occurrence of a local one. */
  lemma {:induction false} ForwardedCounts(names: seq<string>, local: set<string>, name: string)
    ensures multiset(Forwarded(names, local))[name] == if name in local then 0 else multiset(names)[name]
  {
    if names == [] {
    } else {
      ForwardedCounts(names[1..], local, name);
      assert names == [names[0]] + names[1..];
    }
  }

  lemma {:induction false} CutCounts(chain: seq<int>, typ: int, t: int)
    ensures multiset(Cut(chain, typ))[t] == if t == typ then 0 else multiset(chain)[t]
  {
    if chain == [] {
    } else {
      CutCounts(chain[1..], typ, t);
      assert chain == [chain[0]] + chain[1..];
    }
  }

  lemma MarkedAdds(setup: Setup, info: CreateInfo, before: set<string>)
    ensures Adds(setup, info, before, before + Marked(setup, info))
  {
  }

  lemma {:induction false} ForwardedJoin(a: seq<string>, b: seq<string>, local: set<string>)
    ensures Forwarded(a + b, local) == Forwarded(a, local) + Forwarded(b, local)
  {
    if a == [] {
      assert a + b == b;
    } else {
      assert (a + b)[0] == a[0] && (a + b)[1..] == a[1..] + b;
      ForwardedJoin(a[1..], b, local);
    }
  }

  /** The order of the request is kept: what is sent for two lists in a row is what is sent for the first
      followed by what is sent for the second. */
  lemma SentJoins(setup: Setup, c: Client, info: CreateInfo, reply: Reply, a: seq<string>, b: seq<string>)
    requires info.extensions == a + b && Create(setup, c, info, reply).sent.Some?
    ensures var first := Create(setup, c, info.(extensions := a), reply).sent;
            var second := Create(setup, c, info.(extensions := b), reply).sent;
            && first.Some? && second.Some?
            && Create(setup, c, info, reply).sent.value == first.value + second.value
  {
    assert forall n <- a :: n in a + b;
    assert forall n <- b :: n in a + b;
    ForwardedJoin(a, b, Local(setup));
  }

  /** What a create call does, in every state. */
  lemma CreateExactly(setup: Setup, c: Client, info: CreateInfo, reply: Reply)
    ensures Answered(setup, c, info, reply, Create(setup, c, info, reply))
  {
    var o := Create(setup, c, info, reply);
    if !RejectedAtOnce(setup, c, info) {
      MarkedAdds(setup, info, c.functions);
      forall t: int
        ensures multiset(Cut(info.chain, ANDROID_STRUCT))[t] == if t == 1000008000 then 0 else multiset(info.chain)[t]
      {
        CutCounts(info.chain, ANDROID_STRUCT, t);
      }
      forall name: string
        ensures multiset(Forwarded(info.extensions, Local(setup)))[name]
             == if ProvidedHere(setup, name) then 0 else multiset(info.extensions)[name]
      {
        LocalIsHere(setup, name);
        ForwardedCounts(info.extensions, Local(setup), name);
      }
    }
  }

  // ----- The entry point as it runs, on the application's own structs -----

  /** The create info is itself the first struct of the chain. */
  class InstanceCreateInfo {
    const apiVersion: nat
    const extensions: seq<string>
    const base: ChainNode

    constructor (apiVersion: nat, extensions: seq<string>, base: ChainNode)
      ensures this.apiVersion == apiVersion && this.extensions == extensions && this.base == base
    {
      this.apiVersion, this.extensions, this.base := apiVersion, extensions, base;
    }

    ghost function Request(nodes: seq<ChainNode>): CreateInfo {
      CreateInfo(apiVersion, extensions, Types(nodes))
    }
  }

  ghost function Types(nodes: seq<ChainNode>): (types: seq<int>)
    ensures |types| == |nodes| && forall i :: 0 <= i < |nodes| ==> types[i] == nodes[i].typ
  {
    if nodes == [] then [] else [nodes[0].typ] + Types(nodes[1..])
  }

  lemma {:induction false} TypesWithout(nodes: seq<ChainNode>, typ: int)
    ensures Types(Without(nodes, typ)) == Cut(Types(nodes), typ)
    ensures FirstOf(nodes, typ) == null <==> typ !in Types(nodes)
  {
    if nodes == [] {
    } else {
      TypesWithout(nodes[1..], typ);
      assert Types(nodes)[1..] == Types(nodes[1..]);
      if nodes[0].typ != typ {
        assert ([nodes[0]] + Without(nodes[1..], typ))[1..] == Without(nodes[1..], typ);
      } else {
        assert [] + Without(nodes[1..], typ) == Without(nodes[1..], typ);
      }
    }
  }

  /** The structs that are left in the chain. */
  ghost function NodesLeft(setup: Setup, c: Client, info: CreateInfo, nodes: seq<ChainNode>): seq<ChainNode> {
    if setup.build.android && !RejectedAtOnce(setup, c, info) then Without(nodes, ANDROID_STRUCT) else nodes
  }

  class ClientRuntime {
    const setup: Setup
    var instance: Instance
    var functions: set<string>
    var syncEnabled: bool
    var notified: seq<(nat, Instance)>

    constructor (setup: Setup)
      ensures this.setup == setup && State() == BOOT
      ensures forall f :: f in functions <==> IsBootName(f)
      ensures instance == 0 && !syncEnabled && notified == []
    {
      this.setup := setup;
      instance, functions, syncEnabled, notified := NULL_INSTANCE, BOOT_FUNCTIONS, false, [];
    }

    function State(): Client
      reads this
    {
      Client(instance, functions, syncEnabled, notified)
    }

    /** The chain that is left is the application's own, edited in place. */
    method CreateInstance(info: InstanceCreateInfo, ghost nodes: seq<ChainNode>, reply: Reply)
      returns (result: int, sent: Option<seq<string>>)
      requires Distinct([info.base] + nodes) && Chain([info.base] + nodes, null)
      modifies this, info.base, nodes
      ensures Outcome(State(), result, sent, Types(NodesLeft(setup, old(State()), info.Request(nodes), nodes)))
           == Create(setup, old(State()), info.Request(nodes), reply)
      ensures var left := NodesLeft(setup, old(State()), info.Request(nodes), nodes);
              Answered(
                setup, old(State()), info.Request(nodes), reply, Outcome(State(), result, sent, Types(left)))
      ensures Chain([info.base] + NodesLeft(setup, old(State()), info.Request(nodes), nodes), null)
    {
      CreateExactly(setup, State(), info.Request(nodes), reply);
      sent := None;
      if instance != NULL_INSTANCE {
        return ERROR_LIMIT_REACHED, None;
      }
      if info.apiVersion > setup.build.apiVersion {
        return ERROR_API_VERSION_UNSUPPORTED, None;
      }
      var available := CheckExtensions(info.extensions);
      if !available {
        return ERROR_EXTENSION_NOT_PRESENT, None;
      }
      result, sent := CreateChecked(info, nodes, reply);
    }

    /** Once the first checks have passed. */
    method CreateChecked(info: InstanceCreateInfo, ghost nodes: seq<ChainNode>, reply: Reply)
      returns (result: int, sent: Option<seq<string>>)
      requires Distinct([info.base] + nodes) && Chain([info.base] + nodes, null)
      requires !RejectedAtOnce(setup, State(), info.Request(nodes))
      modifies this, info.base, nodes
      ensures var left := if setup.build.android then Without(nodes, ANDROID_STRUCT) else nodes;
              && Outcome(State(), result, sent, Types(left)) == Create(setup, old(State()), info.Request(nodes), reply)
              && Chain([info.base] + left, null)
    {
      ghost var left := if setup.build.android then Without(nodes, ANDROID_STRUCT) else nodes;
      CreateReached(setup, State(), info.Request(nodes), reply);
      MarkAvailable(info.extensions);
      var complete := RemovePlatformStructs(info, nodes);
      if complete {
        result, sent := Forward(info.extensions, reply, [info.base] + left);
      } else {
        result, sent := ERROR_INITIALIZATION_FAILED, None;
      }
    }

    method CheckExtensions(names: seq<string>) returns (available: bool)
      ensures available == AllAvailable(setup, names)
    {
      for i := 0 to |names|
        invariant forall k :: 0 <= k < i ==> names[k] in setup.extensions
      {
        if names[i] !in setup.extensions {
          return false;
        }
      }
      return true;
    }

    /** On Android, takes the required struct out of the application's chain. */
    method RemovePlatformStructs(info: InstanceCreateInfo, ghost nodes: seq<ChainNode>) returns (complete: bool)
      requires Distinct([info.base] + nodes) && Chain([info.base] + nodes, null)
      modifies info.base, nodes
      ensures complete == !RejectedForAndroid(setup, info.Request(nodes))
      ensures var left := if setup.build.android then Without(nodes, ANDROID_STRUCT) else nodes;
              && Chain([info.base] + left, null)
              && Types(left) == if setup.build.android then Cut(Types(nodes), ANDROID_STRUCT) else Types(nodes)
    {
      complete := true;
      if setup.build.android {
        TypesWithout(nodes, ANDROID_STRUCT);
        var androidInfo := RemoveFromChain(info.base, ANDROID_STRUCT, nodes);
        complete := androidInfo != null;
      }
    }

    /** The request without local extensions goes to the server; the application's chain stays. */
    method Forward(names: seq<string>, reply: Reply, ghost chain: seq<ChainNode>)
      returns (result: int, sent: Option<seq<string>>)
      requires Chain(chain, null)
      modifies this
      ensures result == reply.result && sent == Some(Forwarded(names, Local(setup)))
      ensures State() == Replied(setup, old(State()), reply)
      ensures Chain(chain, null)
    {
      var requested := RemoveLocal(names);
      result, sent := reply.result, Some(requested);
      if Succeeded(result) {
        instance, syncEnabled := reply.instance, true;
        NotifyModules();
      } else {
        functions := {};
      }
    }

    /** The instance callback of every module. */
    method NotifyModules()
      modifies this`notified
      ensures notified == old(notified) + Notifications(setup.modules, instance)
    {
      for i := 0 to |setup.modules|
        invariant notified == old(notified) + Notifications(setup.modules, instance)[..i]
      {
        notified := notified + [(i, instance)];
      }
    }

    /** The functions of the requested extensions, then the core functions. */
    method MarkAvailable(names: seq<string>)
      modifies this`functions
      ensures functions == old(functions) + (FunctionsOf(setup.extensions, names) + Core(setup))
    {
      for i := 0 to |names|
        invariant functions == old(functions) + FunctionsOf(setup.extensions, names[..i])
      {
        if names[i] in setup.extensions {
          functions := functions + set f | f in setup.extensions[names[i]].functions;
        }
        assert names[..i + 1] == names[..i] + [names[i]];
      }
      assert names[..|names|] == names;
      functions := functions + set f | f in setup.build.core;
    }

    /** Erases the locally provided names from a copy of the list, in place. */
    method RemoveLocal(names: seq<string>) returns (requested: seq<string>)
      ensures requested == Forwarded(names, Local(setup))
    {
      var local := Local(setup);
      requested := names;
      var at := 0;
      while at < |requested|
        invariant 0 <= at <= |requested|
        invariant requested[..at] + Forwarded(requested[at..], local) == Forwarded(names, local)
        decreases |requested| - at
      {
        ghost var rest := requested[at..];
        if requested[at] in local {
          requested := requested[..at] + requested[at + 1..];
          assert requested[at..] == rest[1..];
        } else {
          at := at + 1;
          assert requested[at..] == rest[1..];
          assert requested[..at] == requested[..at - 1] + [rest[0]];
        }
      }
      assert requested[..at] == requested && requested[at..] == [];
    }
  }

  // ----- Any sequence of create calls -----

  datatype Call = Call(info: CreateInfo, reply: Reply)

  function Run(setup: Setup, calls: seq<Call>): Client
    decreases |calls|
  {
    if calls == [] then BOOT
    else
      var last := calls[|calls| - 1];
      Create(setup, Run(setup, calls[..|calls| - 1]), last.info, last.reply).client
  }

  /** The result of call k. */
  function ResultOf(setup: Setup, calls: seq<Call>, k: nat): int
    requires k < |calls|
  {
    Create(setup, Run(setup, calls[..k]), calls[k].info, calls[k].reply).result
  }

  /** A runtime that succeeds returns a handle. */
  predicate HonestReplies(calls: seq<Call>) {
    forall c <- calls :: Succeeded(c.reply.result) ==> c.reply.instance != NULL_INSTANCE
  }

  predicate Idle(c: Client) {
    c.instance == NULL_INSTANCE && c.functions in {BOOT_FUNCTIONS, {}} && !c.syncEnabled && c.notified == []
  }

  /** Call k is the one that succeeded, and it alone decides what is available. */
  predicate CreatedBy(setup: Setup, calls: seq<Call>, k: nat, c: Client)
    requires k < |calls|
  {
    && Succeeded(ResultOf(setup, calls, k))
    && c.instance == calls[k].reply.instance != NULL_INSTANCE
    && c.functions == Core(setup) + FunctionsOf(setup.extensions, calls[k].info.extensions)
    && c.syncEnabled
    && c.notified == Notifications(setup.modules, c.instance)
    && forall j :: 0 <= j < |calls| && j != k ==> !Succeeded(ResultOf(setup, calls, j))
  }

  predicate NoneSucceeded(setup: Setup, calls: seq<Call>) {
    forall j :: 0 <= j < |calls| ==> !Succeeded(ResultOf(setup, calls, j))
  }

  lemma ResultsOfPrefix(setup: Setup, calls: seq<Call>, n: nat, j: nat)
    requires j < n <= |calls|
    ensures ResultOf(setup, calls[..n], j) == ResultOf(setup, calls, j)
  {
    assert calls[..n][..j] == calls[..j];
  }

  lemma LastResult(setup: Setup, calls: seq<Call>, c: Client)
    requires calls != [] && c == Run(setup, calls[..|calls| - 1])
    ensures var last := calls[|calls| - 1]; var o := Create(setup, c, last.info, last.reply);
            Run(setup, calls) == o.client && ResultOf(setup, calls, |calls| - 1) == o.result
    ensures forall j :: 0 <= j < |calls| - 1 ==> ResultOf(setup, calls, j) == ResultOf(setup, calls[..|calls| - 1], j)
  {
    forall j | 0 <= j < |calls| - 1
      ensures ResultOf(setup, calls, j) == ResultOf(setup, calls[..|calls| - 1], j)
    {
      ResultsOfPrefix(setup, calls, |calls| - 1, j);
    }
  }

  ghost predicate InLifecycle(setup: Setup, calls: seq<Call>, c: Client) {
    (NoneSucceeded(setup, calls) && Idle(c)) || exists k :: 0 <= k < |calls| && CreatedBy(setup, calls, k, c)
  }

  // ----- What is available after any sequence of calls -----

  /** Call j passes the first checks. */
  predicate Reaches(setup: Setup, calls: seq<Call>, j: nat)
    requires j < |calls|
  {
    !RejectedAtOnce(setup, Run(setup, calls[..j]), calls[j].info)
  }

  /** Call j is turned away for its missing Android struct, after it has marked functions. */
  predicate TurnedAway(setup: Setup, calls: seq<Call>, j: nat)
    requires j < |calls|
  {
    Reaches(setup, calls, j) && RejectedForAndroid(setup, calls[j].info)
  }

  /** Call j is forwarded and fails, which clears what is marked. */
  predicate ServerFails(setup: Setup, calls: seq<Call>, j: nat)
    requires j < |calls|
  {
    Reaches(setup, calls, j) && !RejectedForAndroid(setup, calls[j].info) && !Succeeded(calls[j].reply.result)
  }

  /** A call that was turned away has marked the function, and nothing has been cleared since. */
  ghost predicate LeftBehind(setup: Setup, calls: seq<Call>, f: string) {
    exists j :: 0 <= j < |calls| && LeftBehindBy(setup, calls, j, f)
  }

  ghost predicate LeftBehindBy(setup: Setup, calls: seq<Call>, j: nat, f: string)
    requires j < |calls|
  {
    && TurnedAway(setup, calls, j) && f in Marked(setup, calls[j].info)
    && forall i :: j < i < |calls| ==> !ServerFails(setup, calls, i)
  }

  ghost predicate NeverFailed(setup: Setup, calls: seq<Call>) {
    forall j :: 0 <= j < |calls| ==> !ServerFails(setup, calls, j)
  }

  /** The state, but for the functions that were left behind. */
  ghost predicate StateExactly(setup: Setup, calls: seq<Call>, c: Client) {
    if NoneSucceeded(setup, calls) then
      && c.instance == NULL_INSTANCE && !c.syncEnabled && c.notified == []
      && forall f :: f in c.functions <==>
                       (NeverFailed(setup, calls) && f in BOOT_FUNCTIONS) || LeftBehind(setup, calls, f)
    else exists k :: 0 <= k < |calls| && SavedBy(setup, calls, k, c)
  }

  ghost predicate SavedBy(setup: Setup, calls: seq<Call>, k: nat, c: Client)
    requires k < |calls|
  {
    && Succeeded(ResultOf(setup, calls, k))
    && c.instance == calls[k].reply.instance != NULL_INSTANCE
    && c.syncEnabled
    && c.notified == Notifications(setup.modules, c.instance)
    && (forall j :: 0 <= j < |calls| && j != k ==> !Succeeded(ResultOf(setup, calls, j)))
    && forall f :: f in c.functions <==> f in Marked(setup, calls[k].info) || LeftBehind(setup, calls, f)
  }

  lemma CallsOfPrefix(setup: Setup, calls: seq<Call>, n: nat, j: nat)
    requires j < n <= |calls|
    ensures TurnedAway(setup, calls[..n], j) == TurnedAway(setup, calls, j)
    ensures ServerFails(setup, calls[..n], j) == ServerFails(setup, calls, j)
  {
    assert calls[..n][..j] == calls[..j];
  }

  lemma AllCallsOfPrefix(setup: Setup, calls: seq<Call>, n: nat)
    requires n <= |calls|
    ensures forall j :: 0 <= j < n ==> TurnedAway(setup, calls[..n], j) == TurnedAway(setup, calls, j)
    ensures forall j :: 0 <= j < n ==> ServerFails(setup, calls[..n], j) == ServerFails(setup, calls, j)
  {
    forall j | 0 <= j < n
      ensures TurnedAway(setup, calls[..n], j) == TurnedAway(setup, calls, j)
      ensures ServerFails(setup, calls[..n], j) == ServerFails(setup, calls, j)
    {
      CallsOfPrefix(setup, calls, n, j);
    }
  }

  lemma LeftBehindInPrefix(setup: Setup, calls: seq<Call>, j: nat, f: string)
    requires j < |calls| - 1
    ensures var n := |calls| - 1;
            LeftBehindBy(setup, calls, j, f) <==>
            LeftBehindBy(setup, calls[..n], j, f) && !ServerFails(setup, calls, n)
  {
    AllCallsOfPrefix(setup, calls, |calls| - 1);
    assert calls[..|calls| - 1][j] == calls[j];
  }

  lemma LastLeavesBehind(setup: Setup, calls: seq<Call>, f: string)
    requires calls != []
    ensures var n := |calls| - 1;
            LeftBehind(setup, calls, f) <==>
            || (TurnedAway(setup, calls, n) && f in Marked(setup, calls[n].info))
            || (!ServerFails(setup, calls, n) && LeftBehind(setup, calls[..n], f))
  {
    var n := |calls| - 1;
    assert LeftBehindBy(setup, calls, n, f) <==> TurnedAway(setup, calls, n) && f in Marked(setup, calls[n].info);
    if j :| 0 <= j < n && LeftBehindBy(setup, calls[..n], j, f) {
      LeftBehindInPrefix(setup, calls, j, f);
    }
    if j :| 0 <= j < n && LeftBehindBy(setup, calls, j, f) {
      LeftBehindInPrefix(setup, calls, j, f);
    }
  }

  /** The functions that are available after the last call. */
  lemma LastFunctions(setup: Setup, calls: seq<Call>, f: string)
    requires calls != []
    ensures var n := |calls| - 1; var c := Run(setup, calls[..n]);
            f in Run(setup, calls).functions <==>
            !ServerFails(setup, calls, n) &&
            (f in c.functions || (Reaches(setup, calls, n) && f in Marked(setup, calls[n].info)))
  {
  }

  lemma LastFails(setup: Setup, calls: seq<Call>)
    requires calls != []
    ensures var n := |calls| - 1;
            NeverFailed(setup, calls) <==> NeverFailed(setup, calls[..n]) && !ServerFails(setup, calls, n)
  {
    AllCallsOfPrefix(setup, calls, |calls| - 1);
  }

  lemma LastSucceeds(setup: Setup, calls: seq<Call>)
    requires calls != []
    ensures var n := |calls| - 1;
            Succeeded(ResultOf(setup, calls, n)) <==>
            Reaches(setup, calls, n) && !TurnedAway(setup, calls, n) && !ServerFails(setup, calls, n)
  {
  }

  /** The first call that succeeds saves its instance. */
  lemma SuccessSaves(setup: Setup, calls: seq<Call>)
    requires BOOT_FUNCTIONS <= Core(setup) && HonestReplies(calls) && calls != []
    requires var init := calls[..|calls| - 1];
             NoneSucceeded(setup, init) && StateExactly(setup, init, Run(setup, init))
    requires Succeeded(ResultOf(setup, calls, |calls| - 1))
    ensures SavedBy(setup, calls, |calls| - 1, Run(setup, calls))
  {
    var n := |calls| - 1;
    LastResult(setup, calls, Run(setup, calls[..n]));
    LastSucceeds(setup, calls);
    assert calls[n] in calls;
    assert forall j :: 0 <= j < n ==> !Succeeded(ResultOf(setup, calls[..n], j));
    var c := Run(setup, calls);
    forall f: string
      ensures f in c.functions <==> f in Marked(setup, calls[n].info) || LeftBehind(setup, calls, f)
    {
      LastLeavesBehind(setup, calls, f);
      LastFunctions(setup, calls, f);
    }
  }

  lemma NoSuccessStays(setup: Setup, calls: seq<Call>)
    requires calls != []
    requires var init := calls[..|calls| - 1];
             NoneSucceeded(setup, init) && StateExactly(setup, init, Run(setup, init))
    requires !Succeeded(ResultOf(setup, calls, |calls| - 1))
    ensures NoneSucceeded(setup, calls) && StateExactly(setup, calls, Run(setup, calls))
  {
    var n := |calls| - 1;
    LastResult(setup, calls, Run(setup, calls[..n]));
    LastSucceeds(setup, calls);
    LastFails(setup, calls);
    assert forall j :: 0 <= j < n ==> !Succeeded(ResultOf(setup, calls[..n], j));
    var c := Run(setup, calls);
    forall f: string
      ensures f in c.functions <==>
                (NeverFailed(setup, calls) && f in BOOT_FUNCTIONS) || LeftBehind(setup, calls, f)
    {
      LastLeavesBehind(setup, calls, f);
      LastFunctions(setup, calls, f);
    }
  }

  /** A call after the successful one is turned away at once. */
  lemma LaterCallLeaves(setup: Setup, calls: seq<Call>)
    requires calls != [] && Run(setup, calls[..|calls| - 1]).instance != NULL_INSTANCE
    ensures Run(setup, calls) == Run(setup, calls[..|calls| - 1])
    ensures !Reaches(setup, calls, |calls| - 1) && !Succeeded(ResultOf(setup, calls, |calls| - 1))
  {
    LastResult(setup, calls, Run(setup, calls[..|calls| - 1]));
  }

  lemma SavedStays(setup: Setup, calls: seq<Call>, k: nat)
    requires calls != [] && k < |calls| - 1
    requires SavedBy(setup, calls[..|calls| - 1], k, Run(setup, calls[..|calls| - 1]))
    ensures SavedBy(setup, calls, k, Run(setup, calls))
  {
    LaterCallLeaves(setup, calls);
    LaterCallFails(setup, calls, calls[..|calls| - 1], k);
    var c := Run(setup, calls);
    forall f: string
      ensures f in c.functions <==> f in Marked(setup, calls[k].info) || LeftBehind(setup, calls, f)
    {
      LastLeavesBehind(setup, calls, f);
    }
  }

  lemma LaterCallFails(setup: Setup, calls: seq<Call>, init: seq<Call>, k: nat)
    requires calls != [] && init == calls[..|calls| - 1] && k < |init|
    requires !Succeeded(ResultOf(setup, calls, |calls| - 1)) && Succeeded(ResultOf(setup, init, k))
    requires forall j :: 0 <= j < |init| && j != k ==> !Succeeded(ResultOf(setup, init, j))
    ensures Succeeded(ResultOf(setup, calls, k)) && calls[k] == init[k]
    ensures forall j :: 0 <= j < |calls| && j != k ==> !Succeeded(ResultOf(setup, calls, j))
  {
    LastResult(setup, calls, Run(setup, init));
  }

  /** The state after any sequence of create calls.  Before a success nothing is saved, and what is
      available is the three boot functions, until a call has failed on the server, and what calls left
      behind.  After it, the core functions and those of the extensions that the one successful call
      asked for are available, and again what was left behind. */
  lemma {:induction false} AvailableExactly(setup: Setup, calls: seq<Call>)
    requires BOOT_FUNCTIONS <= Core(setup) && HonestReplies(calls)
    ensures StateExactly(setup, calls, Run(setup, calls))
    decreases |calls|
  {
    if calls == [] {
    } else {
      var n := |calls| - 1;
      var init := calls[..n];
      AvailableExactly(setup, init);
      if NoneSucceeded(setup, init) {
        if Succeeded(ResultOf(setup, calls, n)) {
          SuccessSaves(setup, calls);
          assert !NoneSucceeded(setup, calls);
        } else {
          NoSuccessStays(setup, calls);
        }
      } else {
        var k :| 0 <= k < n && SavedBy(setup, init, k, Run(setup, init));
        SavedStays(setup, calls, k);
        assert !NoneSucceeded(setup, calls);
      }
    }
  }

  /** What the lifecycle lets be available at this point: the boot functions before a success, then the
      core functions and those of the extensions that the successful call asked for. */
  ghost predicate Permitted(setup: Setup, calls: seq<Call>, f: string) {
    || (NoneSucceeded(setup, calls) && f in BOOT_FUNCTIONS)
    || exists k :: 0 <= k < |calls| && Succeeded(ResultOf(setup, calls, k)) && f in Marked(setup, calls[k].info)
  }

  lemma PermittedAfter(setup: Setup, calls: seq<Call>, k: nat, f: string)
    requires k < |calls| && Succeeded(ResultOf(setup, calls, k))
    requires forall j :: 0 <= j < |calls| && j != k ==> !Succeeded(ResultOf(setup, calls, j))
    ensures Permitted(setup, calls, f) <==> f in Marked(setup, calls[k].info)
  {
  }

  lemma IdleExactly(setup: Setup, calls: seq<Call>)
    requires BOOT_FUNCTIONS <= Core(setup)
    requires NoneSucceeded(setup, calls) && StateExactly(setup, calls, Run(setup, calls))
    ensures Idle(Run(setup, calls)) <==> forall f :: LeftBehind(setup, calls, f) ==> f in BOOT_FUNCTIONS
  {
    var c := Run(setup, calls);
    if g: string :| LeftBehind(setup, calls, g) {
      var j :| 0 <= j < |calls| && LeftBehindBy(setup, calls, j, g);
      forall f | f in BOOT_FUNCTIONS
        ensures f in c.functions
      {
        assert LeftBehindBy(setup, calls, j, f);
      }
      assert (forall f :: LeftBehind(setup, calls, f) ==> f in BOOT_FUNCTIONS) ==> c.functions == BOOT_FUNCTIONS;
    } else {
      assert c.functions == if NeverFailed(setup, calls) then BOOT_FUNCTIONS else {};
    }
  }

  lemma SavedExactly(setup: Setup, calls: seq<Call>, k: nat)
    requires k < |calls| && SavedBy(setup, calls, k, Run(setup, calls))
    ensures CreatedBy(setup, calls, k, Run(setup, calls)) <==>
            forall f :: LeftBehind(setup, calls, f) ==> f in Marked(setup, calls[k].info)
  {
    var c := Run(setup, calls);
    assert Core(setup) + FunctionsOf(setup.extensions, calls[k].info.extensions) == Marked(setup, calls[k].info);
    if forall f :: LeftBehind(setup, calls, f) ==> f in Marked(setup, calls[k].info) {
      assert c.functions == Marked(setup, calls[k].info);
    }
  }

  /** After any sequence of create calls the client is in its lifecycle if and only if every function
      that a call turned away for its missing Android struct has marked, with no failure on the server
      since, is one that the lifecycle permits anyway. */
  lemma LifecycleExactly(setup: Setup, calls: seq<Call>)
    requires BOOT_FUNCTIONS <= Core(setup) && HonestReplies(calls)
    ensures InLifecycle(setup, calls, Run(setup, calls)) <==>
            forall f :: LeftBehind(setup, calls, f) ==> Permitted(setup, calls, f)
  {
    AvailableExactly(setup, calls);
    if NoneSucceeded(setup, calls) {
      IdleExactly(setup, calls);
    } else {
      var k :| 0 <= k < |calls| && SavedBy(setup, calls, k, Run(setup, calls));
      SavedExactly(setup, calls, k);
      forall f: string
        ensures Permitted(setup, calls, f) <==> f in Marked(setup, calls[k].info)
      {
        PermittedAfter(setup, calls, k, f);
      }
    }
  }

  /** After any sequence of create calls of which none is turned away for its missing Android struct:
      either none succeeded, nothing is saved and what is available is the three boot functions or
      nothing; or exactly one succeeded, and what is available is the core functions and those of the
      extensions that call asked for. */
  lemma Lifecycle(setup: Setup, calls: seq<Call>)
    requires BOOT_FUNCTIONS <= Core(setup) && HonestReplies(calls)
    requires forall c <- calls :: !RejectedForAndroid(setup, c.info)
    ensures InLifecycle(setup, calls, Run(setup, calls))
  {
    LifecycleExactly(setup, calls);
    forall j | 0 <= j < |calls|
      ensures !TurnedAway(setup, calls, j)
    {
      assert calls[j] in calls;
    }
  }

  const ANDROID_CORE :=
    ["xrEnumerateInstanceExtensionProperties", "xrEnumerateApiLayerProperties", "xrCreateInstance", "xrGetSystem"]

  const ANDROID_SETUP := Setup(Build(map[], map[], map[], ANDROID_CORE, true, 1), map[], [])

  const STRUCT_MISSING := Call(CreateInfo(1, [], []), Reply(SUCCESS, 1))

  /** One call without the struct: there is no instance, and xrGetSystem is available. */
  lemma AndroidRejectionLeaves()
    ensures TurnedAway(ANDROID_SETUP, [STRUCT_MISSING], 0)
    ensures Run(ANDROID_SETUP, [STRUCT_MISSING]).instance == NULL_INSTANCE
    ensures "xrGetSystem" in Run(ANDROID_SETUP, [STRUCT_MISSING]).functions
    ensures !InLifecycle(ANDROID_SETUP, [STRUCT_MISSING], Run(ANDROID_SETUP, [STRUCT_MISSING]))
  {
    var calls := [STRUCT_MISSING];
    assert calls[..0] == [];
    assert "xrGetSystem" in ANDROID_SETUP.build.core by {
      assert ANDROID_SETUP.build.core[3] == "xrGetSystem";
    }
    assert Run(ANDROID_SETUP, calls[..0]) == BOOT;
    CreateReached(ANDROID_SETUP, BOOT, STRUCT_MISSING.info, STRUCT_MISSING.reply);
    var c := Run(ANDROID_SETUP, calls);
    assert "xrGetSystem" in Core(ANDROID_SETUP);
    assert "xrGetSystem" in Marked(ANDROID_SETUP, STRUCT_MISSING.info);
    assert "xrGetSystem" in c.functions && "xrGetSystem" !in BOOT_FUNCTIONS;
    assert c.functions != BOOT_FUNCTIONS;
  }

  /** The chain edit outlives the call.  A second call with the same create info reaches the server
      exactly if the platform is not Android, the first call reached it and failed there; on Android it
      is turned away for the struct that the first call has taken out. */
  lemma RetryTurnedAway(setup: Setup, c: Client, info: CreateInfo, reply: Reply, again: Reply)
    requires Succeeded(reply.result) ==> reply.instance != NULL_INSTANCE
    ensures var first := Create(setup, c, info, reply);
            var second := Create(setup, first.client, info.(chain := first.chain), again);
            && (second.sent.Some? <==>
                  !setup.build.android && !RejectedAtOnce(setup, c, info) && !Succeeded(reply.result))
            && (setup.build.android && !RejectedAtOnce(setup, c, info) ==>
                  second.result ==
                  if Succeeded(first.result) then ERROR_LIMIT_REACHED else ERROR_INITIALIZATION_FAILED)
  {
    CutLacks(info.chain, ANDROID_STRUCT);
  }

  lemma {:induction false} CutLacks(chain: seq<int>, typ: int)
    ensures typ !in Cut(chain, typ)
  {
    if chain == [] {
    } else {
      CutLacks(chain[1..], typ);
    }
  }

  // ----- Looking up functions -----

  /** The code, and what is written to the caller's pointer, if anything. */
  datatype LookupResult = LookupResult(result: int, written: Option<Pointer>)

  /** The client's state for lookups: what is available, the table, and the transport function. */
  method GetInstanceProcAddr(
      c: Client, functions: FunctionTable, transport: Pointer, instance: Instance, name: Option<string>, hasOut: bool)
    returns (r: LookupResult)
    ensures !hasOut ==> r == LookupResult(ERROR_HANDLE_INVALID, None)
    ensures hasOut && name.None? ==> r == LookupResult(ERROR_FUNCTION_UNSUPPORTED, None)
    ensures hasOut && name.Some? ==>
      && r == LookupFunction(c, functions.table, transport, instance, name.value)
      && LookedUp(c, functions.table, transport, instance, name.value, r)
  {
    if hasOut && name.Some? {
      LookupExactly(c, functions.table, transport, instance, name.value);
    }
    if !hasOut {
      return LookupResult(ERROR_HANDLE_INVALID, None);
    }
    if name.None? {
      return LookupResult(ERROR_FUNCTION_UNSUPPORTED, None);
    }
    var n := name.value;
    if n == GET_TRANSPORT {
      return LookupResult(SUCCESS, Some(transport));
    }
    if instance == NULL_INSTANCE && n !in BOOT_FUNCTIONS {
      return LookupResult(ERROR_HANDLE_INVALID, Some(NULL));
    }
    if n !in c.functions {
      return LookupResult(ERROR_FUNCTION_UNSUPPORTED, None);
    }
    var fn := functions.GetFunction(n);
    if fn != NULL {
      return LookupResult(SUCCESS, Some(fn));
    }
    return LookupResult(ERROR_FUNCTION_UNSUPPORTED, None);
  }

  function LookupFunction(
      c: Client, table: map<string, Pointer>, transport: Pointer, instance: Instance, name: string): LookupResult
  {
    if name == GET_TRANSPORT then LookupResult(SUCCESS, Some(transport))
    else if instance == NULL_INSTANCE && name !in BOOT_FUNCTIONS then LookupResult(ERROR_HANDLE_INVALID, Some(NULL))
    else if name in c.functions && Lookup(table, name) != NULL then LookupResult(SUCCESS, Some(Lookup(table, name)))
    else LookupResult(ERROR_FUNCTION_UNSUPPORTED, None)
  }

  /** The transport function resolves in every state.  Without an instance only the three boot functions
      are looked at, and null is written for any other name; what is looked at resolves if and only if it
      is available and has an entry, and otherwise nothing is written. */
  ghost predicate LookedUp(
      c: Client, table: map<string, Pointer>, transport: Pointer, instance: Instance, name: string, r: LookupResult)
  {
    if name == "xrtransportGetTransport" then r == LookupResult(0, Some(transport))
    else if instance == 0 && !IsBootName(name) then r == LookupResult(-12, Some(0))
    else if name in c.functions && name in table && table[name] != 0 then r == LookupResult(0, Some(table[name]))
    else r == LookupResult(-7, None)
  }

  ghost predicate IsBootName(name: string) {
    || name == "xrEnumerateInstanceExtensionProperties" || name == "xrEnumerateApiLayerProperties"
    || name == "xrCreateInstance"
  }

  lemma LookupExactly(
      c: Client, table: map<string, Pointer>, transport: Pointer, instance: Instance, name: string)
    ensures LookedUp(c, table, transport, instance, name, LookupFunction(c, table, transport, instance, name))
  {
  }

  /** Once a call has succeeded, a lookup with an instance resolves a name other than the transport one
      exactly if it has an entry and is a core function, or one of an extension that call asked for, or one
      that a call turned away for its missing struct left behind; otherwise it is unsupported and nothing is
      written. */
  lemma LookupAfterCreation(
      setup: Setup, calls: seq<Call>, k: nat, table: map<string, Pointer>, transport: Pointer, instance: Instance,
      name: string)
    requires BOOT_FUNCTIONS <= Core(setup) && HonestReplies(calls)
    requires k < |calls| && ResultOf(setup, calls, k) >= 0
    requires instance != 0 && name != "xrtransportGetTransport"
    ensures LookupFunction(Run(setup, calls), table, transport, instance, name) ==
            if (Enables(setup, calls[k].info, name) || LeftBehind(setup, calls, name)) &&
               name in table && table[name] != 0
            then LookupResult(0, Some(table[name])) else LookupResult(-7, None)
  {
    AvailableExactly(setup, calls);
    assert !NoneSucceeded(setup, calls);
    var i :| 0 <= i < |calls| && SavedBy(setup, calls, i, Run(setup, calls));
    assert i == k;
    assert name in Marked(setup, calls[k].info) <==> Enables(setup, calls[k].info, name);
    LookupExactly(Run(setup, calls), table, transport, instance, name);
  }

  /** The last call that passed the first checks failed on the server. */
  ghost predicate LastReachFailed(setup: Setup, calls: seq<Call>) {
    exists i :: 0 <= i < |calls| && ServerFails(setup, calls, i) &&
                forall j :: i < j < |calls| ==> !Reaches(setup, calls, j)
  }

  lemma LastReachFailedStep(setup: Setup, calls: seq<Call>)
    requires calls != []
    ensures var n := |calls| - 1;
            LastReachFailed(setup, calls) <==>
            ServerFails(setup, calls, n) || (!Reaches(setup, calls, n) && LastReachFailed(setup, calls[..n]))
  {
    var n := |calls| - 1;
    var init := calls[..n];
    forall j | 0 <= j < n
      ensures Reaches(setup, init, j) == Reaches(setup, calls, j)
      ensures ServerFails(setup, init, j) == ServerFails(setup, calls, j)
    {
      assert init[..j] == calls[..j];
    }
  }

  lemma {:induction false} BootFunctionsAvailable(setup: Setup, calls: seq<Call>, name: string)
    requires name in BOOT_FUNCTIONS && BOOT_FUNCTIONS <= Core(setup)
    ensures name in Run(setup, calls).functions <==> !LastReachFailed(setup, calls)
    decreases |calls|
  {
    if calls == [] {
    } else {
      BootFunctionsAvailable(setup, calls[..|calls| - 1], name);
      LastReachFailedStep(setup, calls);
      LastFunctions(setup, calls, name);
    }
  }

  /** After any sequence of create calls, the three functions that must resolve without an instance do
      so if and only if the last call that passed the first checks did not fail on the server; after
      such a failure even xrCreateInstance is unsupported. */
  lemma BootFunctionsResolve(
      setup: Setup, calls: seq<Call>, table: map<string, Pointer>, transport: Pointer, name: string)
    requires IsBootName(name) && BOOT_FUNCTIONS <= Core(setup) && name in table && table[name] != 0
    ensures LookupFunction(Run(setup, calls), table, transport, 0, name) ==
            if LastReachFailed(setup, calls) then LookupResult(-7, None) else LookupResult(0, Some(table[name]))
  {
    BootFunctionsAvailable(setup, calls, name);
    LookupExactly(Run(setup, calls), table, transport, 0, name);
  }

  /** One call that fails on the server: xrCreateInstance no longer resolves, whatever is in the table. */
  lemma FailureHidesCreate(setup: Setup, table: map<string, Pointer>, transport: Pointer)
    ensures var failing := Call(CreateInfo(0, [], [ANDROID_STRUCT]), Reply(ERROR_INITIALIZATION_FAILED, NULL_INSTANCE));
            ServerFails(setup, [failing], 0) &&
            LookupFunction(Run(setup, [failing]), table, transport, NULL_INSTANCE, "xrCreateInstance") ==
            LookupResult(ERROR_FUNCTION_UNSUPPORTED, None)
  {
    var failing := Call(CreateInfo(0, [], [ANDROID_STRUCT]), Reply(ERROR_INITIALIZATION_FAILED, NULL_INSTANCE));
    assert [failing][..0] == [];
    assert Run(setup, [failing]).functions == {};
  }

  /** Available, but not in the table: the branch that is meant never to be taken. */
  predicate MissingFromTable(c: Client, table: map<string, Pointer>, name: string) {
    name in c.functions && Lookup(table, name) == NULL
  }

  predicate AllInTable(table: map<string, Pointer>, names: set<string>) {
    forall n <- names :: Lookup(table, n) != NULL
  }

  predicate Consistent(setup: Setup, table: map<string, Pointer>) {
    && AllInTable(table, BOOT_FUNCTIONS + Core(setup))
    && forall e <- setup.extensions :: forall f <- setup.extensions[e].functions :: Lookup(table, f) != NULL
  }

  lemma {:induction false} ConsistentNeverMissing(
      setup: Setup, table: map<string, Pointer>, calls: seq<Call>, name: string)
    requires Consistent(setup, table)
    ensures !MissingFromTable(Run(setup, calls), table, name)
    decreases |calls|
  {
    if calls == [] {
    } else {
      ConsistentNeverMissing(setup, table, calls[..|calls| - 1], name);
    }
  }

  lemma InconsistentIsMissed(setup: Setup, table: map<string, Pointer>) returns (calls: seq<Call>, name: string)
    requires !Consistent(setup, table)
    ensures MissingFromTable(Run(setup, calls), table, name)
  {
    calls, name := [], "";
    if !AllInTable(table, BOOT_FUNCTIONS) {
      name :| name in BOOT_FUNCTIONS && Lookup(table, name) == NULL;
    } else {
      var extensions: seq<string> := [];
      if !AllInTable(table, BOOT_FUNCTIONS + Core(setup)) {
        name :| name in BOOT_FUNCTIONS + Core(setup) && Lookup(table, name) == NULL;
      } else {
        var e :| e in setup.extensions && exists f :: f in setup.extensions[e].functions && Lookup(table, f) == NULL;
        name :| name in setup.extensions[e].functions && Lookup(table, name) == NULL;
        extensions := [e];
        assert name in FunctionsOf(setup.extensions, extensions);
      }
      var call := Call(CreateInfo(0, extensions, [ANDROID_STRUCT]), Reply(SUCCESS, 1));
      calls := [call];
      assert calls[..0] == [];
      assert Create(setup, BOOT, call.info, call.reply).client.functions ==
             BOOT_FUNCTIONS + FunctionsOf(setup.extensions, extensions) + Core(setup);
    }
  }

  ghost predicate NeverMissing(setup: Setup, table: map<string, Pointer>) {
    forall calls: seq<Call>, name: string :: !MissingFromTable(Run(setup, calls), table, name)
  }

  /** The branch is dead in every reachable state exactly when every function that the boot set, the
      core list or an available extension names has an entry in the table. */
  lemma MissingBranchIsDead(setup: Setup, table: map<string, Pointer>)
    ensures Consistent(setup, table) <==> NeverMissing(setup, table)
  {
    if Consistent(setup, table) {
      forall calls: seq<Call>, name: string
        ensures !MissingFromTable(Run(setup, calls), table, name)
      {
        ConsistentNeverMissing(setup, table, calls, name);
      }
    }
    if !Consistent(setup, table) {
      var calls, name := InconsistentIsMissed(setup, table);
      assert !NeverMissing(setup, table);
    }
  }
}
