/**
 The server's hand-written request handlers: creating and destroying the instance, and polling for
 events.  `log` is the sequence of calls made to the runtime and to modules; the calls to client
 modules are in it too, so that a whole session has one log.
 */
module ServerHandlers {
  import opened OpenXr

  const TIMER_EXTENSION := "XR_KHR_convert_timespec_time"

  datatype Event =
    | CreateCalled(names: seq<string>, reply: Reply)
    | DestroyCalled(instance: Instance)
    | ModuleCreated(index: nat, instance: Instance)
    | ModuleDestroyed(index: nat)
    | Sampled(instance: Instance, loader: Instance)
    | ClientModuleCreated(index: nat, instance: Instance)

  datatype ServerState = ServerState(instance: Instance, loader: Instance, log: seq<Event>)

  /** The extensions the modules require, in module order. */
  function Required(modules: seq<seq<string>>): seq<string>
    decreases |modules|
  {
    if modules == [] then [] else Required(modules[..|modules| - 1]) + modules[|modules| - 1]
  }

  function ModulesCreated(n: nat, instance: Instance): seq<Event> {
    seq(n, i requires 0 <= i => ModuleCreated(i, instance))
  }

  function ModulesDestroyed(n: nat): seq<Event> {
    seq(n, i requires 0 <= i => ModuleDestroyed(i))
  }

  /** The call to the runtime, and what is saved if it succeeds. */
  function CallCreate(s: ServerState, modules: seq<seq<string>>, names: seq<string>, reply: Reply): ServerState {
    var log := s.log + [CreateCalled(names + Required(modules) + [TIMER_EXTENSION], reply)];
    if Succeeded(reply.result) then ServerState(reply.instance, reply.instance, log) else s.(log := log)
  }

  function HandleCreate(s: ServerState, modules: seq<seq<string>>, names: seq<string>, reply: Reply): ServerState {
    var t := CallCreate(s, modules, names, reply);
    if Succeeded(reply.result) then t.(log := t.log + ModulesCreated(|modules|, reply.instance)) else t
  }

  function HandleDestroy(s: ServerState, modules: nat, instance: Instance): (ServerState, bool) {
    if instance == s.instance then
      (ServerState(NULL_INSTANCE, s.loader, s.log + ModulesDestroyed(modules) + [DestroyCalled(instance)]), true)
    else (s, false)
  }

  function HandleSync(s: ServerState): ServerState {
    s.(log := s.log + [Sampled(s.instance, s.loader)])
  }

  /** When the connection ends. */
  function Finish(s: ServerState): ServerState {
    if s.instance != NULL_INSTANCE then ServerState(NULL_INSTANCE, s.loader, s.log + [DestroyCalled(s.instance)]) else s
  }

  // ----- The same by position in the log -----

  /** Where the names of module i start among those of all modules. */
  function StartOf(modules: seq<seq<string>>, i: nat): nat
    requires i <= |modules|
  {
    if i == 0 then 0 else StartOf(modules, i - 1) + |modules[i - 1]|
  }

  lemma {:induction false} StartOfPrefix(modules: seq<seq<string>>, n: nat, i: nat)
    requires i <= n <= |modules|
    ensures StartOf(modules[..n], i) == StartOf(modules, i)
  {
    if i == 0 {
    } else {
      StartOfPrefix(modules, n, i - 1);
    }
  }

  lemma {:induction false} RequiredAt(modules: seq<seq<string>>, i: nat, j: nat)
    requires i < |modules| && j < |modules[i]|
    ensures |Required(modules)| == StartOf(modules, |modules|)
    ensures StartOf(modules, i) + j < |Required(modules)|
    ensures Required(modules)[StartOf(modules, i) + j] == modules[i][j]
    decreases |modules|
  {
    var n := |modules| - 1;
    var init := modules[..n];
    RequiredLength(init);
    StartOfPrefix(modules, n, n);
    StartOfPrefix(modules, n, i);
    if i < n {
      RequiredAt(init, i, j);
    }
  }

  lemma {:induction false} RequiredLength(modules: seq<seq<string>>)
    ensures |Required(modules)| == StartOf(modules, |modules|)
    decreases |modules|
  {
    if modules == [] {
    } else {
      RequiredLength(modules[..|modules| - 1]);
      StartOfPrefix(modules, |modules| - 1, |modules| - 1);
    }
  }

  /** The request, then what each module requires, in module order, then the timer extension. */
  ghost predicate Extended(names: seq<string>, request: seq<string>, modules: seq<seq<string>>) {
    && |names| == |request| + StartOf(modules, |modules|) + 1
    && names[..|request|] == request
    && names[|names| - 1] == "XR_KHR_convert_timespec_time"
    && forall i, j :: 0 <= i < |modules| && 0 <= j < |modules[i]| ==> IsAt(names, request, modules, i, j)
  }

  /** Name j of module i comes after the request and the names of the modules before. */
  ghost predicate IsAt(names: seq<string>, request: seq<string>, modules: seq<seq<string>>, i: nat, j: nat)
    requires i < |modules| && j < |modules[i]|
  {
    var at := |request| + StartOf(modules, i) + j;
    at < |names| && names[at] == modules[i][j]
  }

  /** A create request: the runtime is called with the extended list; if it succeeds the handle is saved
      and every module is told of it, in order, and otherwise nothing is saved and no module is told. */
  ghost predicate CreateServed(
      before: ServerState, after: ServerState, modules: seq<seq<string>>, request: seq<string>, reply: Reply)
  {
    var at, n := |before.log|, if reply.result >= 0 then |modules| else 0;
    && |after.log| == at + 1 + n && after.log[..at] == before.log
    && after.log[at].CreateCalled? && after.log[at].reply == reply
    && Extended(after.log[at].names, request, modules)
    && (forall k :: 0 <= k < n ==> after.log[at + 1 + k] == ModuleCreated(k, reply.instance))
    && after.instance == (if reply.result >= 0 then reply.instance else before.instance)
    && after.loader == (if reply.result >= 0 then reply.instance else before.loader)
  }

  lemma ListIsExtended(request: seq<string>, modules: seq<seq<string>>)
    ensures Extended(request + Required(modules) + [TIMER_EXTENSION], request, modules)
  {
    var required := Required(modules);
    var names := request + required + [TIMER_EXTENSION];
    RequiredLength(modules);
    assert names == request + (required + [TIMER_EXTENSION]);
    assert names[..|request|] == request && names[|names| - 1] == TIMER_EXTENSION;
    forall i, j | 0 <= i < |modules| && 0 <= j < |modules[i]|
      ensures IsAt(names, request, modules, i, j)
    {
      RequiredAt(modules, i, j);
      var at := StartOf(modules, i) + j;
      assert (request + required)[|request| + at] == required[at];
      assert names[|request| + at] == (request + required)[|request| + at];
    }
  }

  lemma CreateRequestExactly(s: ServerState, modules: seq<seq<string>>, request: seq<string>, reply: Reply)
    ensures CreateServed(s, HandleCreate(s, modules, request, reply), modules, request, reply)
  {
    ListIsExtended(request, modules);
  }

  /** A destroy request is answered as valid if and only if its handle is the saved one.  Then every
      module is told, in order, before the runtime is called, and nothing is saved any more; otherwise
      nothing happens. */
  ghost predicate DestroyServed(before: ServerState, after: ServerState, modules: nat, h: Instance, valid: bool) {
    var at := |before.log|;
    && (valid <==> h == before.instance)
    && (!valid ==> after == before)
    && (valid ==>
          && |after.log| == at + modules + 1 && after.log[..at] == before.log
          && (forall k :: 0 <= k < modules ==> after.log[at + k] == ModuleDestroyed(k))
          && after.log[at + modules] == DestroyCalled(h)
          && after.instance == 0 && after.loader == before.loader)
  }

  lemma DestroyRequestExactly(s: ServerState, modules: nat, h: Instance)
    ensures var (after, valid) := HandleDestroy(s, modules, h); DestroyServed(s, after, modules, h, valid)
  {
  }

  /** The deserialized create info: a count and the names it points to. */
  class CreateInfo {
    var count: nat
    var names: seq<string>

    constructor (names: seq<string>)
      ensures this.names == names && count == |names|
    {
      this.names, count := names, |names|;
    }
  }

  class Server {
    const modules: seq<seq<string>>
    var instance: Instance
    var loader: Instance
    var log: seq<Event>

    /** `initial` is the value the uninitialized instance field happens to hold. */
    constructor (modules: seq<seq<string>>, initial: Instance)
      ensures this.modules == modules && State() == ServerState(initial, NULL_INSTANCE, [])
    {
      this.modules, instance, loader, log := modules, initial, NULL_INSTANCE, [];
    }

    function State(): ServerState
      reads this
    {
      ServerState(instance, loader, log)
    }

    /** The runtime sees the extended list; afterwards the create info is what it was, so it can be
        released as it was built. */
    method CreateInstanceHandler(info: CreateInfo, reply: Reply)
      requires info.count <= |info.names|
      modifies this, info
      ensures State() == HandleCreate(old(State()), modules, old(info.names[..info.count]), reply)
      ensures CreateServed(old(State()), State(), modules, old(info.names[..info.count]), reply)
      ensures info.count == old(info.count) && info.names == old(info.names)
    {
      CreateRequestExactly(State(), modules, info.names[..info.count], reply);
      var oldCount, oldNames := info.count, info.names;
      var enabled := CollectExtensions(oldNames[..oldCount]);
      info.count, info.names := |enabled|, enabled;

      log := log + [CreateCalled(info.names[..info.count], reply)];
      assert enabled[..|enabled|] == enabled;
      if Succeeded(reply.result) {
        instance, loader := reply.instance, reply.instance;
        NotifyCreated();
      }
      info.count, info.names := oldCount, oldNames;
    }

    /** The request, what the modules require, and the timer extension. */
    method CollectExtensions(requested: seq<string>) returns (enabled: seq<string>)
      ensures enabled == requested + Required(modules) + [TIMER_EXTENSION]
    {
      enabled := requested;
      for i := 0 to |modules|
        invariant enabled == requested + Required(modules[..i])
      {
        assert modules[..i + 1][..i] == modules[..i];
        enabled := enabled + modules[i];
      }
      assert modules[..|modules|] == modules;
      enabled := enabled + [TIMER_EXTENSION];
    }

    method NotifyCreated()
      modifies this`log
      ensures log == old(log) + ModulesCreated(|modules|, instance)
    {
      for i := 0 to |modules|
        invariant log == old(log) + ModulesCreated(i, instance)
      {
        log := log + [ModuleCreated(i, instance)];
      }
    }

    method NotifyDestroyed()
      modifies this`log
      ensures log == old(log) + ModulesDestroyed(|modules|)
    {
      for i := 0 to |modules|
        invariant log == old(log) + ModulesDestroyed(i)
      {
        log := log + [ModuleDestroyed(i)];
      }
    }

    method DestroyInstanceHandler(h: Instance) returns (valid: bool)
      modifies this
      ensures (State(), valid) == HandleDestroy(old(State()), |modules|, h)
      ensures DestroyServed(old(State()), State(), |modules|, h, valid)
    {
      DestroyRequestExactly(State(), |modules|, h);
      valid := h == instance;
      if valid {
        NotifyDestroyed();
        log := log + [DestroyCalled(h)];
        instance := NULL_INSTANCE;
      }
    }

    method EndOfRun()
      modifies this
      ensures State() == Finish(old(State()))
      ensures instance == NULL_INSTANCE && loader == old(loader)
      ensures log == if old(instance) == NULL_INSTANCE then old(log) else old(log) + [DestroyCalled(old(instance))]
    {
      if instance != NULL_INSTANCE {
        log := log + [DestroyCalled(instance)];
        instance := NULL_INSTANCE;
      }
    }
  }

  // ----- Conservation of instances, for whatever requests a client sends -----

  datatype Request = CreateRequest(names: seq<string>, reply: Reply) | DestroyRequest(instance: Instance) | SyncRequest

  function Serve(s: ServerState, modules: seq<seq<string>>, r: Request): ServerState {
    match r
    case CreateRequest(names, reply) => HandleCreate(s, modules, names, reply)
    case DestroyRequest(h) => HandleDestroy(s, |modules|, h).0
    case SyncRequest => HandleSync(s)
  }

  function ServeAll(s: ServerState, modules: seq<seq<string>>, requests: seq<Request>): ServerState
    decreases |requests|
  {
    if requests == [] then s
    else Serve(ServeAll(s, modules, requests[..|requests| - 1]), modules, requests[|requests| - 1])
  }

  type Handle = h: nat | h != NULL_INSTANCE witness 1

  function Is(h: Handle, instance: Instance): nat {
    if instance == h then 1 else 0
  }

  /** The event hands out `h`. */
  function Creates(e: Event, h: Handle): nat {
    if e.CreateCalled? && Succeeded(e.reply.result) then Is(h, e.reply.instance) else 0
  }

  /** The event passes `h` to destroy. */
  function Destroys(e: Event, h: Handle): nat {
    if e.DestroyCalled? then Is(h, e.instance) else 0
  }

  /** How often the runtime handed out `h`. */
  function Created(log: seq<Event>, h: Handle): nat
    decreases |log|
  {
    if log == [] then 0 else Created(log[..|log| - 1], h) + Creates(log[|log| - 1], h)
  }

  /** How often `h` was passed to destroy. */
  function Destroyed(log: seq<Event>, h: Handle): nat
    decreases |log|
  {
    if log == [] then 0 else Destroyed(log[..|log| - 1], h) + Destroys(log[|log| - 1], h)
  }

  /** A request that succeeds in creating overwrites a saved `h`. */
  function Overwrites(s: ServerState, r: Request, h: Handle): nat {
    if r.CreateRequest? && Succeeded(r.reply.result) then Is(h, s.instance) else 0
  }

  /** How often `h` was overwritten while it was saved. */
  function Lost(s: ServerState, modules: seq<seq<string>>, requests: seq<Request>, h: Handle): nat
    decreases |requests|
  {
    if requests == [] then 0
    else
      var init := requests[..|requests| - 1];
      Lost(s, modules, init, h) + Overwrites(ServeAll(s, modules, init), requests[|requests| - 1], h)
  }

  lemma {:induction false} AddModuleEvents(log: seq<Event>, more: seq<Event>, h: Handle)
    requires forall i :: 0 <= i < |more| ==> more[i].ModuleCreated? || more[i].ModuleDestroyed?
    ensures Created(log + more, h) == Created(log, h) && Destroyed(log + more, h) == Destroyed(log, h)
    decreases |more|
  {
    if more == [] {
      assert log + more == log;
    } else {
      assert (log + more)[..|log + more| - 1] == log + more[..|more| - 1];
      AddModuleEvents(log, more[..|more| - 1], h);
    }
  }

  lemma AddEvent(log: seq<Event>, e: Event, h: Handle)
    ensures Created(log + [e], h) == Created(log, h) + Creates(e, h)
    ensures Destroyed(log + [e], h) == Destroyed(log, h) + Destroys(e, h)
  {
    assert (log + [e])[..|log + [e]| - 1] == log;
  }

  /** One request: a handle that comes in from the runtime is saved; one that was saved stays
      saved, goes out to destroy, or is overwritten. */
  lemma HandleBalances(s: ServerState, modules: seq<seq<string>>, r: Request, h: Handle)
    ensures var t := Serve(s, modules, r);
      Created(t.log, h) - Created(s.log, h) + Is(h, s.instance) ==
      Destroyed(t.log, h) - Destroyed(s.log, h) + Is(h, t.instance) + Overwrites(s, r, h)
  {
    match r
    case CreateRequest(names, reply) =>
      var e := CreateCalled(names + Required(modules) + [TIMER_EXTENSION], reply);
      AddEvent(s.log, e, h);
      AddModuleEvents(s.log + [e], ModulesCreated(|modules|, reply.instance), h);
    case DestroyRequest(instance) =>
      AddModuleEvents(s.log, ModulesDestroyed(|modules|), h);
      AddEvent(s.log + ModulesDestroyed(|modules|), DestroyCalled(instance), h);
    case SyncRequest =>
      AddEvent(s.log, Sampled(s.instance, s.loader), h);
  }

  lemma {:induction false} RequestsBalance(s: ServerState, modules: seq<seq<string>>, requests: seq<Request>, h: Handle)
    requires s.log == []
    ensures var t := ServeAll(s, modules, requests);
      Created(t.log, h) + Is(h, s.instance) == Destroyed(t.log, h) + Is(h, t.instance) + Lost(s, modules, requests, h)
    decreases |requests|
  {
    if requests == [] {
    } else {
      var init := requests[..|requests| - 1];
      RequestsBalance(s, modules, init, h);
      HandleBalances(ServeAll(s, modules, init), modules, requests[|requests| - 1], h);
    }
  }

  /** By the time `run` returns, a handle has been passed to destroy as often as it was created, plus
      once if the instance field happened to hold it at the start, less the times it was overwritten
      while saved.  From a null start, then, every created instance is destroyed exactly once if and
      only if none was overwritten. */
  lemma InstancesConserved(s: ServerState, modules: seq<seq<string>>, requests: seq<Request>, h: Handle)
    requires s.log == []
    ensures var log := Finish(ServeAll(s, modules, requests)).log;
      && Created(log, h) + Is(h, s.instance) == Destroyed(log, h) + Lost(s, modules, requests, h)
      && (s.instance == NULL_INSTANCE ==>
            (Destroyed(log, h) == Created(log, h) <==> Lost(s, modules, requests, h) == 0))
  {
    RequestsBalance(s, modules, requests, h);
    var t := ServeAll(s, modules, requests);
    AddEvent(t.log, DestroyCalled(t.instance), h);
  }

  /** The server alone does not guard against a second instance: the first one is never destroyed. */
  lemma SecondCreateLeaksFirst(modules: seq<seq<string>>, a: Handle, b: Handle)
    requires a != b
    ensures var requests := [CreateRequest([], Reply(SUCCESS, a)), CreateRequest([], Reply(SUCCESS, b))];
            var log := Finish(ServeAll(ServerState(NULL_INSTANCE, NULL_INSTANCE, []), modules, requests)).log;
            Created(log, a) == 1 && Destroyed(log, a) == 0
  {
    var first, second := CreateRequest([], Reply(SUCCESS, a)), CreateRequest([], Reply(SUCCESS, b));
    var requests := [first, second];
    var s := ServerState(NULL_INSTANCE, NULL_INSTANCE, []);
    assert requests[..1] == [first] && [first][..0] == [];
    var mid := Serve(s, modules, first);
    assert ServeAll(s, modules, [first]) == mid;
    HandleBalances(s, modules, first, a);
    HandleBalances(mid, modules, second, a);
    InstancesConserved(s, modules, requests, a);
    assert Lost(s, modules, requests, a) == Lost(s, modules, [first], a) + Overwrites(mid, second, a);
    var names := [] + Required(modules) + [TIMER_EXTENSION];
    var e1, e2 := CreateCalled(names, first.reply), CreateCalled(names, second.reply);
    AddEvent([], e1, a);
    AddModuleEvents([e1], ModulesCreated(|modules|, a), a);
    assert [] + [e1] == [e1];
    AddEvent(mid.log, e2, a);
    AddModuleEvents(mid.log + [e2], ModulesCreated(|modules|, b), a);
    var t := ServeAll(s, modules, requests);
    AddEvent(t.log, DestroyCalled(b), a);
  }

  // ----- Who is told what, and when, for whatever requests a client sends -----

  ghost predicate TellsBefore(log: seq<Event>, modules: nat, j: nat)
    requires j < |log|
  {
    j >= modules && forall k :: 0 <= k < modules ==> log[j - modules + k] == ModuleDestroyed(k)
  }

  ghost predicate TellsAfter(log: seq<Event>, modules: nat, j: nat, h: Instance)
    requires j < |log|
  {
    j + modules < |log| && forall k :: 0 <= k < modules ==> log[j + 1 + k] == ModuleCreated(k, h)
  }

  /** Event j is told of, or tells, at the right distance: the modules are told of a destruction right
      before it, of a creation right after it, each once and in order, and of nothing else. */
  ghost predicate InPlace(log: seq<Event>, modules: nat, j: nat)
    requires j < |log|
  {
    match log[j]
    case DestroyCalled(_) => TellsBefore(log, modules, j)
    case ModuleDestroyed(k) => k < modules && k <= j && j - k + modules < |log| && log[j - k + modules].DestroyCalled?
    case CreateCalled(_, reply) =>
      reply.result >= 0 ==> TellsAfter(log, modules, j, reply.instance)
    case ModuleCreated(k, h) =>
      && k < modules && k < j
      && log[j - k - 1].CreateCalled? && log[j - k - 1].reply.result >= 0 && log[j - k - 1].reply.instance == h
    case _ => true
  }

  ghost predicate AllInPlace(log: seq<Event>, modules: nat) {
    forall j :: 0 <= j < |log| ==> InPlace(log, modules, j)
  }

  lemma InPlaceFirst(a: seq<Event>, b: seq<Event>, modules: nat, j: nat)
    requires j < |a| && InPlace(a, modules, j)
    ensures InPlace(a + b, modules, j)
  {
    var log := a + b;
    assert forall i :: 0 <= i < |a| ==> log[i] == a[i];
  }

  lemma TellsBeforeSecond(a: seq<Event>, b: seq<Event>, modules: nat, j: nat)
    requires j < |b| && TellsBefore(b, modules, j)
    ensures TellsBefore(a + b, modules, |a| + j)
  {
    forall k | 0 <= k < modules
      ensures (a + b)[|a| + j - modules + k] == ModuleDestroyed(k)
    {
      assert (a + b)[|a| + (j - modules + k)] == b[j - modules + k];
    }
  }

  lemma TellsAfterSecond(a: seq<Event>, b: seq<Event>, modules: nat, j: nat, h: Instance)
    requires j < |b| && TellsAfter(b, modules, j, h)
    ensures TellsAfter(a + b, modules, |a| + j, h)
  {
    forall k | 0 <= k < modules
      ensures (a + b)[|a| + j + 1 + k] == ModuleCreated(k, h)
    {
      assert (a + b)[|a| + (j + 1 + k)] == b[j + 1 + k];
    }
  }

  lemma InPlaceSecond(a: seq<Event>, b: seq<Event>, modules: nat, j: nat)
    requires j < |b| && InPlace(b, modules, j)
    ensures InPlace(a + b, modules, |a| + j)
  {
    var log, at := a + b, |a|;
    assert log[at + j] == b[j];
    match b[j]
    case DestroyCalled(_) => TellsBeforeSecond(a, b, modules, j);
    case CreateCalled(_, reply) =>
      if reply.result >= 0 {
        TellsAfterSecond(a, b, modules, j, reply.instance);
      }
    case ModuleDestroyed(k) => assert log[at + (j - k + modules)] == b[j - k + modules];
    case ModuleCreated(k, h) => assert log[at + (j - k - 1)] == b[j - k - 1];
    case _ =>
  }

  lemma InPlaceJoin(a: seq<Event>, b: seq<Event>, modules: nat)
    requires AllInPlace(a, modules) && AllInPlace(b, modules)
    ensures AllInPlace(a + b, modules)
  {
    forall j | 0 <= j < |a + b|
      ensures InPlace(a + b, modules, j)
    {
      if j < |a| {
        InPlaceFirst(a, b, modules, j);
      } else {
        InPlaceSecond(a, b, modules, j - |a|);
      }
    }
  }

  lemma CreateInPlace(names: seq<string>, reply: Reply, modules: nat)
    ensures var told := if reply.result >= 0 then ModulesCreated(modules, reply.instance) else [];
            AllInPlace([CreateCalled(names, reply)] + told, modules)
  {
    var told := if reply.result >= 0 then ModulesCreated(modules, reply.instance) else [];
    var log := [CreateCalled(names, reply)] + told;
    forall j | 0 <= j < |log|
      ensures InPlace(log, modules, j)
    {
      if j == 0 {
        assert forall k :: 0 <= k < |told| ==> log[0 + 1 + k] == told[k];
      } else {
        assert log[j] == told[j - 1] == ModuleCreated(j - 1, reply.instance);
        assert log[j - (j - 1) - 1] == CreateCalled(names, reply);
      }
    }
  }

  lemma DestroyInPlace(h: Instance, modules: nat)
    ensures AllInPlace(ModulesDestroyed(modules) + [DestroyCalled(h)], modules)
  {
    var log := ModulesDestroyed(modules) + [DestroyCalled(h)];
    assert forall k :: 0 <= k < modules ==> log[k] == ModuleDestroyed(k);
    assert log[modules] == DestroyCalled(h);
    assert TellsBefore(log, modules, modules);
    assert forall k :: 0 <= k < modules ==> InPlace(log, modules, k);
  }

  lemma RequestInPlace(s: ServerState, modules: seq<seq<string>>, r: Request)
    requires AllInPlace(s.log, |modules|)
    ensures AllInPlace(Serve(s, modules, r).log, |modules|)
  {
    match r
    case CreateRequest(names, reply) =>
      var list := names + Required(modules) + [TIMER_EXTENSION];
      var told := if reply.result >= 0 then ModulesCreated(|modules|, reply.instance) else [];
      CreateInPlace(list, reply, |modules|);
      InPlaceJoin(s.log, [CreateCalled(list, reply)] + told, |modules|);
      assert Serve(s, modules, r).log == s.log + ([CreateCalled(list, reply)] + told);
    case DestroyRequest(h) =>
      DestroyInPlace(h, |modules|);
      InPlaceJoin(s.log, ModulesDestroyed(|modules|) + [DestroyCalled(h)], |modules|);
      assert s.log + ModulesDestroyed(|modules|) + [DestroyCalled(h)]
          == s.log + (ModulesDestroyed(|modules|) + [DestroyCalled(h)]);
    case SyncRequest =>
      assert AllInPlace([Sampled(s.instance, s.loader)], |modules|);
      InPlaceJoin(s.log, [Sampled(s.instance, s.loader)], |modules|);
  }

  /** For any requests: every destruction that answers a request comes right after the notice to every
      module, in order; every successful creation right before; there are no other notices.  Only the
      destruction at the end of the run is not announced. */
  lemma {:induction false} NoticesInPlace(s: ServerState, modules: seq<seq<string>>, requests: seq<Request>)
    requires s.log == []
    ensures AllInPlace(ServeAll(s, modules, requests).log, |modules|)
    decreases |requests|
  {
    if requests == [] {
    } else {
      var init := requests[..|requests| - 1];
      NoticesInPlace(s, modules, init);
      RequestInPlace(ServeAll(s, modules, init), modules, requests[|requests| - 1]);
    }
  }

  /** The counts are counts of the log. */
  lemma {:induction false} CountsAreCounts(log: seq<Event>, h: Handle)
    ensures Destroyed(log, h) == multiset(log)[DestroyCalled(h)]
    ensures Created(log, h) > 0 <==> exists i :: CreatesAt(log, i, h)
    decreases |log|
  {
    if log == [] {
    } else {
      var n := |log| - 1;
      CountsAreCounts(log[..n], h);
      assert log == log[..n] + [log[n]];
      assert CreatesAt(log, n, h) <==> Creates(log[n], h) > 0;
      assert forall i: nat :: i < n ==> (CreatesAt(log, i, h) <==> CreatesAt(log[..n], i, h));
    }
  }

  ghost predicate CreatesAt(log: seq<Event>, i: nat, h: Handle) {
    i < |log| && log[i].CreateCalled? && log[i].reply.result >= 0 && log[i].reply.instance == h
  }
}
