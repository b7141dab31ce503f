/**
 A whole connection: one client that makes one call at a time, the server that serves it, and the
 two reliable message streams between them.  The runtime's answers to xrCreateInstance are part of
 the actions.  Either end may lose the connection at any moment.
 */
module Session {
  import opened OpenXr
  import opened ServerHandlers

  datatype Message = CreateMessage(names: seq<string>) | DestroyMessage(instance: Instance) | SyncMessage | OtherMessage

  datatype Answer = CreateAnswer(reply: Reply) | OtherAnswer

  datatype ClientPhase = Ready | Creating | Waiting | Notifying(next: nat) | Gone

  datatype ServerPhase = Serving | NotifyingModules(next: nat, reply: Reply) | Returned

  datatype Session = Session(
    phase: ClientPhase, instance: Instance, syncEnabled: bool,
    server: ServerState, serverPhase: ServerPhase, up: seq<Message>, down: seq<Answer>)

  /** What the server's modules require, and how many client modules are loaded. */
  datatype Modules = Modules(server: seq<seq<string>>, client: nat)

  const START := Session(Ready, NULL_INSTANCE, false, ServerState(NULL_INSTANCE, NULL_INSTANCE, []), Serving, [], [])

  datatype Action =
    | AppCreate(names: seq<string>)
    | AppDestroy(instance: Instance)
    | AppSync
    | AppOther
    | Receive
    | NotifyClient
    | ServeNext(reply: Reply)
    | NotifyServer
    | Disconnect
    | Return

  function Log(s: Session, e: Event): ServerState {
    s.server.(log := s.server.log + [e])
  }

  /** One action; an action that is not enabled changes nothing. */
  function Step(m: Modules, s: Session, a: Action): Session {
    match a
    case AppCreate(names) =>
      if s.phase == Ready && s.instance == NULL_INSTANCE
      then s.(phase := Creating, up := s.up + [CreateMessage(names)]) else s
    case AppDestroy(h) => if s.phase == Ready then s.(phase := Waiting, up := s.up + [DestroyMessage(h)]) else s
    case AppSync => if s.phase == Ready && s.syncEnabled then s.(phase := Waiting, up := s.up + [SyncMessage]) else s
    case AppOther => if s.phase == Ready then s.(phase := Waiting, up := s.up + [OtherMessage]) else s
    case Receive => ClientReceives(s)
    case NotifyClient =>
      if !s.phase.Notifying? then s
      else if s.phase.next < m.client then
        s.(phase := Notifying(s.phase.next + 1), server := Log(s, ClientModuleCreated(s.phase.next, s.instance)))
      else s.(phase := Ready)
    case ServeNext(reply) => if s.serverPhase == Serving && s.up != [] then ServerServes(m, s, reply) else s
    case NotifyServer =>
      if !s.serverPhase.NotifyingModules? then s
      else
        var k, reply := s.serverPhase.next, s.serverPhase.reply;
        if k < |m.server| then
          s.(serverPhase := NotifyingModules(k + 1, reply), server := Log(s, ModuleCreated(k, reply.instance)))
        else s.(serverPhase := Serving, down := s.down + [CreateAnswer(reply)])
    case Disconnect => s.(phase := Gone)
    case Return =>
      if s.phase == Gone && s.serverPhase == Serving then s.(server := Finish(s.server), serverPhase := Returned) else s
  }

  function ClientReceives(s: Session): Session {
    if s.down == [] then s
    else
      match (s.phase, s.down[0])
      case (Creating, CreateAnswer(reply)) =>
        if Succeeded(reply.result) then
          s.(phase := Notifying(0), instance := reply.instance, syncEnabled := true, down := s.down[1..])
        else s.(phase := Ready, down := s.down[1..])
      case (Waiting, OtherAnswer) => s.(phase := Ready, down := s.down[1..])
      case _ => s
  }

  function ServerServes(m: Modules, s: Session, reply: Reply): Session
    requires s.up != []
  {
    var rest := s.(up := s.up[1..]);
    match s.up[0]
    case CreateMessage(names) =>
      var next := rest.(server := CallCreate(s.server, m.server, names, reply));
      if Succeeded(reply.result) then next.(serverPhase := NotifyingModules(0, reply))
      else next.(down := s.down + [CreateAnswer(reply)])
    case DestroyMessage(h) =>
      rest.(server := HandleDestroy(s.server, |m.server|, h).0, down := s.down + [OtherAnswer])
    case SyncMessage => rest.(server := HandleSync(s.server), down := s.down + [OtherAnswer])
    case OtherMessage => rest.(down := s.down + [OtherAnswer])
  }

  function Run(m: Modules, s: Session, actions: seq<Action>): Session
    decreases |actions|
  {
    if actions == [] then s else Run(m, Step(m, s, actions[0]), actions[1..])
  }

  /** A runtime that reports success returns a handle. */
  predicate Honest(a: Action) {
    a.ServeNext? && Succeeded(a.reply.result) ==> a.reply.instance != NULL_INSTANCE
  }

  ghost predicate Reachable(m: Modules, s: Session) {
    exists actions :: Run(m, START, actions) == s && forall a <- actions :: Honest(a)
  }

  // ----- Invariants -----

  /** At most one call is in flight, and none while the client is not waiting. */
  predicate OneInFlight(s: Session) {
    var busy := if s.serverPhase.NotifyingModules? then 1 else 0;
    && |s.up| + |s.down| + busy <= 1
    && (s.phase.Ready? || s.phase.Notifying? ==> |s.up| + |s.down| + busy == 0)
  }

  predicate CreatingOrGone(s: Session) {
    s.phase in {Creating, Gone}
  }

  /** What can be in flight, and where the handle is. */
  predicate Stages(m: Modules, s: Session) {
    var h := s.server.loader;
    && s.server.instance in {NULL_INSTANCE, h}
    && (s.syncEnabled ==> s.instance != NULL_INSTANCE)
    && (s.phase.Notifying? ==> s.instance != NULL_INSTANCE)
    && (s.instance != NULL_INSTANCE ==> s.instance == h && s.phase != Creating)
    && (h != NULL_INSTANCE && s.instance == NULL_INSTANCE ==> CreatingOrGone(s) && s.up == [])
    && (s.up != [] ==>
          match s.up[0]
          case CreateMessage(_) => CreatingOrGone(s) && h == NULL_INSTANCE
          case SyncMessage => s.phase in {Waiting, Gone} && s.instance != NULL_INSTANCE
          case _ => s.phase in {Waiting, Gone})
    && (s.down != [] ==>
          match s.down[0]
          case CreateAnswer(reply) =>
            CreatingOrGone(s) && s.instance == NULL_INSTANCE &&
            if Succeeded(reply.result) then reply.instance == h != NULL_INSTANCE else h == NULL_INSTANCE
          case OtherAnswer => s.phase in {Waiting, Gone})
    && (s.serverPhase.NotifyingModules? ==>
          CreatingOrGone(s) && s.instance == NULL_INSTANCE && s.serverPhase.next <= |m.server| &&
          Succeeded(s.serverPhase.reply.result) && s.serverPhase.reply.instance == h != NULL_INSTANCE)
    && (s.serverPhase == Returned ==> s.phase == Gone && s.server.instance == NULL_INSTANCE)
  }

  /** Created once, and destroyed once it is no longer saved. */
  ghost predicate AccountedFor(s: ServerState, h: Handle) {
    && Created(s.log, h) == Is(h, s.loader)
    && Destroyed(s.log, h) == (if s.instance == NULL_INSTANCE then Is(h, s.loader) else 0)
  }

  ghost predicate Accounted(s: Session) {
    forall h: Handle :: AccountedFor(s.server, h)
  }

  predicate IsCreation(e: Event, h: Instance) {
    e.CreateCalled? && Succeeded(e.reply.result) && e.reply.instance == h
  }

  /** A time sample is taken after the instance that the loader refers to was created. */
  ghost predicate SampleBacked(log: seq<Event>, j: nat)
    requires j < |log|
  {
    log[j].Sampled? ==> log[j].loader != NULL_INSTANCE && exists i :: 0 <= i < j && IsCreation(log[i], log[j].loader)
  }

  /** A time sample is taken with a null instance if the loader's instance was passed to destroy
      before, and with that instance otherwise. */
  ghost predicate SampleExact(log: seq<Event>, j: nat)
    requires j < |log|
  {
    log[j].Sampled? ==>
      log[j].instance == if DestroyCalled(log[j].loader) in log[..j] then NULL_INSTANCE else log[j].loader
  }

  /** A client module hears of the instance after every server module has. */
  ghost predicate ClientAfterServer(log: seq<Event>, modules: nat, j: nat)
    requires j < |log|
  {
    && (log[j].ModuleCreated? ==> forall i :: 0 <= i < j ==> !log[i].ClientModuleCreated?)
    && (log[j].ClientModuleCreated? ==> forall k: nat :: k < modules ==> ModuleCreated(k, log[j].instance) in log[..j])
  }

  ghost predicate WellOrdered(log: seq<Event>, modules: nat) {
    forall j :: 0 <= j < |log| ==> SampleBacked(log, j) && SampleExact(log, j) && ClientAfterServer(log, modules, j)
  }

  /** How far the notifications have come. */
  ghost predicate Notified(m: Modules, s: Session) {
    var log, h := s.server.log, s.server.loader;
    var n := if h == NULL_INSTANCE then 0
             else if s.serverPhase.NotifyingModules? then s.serverPhase.next else |m.server|;
    && (forall k: nat :: k < n ==> ModuleCreated(k, h) in log)
    && (h != NULL_INSTANCE ==> exists i :: 0 <= i < |log| && IsCreation(log[i], h))
    && (s.instance == NULL_INSTANCE ==> forall e <- log :: !e.ClientModuleCreated?)
    && WellOrdered(log, |m.server|)
  }

  ghost predicate Inv(m: Modules, s: Session) {
    OneInFlight(s) && Stages(m, s) && Accounted(s) && Notified(m, s)
  }

  lemma StagesKept(m: Modules, s: Session, a: Action)
    requires OneInFlight(s) && Stages(m, s) && Honest(a)
    ensures OneInFlight(Step(m, s, a)) && Stages(m, Step(m, s, a))
  {
    match a
    case ServeNext(reply) =>
      if s.serverPhase == Serving && s.up != [] {
        match s.up[0]
        case CreateMessage(_) =>
        case DestroyMessage(_) =>
        case SyncMessage =>
        case OtherMessage =>
      }
    case _ =>
  }

  lemma CreateAccounted(m: Modules, s: ServerState, names: seq<string>, reply: Reply, h: Handle)
    requires AccountedFor(s, h) && s.loader == NULL_INSTANCE == s.instance
    requires Succeeded(reply.result) ==> reply.instance != NULL_INSTANCE
    ensures AccountedFor(CallCreate(s, m.server, names, reply), h)
  {
    AddEvent(s.log, CreateCalled(names + Required(m.server) + [TIMER_EXTENSION], reply), h);
  }

  lemma DestroyAccounted(m: Modules, s: ServerState, x: Instance, h: Handle)
    requires AccountedFor(s, h) && s.instance in {NULL_INSTANCE, s.loader}
    ensures AccountedFor(HandleDestroy(s, |m.server|, x).0, h)
  {
    var n := ModulesDestroyed(|m.server|);
    AddModuleEvents(s.log, n, h);
    AddEvent(s.log + n, DestroyCalled(x), h);
  }

  lemma ServeAccounted(m: Modules, s: Session, reply: Reply, h: Handle)
    requires OneInFlight(s) && Stages(m, s) && Honest(ServeNext(reply)) && AccountedFor(s.server, h)
    ensures AccountedFor(Step(m, s, ServeNext(reply)).server, h)
  {
    if s.serverPhase == Serving && s.up != [] {
      match s.up[0]
      case CreateMessage(names) => CreateAccounted(m, s.server, names, reply, h);
      case DestroyMessage(x) => DestroyAccounted(m, s.server, x, h);
      case SyncMessage => AddEvent(s.server.log, Sampled(s.server.instance, s.server.loader), h);
      case OtherMessage =>
    }
  }

  lemma NotifyAccounted(m: Modules, s: Session, a: Action, h: Handle)
    requires a.NotifyClient? || a.NotifyServer?
    requires AccountedFor(s.server, h)
    ensures AccountedFor(Step(m, s, a).server, h)
  {
    if a.NotifyClient? && s.phase.Notifying? {
      AddEvent(s.server.log, ClientModuleCreated(s.phase.next, s.instance), h);
    }
    if a.NotifyServer? && s.serverPhase.NotifyingModules? {
      AddEvent(s.server.log, ModuleCreated(s.serverPhase.next, s.serverPhase.reply.instance), h);
    }
  }

  lemma FinishAccounted(s: ServerState, h: Handle)
    requires AccountedFor(s, h) && s.instance in {NULL_INSTANCE, s.loader}
    ensures AccountedFor(Finish(s), h)
  {
    AddEvent(s.log, DestroyCalled(s.instance), h);
  }

  lemma AccountedKept(m: Modules, s: Session, a: Action)
    requires OneInFlight(s) && Stages(m, s) && Accounted(s) && Honest(a)
    ensures Accounted(Step(m, s, a))
  {
    forall h: Handle
      ensures AccountedFor(Step(m, s, a).server, h)
    {
      assert AccountedFor(s.server, h);
      if a.ServeNext? {
        ServeAccounted(m, s, a.reply, h);
      } else if a.Return? {
        FinishAccounted(s.server, h);
      } else if a.NotifyClient? || a.NotifyServer? {
        NotifyAccounted(m, s, a, h);
      }
    }
  }

  lemma OrderedMore(log: seq<Event>, modules: nat, e: Event)
    requires WellOrdered(log, modules)
    requires SampleBacked(log + [e], |log|) && SampleExact(log + [e], |log|)
    requires ClientAfterServer(log + [e], modules, |log|)
    ensures WellOrdered(log + [e], modules)
  {
    var more := log + [e];
    forall j | 0 <= j < |more|
      ensures SampleBacked(more, j) && SampleExact(more, j) && ClientAfterServer(more, modules, j)
    {
      if j < |log| {
        assert SampleBacked(log, j) && SampleExact(log, j) && ClientAfterServer(log, modules, j);
        assert more[..j] == log[..j];
      }
    }
  }

  lemma {:induction false} OrderedManyMore(log: seq<Event>, modules: nat, more: seq<Event>)
    requires WellOrdered(log, modules)
    requires forall i :: 0 <= i < |more| ==> more[i].ModuleDestroyed? || more[i].DestroyCalled?
    ensures WellOrdered(log + more, modules)
    decreases |more|
  {
    if more == [] {
      assert log + more == log;
    } else {
      var e := more[0];
      OrderedMore(log, modules, e);
      OrderedManyMore(log + [e], modules, more[1..]);
      assert log + [e] + more[1..] == log + more;
    }
  }

  /** The parts of Notified that only ask for something to be in the log. */
  ghost predicate LogHas(m: Modules, s: Session, log: seq<Event>) {
    var h := s.server.loader;
    var n := if h == NULL_INSTANCE then 0
             else if s.serverPhase.NotifyingModules? then s.serverPhase.next else |m.server|;
    && (forall k: nat :: k < n ==> ModuleCreated(k, h) in log)
    && (h != NULL_INSTANCE ==> exists i :: 0 <= i < |log| && IsCreation(log[i], h))
  }

  lemma LogHasMore(m: Modules, s: Session, log: seq<Event>, more: seq<Event>)
    requires LogHas(m, s, log)
    ensures LogHas(m, s, log + more)
  {
    if s.server.loader != NULL_INSTANCE {
      var i :| 0 <= i < |log| && IsCreation(log[i], s.server.loader);
      assert (log + more)[i] == log[i];
    }
  }

  lemma ClientNotifiedKept(m: Modules, s: Session)
    requires OneInFlight(s) && Stages(m, s) && Notified(m, s) && s.phase.Notifying?
    ensures Notified(m, Step(m, s, NotifyClient))
  {
    if s.phase.next < m.client {
      var e := ClientModuleCreated(s.phase.next, s.instance);
      LogHasMore(m, s, s.server.log, [e]);
      assert (s.server.log + [e])[..|s.server.log|] == s.server.log;
      OrderedMore(s.server.log, |m.server|, e);
    }
  }

  lemma ServerNotifiedKept(m: Modules, s: Session)
    requires OneInFlight(s) && Stages(m, s) && Notified(m, s) && s.serverPhase.NotifyingModules?
    ensures Notified(m, Step(m, s, NotifyServer))
  {
    if s.serverPhase.next < |m.server| {
      var e := ModuleCreated(s.serverPhase.next, s.serverPhase.reply.instance);
      LogHasMore(m, s, s.server.log, [e]);
      assert (s.server.log + [e])[|s.server.log|] == e;
      assert forall i :: 0 <= i < |s.server.log| ==> s.server.log[i] in s.server.log;
      OrderedMore(s.server.log, |m.server|, e);
    }
  }

  lemma CreateKept(m: Modules, s: Session, reply: Reply)
    requires OneInFlight(s) && Stages(m, s) && Notified(m, s) && Honest(ServeNext(reply))
    requires s.serverPhase == Serving && s.up != [] && s.up[0].CreateMessage?
    ensures Notified(m, Step(m, s, ServeNext(reply)))
  {
    var log, e := s.server.log, CreateCalled(s.up[0].names + Required(m.server) + [TIMER_EXTENSION], reply);
    LogHasMore(m, s, log, [e]);
    OrderedMore(log, |m.server|, e);
    assert IsCreation(e, reply.instance) || !Succeeded(reply.result);
    assert (log + [e])[|log|] == e;
  }

  lemma DestroyKept(m: Modules, s: Session, reply: Reply)
    requires OneInFlight(s) && Stages(m, s) && Notified(m, s)
    requires s.serverPhase == Serving && s.up != [] && s.up[0].DestroyMessage?
    ensures Notified(m, Step(m, s, ServeNext(reply)))
  {
    var log, more := s.server.log, ModulesDestroyed(|m.server|) + [DestroyCalled(s.up[0].instance)];
    assert log + ModulesDestroyed(|m.server|) + [DestroyCalled(s.up[0].instance)] == log + more;
    LogHasMore(m, s, log, more);
    OrderedManyMore(log, |m.server|, more);
  }

  lemma {:induction false} DestroyedIsCalled(log: seq<Event>, h: Handle)
    ensures Destroyed(log, h) > 0 <==> DestroyCalled(h) in log
    decreases |log|
  {
    if log == [] {
    } else {
      var init := log[..|log| - 1];
      DestroyedIsCalled(init, h);
      assert log == init + [log[|log| - 1]];
    }
  }

  lemma SyncKept(m: Modules, s: Session, reply: Reply)
    requires OneInFlight(s) && Stages(m, s) && Notified(m, s) && Accounted(s)
    requires s.serverPhase == Serving && s.up != [] && s.up[0].SyncMessage?
    ensures Notified(m, Step(m, s, ServeNext(reply)))
  {
    var log, e := s.server.log, Sampled(s.server.instance, s.server.loader);
    LogHasMore(m, s, log, [e]);
    var i :| 0 <= i < |log| && IsCreation(log[i], s.server.loader);
    assert (log + [e])[i] == log[i];
    assert SampleExact(log + [e], |log|) by {
      assert AccountedFor(s.server, s.server.loader);
      DestroyedIsCalled(log, s.server.loader);
      assert (log + [e])[..|log|] == log;
    }
    OrderedMore(log, |m.server|, e);
  }

  lemma NotifiedKept(m: Modules, s: Session, a: Action)
    requires OneInFlight(s) && Stages(m, s) && Accounted(s) && Notified(m, s) && Honest(a)
    ensures Notified(m, Step(m, s, a))
  {
    match a
    case NotifyClient => if s.phase.Notifying? { ClientNotifiedKept(m, s); }
    case NotifyServer => if s.serverPhase.NotifyingModules? { ServerNotifiedKept(m, s); }
    case Return =>
      var e := DestroyCalled(s.server.instance);
      LogHasMore(m, s, s.server.log, [e]);
      OrderedMore(s.server.log, |m.server|, e);
    case ServeNext(reply) =>
      if s.serverPhase == Serving && s.up != [] {
        match s.up[0]
        case CreateMessage(_) => CreateKept(m, s, reply);
        case DestroyMessage(_) => DestroyKept(m, s, reply);
        case SyncMessage => SyncKept(m, s, reply);
        case OtherMessage =>
      }
    case _ =>
  }

  lemma {:induction false} RunKeeps(m: Modules, s: Session, actions: seq<Action>)
    requires Inv(m, s) && forall a <- actions :: Honest(a)
    ensures Inv(m, Run(m, s, actions))
    decreases |actions|
  {
    if actions == [] {
    } else {
      var a := actions[0];
      assert a in actions;
      StagesKept(m, s, a);
      AccountedKept(m, s, a);
      NotifiedKept(m, s, a);
      RunKeeps(m, Step(m, s, a), actions[1..]);
    }
  }

  lemma StartKeeps(m: Modules)
    ensures Inv(m, START)
  {
  }

  lemma ReachableKeeps(m: Modules, s: Session)
    requires Reachable(m, s)
    ensures Inv(m, s)
  {
    var actions :| Run(m, START, actions) == s && forall a <- actions :: Honest(a);
    StartKeeps(m);
    RunKeeps(m, START, actions);
  }

  // ----- What every run keeps -----

  /** At most one instance is ever created on a connection, and by the time the server returns it has
      been passed to destroy exactly once, whether the client asked for it or the connection ended. */
  lemma InstanceConserved(m: Modules, s: Session, h: Handle)
    requires Reachable(m, s)
    ensures Created(s.server.log, h) <= 1
    ensures Destroyed(s.server.log, h) <= Created(s.server.log, h)
    ensures s.serverPhase == Returned ==> Destroyed(s.server.log, h) == Created(s.server.log, h)
    ensures forall g: Handle :: Created(s.server.log, g) > 0 && Created(s.server.log, h) > 0 ==> g == h
  {
    ReachableKeeps(m, s);
    assert AccountedFor(s.server, h);
    assert forall g: Handle :: AccountedFor(s.server, g) ==> Created(s.server.log, g) == Is(g, s.server.loader);
  }

  /** Once a client module has been told of the instance, every server module has been told before,
      and none is told afterwards. */
  lemma ServerModulesFirst(m: Modules, s: Session, i: nat)
    requires Reachable(m, s)
    requires i < |s.server.log| && s.server.log[i].ClientModuleCreated?
    ensures forall k: nat :: k < |m.server| ==> ModuleCreated(k, s.server.log[i].instance) in s.server.log[..i]
    ensures forall j :: i < j < |s.server.log| ==> !s.server.log[j].ModuleCreated?
  {
    ReachableKeeps(m, s);
    assert ClientAfterServer(s.server.log, |m.server|, i);
    forall j | i < j < |s.server.log|
      ensures !s.server.log[j].ModuleCreated?
    {
      assert ClientAfterServer(s.server.log, |m.server|, j);
    }
  }

  /** No time sample is taken before the runtime has created the instance the loader refers to. */
  lemma SamplesAfterCreation(m: Modules, s: Session, j: nat)
    requires Reachable(m, s)
    requires j < |s.server.log| && s.server.log[j].Sampled?
    ensures s.server.log[j].loader != NULL_INSTANCE
    ensures exists i :: 0 <= i < j && IsCreation(s.server.log[i], s.server.log[j].loader)
  {
    ReachableKeeps(m, s);
    assert SampleBacked(s.server.log, j);
  }

  /** Which instance a time sample is taken with, in every run: a null one exactly if the instance that
      the loader refers to has been passed to destroy before, and otherwise that instance. */
  lemma SampleInstanceExactly(m: Modules, s: Session, j: nat)
    requires Reachable(m, s)
    requires j < |s.server.log| && s.server.log[j].Sampled?
    ensures var e := s.server.log[j];
            && (e.instance == NULL_INSTANCE <==> DestroyCalled(e.loader) in s.server.log[..j])
            && (e.instance != NULL_INSTANCE ==> e.instance == e.loader)
  {
    ReachableKeeps(m, s);
    assert SampleBacked(s.server.log, j) && SampleExact(s.server.log, j);
  }

  /** The state after the application has destroyed its instance. */
  function AfterDestroy(m: Modules, s: Session): Session {
    s.(server := HandleDestroy(s.server, |m.server|, s.instance).0)
  }

  /** The application waits for its instance, which the server has saved, and nothing is in flight. */
  predicate Settled(s: Session) {
    && s.phase == Ready && s.serverPhase == Serving && s.up == [] && s.down == []
    && s.instance != NULL_INSTANCE && s.syncEnabled && s.server.instance == s.instance == s.server.loader
  }

  lemma SettledIsReached(m: Modules, s: Session)
    requires Reachable(m, s) && s.phase == Ready && s.instance != NULL_INSTANCE && s.serverPhase == Serving
    requires s.syncEnabled && s.server.instance == s.instance
    ensures Settled(s)
  {
    ReachableKeeps(m, s);
  }

  lemma DestroyIsSent(m: Modules, s: Session)
    requires Settled(s)
    ensures Step(m, s, AppDestroy(s.instance)) == s.(phase := Waiting, up := [DestroyMessage(s.instance)])
  {
  }

  lemma DestroyIsServed(m: Modules, s: Session, reply: Reply)
    requires Settled(s)
    ensures Step(m, s.(phase := Waiting, up := [DestroyMessage(s.instance)]), ServeNext(reply)) ==
            AfterDestroy(m, s).(phase := Waiting, down := [OtherAnswer])
  {
    assert [DestroyMessage(s.instance)][1..] == [] && [] + [OtherAnswer] == [OtherAnswer];
  }

  lemma AnswerIsReceived(m: Modules, s: Session)
    requires s.phase == Waiting && s.down == [OtherAnswer]
    ensures Step(m, s, Receive) == s.(phase := Ready, down := [])
  {
    assert [OtherAnswer][1..] == [];
  }

  lemma SyncIsSent(m: Modules, s: Session)
    requires s.phase == Ready && s.syncEnabled && s.up == []
    ensures Step(m, s, AppSync) == s.(phase := Waiting, up := [SyncMessage])
  {
  }

  lemma SyncIsServed(m: Modules, s: Session, reply: Reply)
    requires s.serverPhase == Serving && s.up == [SyncMessage] && s.down == []
    ensures Step(m, s, ServeNext(reply)) == s.(server := HandleSync(s.server), up := [], down := [OtherAnswer])
  {
    assert [SyncMessage][1..] == [] && [] + [OtherAnswer] == [OtherAnswer];
  }

  lemma RunFirst(m: Modules, s: Session, actions: seq<Action>, rest: seq<Action>)
    requires actions != [] && actions == [actions[0]] + rest
    ensures Run(m, s, actions) == Run(m, Step(m, s, actions[0]), rest)
  {
    assert actions[1..] == rest;
  }

  lemma TwoSteps(m: Modules, s: Session, a: Action, b: Action, rest: seq<Action>)
    ensures Run(m, s, [a, b] + rest) == Run(m, Step(m, Step(m, s, a), b), rest)
  {
    RunFirst(m, s, [a, b] + rest, [b] + rest);
    RunFirst(m, Step(m, s, a), [b] + rest, rest);
  }

  lemma FiveSteps(m: Modules, s: Session, a: Action, b: Action, c: Action, d: Action, e: Action)
    ensures Run(m, s, [a, b, c, d, e]) == Step(m, Step(m, Step(m, Step(m, Step(m, s, a), b), c), d), e)
  {
    var s2 := Step(m, Step(m, s, a), b);
    var s4 := Step(m, Step(m, s2, c), d);
    assert [a, b, c, d, e] == [a, b] + [c, d, e] && [c, d, e] == [c, d] + [e];
    TwoSteps(m, s, a, b, [c, d, e]);
    TwoSteps(m, s2, c, d, [e]);
    RunFirst(m, s4, [e], []);
  }

  /** The client never turns synchronization off again: once the application has destroyed the
      instance, its next call can still synchronize, and the server then samples its time with a null
      instance. */
  lemma SampleAfterDestroy(m: Modules, s: Session, reply: Reply)
    requires Reachable(m, s) && s.phase == Ready && s.instance != NULL_INSTANCE && s.serverPhase == Serving
    requires s.syncEnabled && s.server.instance == s.instance
    ensures var t := Run(m, s, [AppDestroy(s.instance), ServeNext(reply), Receive, AppSync, ServeNext(reply)]);
            t.server.log != [] && t.server.log[|t.server.log| - 1] == Sampled(NULL_INSTANCE, s.instance)
  {
    SettledIsReached(m, s);
    var closed, serve := AfterDestroy(m, s), ServeNext(reply);
    DestroyIsSent(m, s);
    DestroyIsServed(m, s, reply);
    AnswerIsReceived(m, closed.(phase := Waiting, down := [OtherAnswer]));
    SyncIsSent(m, closed);
    SyncIsServed(m, closed.(phase := Waiting, up := [SyncMessage]), reply);
    FiveSteps(m, s, AppDestroy(s.instance), serve, Receive, AppSync, serve);
  }

  lemma {:induction false} RunJoin(m: Modules, s: Session, first: seq<Action>, rest: seq<Action>)
    ensures Run(m, s, first + rest) == Run(m, Run(m, s, first), rest)
    decreases |first|
  {
    if first == [] {
      assert [] + rest == rest;
    } else {
      RunJoin(m, Step(m, s, first[0]), first[1..], rest);
      assert (first + rest)[1..] == first[1..] + rest;
    }
  }

  /** An application creates its instance, without modules. */
  function Creation(h: Handle): seq<Action> {
    [AppCreate([]), ServeNext(Reply(SUCCESS, h)), NotifyServer, Receive, NotifyClient]
  }

  /** The state it is in then. */
  function AfterCreation(h: Handle): Session {
    START.(instance := h, syncEnabled := true,
           server := ServerState(h, h, [CreateCalled([TIMER_EXTENSION], Reply(SUCCESS, h))]))
  }

  lemma CreatedIsReached(h: Handle)
    ensures Run(Modules([], 0), START, Creation(h)) == AfterCreation(h)
  {
    var m, reply := Modules([], 0), Reply(SUCCESS, h);
    var serve := ServeNext(reply);
    var server := AfterCreation(h).server;
    assert [] + [CreateMessage([])] == [CreateMessage([])] && [CreateMessage([])][1..] == [];
    assert [] + [CreateAnswer(reply)] == [CreateAnswer(reply)] && [CreateAnswer(reply)][1..] == [];
    assert [] + [] + [TIMER_EXTENSION] == [TIMER_EXTENSION];
    var s1 := START.(phase := Creating, up := [CreateMessage([])]);
    var s2 := START.(phase := Creating, server := server, serverPhase := NotifyingModules(0, reply));
    var s3 := START.(phase := Creating, server := server, down := [CreateAnswer(reply)]);
    var s4 := AfterCreation(h).(phase := Notifying(0));
    assert Step(m, START, AppCreate([])) == s1;
    assert Step(m, s1, serve) == s2;
    assert Step(m, s2, NotifyServer) == s3;
    assert Step(m, s3, Receive) == s4;
    assert Step(m, s4, NotifyClient) == AfterCreation(h);
    FiveSteps(m, START, AppCreate([]), serve, NotifyServer, Receive, NotifyClient);
  }

  /** A sample with a null instance does happen: create, destroy, synchronize. */
  lemma NullSampleHappens(h: Handle)
    ensures exists s :: Reachable(Modules([], 0), s) && s.server.log != [] &&
                        s.server.log[|s.server.log| - 1] == Sampled(NULL_INSTANCE, h)
  {
    var m, serve := Modules([], 0), ServeNext(Reply(SUCCESS, h));
    CreatedIsReached(h);
    var s := AfterCreation(h);
    assert Reachable(m, s);
    SampleAfterDestroy(m, s, Reply(SUCCESS, h));
    var more := [AppDestroy(h), serve, Receive, AppSync, serve];
    RunJoin(m, START, Creation(h), more);
    assert Reachable(m, Run(m, s, more));
  }
}
