/**
 Who is told of an instance, and at which point of a session's log: the modules on both sides, for
 every run of a connection.
 */
module SessionNotices {
  import opened OpenXr
  import opened ServerHandlers
  import opened Session

  /** Event c is the successful creation of h. */
  predicate Creation(log: seq<Event>, c: int, h: Instance) {
    0 <= c < |log| && log[c].CreateCalled? && log[c].reply.result >= 0 && log[c].reply.instance == h
  }

  /** What event j says about the events around it. */
  ghost predicate Placed(log: seq<Event>, m: Modules, returned: bool, j: nat)
    requires j < |log|
  {
    var n := |m.server|;
    match log[j]
    case CreateCalled(names, reply) => exists request :: Extended(names, request, m.server)
    case ModuleCreated(k, h) => k < n && Creation(log, j - k - 1, h)
    case ClientModuleCreated(k, h) => k < m.client && Creation(log, j - n - k - 1, h)
    case DestroyCalled(_) => (returned && j == |log| - 1) || TellsBefore(log, n, j)
    case ModuleDestroyed(k) => k < n && k <= j && j - k + n < |log| && log[j - k + n].DestroyCalled?
    case Sampled(_, _) => true
  }

  /** The first `told` modules of both sides, the server's first, were told right after the creation at c. */
  ghost predicate ToldInOrder(log: seq<Event>, m: Modules, c: int, told: nat, h: Instance) {
    var n := |m.server|;
    && told <= n + m.client
    && Creation(log, c, h) && c + told < |log|
    && (forall k :: 0 <= k < n && k < told ==> log[c + 1 + k] == ModuleCreated(k, h))
    && (forall k :: 0 <= k < told - n ==> log[c + 1 + n + k] == ClientModuleCreated(k, h))
  }

  /** How many modules have been told so far, and whether the log ends there. */
  function Told(m: Modules, s: Session): (nat, bool) {
    if s.serverPhase.NotifyingModules? then (s.serverPhase.next, true)
    else if s.phase.Notifying? then (|m.server| + s.phase.next, true)
    else if s.phase in {Ready, Waiting} then (|m.server| + m.client, false)
    else (|m.server|, s.phase == Creating)
  }

  ghost predicate Progress(m: Modules, s: Session) {
    s.server.loader != NULL_INSTANCE ==> exists c :: ProgressFrom(m, s, c)
  }

  ghost predicate ProgressFrom(m: Modules, s: Session, c: int) {
    var (told, last) := Told(m, s);
    ToldInOrder(s.server.log, m, c, told, s.server.loader) && (last ==> |s.server.log| == c + told + 1)
  }

  ghost predicate LogPlaced(log: seq<Event>, m: Modules, returned: bool) {
    forall j :: 0 <= j < |log| ==> Placed(log, m, returned, j)
  }

  ghost predicate AllPlaced(m: Modules, s: Session) {
    LogPlaced(s.server.log, m, s.serverPhase == Returned)
  }

  // ----- Longer logs -----

  lemma PlacedMore(log: seq<Event>, more: seq<Event>, m: Modules, returned: bool, j: nat)
    requires j < |log| && Placed(log, m, false, j)
    ensures Placed(log + more, m, returned, j)
  {
    var all := log + more;
    assert forall i :: 0 <= i < |log| ==> all[i] == log[i];
  }

  lemma PlacedOneMore(log: seq<Event>, e: Event, m: Modules, returned: bool)
    requires LogPlaced(log, m, false)
    requires Placed(log + [e], m, returned, |log|)
    ensures LogPlaced(log + [e], m, returned)
  {
    forall j | 0 <= j < |log + [e]|
      ensures Placed(log + [e], m, returned, j)
    {
      if j < |log| {
        PlacedMore(log, [e], m, returned, j);
      }
    }
  }

  lemma ToldMore(log: seq<Event>, more: seq<Event>, m: Modules, c: int, told: nat, h: Instance)
    requires ToldInOrder(log, m, c, told, h)
    ensures ToldInOrder(log + more, m, c, told, h)
  {
    var all := log + more;
    assert forall i :: 0 <= i < |log| ==> all[i] == log[i];
  }

  lemma DestroyPlaced(log: seq<Event>, m: Modules, h: Instance)
    requires LogPlaced(log, m, false)
    ensures LogPlaced(log + (ModulesDestroyed(|m.server|) + [DestroyCalled(h)]), m, false)
  {
    var n := |m.server|;
    var more := ModulesDestroyed(n) + [DestroyCalled(h)];
    var all := log + more;
    DestroyInPlace(h, n);
    forall j | 0 <= j < |all|
      ensures Placed(all, m, false, j)
    {
      if j < |log| {
        PlacedMore(log, more, m, false, j);
      } else {
        InPlaceSecond(log, more, n, j - |log|);
      }
    }
  }

  // ----- Every action keeps it -----

  /** The notice to the next module, at the end of the log. */
  lemma NextIsTold(log: seq<Event>, m: Modules, c: int, told: nat, h: Instance, e: Event)
    requires ToldInOrder(log, m, c, told, h) && |log| == c + told + 1 && told < |m.server| + m.client
    requires var n := |m.server|; e == if told < n then ModuleCreated(told, h) else ClientModuleCreated(told - n, h)
    ensures ToldInOrder(log + [e], m, c, told + 1, h) && Placed(log + [e], m, false, |log|)
  {
    var all := log + [e];
    assert forall i :: 0 <= i < |log| ==> all[i] == log[i];
    assert all[|log|] == e;
  }

  lemma ClientNotifyPlaced(m: Modules, s: Session)
    requires OneInFlight(s) && Stages(m, s) && Progress(m, s) && AllPlaced(m, s) && s.phase.Notifying?
    ensures Progress(m, Step(m, s, NotifyClient)) && AllPlaced(m, Step(m, s, NotifyClient))
  {
    var t, log, h := Step(m, s, NotifyClient), s.server.log, s.server.loader;
    var c :| ProgressFrom(m, s, c);
    if t.server.log != log {
      var e := ClientModuleCreated(s.phase.next, s.instance);
      NextIsTold(log, m, c, |m.server| + s.phase.next, h, e);
      PlacedOneMore(log, e, m, false);
    }
    assert ProgressFrom(m, t, c);
  }

  lemma ServerNotifyPlaced(m: Modules, s: Session)
    requires OneInFlight(s) && Stages(m, s) && Progress(m, s) && AllPlaced(m, s) && s.serverPhase.NotifyingModules?
    ensures Progress(m, Step(m, s, NotifyServer)) && AllPlaced(m, Step(m, s, NotifyServer))
  {
    var t, log, h := Step(m, s, NotifyServer), s.server.log, s.server.loader;
    var c :| ProgressFrom(m, s, c);
    if t.server.log != log {
      var e := ModuleCreated(s.serverPhase.next, s.serverPhase.reply.instance);
      NextIsTold(log, m, c, s.serverPhase.next, h, e);
      PlacedOneMore(log, e, m, false);
    }
    assert ProgressFrom(m, t, c);
  }

  lemma CreatePlaced(m: Modules, s: Session, reply: Reply)
    requires OneInFlight(s) && Stages(m, s) && Progress(m, s) && AllPlaced(m, s)
    requires s.serverPhase == Serving && s.up != [] && s.up[0].CreateMessage?
    ensures Progress(m, Step(m, s, ServeNext(reply))) && AllPlaced(m, Step(m, s, ServeNext(reply)))
  {
    var t, log, request := Step(m, s, ServeNext(reply)), s.server.log, s.up[0].names;
    var e := CreateCalled(request + Required(m.server) + [TIMER_EXTENSION], reply);
    assert t.server.log == log + [e];
    ListIsExtended(request, m.server);
    PlacedOneMore(log, e, m, false);
    if Succeeded(reply.result) {
      assert ProgressFrom(m, t, |log|);
    }
  }

  lemma OtherPlaced(m: Modules, s: Session, reply: Reply)
    requires OneInFlight(s) && Stages(m, s) && Progress(m, s) && AllPlaced(m, s)
    requires s.serverPhase == Serving && s.up != [] && !s.up[0].CreateMessage?
    ensures Progress(m, Step(m, s, ServeNext(reply))) && AllPlaced(m, Step(m, s, ServeNext(reply)))
  {
    var t, log := Step(m, s, ServeNext(reply)), s.server.log;
    var more := match s.up[0]
      case DestroyMessage(h) =>
        if h == s.server.instance then ModulesDestroyed(|m.server|) + [DestroyCalled(h)] else []
      case SyncMessage => [Sampled(s.server.instance, s.server.loader)]
      case _ => [];
    assert t.server.log == log + more by {
      assert log + [] == log;
      if s.up[0].DestroyMessage? {
        var h := s.up[0].instance;
        assert log + ModulesDestroyed(|m.server|) + [DestroyCalled(h)]
            == log + (ModulesDestroyed(|m.server|) + [DestroyCalled(h)]);
      }
    }
    if s.server.loader != NULL_INSTANCE {
      var c :| ProgressFrom(m, s, c);
      ToldMore(log, more, m, c, Told(m, s).0, s.server.loader);
      assert ProgressFrom(m, t, c);
    }
    if s.up[0].DestroyMessage? {
      DestroyPlaced(log, m, s.up[0].instance);
    } else if s.up[0].SyncMessage? {
      PlacedOneMore(log, more[0], m, false);
    }
  }

  lemma ReturnPlaced(m: Modules, s: Session)
    requires OneInFlight(s) && Stages(m, s) && Progress(m, s) && AllPlaced(m, s)
    requires s.phase == Gone && s.serverPhase == Serving
    ensures Progress(m, Step(m, s, Return)) && AllPlaced(m, Step(m, s, Return))
  {
    var t, log, h := Step(m, s, Return), s.server.log, s.server.loader;
    var more := if s.server.instance == NULL_INSTANCE then [] else [DestroyCalled(s.server.instance)];
    assert t.server.log == log + more;
    if more != [] {
      PlacedOneMore(log, more[0], m, true);
    } else {
      forall j | 0 <= j < |log|
        ensures Placed(log, m, true, j)
      {
        assert Placed(log, m, false, j);
        assert log + [] == log;
        PlacedMore(log, [], m, true, j);
      }
    }
    if h != NULL_INSTANCE {
      var c :| ProgressFrom(m, s, c);
      ToldMore(log, more, m, c, |m.server|, h);
      assert ProgressFrom(m, t, c);
    }
  }

  lemma SilentPlaced(m: Modules, s: Session, a: Action)
    requires OneInFlight(s) && Stages(m, s) && Progress(m, s) && AllPlaced(m, s)
    requires a.AppCreate? || a.AppDestroy? || a.AppSync? || a.AppOther? || a.Receive? || a.Disconnect?
    ensures Progress(m, Step(m, s, a)) && AllPlaced(m, Step(m, s, a))
  {
    var t := Step(m, s, a);
    assert t.server == s.server && t.serverPhase == s.serverPhase;
    if s.server.loader != NULL_INSTANCE {
      var c :| ProgressFrom(m, s, c);
      assert ProgressFrom(m, t, c);
    }
  }

  lemma ActionPlaced(m: Modules, s: Session, a: Action)
    requires OneInFlight(s) && Stages(m, s) && Progress(m, s) && AllPlaced(m, s)
    ensures Progress(m, Step(m, s, a)) && AllPlaced(m, Step(m, s, a))
  {
    if a.NotifyClient? {
      if s.phase.Notifying? {
        ClientNotifyPlaced(m, s);
      }
    } else if a.NotifyServer? {
      if s.serverPhase.NotifyingModules? {
        ServerNotifyPlaced(m, s);
      }
    } else if a.ServeNext? {
      if s.serverPhase == Serving && s.up != [] {
        if s.up[0].CreateMessage? {
          CreatePlaced(m, s, a.reply);
        } else {
          OtherPlaced(m, s, a.reply);
        }
      }
    } else if a.Return? {
      if s.phase == Gone && s.serverPhase == Serving {
        ReturnPlaced(m, s);
      }
    } else {
      SilentPlaced(m, s, a);
    }
  }

  lemma {:induction false} RunPlaced(m: Modules, s: Session, actions: seq<Action>)
    requires OneInFlight(s) && Stages(m, s) && Progress(m, s) && AllPlaced(m, s)
    requires forall a <- actions :: Honest(a)
    ensures Progress(m, Run(m, s, actions)) && AllPlaced(m, Run(m, s, actions))
    ensures Stages(m, Run(m, s, actions))
    decreases |actions|
  {
    if actions == [] {
    } else {
      var a := actions[0];
      assert a in actions;
      StagesKept(m, s, a);
      ActionPlaced(m, s, a);
      RunPlaced(m, Step(m, s, a), actions[1..]);
    }
  }

  lemma ReachablePlaced(m: Modules, s: Session)
    requires Reachable(m, s)
    ensures Progress(m, s) && AllPlaced(m, s) && Stages(m, s)
  {
    var actions :| Run(m, START, actions) == s && forall a <- actions :: Honest(a);
    StartKeeps(m);
    RunPlaced(m, START, actions);
  }

  // ----- What every run keeps -----

  /** In every run, a call that destroys an instance comes right after all server modules were told, in
      order; the one exception is the last call of a run that has returned. */
  lemma DestroyAnnounced(m: Modules, s: Session, j: nat)
    requires Reachable(m, s) && j < |s.server.log| && s.server.log[j].DestroyCalled?
    ensures var log, n := s.server.log, |m.server|;
            || (s.serverPhase == Returned && j == |log| - 1)
            || (j >= n && forall k :: 0 <= k < n ==> log[j - n + k] == ModuleDestroyed(k))
  {
    ReachablePlaced(m, s);
    assert Placed(s.server.log, m, s.serverPhase == Returned, j);
  }

  /** No module is told of anything else: a notice about a destruction has it at its distance after it,
      and a notice about a creation has it at its distance before it. */
  lemma NoticeMeant(m: Modules, s: Session, j: nat)
    requires Reachable(m, s) && j < |s.server.log|
    ensures var log, n := s.server.log, |m.server|;
      match log[j]
      case ModuleDestroyed(k) => k < n && k <= j && j - k + n < |log| && log[j - k + n].DestroyCalled?
      case ModuleCreated(k, h) => k < n && Creation(log, j - k - 1, h)
      case ClientModuleCreated(k, h) => k < m.client && Creation(log, j - n - k - 1, h)
      case CreateCalled(names, _) => exists request :: Extended(names, request, m.server)
      case _ => true
  {
    ReachablePlaced(m, s);
    assert Placed(s.server.log, m, s.serverPhase == Returned, j);
  }

  ghost predicate EveryoneTold(log: seq<Event>, m: Modules, c: int, h: Instance) {
    ToldInOrder(log, m, c, |m.server| + m.client, h)
  }

  /** When the application can use its instance, every module on both sides has been told of it, the
      server's first, each in order, right after its creation. */
  lemma AllToldBeforeUse(m: Modules, s: Session)
    requires Reachable(m, s) && s.phase in {Ready, Waiting} && s.instance != NULL_INSTANCE
    ensures exists c :: EveryoneTold(s.server.log, m, c, s.instance)
  {
    ReachablePlaced(m, s);
    var c :| ProgressFrom(m, s, c);
    assert EveryoneTold(s.server.log, m, c, s.instance);
  }

  /** Serving a destroy request calls the modules and the runtime if and only if the handle is the saved
      one; then nothing is saved any more. */
  lemma DestroyAnswered(m: Modules, s: Session, h: Instance, reply: Reply)
    requires s.serverPhase == Serving && s.up != [] && s.up[0] == DestroyMessage(h)
    ensures var t, n := Step(m, s, ServeNext(reply)), |m.server|;
            && (t.server.log == s.server.log <==> h != s.server.instance)
            && (h != s.server.instance ==> t.server == s.server)
            && (h == s.server.instance ==>
                  && |t.server.log| == |s.server.log| + n + 1 && t.server.log[|t.server.log| - 1] == DestroyCalled(h)
                  && t.server.instance == 0)
            && t.up == s.up[1..] && t.down == s.down + [OtherAnswer]
  {
    DestroyRequestExactly(s.server, |m.server|, h);
  }
}
