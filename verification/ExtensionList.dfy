/**
 The extension list of an instance, from the application's request to the real runtime.
 */
module ExtensionList {
  import opened Options
  import opened OpenXr
  import opened ClientEntry
  import opened ClientInstance
  import opened ServerHandlers
  import opened NextChain

  /** The list the runtime is called with, when the client's list is served. */
  function RuntimeList(setup: Setup, required: seq<seq<string>>, info: ClientInstance.CreateInfo): seq<string> {
    Forwarded(info.extensions, Local(setup)) + Required(required) + [TIMER_EXTENSION]
  }

  /** What a create call adds to the log of runtime and modules. */
  function CreateEvents(
      setup: Setup, c: Client, info: ClientInstance.CreateInfo, reply: Reply, required: seq<seq<string>>): seq<Event>
  {
    if RejectedAtOnce(setup, c, info) || RejectedForAndroid(setup, info) then []
    else
      [CreateCalled(RuntimeList(setup, required, info), reply)]
      + if Succeeded(reply.result) then ModulesCreated(|required|, reply.instance) else []
  }

  lemma ServedLog(s: ServerState, required: seq<seq<string>>, names: seq<string>, reply: Reply)
    ensures HandleCreate(s, required, names, reply).log ==
            s.log + ([CreateCalled(names + Required(required) + [TIMER_EXTENSION], reply)]
                     + if Succeeded(reply.result) then ModulesCreated(|required|, reply.instance) else [])
  {
  }

  lemma SentExactly(setup: Setup, c: Client, info: ClientInstance.CreateInfo, reply: Reply)
    ensures Create(setup, c, info, reply).sent ==
            if RejectedAtOnce(setup, c, info) || RejectedForAndroid(setup, info) then None
            else Some(Forwarded(info.extensions, Local(setup)))
  {
  }

  // ----- The same without the functions it is made of -----

  /** How often the modules require a name. */
  function RequiredCount(required: seq<seq<string>>, name: string): nat
    decreases |required|
  {
    if required == [] then 0
    else RequiredCount(required[..|required| - 1], name) + multiset(required[|required| - 1])[name]
  }

  lemma {:induction false} RequiredCounts(required: seq<seq<string>>, name: string)
    ensures multiset(Required(required))[name] == RequiredCount(required, name)
    decreases |required|
  {
    if required == [] {
    } else {
      RequiredCounts(required[..|required| - 1], name);
    }
  }

  /** The list the runtime is called with: what was requested and is not provided by the client, then
      what each server module requires, in module order, then the timer extension. */
  ghost predicate RuntimeListFor(
      setup: Setup, required: seq<seq<string>>, info: ClientInstance.CreateInfo, list: seq<string>)
  {
    var n := |list| - 1 - StartOf(required, |required|);
    n >= 0 && SentFor(setup, info, list[..n]) && Extended(list, list[..n], required)
  }

  /** What a create call through both sides adds to the log of runtime and modules. */
  ghost predicate Logged(
      setup: Setup, c: Client, info: ClientInstance.CreateInfo, reply: Reply, required: seq<seq<string>>,
      before: seq<Event>, after: seq<Event>)
  {
    if !Forwards(setup, c, info) then after == before
    else
      var at, told := |before|, if reply.result >= 0 then |required| else 0;
      && |after| == at + 1 + told && after[..at] == before
      && after[at].CreateCalled? && after[at].reply == reply
      && RuntimeListFor(setup, required, info, after[at].names)
      && forall k :: 0 <= k < told ==> after[at + 1 + k] == ModuleCreated(k, reply.instance)
  }

  lemma CreateIsLogged(
      setup: Setup, c: Client, info: ClientInstance.CreateInfo, reply: Reply, s: ServerState,
      required: seq<seq<string>>)
    requires Create(setup, c, info, reply).sent.Some?
    ensures Logged(setup, c, info, reply, required, s.log,
                   HandleCreate(s, required, Create(setup, c, info, reply).sent.value, reply).log)
  {
    var sent := Create(setup, c, info, reply).sent.value;
    CreateExactly(setup, c, info, reply);
    CreateRequestExactly(s, required, sent, reply);
    var list := HandleCreate(s, required, sent, reply).log[|s.log|].names;
    assert list[..|list| - 1 - StartOf(required, |required|)] == sent;
  }

  /** A create call through both sides.  It calls the runtime once, unless the client turns it away: with
      the application's request less what the client provides itself, in the original order, then what
      each server module requires, in module order, then the timer extension. */
  method CreateThrough(
      client: ClientRuntime, info: InstanceCreateInfo, ghost nodes: seq<ChainNode>, server: Server, reply: Reply)
    returns (result: int)
    requires Distinct([info.base] + nodes) && Chain([info.base] + nodes, null)
    modifies client, info.base, nodes, server
    ensures client.State() == Create(client.setup, old(client.State()), info.Request(nodes), reply).client
    ensures result == Create(client.setup, old(client.State()), info.Request(nodes), reply).result
    ensures server.log == old(server.log)
            + CreateEvents(client.setup, old(client.State()), info.Request(nodes), reply, server.modules)
    ensures Logged(client.setup, old(client.State()), info.Request(nodes), reply, server.modules,
                   old(server.log), server.log)
  {
    SentExactly(client.setup, client.State(), info.Request(nodes), reply);
    CreateExactly(client.setup, client.State(), info.Request(nodes), reply);
    ghost var c := client.State();
    var sent;
    result, sent := client.CreateInstance(info, nodes, reply);
    if sent.Some? {
      ServedLog(server.State(), server.modules, sent.value, reply);
      CreateIsLogged(client.setup, c, info.Request(nodes), reply, server.State(), server.modules);
      var received := new ServerHandlers.CreateInfo(sent.value);
      assert received.names[..received.count] == sent.value;
      server.CreateInstanceHandler(received, reply);
    }
  }

  /** How often the runtime is given a name: as often as the application asked for it, unless the client
      provides it, as often as the server's modules require it, and once more if it is the timer
      extension. */
  lemma RuntimeListCounts(
      setup: Setup, c: Client, info: ClientInstance.CreateInfo, reply: Reply, s: ServerState,
      required: seq<seq<string>>, name: string)
    requires Forwards(setup, c, info)
    ensures var sent := Create(setup, c, info, reply).sent;
            && sent.Some?
            && var log := HandleCreate(s, required, sent.value, reply).log;
            && |log| > |s.log| && log[|s.log|].CreateCalled?
            && multiset(log[|s.log|].names)[name] ==
               (if ProvidedHere(setup, name) then 0 else multiset(info.extensions)[name])
               + RequiredCount(required, name)
               + (if name == "XR_KHR_convert_timespec_time" then 1 else 0)
  {
    CreateExactly(setup, c, info, reply);
    RequiredCounts(required, name);
    var sent := Create(setup, c, info, reply).sent.value;
    var list := HandleCreate(s, required, sent, reply).log[|s.log|].names;
    assert multiset(sent + Required(required) + [TIMER_EXTENSION])
        == multiset(sent) + multiset(Required(required)) + multiset([TIMER_EXTENSION]);
  }

  /** The timer extension is a local function of the client but not a local extension, so a request for
      it goes through, and the runtime is then given it twice. */
  lemma TimerCanBeGivenTwice(
      setup: Setup, c: Client, info: ClientInstance.CreateInfo, reply: Reply, s: ServerState,
      required: seq<seq<string>>)
    requires Forwards(setup, c, info)
    requires !ProvidedHere(setup, TIMER_EXTENSION) && forall r <- required :: TIMER_EXTENSION !in r
    ensures var sent := Create(setup, c, info, reply).sent.value;
            var list := HandleCreate(s, required, sent, reply).log[|s.log|].names;
            multiset(list)[TIMER_EXTENSION] == 1 + multiset(info.extensions)[TIMER_EXTENSION]
  {
    RuntimeListCounts(setup, c, info, reply, s, required, TIMER_EXTENSION);
    RequiredCounts(required, TIMER_EXTENSION);
    RequiredLacks(required);
  }

  lemma {:induction false} RequiredLacks(required: seq<seq<string>>)
    requires forall r <- required :: TIMER_EXTENSION !in r
    ensures TIMER_EXTENSION !in Required(required)
    decreases |required|
  {
    if required == [] {
    } else {
      var last := required[|required| - 1];
      assert last in required;
      RequiredLacks(required[..|required| - 1]);
    }
  }
}
