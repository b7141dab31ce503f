/**
 The server's event poll: ask the runtime until it has an event the serializer knows, or no event.
 */
module PollEvents {
  import opened OpenXr

  /** One answer of the runtime's xrPollEvent: an event, or a result code other than success. */
  datatype Polled = Polled(typ: int, payload: int) | Nothing(result: int)

  /** The runtime's pending answers; when they run out it has no event available. */
  class Runtime {
    var queue: seq<Polled>

    constructor (queue: seq<Polled>)
      ensures this.queue == queue
    {
      this.queue := queue;
    }

    method PollEvent() returns (p: Polled)
      modifies this
      ensures old(queue) == [] ==> p == Nothing(EVENT_UNAVAILABLE) && queue == []
      ensures old(queue) != [] ==> p == old(queue)[0] && queue == old(queue)[1..]
    {
      if queue == [] {
        return Nothing(EVENT_UNAVAILABLE);
      }
      p := queue[0];
      queue := queue[1..];
    }
  }

  /** What one request returns to the client, and what is left in the queue. */
  datatype Served = Served(reply: Polled, rest: seq<Polled>)

  predicate Known(known: set<int>, p: Polled) {
    p.Nothing? || p.typ in known
  }

  function ServePoll(queue: seq<Polled>, known: set<int>): Served {
    if queue == [] then Served(Nothing(EVENT_UNAVAILABLE), [])
    else if Known(known, queue[0]) then Served(queue[0], queue[1..])
    else ServePoll(queue[1..], known)
  }

  /** The first k answers are dropped: all of them are events of unknown type.  The reply is the next
      answer, an event of known type or a code other than success, or, if there is none, that no event is
      available. */
  predicate RepliesWith(queue: seq<Polled>, known: set<int>, k: int, reply: Polled, rest: seq<Polled>) {
    && 0 <= k <= |queue|
    && (forall i :: 0 <= i < k ==> queue[i].Polled? && queue[i].typ !in known)
    && if k < |queue| then
         reply == queue[k] && rest == queue[k + 1..] && (queue[k].Nothing? || queue[k].typ in known)
       else reply == Nothing(4) && rest == []
  }

  lemma {:induction false} PollExactly(queue: seq<Polled>, known: set<int>) returns (k: int)
    ensures RepliesWith(queue, known, k, ServePoll(queue, known).reply, ServePoll(queue, known).rest)
  {
    k := 0;
    if queue != [] && !Known(known, queue[0]) {
      var later := PollExactly(queue[1..], known);
      k := later + 1;
      assert queue == [queue[0]] + queue[1..];
    }
  }

  /** Drops events of unknown type and asks again; ends because the queue is finite. */
  method HandlePoll(runtime: Runtime, known: set<int>) returns (reply: Polled)
    modifies runtime
    ensures Served(reply, runtime.queue) == ServePoll(old(runtime.queue), known)
    ensures exists k :: RepliesWith(old(runtime.queue), known, k, reply, runtime.queue)
  {
    ghost var k := PollExactly(runtime.queue, known);
    while true
      invariant ServePoll(runtime.queue, known) == ServePoll(old(runtime.queue), known)
      decreases |runtime.queue|
    {
      var p := runtime.PollEvent();
      if p.Nothing? {
        return p;
      }
      if p.typ !in known {
        continue;
      }
      return p;
    }
  }

  /** The replies to n requests in a row. */
  function Replies(queue: seq<Polled>, known: set<int>, n: nat): seq<Polled>
    decreases n
  {
    if n == 0 then [] else [ServePoll(queue, known).reply] + Replies(ServePoll(queue, known).rest, known, n - 1)
  }

  function Left(queue: seq<Polled>, known: set<int>, n: nat): seq<Polled>
    decreases n
  {
    if n == 0 then queue else Left(ServePoll(queue, known).rest, known, n - 1)
  }

  function OnlyKnown(queue: seq<Polled>, known: set<int>): seq<Polled> {
    if queue == [] then []
    else (if Known(known, queue[0]) then [queue[0]] else []) + OnlyKnown(queue[1..], known)
  }

  function Unavailable(n: nat): seq<Polled> {
    seq(n, _ => Nothing(EVENT_UNAVAILABLE))
  }

  lemma {:induction false} OnlyKnownJoin(a: seq<Polled>, b: seq<Polled>, known: set<int>)
    ensures OnlyKnown(a + b, known) == OnlyKnown(a, known) + OnlyKnown(b, known)
  {
    if a == [] {
      assert a + b == b;
    } else {
      var rest := a[1..] + b;
      assert a + b == [a[0]] + rest && ([a[0]] + rest)[1..] == rest;
      OnlyKnownJoin(a[1..], b, known);
      var s, t := OnlyKnown(a[1..], known), OnlyKnown(b, known);
      assert [a[0]] + (s + t) == [a[0]] + s + t && [] + (s + t) == [] + s + t;
    }
  }

  /** What counts as known: codes other than success, and events of a known type. */
  lemma {:induction false} OnlyKnownCounts(queue: seq<Polled>, known: set<int>, p: Polled)
    ensures multiset(OnlyKnown(queue, known))[p] ==
            if p.Nothing? || p.typ in known then multiset(queue)[p] else 0
  {
    if queue == [] {
    } else {
      OnlyKnownCounts(queue[1..], known, p);
      assert queue == [queue[0]] + queue[1..];
    }
  }

  /** One request takes a stretch off the front of the queue, and its reply is what is known in
      that stretch; only when nothing known is left does it report that no event is available. */
  lemma {:induction false} OneRequest(queue: seq<Polled>, known: set<int>) returns (taken: seq<Polled>)
    ensures queue == taken + ServePoll(queue, known).rest
    ensures var reply := ServePoll(queue, known).reply;
            OnlyKnown(taken, known) == [reply] ||
            (OnlyKnown(taken, known) == [] && taken == queue && reply == Nothing(EVENT_UNAVAILABLE))
  {
    if queue == [] {
      taken := [];
    } else if Known(known, queue[0]) {
      taken := [queue[0]];
      assert taken[1..] == [];
    } else {
      var rest := OneRequest(queue[1..], known);
      taken := [queue[0]] + rest;
      assert taken[1..] == rest;
    }
  }

  lemma {:induction false} ExhaustedReplies(known: set<int>, n: nat)
    ensures Replies([], known, n) == Unavailable(n) && Left([], known, n) == []
  {
    if n > 0 {
      ExhaustedReplies(known, n - 1);
      assert [Nothing(EVENT_UNAVAILABLE)] + Unavailable(n - 1) == Unavailable(n);
    }
  }

  lemma RepliesJoin(reply: Polled, later: seq<Polled>, n: nat)
    requires |later| < n
    ensures [reply] + (later + Unavailable(n - 1 - |later|)) == ([reply] + later) + Unavailable(n - |[reply] + later|)
  {
  }

  /** Over any run of requests: what the server took off the queue is a prefix of it; the replies are,
      in order, exactly the known answers in that prefix, each once, followed by "no event available"
      for the requests made after the queue was exhausted.  So an unknown event is dropped once, a
      known one is delivered once, and a code other than success is passed on only when the runtime
      returned it. */
  lemma {:induction false} EventStream(queue: seq<Polled>, known: set<int>, n: nat) returns (taken: seq<Polled>)
    ensures queue == taken + Left(queue, known, n)
    ensures var delivered := OnlyKnown(taken, known);
            && |delivered| <= n
            && Replies(queue, known, n) == delivered + Unavailable(n - |delivered|)
            && (|delivered| < n ==> taken == queue)
    decreases n
  {
    if n == 0 {
      taken := [];
    } else {
      var first := OneRequest(queue, known);
      var served := ServePoll(queue, known);
      if OnlyKnown(first, known) == [] {
        taken := queue;
        assert queue == queue + served.rest;
        ExhaustedReplies(known, n - 1);
        assert [Nothing(EVENT_UNAVAILABLE)] + Unavailable(n - 1) == Unavailable(n);
      } else {
        var later := EventStream(served.rest, known, n - 1);
        taken := first + later;
        OnlyKnownJoin(first, later, known);
        RepliesJoin(served.reply, OnlyKnown(later, known), n);
      }
    }
  }
}
