/**
 Clock synchronization.  All times are signed 64-bit counts of nanoseconds; that no sum or
 difference leaves that range is part of what is proved.  The clock readings of a call, which come
 from outside, are its inputs.
 */
module Synchronization {
  import opened Options

  const INT64_MIN := -0x8000_0000_0000_0000
  const INT64_MAX := 0x7FFF_FFFF_FFFF_FFFF

  const SYNC_INTERVAL := 200_000_000
  const SYNC_ITERATIONS := 20

  predicate Fits(x: int) {
    INT64_MIN <= x <= INT64_MAX
  }

  /** A clock reading: up to about 146 years of nanoseconds. */
  predicate ClockRange(t: int) {
    0 <= t < 0x4000_0000_0000_0000
  }

  /** Integer division of the source language, which truncates toward zero. */
  function Half(x: int): int {
    if x >= 0 then x / 2 else -((-x) / 2)
  }

  /** One exchange: sent at t1, answered with the server's time t2, received at t3. */
  datatype Sample = Sample(t1: int, t2: int, t3: int)
  {
    function Rtt(): int { t3 - t1 }

    predicate InRange() { ClockRange(t1) && ClockRange(t2) && ClockRange(t3) }
  }

  /** The first sample with the smallest round trip. */
  function Best(samples: seq<Sample>): (k: nat)
    requires samples != []
    ensures k < |samples|
  {
    var n := |samples| - 1;
    if n == 0 then 0
    else
      var k := Best(samples[..n]);
      if samples[n].Rtt() < samples[k].Rtt() then n else k
  }

  function Offset(s: Sample): int {
    s.t1 + Half(s.Rtt()) - s.t2
  }

  lemma {:induction false} BestIsSmallest(samples: seq<Sample>)
    requires samples != []
    ensures var b := samples[Best(samples)];
            && (forall j :: 0 <= j < |samples| ==> b.t3 - b.t1 <= samples[j].t3 - samples[j].t1)
            && (forall j :: 0 <= j < Best(samples) ==> b.t3 - b.t1 < samples[j].t3 - samples[j].t1)
  {
    var n := |samples| - 1;
    if n > 0 {
      BestIsSmallest(samples[..n]);
      assert forall j :: 0 <= j < n ==> samples[..n][j] == samples[j];
    }
  }

  /** The loop over the exchanges: keeps the running minimum and the times it was seen with. */
  method Estimate(samples: seq<Sample>) returns (offset: int)
    requires samples != [] && forall s <- samples :: s.InRange()
    ensures offset == Offset(samples[Best(samples)])
    ensures Fits(offset)
  {
    var minT1, minT2, minRtt := 0, 0, INT64_MAX;
    for i := 0 to |samples|
      invariant i == 0 ==> minRtt == INT64_MAX
      invariant i > 0 ==>
                  var b := samples[Best(samples[..i])];
                  minT1 == b.t1 && minT2 == b.t2 && minRtt == b.Rtt()
    {
      var s := samples[i];
      assert s in samples;
      var rtt := s.t3 - s.t1;
      assert Fits(rtt);
      assert samples[..i + 1][..i] == samples[..i];
      if rtt < minRtt {
        minRtt, minT1, minT2 := rtt, s.t1, s.t2;
      }
    }
    assert samples[..|samples|] == samples;
    var delay := Half(minRtt);
    assert samples[Best(samples)] in samples;
    assert Fits(minT1 + delay);
    offset := minT1 + delay - minT2;
  }

  /** The offset is what exchange k tells: the time in the middle of it, by the client's clock, less the
      server's reading. */
  predicate MeasuredBy(samples: seq<Sample>, k: int, offset: int) {
    && 0 <= k < |samples|
    && (forall j :: 0 <= j < |samples| ==> samples[k].t3 - samples[k].t1 <= samples[j].t3 - samples[j].t1)
    && (forall j :: 0 <= j < k ==> samples[k].t3 - samples[k].t1 < samples[j].t3 - samples[j].t1)
    && var rtt := samples[k].t3 - samples[k].t1;
       offset == samples[k].t1 + (if rtt >= 0 then rtt / 2 else -(-rtt / 2)) - samples[k].t2
  }

  /** By the first exchange with the smallest round trip. */
  ghost predicate Measured(samples: seq<Sample>, offset: int) {
    exists k :: MeasuredBy(samples, k, offset)
  }

  lemma BestIsMeasured(samples: seq<Sample>)
    requires samples != []
    ensures Measured(samples, Offset(samples[Best(samples)]))
  {
    BestIsSmallest(samples);
    assert MeasuredBy(samples, Best(samples), Offset(samples[Best(samples)]));
  }

  // ----- How good the estimate is -----

  /** The server read its clock at some moment between sending and receiving, when the client's clock
      was ahead of it by `ahead`. */
  predicate Truthful(s: Sample, ahead: int) {
    s.t1 <= s.t2 + ahead <= s.t3
  }

  function HalfUp(x: nat): nat { (x + 1) / 2 }

  function Abs(x: int): nat { if x < 0 then -x else x }

  /** The estimate is off by at most half the smallest round trip of all exchanges, rounded up. */
  lemma EstimateBound(samples: seq<Sample>, ahead: int)
    requires samples != [] && forall s <- samples :: Truthful(s, ahead)
    ensures forall j :: 0 <= j < |samples| ==>
              0 <= samples[j].Rtt() && Abs(Offset(samples[Best(samples)]) - ahead) <= HalfUp(samples[j].Rtt())
  {
    BestIsSmallest(samples);
    var b := samples[Best(samples)];
    assert b in samples && Truthful(b, ahead);
    assert Abs(Offset(b) - ahead) <= HalfUp(b.Rtt());
    forall j | 0 <= j < |samples|
      ensures 0 <= samples[j].Rtt() && HalfUp(b.Rtt()) <= HalfUp(samples[j].Rtt())
    {
      assert samples[j] in samples;
    }
  }

  // ----- How good any estimate from the same readings can be -----

  predicate Consistent(samples: seq<Sample>, ahead: int) {
    forall s <- samples :: Truthful(s, ahead)
  }

  function Max(a: int, b: int): int { if a < b then b else a }

  function Min(a: int, b: int): int { if a < b then a else b }

  /** The greatest t1 - t2. */
  function Lowest(samples: seq<Sample>): int
    requires samples != []
  {
    var first := samples[0].t1 - samples[0].t2;
    if |samples| == 1 then first else Max(first, Lowest(samples[1..]))
  }

  /** The least t3 - t2. */
  function Highest(samples: seq<Sample>): int
    requires samples != []
  {
    var first := samples[0].t3 - samples[0].t2;
    if |samples| == 1 then first else Min(first, Highest(samples[1..]))
  }

  /** The offsets that the readings allow are an interval. */
  lemma {:induction false} ConsistentExactly(samples: seq<Sample>, ahead: int)
    requires samples != []
    ensures Consistent(samples, ahead) <==> Lowest(samples) <= ahead <= Highest(samples)
  {
    if |samples| == 1 {
      assert samples[0] in samples;
    } else {
      ConsistentExactly(samples[1..], ahead);
      assert Consistent(samples, ahead) <==> Truthful(samples[0], ahead) && Consistent(samples[1..], ahead) by {
        assert samples == [samples[0]] + samples[1..];
      }
    }
  }

  /** Whatever the true offset is, the estimate is off by no more than `bound`. */
  ghost predicate Promises(samples: seq<Sample>, estimate: int, bound: nat) {
    forall ahead :: Consistent(samples, ahead) ==> Abs(estimate - ahead) <= bound
  }

  /** What an estimate promises is its distance from the far end of the interval. */
  lemma PromiseExactly(samples: seq<Sample>, estimate: int, bound: nat)
    requires samples != [] && Lowest(samples) <= Highest(samples)
    ensures Promises(samples, estimate, bound) <==>
            estimate - Lowest(samples) <= bound && Highest(samples) - estimate <= bound
  {
    ConsistentExactly(samples, Lowest(samples));
    ConsistentExactly(samples, Highest(samples));
    if estimate - Lowest(samples) <= bound && Highest(samples) - estimate <= bound {
      forall ahead | Consistent(samples, ahead)
        ensures Abs(estimate - ahead) <= bound
      {
        ConsistentExactly(samples, ahead);
      }
    }
  }

  /** The best that any estimate can promise is half the width of the interval, rounded up; the middle
      of the interval does. */
  lemma BestPromise(samples: seq<Sample>, estimate: int, bound: nat)
    requires samples != [] && Lowest(samples) <= Highest(samples)
    ensures Promises(samples, estimate, bound) ==> bound >= HalfUp(Highest(samples) - Lowest(samples))
    ensures var width := Highest(samples) - Lowest(samples);
            Promises(samples, Lowest(samples) + width / 2, HalfUp(width))
  {
    var width := Highest(samples) - Lowest(samples);
    PromiseExactly(samples, estimate, bound);
    PromiseExactly(samples, Lowest(samples) + width / 2, HalfUp(width));
  }

  /** The interval is at most as wide as any round trip. */
  lemma {:induction false} WidthBound(samples: seq<Sample>, k: nat)
    requires k < |samples|
    ensures samples[k].t1 - samples[k].t2 <= Lowest(samples) && Highest(samples) <= samples[k].t3 - samples[k].t2
  {
    if |samples| > 1 {
      WidthBound(samples[1..], if k == 0 then 0 else k - 1);
    }
  }

  ghost predicate NoBetterPromise(samples: seq<Sample>, bound: nat) {
    forall estimate: int, b: nat :: Promises(samples, estimate, b) ==> b >= bound
  }

  /** The bound of the code, half the smallest round trip, is one that it keeps, and it is the best
      possible for the readings if and only if the interval is as wide as that round trip, up to
      rounding.  In general several exchanges narrow the offset down more closely than the best one
      alone. */
  lemma BoundIsBest(samples: seq<Sample>)
    requires samples != [] && Lowest(samples) <= Highest(samples)
    ensures var rtt := samples[Best(samples)].Rtt();
            && 0 <= Highest(samples) - Lowest(samples) <= rtt
            && Promises(samples, Offset(samples[Best(samples)]), HalfUp(rtt))
            && (NoBetterPromise(samples, HalfUp(rtt)) <==>
                  HalfUp(Highest(samples) - Lowest(samples)) == HalfUp(rtt))
  {
    var b, width := Best(samples), Highest(samples) - Lowest(samples);
    WidthBound(samples, b);
    PromiseExactly(samples, Offset(samples[b]), HalfUp(samples[b].Rtt()));
    forall estimate: int, bound: nat | Promises(samples, estimate, bound)
      ensures bound >= HalfUp(width)
    {
      BestPromise(samples, estimate, bound);
    }
    BestPromise(samples, 0, 0);
  }

  /** Two exchanges of the same length: the code's estimate is off by 5, and the readings leave no doubt. */
  lemma ReadingsCanTellMore(ahead: int)
    ensures var samples := [Sample(0, 0, 10), Sample(20, 30, 30)];
            && (Consistent(samples, ahead) <==> ahead == 0)
            && Offset(samples[Best(samples)]) == 5
  {
    var samples := [Sample(0, 0, 10), Sample(20, 30, 30)];
    assert samples[1..] == [Sample(20, 30, 30)] && samples[..1] == [Sample(0, 0, 10)];
    ConsistentExactly(samples, ahead);
  }

  // ----- Caching the estimate -----

  datatype Clock = Clock(lastSync: int, enabled: bool, offset: int)

  const FRESH := Clock(INT64_MIN, false, 0)

  /** The readings of one call: the time on entry, the exchanges if it synchronizes, the time at the
      end of the synchronization, and how far ahead the client's clock truly is meanwhile. */
  datatype Readings = Readings(now: int, samples: seq<Sample>, done: int, ahead: int)
  {
    predicate Valid() {
      && ClockRange(now) && ClockRange(done)
      && |samples| == SYNC_ITERATIONS
      && forall s <- samples :: s.InRange() && Truthful(s, ahead)
    }
  }

  predicate Stale(c: Clock, now: int) {
    now > c.lastSync + SYNC_INTERVAL
  }

  function GetOffset(c: Clock, trySync: bool, r: Readings): Clock
    requires r.samples != []
  {
    if trySync && c.enabled && Stale(c, r.now) then Clock(r.done, c.enabled, Offset(r.samples[Best(r.samples)])) else c
  }

  class Synchronizer {
    var lastSync: int
    var enabled: bool
    var timeOffset: int

    constructor ()
      ensures State() == FRESH
    {
      lastSync, enabled, timeOffset := INT64_MIN, false, 0;
    }

    function State(): Clock
      reads this
    {
      Clock(lastSync, enabled, timeOffset)
    }

    method DoSynchronize(r: Readings)
      requires r.Valid()
      modifies this`lastSync, this`timeOffset
      ensures State() == Clock(r.done, old(enabled), Offset(r.samples[Best(r.samples)]))
      ensures lastSync == r.done && Measured(r.samples, timeOffset)
    {
      BestIsMeasured(r.samples);
      timeOffset := Estimate(r.samples);
      lastSync := r.done;
    }

    method GetTimeOffset(trySync: bool, r: Readings) returns (offset: int)
      requires r.Valid() && (lastSync == INT64_MIN || ClockRange(lastSync))
      modifies this
      ensures State() == GetOffset(old(State()), trySync, r)
      ensures offset == timeOffset && enabled == old(enabled)
      ensures if trySync && enabled && r.now > old(lastSync) + 200_000_000
              then lastSync == r.done && Measured(r.samples, timeOffset)
              else lastSync == old(lastSync) && timeOffset == old(timeOffset)
    {
      if trySync && enabled {
        assert Fits(lastSync + SYNC_INTERVAL);
        if r.now > lastSync + SYNC_INTERVAL {
          DoSynchronize(r);
        }
      }
      return timeOffset;
    }

    method SetEnabled(on: bool)
      modifies this`enabled
      ensures State() == old(State()).(enabled := on)
    {
      enabled := on;
    }
  }

  datatype Call = Enable | Disable | Get(trySync: bool, readings: Readings)

  predicate ValidCalls(calls: seq<Call>) {
    forall c <- calls :: c.Get? ==> c.readings.Valid()
  }

  function Apply(c: Clock, call: Call): Clock
    requires call.Get? ==> call.readings.Valid()
  {
    match call
    case Enable => c.(enabled := true)
    case Disable => c.(enabled := false)
    case Get(trySync, r) => GetOffset(c, trySync, r)
  }

  function Run(calls: seq<Call>): Clock
    requires ValidCalls(calls)
    decreases |calls|
  {
    if calls == [] then FRESH else Apply(Run(calls[..|calls| - 1]), calls[|calls| - 1])
  }

  lemma {:induction false} LastSyncInRange(calls: seq<Call>)
    requires ValidCalls(calls)
    ensures Run(calls).lastSync == INT64_MIN || ClockRange(Run(calls).lastSync)
    decreases |calls|
  {
    if calls == [] {
    } else {
      assert calls[|calls| - 1] in calls;
      LastSyncInRange(calls[..|calls| - 1]);
    }
  }

  /** A history on the runtime's own variables. */
  method RunCalls(calls: seq<Call>) returns (s: Synchronizer)
    requires ValidCalls(calls)
    ensures fresh(s) && s.State() == Run(calls)
  {
    s := new Synchronizer();
    for i := 0 to |calls|
      invariant fresh(s) && s.State() == Run(calls[..i])
    {
      assert calls[..i + 1][..i] == calls[..i];
      LastSyncInRange(calls[..i]);
      match calls[i] {
        case Enable => s.SetEnabled(true);
        case Disable => s.SetEnabled(false);
        case Get(trySync, r) =>
          assert calls[i] in calls;
          var offset := s.GetTimeOffset(trySync, r);
      }
    }
    assert calls[..|calls|] == calls;
  }

  // ----- When a call synchronizes, and what it returns -----

  /** Call k asks for it while it is enabled, more than the interval after the last time. */
  predicate Synchronizes(calls: seq<Call>, k: int)
    requires ValidCalls(calls)
  {
    && 0 <= k < |calls| && calls[k].Get? && calls[k].trySync
    && Run(calls[..k]).enabled && calls[k].readings.now > Run(calls[..k]).lastSync + 200_000_000
  }

  ghost predicate NeverSynchronized(calls: seq<Call>)
    requires ValidCalls(calls)
  {
    forall k :: !Synchronizes(calls, k)
  }

  /** Call k is the latest that synchronized. */
  ghost predicate IsLatest(calls: seq<Call>, k: int)
    requires ValidCalls(calls)
  {
    Synchronizes(calls, k) && forall j :: j > k ==> !Synchronizes(calls, j)
  }

  lemma SynchronizesInPrefix(calls: seq<Call>, k: int)
    requires ValidCalls(calls) && calls != []
    ensures ValidCalls(calls[..|calls| - 1])
    ensures Synchronizes(calls[..|calls| - 1], k) <==> Synchronizes(calls, k) && k < |calls| - 1
  {
    if 0 <= k < |calls| - 1 {
      assert calls[..|calls| - 1][..k] == calls[..k];
    }
  }

  /** Synchronization is enabled exactly if it was enabled and not disabled since. */
  lemma {:induction false} EnabledExactly(calls: seq<Call>)
    requires ValidCalls(calls)
    ensures Run(calls).enabled <==>
              exists i :: 0 <= i < |calls| && calls[i].Enable? && forall j :: i < j < |calls| ==> !calls[j].Disable?
    decreases |calls|
  {
    if calls == [] {
    } else {
      var n := |calls| - 1;
      EnabledExactly(calls[..n]);
      if i :| 0 <= i < n && calls[..n][i].Enable? && forall j :: i < j < n ==> !calls[..n][j].Disable? {
        assert calls[i].Enable?;
        assert forall j :: i < j < n ==> calls[j] == calls[..n][j];
      }
      if i :| 0 <= i < |calls| && calls[i].Enable? && forall j :: i < j < |calls| ==> !calls[j].Disable? {
        assert i < n ==> calls[..n][i].Enable?;
      }
    }
  }

  lemma LatestInPrefix(calls: seq<Call>, k: int)
    requires ValidCalls(calls) && calls != []
    ensures var n := |calls| - 1;
            IsLatest(calls, k) <==> if Synchronizes(calls, n) then k == n else IsLatest(calls[..n], k)
  {
    var n := |calls| - 1;
    forall j
      ensures Synchronizes(calls[..n], j) <==> Synchronizes(calls, j) && j < n
    {
      SynchronizesInPrefix(calls, j);
    }
  }

  /** The clock keeps what synchronization q measured, which was then within half of each of its round
      trips, rounded up, of the truth. */
  ghost predicate Keeps(c: Clock, q: Readings) {
    && c.lastSync == q.done && Measured(q.samples, c.offset)
    && forall s <- q.samples :: 2 * Abs(c.offset - q.ahead) <= s.t3 - s.t1 + 1
  }

  lemma SynchronizedKeeps(c: Clock, r: Readings)
    requires r.Valid()
    ensures Keeps(Clock(r.done, c.enabled, Offset(r.samples[Best(r.samples)])), r)
  {
    BestIsMeasured(r.samples);
    EstimateBound(r.samples, r.ahead);
  }

  /** What is stored after these calls. */
  ghost predicate Stored(calls: seq<Call>)
    requires ValidCalls(calls)
  {
    && (NeverSynchronized(calls) ==> Run(calls).lastSync == -0x8000_0000_0000_0000 && Run(calls).offset == 0)
    && (forall k :: IsLatest(calls, k) ==> Keeps(Run(calls), calls[k].readings))
    && (NeverSynchronized(calls) || exists k :: IsLatest(calls, k))
  }

  lemma StoredBySynchronizing(calls: seq<Call>)
    requires ValidCalls(calls) && calls != [] && Synchronizes(calls, |calls| - 1)
    ensures Stored(calls)
  {
    var n := |calls| - 1;
    assert calls[n] in calls;
    SynchronizedKeeps(Run(calls[..n]), calls[n].readings);
    assert Keeps(Run(calls), calls[n].readings);
    assert IsLatest(calls, n);
    forall k | IsLatest(calls, k)
      ensures k == n
    {
      LatestInPrefix(calls, k);
    }
  }

  lemma NeverInPrefix(calls: seq<Call>)
    requires ValidCalls(calls) && calls != [] && !Synchronizes(calls, |calls| - 1)
    ensures NeverSynchronized(calls) <==> NeverSynchronized(calls[..|calls| - 1])
  {
    var init := calls[..|calls| - 1];
    if k :| Synchronizes(calls, k) {
      SynchronizesInPrefix(calls, k);
      assert Synchronizes(init, k);
    }
    if k :| Synchronizes(init, k) {
      SynchronizesInPrefix(calls, k);
    }
  }

  lemma StoredStays(calls: seq<Call>)
    requires ValidCalls(calls) && calls != [] && !Synchronizes(calls, |calls| - 1)
    requires Stored(calls[..|calls| - 1])
    ensures Stored(calls)
  {
    var n := |calls| - 1;
    NeverInPrefix(calls);
    UnsynchronizedKeeps(calls);
    forall k | IsLatest(calls, k)
      ensures Keeps(Run(calls), calls[k].readings)
    {
      LatestInPrefix(calls, k);
      assert calls[..n][k] == calls[k];
    }
    if k :| IsLatest(calls[..n], k) {
      LatestInPrefix(calls, k);
    }
  }

  lemma UnsynchronizedKeeps(calls: seq<Call>)
    requires ValidCalls(calls) && calls != [] && !Synchronizes(calls, |calls| - 1)
    ensures Run(calls).lastSync == Run(calls[..|calls| - 1]).lastSync
    ensures Run(calls).offset == Run(calls[..|calls| - 1]).offset
  {
    assert calls[|calls| - 1] in calls;
  }

  /** In every history the clock keeps what the latest synchronization measured.  Before the first one
      the offset is zero. */
  lemma {:induction false} StoredOffset(calls: seq<Call>)
    requires ValidCalls(calls)
    ensures NeverSynchronized(calls) ==> Run(calls).lastSync == -0x8000_0000_0000_0000 && Run(calls).offset == 0
    ensures forall k :: IsLatest(calls, k) ==> Keeps(Run(calls), calls[k].readings)
    ensures NeverSynchronized(calls) || exists k :: IsLatest(calls, k)
    decreases |calls|
  {
    if calls == [] {
    } else if Synchronizes(calls, |calls| - 1) {
      StoredBySynchronizing(calls);
    } else {
      StoredOffset(calls[..|calls| - 1]);
      StoredStays(calls);
    }
  }

  /** When one more call for the offset synchronizes.  It leaves everything as it was if it does not ask,
      if synchronization is disabled, or if it comes no later than 200 milliseconds after the end of the
      latest synchronization; otherwise it takes its own readings. */
  lemma CallExactly(calls: seq<Call>, trySync: bool, r: Readings)
    requires ValidCalls(calls) && r.Valid()
    ensures ValidCalls(calls + [Get(trySync, r)])
    ensures var before, after := Run(calls), Run(calls + [Get(trySync, r)]);
      && after.enabled == before.enabled
      && (!trySync || !before.enabled ==> after == before)
      && (forall k :: IsLatest(calls, k) && r.now <= calls[k].readings.done + 200_000_000 ==> after == before)
      && (trySync && before.enabled &&
            (NeverSynchronized(calls)
             || exists k :: IsLatest(calls, k) && r.now > calls[k].readings.done + 200_000_000) ==>
            after.lastSync == r.done && Measured(r.samples, after.offset))
  {
    var all := calls + [Get(trySync, r)];
    assert all[..|all| - 1] == calls;
    StoredOffset(calls);
    BestIsMeasured(r.samples);
  }

  /** With synchronization enabled, every call that asks for it gets an offset that was just measured
      or was measured no more than 200 milliseconds before the call, in twenty exchanges, and whose error
      at that time is at most half of each of their round trips, rounded up.  The first one measures. */
  lemma ReturnedOffset(calls: seq<Call>, r: Readings)
    requires ValidCalls(calls) && r.Valid() && Run(calls).enabled
    ensures ValidCalls(calls + [Get(true, r)])
    ensures var all := calls + [Get(true, r)];
      exists k :: IsLatest(all, k) && Keeps(Run(all), all[k].readings)
        && |all[k].readings.samples| == 20
        && (k == |calls| || r.now - all[k].readings.done <= 200_000_000)
        && (NeverSynchronized(calls) ==> k == |calls|)
  {
    var all := calls + [Get(true, r)];
    assert all[..|all| - 1] == calls && all[..|calls|] == calls;
    StoredOffset(calls);
    StoredOffset(all);
    forall k
      ensures Synchronizes(calls, k) <==> Synchronizes(all, k) && k < |calls|
    {
      SynchronizesInPrefix(all, k);
    }
    if NeverSynchronized(calls) || Synchronizes(all, |calls|) {
      assert IsLatest(all, |calls|);
    } else {
      var k :| IsLatest(calls, k);
      assert IsLatest(all, k);
      assert all[k] == calls[k];
    }
  }
}
