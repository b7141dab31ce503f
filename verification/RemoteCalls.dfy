/**
 When a remote call returns, what the caller has then, and when it is exactly what the callee did.
 The conditions are on the declarations, on the places of the request and on the values there; none
 of them mentions the bindings that the collector returns or the functions of the two halves.
 */
module RemoteCalls {
  import opened Options
  import opened Bindings
  import opened Declarations
  import opened WriteBack
  import opened Transfer
  import opened RequestPlaces

  // ----- References are places, if they arrive -----

  /** The place is the reference at this location: its value, the struct it is in, and its declaration. */
  ghost predicate Describes(spec: Spec, ps: seq<Param>, top: bool, v: Value, loc: Location, pl: Placed)
    requires loc != []
  {
    && WrittenBack(spec, pl.param, pl.top) && (pl.top <==> top && |loc| == 1)
    && Get(v, loc) == Some(pl.value) && Get(v, loc[..|loc| - 1]) == Some(pl.record)
    && Declaration(spec, ps, PlaceNames(loc)) == Some(pl.param)
  }

  lemma HereIsModifiable(spec: Spec, p: Param, decay: bool, v: Value)
    requires IsLocation(spec, p, decay, v, [])
    ensures spec.Modifiable(p, decay)
  {
  }

  lemma DescribesThroughHop(spec: Spec, ms: seq<Param>, v: Value, loc: Location, pl: Placed)
    requires |loc| > 1 && loc[0].At? && v.Block? && loc[0].i < |v.elems|
    requires Describes(spec, ms, false, v.elems[loc[0].i], loc[1..], pl)
    ensures Describes(spec, ms, false, v, loc, pl)
  {
    var rest := loc[1..];
    assert PlaceNames(loc) == PlaceNames(rest);
    assert loc[..|loc| - 1][1..] == rest[..|rest| - 1];
  }

  lemma {:induction false} ReferenceIsPlace(spec: Spec, ps: seq<Param>, top: bool, v: Value, loc: Location)
    requires IsLocationIn(spec, ps, top, v, loc)
    ensures PlaceIn(spec, ps, top, v, loc).Some? <==> Arrives(spec, ps, top, v, loc)
    ensures PlaceIn(spec, ps, top, v, loc).Some? ==>
              Describes(spec, ps, top, v, loc, PlaceIn(spec, ps, top, v, loc).value)
    decreases |loc|, 0
  {
    var n, rest := loc[0].name, loc[1..];
    var k := Find(ps, n);
    var pl := Placed(ps[k], top, v.fields[n], v);
    CountIsFieldCount(spec, pl);
    EntersExactly(spec, ps[k], top);
    assert PlaceNames(loc) == [n] + PlaceNames(rest);
    RestIsDeclared(spec, ps, n, PlaceNames(rest));
    LongerHasNames(spec, ps[k], top, v.fields[n], rest);
    if rest == [] {
      HereIsModifiable(spec, ps[k], top, v.fields[n]);
    } else {
      BelowReferenceIsPlace(spec, pl, rest);
      assert loc[..|loc| - 1][1..] == rest[..|rest| - 1];
    }
  }

  lemma {:induction false} BelowReferenceIsPlace(spec: Spec, pl: Placed, loc: Location)
    requires loc != [] && IsLocation(spec, pl.param, pl.top, pl.value, loc)
    ensures PlaceBelow(spec, pl, loc).Some? <==> ArrivesBelow(spec, pl.param, pl.value, Count(spec, pl), loc)
    ensures PlaceBelow(spec, pl, loc).Some? ==>
              Describes(spec, spec.Members(pl.param), false, pl.value, loc, PlaceBelow(spec, pl, loc).value)
    decreases |loc|, 1
  {
    var p, v := pl.param, pl.value;
    EntersExactly(spec, p, pl.top);
    if p.Hops() {
      var i, rest := loc[0].i, loc[1..];
      ReferenceIsPlace(spec, spec.Members(p), false, v.elems[i], rest);
      if PlaceBelow(spec, pl, loc).Some? {
        DescribesThroughHop(spec, spec.Members(p), v, loc, PlaceBelow(spec, pl, loc).value);
      }
    } else {
      ReferenceIsPlace(spec, spec.Members(p), false, v, loc);
    }
  }

  // ----- How much of a reference travels -----

  /** As many elements as are counted: of an array of header structs in 32 bits, of a next pointer or a single
      header struct one. */
  function Carried(spec: Spec, pl: Placed): Option<int> {
    if HeaderArray(spec, pl.param) then
      match Count(spec, pl)
      case None => None
      case Some(n) => Some(n % 0x1_0000_0000)
    else if NextPointer(pl.param) || HeaderStruct(spec, pl.param) then Some(1)
    else Count(spec, pl)
  }

  /** The reference is null or has the elements that travel, at least one unless it is an array of header
      structs. */
  predicate PlaceFits(spec: Spec, pl: Placed) {
    pl.value.Null? ||
    (pl.value.Block? && Carried(spec, pl).Some? &&
     var n := Carried(spec, pl).value;
     0 <= n <= |pl.value.elems| && n < 0x1_0000_0000 && (n == 0 ==> HeaderArray(spec, pl.param)))
  }

  lemma CarriedExactly(spec: Spec, params: seq<Param>, args: Value, loc: Location)
    requires Reference(spec, params, args, loc) && PlaceIn(spec, params, true, args, loc).Some?
    requires Legible(spec, PlaceIn(spec, params, true, args, loc).value)
    ensures var pl := PlaceIn(spec, params, true, args, loc).value;
            && Travelling(spec, params, args, loc) == Carried(spec, pl)
            && (KindAt(spec, params, loc).XrArray? <==> HeaderArray(spec, pl.param))
  {
    ReferenceIsPlace(spec, params, true, args, loc);
    var pl := PlaceIn(spec, params, true, args, loc).value;
    var p := pl.param;
    CountIsFieldCount(spec, pl);
    TopOrBeside(spec, params, args, loc, pl, p.len);
  }

  /** The member called `name` beside a place. */
  lemma TopOrBeside(
      spec: Spec, params: seq<Param>, args: Value, loc: Location, pl: Placed, name: string)
    requires loc != [] && Describes(spec, params, true, args, loc, pl)
    ensures Get(args, Beside(loc, name)) == Get(pl.record, [InField(name)])
    ensures |loc| == 1 ==> pl.record == args
  {
    GetJoin(args, loc[..|loc| - 1], [InField(name)]);
  }

  lemma {:induction false} GetJoin(v: Value, a: Location, b: Location)
    requires Get(v, a).Some?
    ensures Get(v, a + b) == Get(Get(v, a).value, b)
    decreases |a|
  {
    if a == [] {
      assert a + b == b;
    } else {
      assert (a + b)[0] == a[0] && (a + b)[1..] == a[1..] + b;
      match a[0]
      case InField(n) => GetJoin(v.fields[n], a[1..], b);
      case At(i) => GetJoin(v.elems[i], a[1..], b);
    }
  }

  lemma FitsExactly(spec: Spec, params: seq<Param>, args: Value, loc: Location)
    requires AllLegible(spec, params, args) && Reference(spec, params, args, loc)
    ensures Fits(spec, params, args, loc) <==>
              PlaceIn(spec, params, true, args, loc).Some? &&
              PlaceFits(spec, PlaceIn(spec, params, true, args, loc).value)
  {
    ReferenceIsPlace(spec, params, true, args, loc);
    if PlaceIn(spec, params, true, args, loc).Some? {
      CarriedExactly(spec, params, args, loc);
    }
  }

  // ----- Which references are visited -----

  /** Every loop around a line of the generated code ends at a constant or a number among the parameters. */
  ghost predicate LoopsNamed(spec: Spec, params: seq<Param>, args: Value) {
    forall path :: OnFrontierOf(spec, params, true, path, 0) ==> LoopsNamedAlong(spec, params, args, path)
  }

  predicate LoopsNamedAlong(spec: Spec, params: seq<Param>, args: Value, path: Path)
    requires OnFrontierOf(spec, params, true, path, 0)
  {
    forall l <- LoopsAlongMember(spec, params, true, path, []) :: EndValue(spec, args, l.end).Some?
  }

  /** The loops around the path lead to this location with these values of their variables. */
  ghost predicate VisitedBy(
      spec: Spec, params: seq<Param>, args: Value, path: Path, idx: seq<nat>, loc: Location)
  {
    && OnFrontierOf(spec, params, true, path, 0) && Concrete(path, idx) == loc
    && var loops := LoopsAlongMember(spec, params, true, path, []);
    && |idx| == |loops|
    && forall k :: 0 <= k < |idx| ==>
         EndValue(spec, args, loops[k].end).Some? && idx[k] < EndValue(spec, args, loops[k].end).value
  }

  ghost predicate Visited(spec: Spec, params: seq<Param>, args: Value, loc: Location) {
    exists path, idx :: VisitedBy(spec, params, args, path, idx, loc)
  }

  lemma {:induction false} CountsExactly(spec: Spec, args: Value, loops: seq<Loop>)
    ensures Counts(spec, args, loops).Some? <==> forall l <- loops :: EndValue(spec, args, l.end).Some?
    ensures Counts(spec, args, loops).Some? ==>
              && |Counts(spec, args, loops).value| == |loops|
              && forall k :: 0 <= k < |loops| ==>
                   EndValue(spec, args, loops[k].end) == Some(Counts(spec, args, loops).value[k])
  {
    if loops == [] {
    } else {
      EndIsLoopCount(spec, args, loops[0].end);
      CountsExactly(spec, args, loops[1..]);
      assert loops == [loops[0]] + loops[1..];
    }
  }

  lemma {:induction false} AllVisitsExist(spec: Spec, args: Value, bs: seq<Binding>)
    ensures AllVisits(spec, args, bs).Some? <==> forall b <- bs :: Counts(spec, args, b.loops).Some?
  {
    if bs == [] {
    } else {
      AllVisitsExist(spec, args, bs[1..]);
      assert bs == [bs[0]] + bs[1..];
    }
  }

  lemma VisitsExist(spec: Spec, params: seq<Param>, args: Value)
    requires DistinctNames(params)
    ensures AllVisits(spec, args, FunctionBindings(spec, params)).Some? <==> LoopsNamed(spec, params, args)
  {
    var bs := FunctionBindings(spec, params);
    FunctionBindingsExact(spec, params);
    AllVisitsExist(spec, args, bs);
    forall b | b in bs
      ensures Counts(spec, args, b.loops).Some? <==> LoopsNamedAlong(spec, params, args, b.path)
    {
      CountsExactly(spec, args, b.loops);
    }
  }

  lemma VisitedIsPlace(spec: Spec, params: seq<Param>, args: Value, visit: Visit)
    requires DistinctNames(params) && LoopsNamed(spec, params, args)
    requires AllVisits(spec, args, FunctionBindings(spec, params)).Some?
    requires visit in AllVisits(spec, args, FunctionBindings(spec, params)).value
    ensures VisitedBy(spec, params, args, visit.binding.path, visit.idx, visit.Place())
  {
    FunctionBindingsExact(spec, params);
    AllVisitsMember(spec, args, FunctionBindings(spec, params), visit);
    CountsExactly(spec, args, visit.binding.loops);
  }

  lemma PlaceIsVisited(
      spec: Spec, params: seq<Param>, args: Value, path: Path, idx: seq<nat>, loc: Location)
    requires DistinctNames(params) && VisitedBy(spec, params, args, path, idx, loc)
    requires AllVisits(spec, args, FunctionBindings(spec, params)).Some?
    ensures loc in Places(AllVisits(spec, args, FunctionBindings(spec, params)).value)
  {
    var bs := FunctionBindings(spec, params);
    FunctionBindingsExact(spec, params);
    var b :| b in bs && b.path == path;
    AllVisitsContains(spec, args, bs, b);
    CountsExactly(spec, args, b.loops);
    NestReaches(b, Counts(spec, args, b.loops).value, [], idx);
    assert Visit(b, idx).Place() == loc;
  }

  lemma VisitsExactly(spec: Spec, params: seq<Param>, args: Value)
    requires DistinctNames(params) && LoopsNamed(spec, params, args)
    ensures AllVisits(spec, args, FunctionBindings(spec, params)).Some?
    ensures forall loc :: loc in Places(AllVisits(spec, args, FunctionBindings(spec, params)).value) <==>
                          Visited(spec, params, args, loc)
  {
    VisitsExist(spec, params, args);
    var visits := AllVisits(spec, args, FunctionBindings(spec, params)).value;
    forall loc
      ensures loc in Places(visits) <==> Visited(spec, params, args, loc)
    {
      if loc in Places(visits) {
        var visit :| visit in visits && visit.Place() == loc;
        VisitedIsPlace(spec, params, args, visit);
      }
      if path, idx :| VisitedBy(spec, params, args, path, idx, loc) {
        PlaceIsVisited(spec, params, args, path, idx, loc);
      }
    }
  }

  // ----- In which order -----

  /** The first index that differs is smaller. */
  ghost predicate IndexBefore(a: seq<nat>, b: seq<nat>) {
    exists k :: DiffersAt(a, b, k)
  }

  predicate DiffersAt(a: seq<nat>, b: seq<nat>, k: int) {
    0 <= k < |a| && k < |b| && a[..k] == b[..k] && a[k] < b[k]
  }

  lemma {:induction false} NestInOrder(b: Binding, counts: seq<nat>, idx: seq<nat>, i: nat, j: nat)
    requires |idx| <= |counts| && i < j < |Nest(b, counts, idx)|
    ensures IndexBefore(Nest(b, counts, idx)[i].idx, Nest(b, counts, idx)[j].idx)
    decreases |counts| - |idx|, 0, 0
  {
    if |idx| < |counts| {
      NestFromInOrder(b, counts, idx, 0, i, j);
    }
  }

  lemma {:induction false} NestFromInOrder(b: Binding, counts: seq<nat>, idx: seq<nat>, n: nat, i: nat, j: nat)
    requires |idx| < |counts| && n <= counts[|idx|] && i < j < |NestFrom(b, counts, idx, n)|
    ensures IndexBefore(NestFrom(b, counts, idx, n)[i].idx, NestFrom(b, counts, idx, n)[j].idx)
    decreases |counts| - |idx|, 0, 0, counts[|idx|] - n
  {
    var first, rest := Nest(b, counts, idx + [n]), NestFrom(b, counts, idx, n + 1);
    if j < |first| {
      NestInOrder(b, counts, idx + [n], i, j);
    } else if i >= |first| {
      NestFromInOrder(b, counts, idx, n + 1, i - |first|, j - |first|);
    } else {
      var x, y := first[i], rest[j - |first|];
      var m := NestFromMember(b, counts, idx, n + 1, y);
      NestIsWithin(b, counts, idx + [n], x);
      NestIsWithin(b, counts, idx + [m], y);
      PrefixDiffers(idx, n, m, x.idx, y.idx);
    }
  }

  lemma PrefixDiffers(idx: seq<nat>, n: nat, m: nat, a: seq<nat>, b: seq<nat>)
    requires n < m && idx + [n] <= a && idx + [m] <= b
    ensures IndexBefore(a, b)
  {
    var k := |idx|;
    assert a[k] == (idx + [n])[k] && b[k] == (idx + [m])[k];
    assert a[..k] == (idx + [n])[..k] == idx && b[..k] == (idx + [m])[..k] == idx;
    assert DiffersAt(a, b, k);
  }

  /** Two visits, and the bindings they belong to. */
  ghost predicate InOrder(bs: seq<Binding>, x: Visit, y: Visit, p: int, q: int) {
    0 <= p <= q < |bs| && x.binding == bs[p] && y.binding == bs[q] && (p == q ==> IndexBefore(x.idx, y.idx))
  }

  /** The visits are those of the first binding, with the outermost loop slowest and each loop counting up,
      then those of the second, and so on. */
  lemma {:induction false} VisitsInOrder(spec: Spec, args: Value, bs: seq<Binding>, i: nat, j: nat)
    requires AllVisits(spec, args, bs).Some? && i < j < |AllVisits(spec, args, bs).value|
    ensures var visits := AllVisits(spec, args, bs).value; exists p, q :: InOrder(bs, visits[i], visits[j], p, q)
    decreases |bs|
  {
    var first, rest := Visits(spec, args, bs[0]).value, AllVisits(spec, args, bs[1..]).value;
    var visits := first + rest;
    if j < |first| {
      FirstInOrder(spec, args, bs[0], i, j);
      assert InOrder(bs, visits[i], visits[j], 0, 0);
    } else if i >= |first| {
      VisitsInOrder(spec, args, bs[1..], i - |first|, j - |first|);
      var p, q :| InOrder(bs[1..], rest[i - |first|], rest[j - |first|], p, q);
      assert InOrder(bs, visits[i], visits[j], p + 1, q + 1);
    } else {
      VisitsOfOne(spec, args, bs[0], i);
      AllVisitsMember(spec, args, bs[1..], rest[j - |first|]);
      var r :| 0 <= r < |bs[1..]| && bs[1..][r] == rest[j - |first|].binding;
      assert InOrder(bs, visits[i], visits[j], 0, r + 1);
    }
  }

  lemma FirstInOrder(spec: Spec, args: Value, b: Binding, i: nat, j: nat)
    requires Visits(spec, args, b).Some? && i < j < |Visits(spec, args, b).value|
    ensures var visits := Visits(spec, args, b).value;
            visits[i].binding == b == visits[j].binding && IndexBefore(visits[i].idx, visits[j].idx)
  {
    VisitsOfOne(spec, args, b, i);
    VisitsOfOne(spec, args, b, j);
    NestInOrder(b, Counts(spec, args, b.loops).value, [], i, j);
  }

  lemma VisitsOfOne(spec: Spec, args: Value, b: Binding, i: nat)
    requires Visits(spec, args, b).Some? && i < |Visits(spec, args, b).value|
    ensures Visits(spec, args, b).value[i].binding == b
  {
    NestIsWithin(b, Counts(spec, args, b.loops).value, [], Visits(spec, args, b).value[i]);
  }

  lemma {:induction false} RunsInOrder(spec: Spec, params: seq<Param>, args: Value, visits: seq<Visit>)
    requires Read(spec, params, args, visits).Some?
    ensures var runs := Read(spec, params, args, visits).value;
            && |runs| == |visits|
            && forall i :: 0 <= i < |visits| ==> Send(spec, params, args, visits[i]) == Some(runs[i])
  {
    if visits == [] {
    } else {
      RunsInOrder(spec, params, args, visits[1..]);
    }
  }

  /** What the server sends is one run for each visit, in this order. */
  lemma {:induction false} WireInOrder(spec: Spec, params: seq<Param>, bs: seq<Binding>, args: Value)
    requires Emit(spec, params, bs, args).Some?
    ensures AllVisits(spec, args, bs).Some?
    ensures var visits, wire := AllVisits(spec, args, bs).value, Emit(spec, params, bs, args).value;
            && |wire| == |visits|
            && forall i :: 0 <= i < |visits| ==> Send(spec, params, args, visits[i]) == Some(wire[i])
    decreases |bs|
  {
    if bs == [] {
    } else {
      var first := Visits(spec, args, bs[0]).value;
      var runs := Read(spec, params, args, first).value;
      var rest, wire := AllVisits(spec, args, bs[1..]), Emit(spec, params, bs[1..], args).value;
      RunsInOrder(spec, params, args, first);
      WireInOrder(spec, params, bs[1..], args);
      assert AllVisits(spec, args, bs).value == first + rest.value;
      assert Emit(spec, params, bs, args).value == runs + wire;
    }
  }

  // ----- Which lines compile -----

  /** The members that the last step of a path chooses from. */
  function Siblings(spec: Spec, ps: seq<Param>, path: Path): seq<Param>
    decreases |path|
  {
    if |path| <= 1 || !path[0].Field? || Find(ps, path[0].name) == |ps| then ps
    else
      var p := ps[Find(ps, path[0].name)];
      if p.typ !in spec.structs then []
      else Siblings(spec, spec.structs[p.typ].members, if path[1].Field? then path[1..] else path[2..])
  }

  predicate HasNumber(spec: Spec, ps: seq<Param>, name: string) {
    exists p <- ps :: p.name == name && p.pointer == "" && p.extent == "" && p.typ !in spec.structs
  }

  /** The generated line for the reference that a path leads to: a length is a number beside it, or, for a
      parameter, a constant; a header struct is behind a pointer, or is an array parameter. */
  predicate LineCompiles(spec: Spec, params: seq<Param>, path: Path)
    requires OnFrontierOf(spec, params, true, path, 0)
  {
    var p := EndOfMember(spec, params, true, path, 0);
    if (HeaderStruct(spec, p) || NextPointer(p)) && !HeaderArray(spec, p) then
      p.pointer != "" || (|path| == 1 && p.extent != "")
    else if p.pointer == "" then p.extent in spec.constants || HasNumber(spec, params, p.extent)
    else if p.len == "" then true
    else (|path| == 1 && p.len in spec.constants) || HasNumber(spec, Siblings(spec, params, path), p.len)
  }

  ghost predicate LinesCompile(spec: Spec, params: seq<Param>) {
    forall path :: OnFrontierOf(spec, params, true, path, 0) ==> LineCompiles(spec, params, path)
  }

  lemma NumberIsDeclared(spec: Spec, ps: seq<Param>, name: string)
    requires DistinctNames(ps)
    ensures DeclaresNumber(spec, ps, [name]) <==> HasNumber(spec, ps, name)
  {
    var k := Find(ps, name);
    if p :| p in ps && p.name == name && p.pointer == "" && p.extent == "" && p.typ !in spec.structs {
      var i :| 0 <= i < |ps| && ps[i] == p;
      assert i == k;
    }
  }

  lemma NamesAfter(name: string, path: Path)
    ensures PathNames([Field(name)] + path) == [name] + PathNames(path)
  {
    assert ([Field(name)] + path)[1..] == path;
  }

  lemma NamesAfterHop(step: Step, path: Path)
    requires !step.Field?
    ensures PathNames([step] + path) == PathNames(path)
  {
    assert ([step] + path)[1..] == path;
    assert [] + PathNames(path) == PathNames(path);
  }

  /** The path to the sibling called `name`. */
  function SiblingPath(path: Path, name: string): Path
    requires path != []
  {
    path[..|path| - 1] + [Field(name)]
  }

  lemma SiblingBelow(path: Path, name: string)
    requires |path| > 1
    ensures SiblingPath(path, name) == [path[0]] + SiblingPath(path[1..], name)
  {
  }

  lemma {:induction false} SiblingNumber(
      spec: Spec, ps: seq<Param>, decay: bool, path: Path, v: nat, name: string)
    requires OnFrontierOf(spec, ps, decay, path, v) && DistinctNames(ps)
    ensures DeclaresNumber(spec, ps, PathNames(SiblingPath(path, name))) <==>
            HasNumber(spec, Siblings(spec, ps, path), name)
    decreases |path|
  {
    if |path| == 1 {
      NumberIsDeclared(spec, ps, name);
      assert SiblingPath(path, name) == [Field(name)] + [];
      NamesAfter(name, []);
    } else {
      var p := ps[Find(ps, path[0].name)];
      var rest := path[1..];
      var below, next := rest[|Hop(p, v)|..], if p.Loops() then v + 1 else v;
      assert OnFrontier(spec, p, decay, rest, v) && !spec.Modifiable(p, decay);
      SiblingNumber(spec, spec.Members(p), false, below, next, name);
      SiblingBelow(path, name);
      NamesAfter(path[0].name, SiblingPath(rest, name));
      SiblingThroughHop(p, rest, v, name);
      SiblingNames(below, name);
      RestIsDeclared(spec, ps, path[0].name, PathNames(SiblingPath(below, name)));
    }
  }

  lemma SiblingThroughHop(p: Param, path: Path, v: nat, name: string)
    requires Hop(p, v) <= path && |path| > |Hop(p, v)|
    ensures PathNames(SiblingPath(path, name)) == PathNames(SiblingPath(path[|Hop(p, v)|..], name))
    ensures Hop(p, v) != [] ==> !path[0].Field? && path[|Hop(p, v)|..] == path[1..]
    ensures Hop(p, v) == [] ==> path[|Hop(p, v)|..] == path
  {
    if Hop(p, v) != [] {
      assert path[0] == Hop(p, v)[0];
      SiblingBelow(path, name);
      NamesAfterHop(path[0], SiblingPath(path[1..], name));
    } else {
      assert path[0..] == path;
    }
  }

  lemma {:induction false} SiblingNames(path: Path, name: string)
    requires path != []
    ensures PathNames(SiblingPath(path, name)) != []
  {
    if |path| == 1 {
      assert SiblingPath(path, name) == [Field(name)] + [];
      NamesAfter(name, []);
    } else {
      SiblingBelow(path, name);
      SiblingNames(path[1..], name);
      assert SiblingPath(path, name)[1..] == SiblingPath(path[1..], name);
    }
  }

  lemma LineIsCompiled(spec: Spec, params: seq<Param>, b: Binding)
    requires DistinctNames(params) && Collected(spec, params, b)
    ensures Compiles(spec, params, b) <==> LineCompiles(spec, params, b.path)
  {
    var p := b.param;
    SiblingNumber(spec, params, true, b.path, 0, p.len);
    NumberIsDeclared(spec, params, p.extent);
    assert [] + [Field(p.extent)] == [Field(p.extent)] + [];
    NamesAfter(p.extent, []);
    TransferKind(spec, p, b.path);
  }

  lemma CompilesExactly(spec: Spec, params: seq<Param>)
    requires DistinctNames(params)
    ensures AllCompile(spec, params) <==> LinesCompile(spec, params)
  {
    var bs := FunctionBindings(spec, params);
    FunctionBindingsExact(spec, params);
    forall b | b in bs
      ensures OnFrontierOf(spec, params, true, b.path, 0)
      ensures Compiles(spec, params, b) <==> LineCompiles(spec, params, b.path)
    {
      LineIsCompiled(spec, params, b);
    }
  }

  // ----- When a call returns, and with what -----

  /** The server reads the request: every place is legible, and nothing follows a type that is left. */
  ghost predicate RequestIsRead(spec: Spec, params: seq<Param>, args: Value) {
    AllLegible(spec, params, args) && forall a, b :: !TypeIsMisread(spec, params, args, a, b)
  }

  /** Every visited location is a place of the request that fits what travels for it. */
  ghost predicate VisitsFit(spec: Spec, params: seq<Param>, args: Value) {
    forall loc :: Visited(spec, params, args, loc) ==>
      PlaceIn(spec, params, true, args, loc).Some? && PlaceFits(spec, PlaceIn(spec, params, true, args, loc).value)
  }

  /** What the caller has of a visited reference `v` of which the callee has made `w`: the elements that travel
      are the callee's and the others its own; if none travel, a pointer in a struct becomes null. */
  predicate AfterVisit(spec: Spec, pl: Placed, v: Value, w: Value, r: Value) {
    if !v.Block? then r == v
    else
      && w.Block? && |w.elems| == |v.elems| && Carried(spec, pl).Some?
      && var n := Carried(spec, pl).value;
         if n == 0 then r == (if pl.top then v else Null)
         else
           && r.Block? && |r.elems| == |v.elems|
           && forall j :: 0 <= j < |v.elems| ==> r.elems[j] == if j < n then w.elems[j] else v.elems[j]
  }

  lemma VisitedPlaceFits(spec: Spec, params: seq<Param>, args: Value, visit: Visit)
    requires DistinctNames(params) && AllLegible(spec, params, args)
    requires AllVisits(spec, args, FunctionBindings(spec, params)).Some?
    requires visit in AllVisits(spec, args, FunctionBindings(spec, params)).value
    ensures var loc := visit.Place();
            Fits(spec, params, args, loc) <==>
              PlaceIn(spec, params, true, args, loc).Some? &&
              PlaceFits(spec, PlaceIn(spec, params, true, args, loc).value)
  {
    var loc := visit.Place();
    VisitIsCollected(spec, params, args, visit);
    if Get(args, loc).Some? {
      FitsExactly(spec, params, args, loc);
    } else {
      PlaceIsThere(spec, params, true, args, loc);
    }
  }

  /** A place is where its location says. */
  lemma {:induction false} PlaceIsThere(spec: Spec, ps: seq<Param>, top: bool, v: Value, loc: Location)
    requires loc != []
    ensures PlaceIn(spec, ps, top, v, loc).Some? ==> Get(v, loc) == Some(PlaceIn(spec, ps, top, v, loc).value.value)
    decreases |loc|
  {
    if PlaceIn(spec, ps, top, v, loc).Some? && |loc| > 1 {
      var pl := Placed(ps[Find(ps, loc[0].name)], top, v.fields[loc[0].name], v);
      var rest, p := loc[1..], pl.param;
      assert PlaceBelow(spec, pl, rest).Some?;
      if p.pointer == "" && p.extent == "" {
        PlaceIsThere(spec, spec.structs[p.typ].members, false, pl.value, rest);
      } else if |rest| > 1 {
        PlaceIsThere(spec, spec.structs[p.typ].members, false, pl.value.elems[rest[0].i], rest[1..]);
      }
    }
  }

  lemma AllFitExactly(spec: Spec, params: seq<Param>, args: Value)
    requires DistinctNames(params) && AllLegible(spec, params, args) && LoopsNamed(spec, params, args)
    ensures AllVisits(spec, args, FunctionBindings(spec, params)).Some?
    ensures AllFit(spec, params, args, AllVisits(spec, args, FunctionBindings(spec, params)).value) <==>
            VisitsFit(spec, params, args)
  {
    VisitsExactly(spec, params, args);
    var visits := AllVisits(spec, args, FunctionBindings(spec, params)).value;
    forall visit | visit in visits
      ensures Visited(spec, params, args, visit.Place())
      ensures Fits(spec, params, args, visit.Place()) <==>
                PlaceIn(spec, params, true, args, visit.Place()).Some? &&
                PlaceFits(spec, PlaceIn(spec, params, true, args, visit.Place()).value)
    {
      assert visit.Place() in Places(visits);
      VisitedPlaceFits(spec, params, args, visit);
    }
    forall loc | Visited(spec, params, args, loc)
      ensures exists visit :: visit in visits && visit.Place() == loc
    {
      assert loc in Places(visits);
    }
  }

  /** When a remote call returns: exactly if every generated line compiles and every loop end has a value,
      every place of the request can be read, and every visited location is a place that fits. */
  lemma ReturnsExactly(spec: Spec, params: seq<Param>, pre: Value, post: Value)
    requires DistinctNames(params) && TypedFields(spec, params, true, pre) && CalleeEffect(spec, params, pre, post)
    ensures RemoteCall(spec, params, pre, post).Some? <==>
              && LinesCompile(spec, params) && LoopsNamed(spec, params, pre)
              && RequestIsRead(spec, params, pre) && VisitsFit(spec, params, pre)
  {
    RemoteCallResult(spec, params, pre, post);
    CompilesExactly(spec, params);
    VisitsExist(spec, params, pre);
    RequestReadsExactly(spec, params, pre);
    if LoopsNamed(spec, params, pre) && RequestIsRead(spec, params, pre) {
      AllFitExactly(spec, params, pre);
    }
  }

  lemma OverlaidIsAfter(spec: Spec, pl: Placed, n: int, v: Value, w: Value)
    requires Carried(spec, pl) == Some(n) && PlaceFits(spec, pl) && pl.value == v && SameShape(v, w)
    requires v.Null? || v.Block?
    ensures AfterVisit(spec, pl, v, w, Overlaid(if HeaderArray(spec, pl.param) then XrArray else Ptr, !pl.top, n, v, w))
  {
  }

  lemma OverlaidByKind(kind: Kind, nested: bool, n: int, v: Value, w: Value)
    ensures Overlaid(kind, nested, n, v, w) == Overlaid(if kind.XrArray? then XrArray else Ptr, nested, n, v, w)
  {
  }

  /** What the caller has after a call that returns: of every visited reference what AfterVisit says, and
      every other reference as it was. */
  lemma ResultExactly(spec: Spec, params: seq<Param>, pre: Value, post: Value, loc: Location)
    requires DistinctNames(params) && TypedFields(spec, params, true, pre) && CalleeEffect(spec, params, pre, post)
    requires RemoteCall(spec, params, pre, post).Some? && Reference(spec, params, pre, loc)
    ensures Get(pre, loc).Some? && Get(post, loc).Some?
    ensures var r := Get(RemoteCall(spec, params, pre, post).value, loc);
            && r.Some?
            && (!Visited(spec, params, pre, loc) ==> r == Get(pre, loc))
            && (Visited(spec, params, pre, loc) ==>
                  && PlaceIn(spec, params, true, pre, loc).Some?
                  && var pl := PlaceIn(spec, params, true, pre, loc).value;
                     AfterVisit(spec, pl, Get(pre, loc).value, Get(post, loc).value, r.value))
  {
    ReturnsExactly(spec, params, pre, post);
    RemoteCallResult(spec, params, pre, post);
    VisitsExactly(spec, params, pre);
    ChangeKeepsLocationIn(spec, params, true, false, pre, post, loc);
    var visits := AllVisits(spec, pre, FunctionBindings(spec, params)).value;
    assert loc in Places(visits) <==> Visited(spec, params, pre, loc);
    if Visited(spec, params, pre, loc) {
      VisitedResult(spec, params, pre, loc, Get(post, loc).value);
    }
  }

  lemma VisitedResult(spec: Spec, params: seq<Param>, pre: Value, loc: Location, w: Value)
    requires Reference(spec, params, pre, loc) && AllLegible(spec, params, pre)
    requires Get(pre, loc).Some? && SameShape(Get(pre, loc).value, w)
    requires PlaceIn(spec, params, true, pre, loc).Some?
    requires PlaceFits(spec, PlaceIn(spec, params, true, pre, loc).value)
    ensures var r := Overlay(spec, params, pre, loc, Get(pre, loc), Some(w));
            && r.Some?
            && AfterVisit(spec, PlaceIn(spec, params, true, pre, loc).value, Get(pre, loc).value, w, r.value)
  {
    var pl, v := PlaceIn(spec, params, true, pre, loc).value, Get(pre, loc).value;
    ReferenceIsPlace(spec, params, true, pre, loc);
    CarriedExactly(spec, params, pre, loc);
    var n := Carried(spec, pl);
    if n.Some? {
      OverlaidByKind(KindAt(spec, params, loc), |loc| > 1, n.value, v, w);
      OverlaidIsAfter(spec, pl, n.value, v, w);
    }
  }

  // ----- When the caller sees exactly the callee's effect -----

  /** The reference is null, or all of it travels, and it is not empty. */
  predicate PlaceWhole(spec: Spec, pl: Placed) {
    pl.value.Null? ||
    (pl.value.Block? && 0 < |pl.value.elems| < 0x1_0000_0000 && Carried(spec, pl) == Some(|pl.value.elems|))
  }

  /** Every visited location is a place of the request that is null or travels whole. */
  ghost predicate VisitsWhole(spec: Spec, params: seq<Param>, args: Value) {
    forall loc :: Visited(spec, params, args, loc) ==>
      PlaceIn(spec, params, true, args, loc).Some? && PlaceWhole(spec, PlaceIn(spec, params, true, args, loc).value)
  }

  /** Every reference with something behind it is visited. */
  ghost predicate AllVisited(spec: Spec, params: seq<Param>, args: Value) {
    forall loc :: Reference(spec, params, args, loc) && Get(args, loc).Some? && Writable(Get(args, loc).value) ==>
      Visited(spec, params, args, loc)
  }

  lemma WholeExactly(spec: Spec, params: seq<Param>, args: Value, loc: Location)
    requires DistinctNames(params) && AllLegible(spec, params, args) && LoopsNamed(spec, params, args)
    requires Visited(spec, params, args, loc)
    ensures Whole(spec, params, args, loc) <==>
              PlaceIn(spec, params, true, args, loc).Some? &&
              PlaceWhole(spec, PlaceIn(spec, params, true, args, loc).value)
  {
    VisitsExactly(spec, params, args);
    var visits := AllVisits(spec, args, FunctionBindings(spec, params)).value;
    assert loc in Places(visits);
    var visit :| visit in visits && visit.Place() == loc;
    VisitIsCollected(spec, params, args, visit);
    if Get(args, loc).None? {
      PlaceIsThere(spec, params, true, args, loc);
    } else {
      ReferenceIsPlace(spec, params, true, args, loc);
      if PlaceIn(spec, params, true, args, loc).Some? {
        CarriedExactly(spec, params, args, loc);
      }
    }
  }

  lemma CoveredExactly(spec: Spec, params: seq<Param>, pre: Value)
    requires DistinctNames(params) && TypedFields(spec, params, true, pre)
    ensures Covered(spec, params, pre) <==>
              && LinesCompile(spec, params) && LoopsNamed(spec, params, pre) && RequestIsRead(spec, params, pre)
              && VisitsWhole(spec, params, pre) && AllVisited(spec, params, pre)
  {
    CompilesExactly(spec, params);
    VisitsExist(spec, params, pre);
    RequestReadsExactly(spec, params, pre);
    if LoopsNamed(spec, params, pre) && RequestIsRead(spec, params, pre) {
      VisitsExactly(spec, params, pre);
      forall loc | Visited(spec, params, pre, loc)
        ensures Whole(spec, params, pre, loc) <==>
                  PlaceIn(spec, params, true, pre, loc).Some? &&
                  PlaceWhole(spec, PlaceIn(spec, params, true, pre, loc).value)
      {
        WholeExactly(spec, params, pre, loc);
      }
    }
  }

  ghost predicate AlwaysWritesBack(spec: Spec, params: seq<Param>, pre: Value) {
    forall post :: CalleeEffect(spec, params, pre, post) ==> RemoteCall(spec, params, pre, post) == Some(post)
  }

  /** The caller sees exactly the callee's effect, whatever the callee writes behind non-const references, if
      and only if the generated lines compile and their loop ends have values, every place of the request can
      be read, every visited location is null or travels whole, and every reference with something behind it
      is visited. */
  lemma WriteBackExactly(spec: Spec, params: seq<Param>, pre: Value)
    requires DistinctNames(params) && TypedFields(spec, params, true, pre)
    ensures AlwaysWritesBack(spec, params, pre) <==>
              && LinesCompile(spec, params) && LoopsNamed(spec, params, pre) && RequestIsRead(spec, params, pre)
              && VisitsWhole(spec, params, pre) && AllVisited(spec, params, pre)
  {
    WriteBackExact(spec, params, pre);
    CoveredExactly(spec, params, pre);
  }

  // ----- A condition on the values alone -----

  /** The value is what its declaration says: a next pointer or a single header struct is null or one struct;
      another pointer is null or as many elements as it declares, one at least unless only its members matter,
      or it is const and refers to no struct; so is an array parameter that is written back, and any other
      array of structs is there. */
  predicate AsDeclared(spec: Spec, pl: Placed) {
    var p, v, n := pl.param, pl.value, Count(spec, pl);
    if (NextPointer(p) || HeaderStruct(spec, p)) && !HeaderArray(spec, p) then
      v.Null? || (v.Block? && |v.elems| == 1)
    else if p.pointer != "" then
      (p.qualifier == "const" && p.typ !in spec.structs) ||
      (n.Some? && (v.Null? || (v.Block? && n.value == |v.elems| < 0x1_0000_0000 &&
                               (v.elems == [] ==> GoesOn(spec, p, pl.top)))))
    else if p.extent != "" then
      if pl.top && p.qualifier != "const" then v.Block? && n.Some? && 0 < n.value == |v.elems| < 0x1_0000_0000
      else p.typ in spec.structs ==> v.Block?
    else true
  }

  ghost predicate AllAsDeclared(spec: Spec, ps: seq<Param>, top: bool, v: Value) {
    forall loc :: var pl := PlaceIn(spec, ps, top, v, loc); pl.Some? ==> AsDeclared(spec, pl.value)
  }

  lemma DeclaredIsRead(spec: Spec, params: seq<Param>, args: Value)
    requires AllAsDeclared(spec, params, true, args)
    ensures RequestIsRead(spec, params, args)
  {
    forall loc | IsPlace(spec, params, args, loc)
      ensures Legible(spec, PlaceIn(spec, params, true, args, loc).value)
      ensures !LeavesType(spec, PlaceIn(spec, params, true, args, loc).value)
    {
      var pl := PlaceIn(spec, params, true, args, loc).value;
      assert AsDeclared(spec, pl);
      DeclaredIsLegible(spec, pl);
    }
  }

  lemma DeclaredIsLegible(spec: Spec, pl: Placed)
    requires AsDeclared(spec, pl)
    ensures Legible(spec, pl) && !LeavesType(spec, pl)
  {
  }

  lemma DeclaredBelow(spec: Spec, ps: seq<Param>, top: bool, v: Value, k: nat, rest: Location)
    requires k < |ps| && DistinctNames(ps) && v.Record? && ps[k].name in v.fields && AllAsDeclared(spec, ps, top, v)
    ensures var pl := Placed(ps[k], top, v.fields[ps[k].name], v);
            && AsDeclared(spec, pl)
            && (rest != [] && PlaceBelow(spec, pl, rest).Some? ==> AsDeclared(spec, PlaceBelow(spec, pl, rest).value))
  {
    PlaceOfMember(spec, ps, top, v, k, []);
    PlaceOfMember(spec, ps, top, v, k, rest);
    var here, below := [InField(ps[k].name)] + [], [InField(ps[k].name)] + rest;
    assert PlaceIn(spec, ps, top, v, here).Some?;
    var pl := Placed(ps[k], top, v.fields[ps[k].name], v);
    assert rest != [] ==> PlaceIn(spec, ps, top, v, below) == PlaceBelow(spec, pl, rest);
  }

  lemma {:induction false} DeclaredArrives(spec: Spec, ps: seq<Param>, top: bool, v: Value, loc: Location)
    requires DistinctNames(ps) && AllAsDeclared(spec, ps, top, v) && IsLocationIn(spec, ps, top, v, loc)
    ensures PlaceIn(spec, ps, top, v, loc).Some?
    decreases |loc|
  {
    var k, rest := Find(ps, loc[0].name), loc[1..];
    var pl := Placed(ps[k], top, v.fields[ps[k].name], v);
    var p := pl.param;
    EntersExactly(spec, p, top);
    if rest != [] {
      DeclaredBelow(spec, ps, top, v, k, []);
      var inner := if p.Hops() then pl.value.elems[rest[0].i] else pl.value;
      forall l: Location | PlaceIn(spec, spec.Members(p), false, inner, l).Some?
        ensures AsDeclared(spec, PlaceIn(spec, spec.Members(p), false, inner, l).value)
      {
        var through := if p.Hops() then [rest[0]] + l else l;
        assert p.Hops() ==> through[0] == rest[0] && through[1..] == l;
        DeclaredBelow(spec, ps, top, v, k, through);
      }
      DeclaredArrives(spec, spec.Members(p), false, inner, if p.Hops() then rest[1..] else rest);
    }
  }

  lemma DeclaredIsWhole(spec: Spec, params: seq<Param>, args: Value, loc: Location)
    requires DistinctNames(params) && AllAsDeclared(spec, params, true, args)
    requires Reference(spec, params, args, loc)
    ensures Whole(spec, params, args, loc)
  {
    DeclaredArrives(spec, params, true, args, loc);
    ReferenceIsPlace(spec, params, true, args, loc);
    var pl := PlaceIn(spec, params, true, args, loc).value;
    assert AsDeclared(spec, pl);
    DeclaredIsLegible(spec, pl);
    CarriedExactly(spec, params, args, loc);
  }

  /** Write-back is exact for every callee if the generated lines compile, the bare loop ends have values that
      agree with the blocks they run over, and every value is what its declaration says. */
  lemma AgreeingCountsWriteBack(spec: Spec, params: seq<Param>, pre: Value, post: Value)
    requires DistinctNames(params) && TypedFields(spec, params, true, pre) && CalleeEffect(spec, params, pre, post)
    requires LinesCompile(spec, params) && LoopsNamed(spec, params, pre)
    requires CountsAgreeIn(spec, params, true, pre, pre)
    requires AllAsDeclared(spec, params, true, pre)
    ensures RemoteCall(spec, params, pre, post) == Some(post)
  {
    DeclaredIsRead(spec, params, pre);
    RequestReadsExactly(spec, params, pre);
    CompilesExactly(spec, params);
    VisitsExist(spec, params, pre);
    forall loc | Reference(spec, params, pre, loc)
      ensures Whole(spec, params, pre, loc)
    {
      DeclaredIsWhole(spec, params, pre, loc);
    }
    WholeReferencesWriteBack(spec, params, pre, post);
  }
}
