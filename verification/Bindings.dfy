/**
 The out-parameter binding collector of the code generator.

 The generator walks the type of every function parameter and stops at the first
 non-const reference.  Each stop is a binding: an access path, the loops that must be
 wrapped around it, and how its length is written.  The generated server writes the
 value at every binding to the wire after the call, and the generated client reads the
 same bindings back, in the same order.

 `extent` is the array bound of a parameter.  An absent attribute is the empty string: every test the collector makes
 treats the two alike.
 */
module Bindings {

  datatype Param = Param(qualifier: string, typ: string, pointer: string, name: string, extent: string, len: string)
  {
    predicate IsNext() {
      typ == "void" && pointer == "*" && name == "next"
    }

    /** Reaching a member goes through a pointer or an array element. */
    predicate Hops() {
      pointer != "" || extent != ""
    }

    /** Reaching a member goes through one element selected by a loop variable. */
    predicate Loops() {
      if pointer != "" then len != "" else extent != ""
    }

    /** How the end of that loop is written. */
    function LoopEnd(): string {
      if pointer != "" then len else extent
    }
  }

  datatype Struct = Struct(members: seq<Param>, header: bool)

  /** The struct index, the array bounds (names and literals), and a rank that witnesses that the traversed
      part of the struct graph is acyclic. */
  datatype RawSpec = RawSpec(structs: map<string, Struct>, constants: map<string, nat>, rank: map<string, nat>)
  {
    predicate IsHeader(p: Param) {
      p.typ in structs && structs[p.typ].header
    }

    /** The caller may see a change here: a non-const pointer, a non-const header struct or,
        for a function parameter, a non-const array, which is a pointer in disguise. */
    predicate Modifiable(p: Param, decay: bool) {
      p.qualifier != "const" && (p.pointer != "" || IsHeader(p) || (decay && p.extent != ""))
    }

    /** A const path leads on to the members of a known, non-header struct. */
    predicate Enters(p: Param, decay: bool) {
      !Modifiable(p, decay) && !p.IsNext() && p.typ in structs && !IsHeader(p)
    }

    /** A number: neither a reference nor an array nor a struct. */
    predicate Plain(p: Param) {
      !p.Hops() && p.typ !in structs
    }

    function Members(p: Param): seq<Param>
      requires p.typ in structs
    {
      structs[p.typ].members
    }

    predicate RankedMembers(bound: nat, members: seq<Param>, decay: bool)
    {
      forall m <- members :: Enters(m, decay) ==> m.typ in rank && rank[m.typ] < bound
    }

    predicate Valid() {
      && structs.Keys <= rank.Keys
      && forall s <- structs ::
           && DistinctNames(structs[s].members)
           && (!structs[s].header ==> RankedMembers(rank[s], structs[s].members, false))
    }
  }

  type Spec = s: RawSpec | s.Valid() witness RawSpec(map[], map[], map[])

  predicate DistinctNames(ps: seq<Param>) {
    forall i, j :: 0 <= i < j < |ps| ==> ps[i].name != ps[j].name
  }

  /** `a->b[i0].c` is [Field a, Deref, Field b, Index 0, Field c]. */
  datatype Step = Field(name: string) | Deref | Index(variable: nat)

  type Path = seq<Step>

  /** for (int i<variable> = 0; i<variable> < end; i<variable>++) */
  datatype Loop = Loop(end: string, variable: nat)

  datatype Kind = XrArray | Xr | SizedPtr | Ptr | Array

  datatype Length = NoLength | Length(prefix: Path, text: string)

  datatype Binding = Binding(kind: Kind, path: Path, param: Param, loops: seq<Loop>, len: Length)

  /** The steps from a parameter to the struct whose members come next. */
  function Hop(p: Param, variable: nat): Path {
    if p.Loops() then [Index(variable)] else if p.Hops() then [Deref] else []
  }

  function HopLoops(p: Param, loops: seq<Loop>): seq<Loop> {
    if p.Loops() then loops + [Loop(p.LoopEnd(), |loops|)] else loops
  }

  function Bound(spec: Spec, p: Param, decay: bool): nat {
    if spec.Enters(p, decay) then spec.rank[p.typ] + 1 else 0
  }

  /** The bindings of one parameter, branch by branch as the generator decides them. */
  function Collect(spec: Spec, p: Param, prefix: Path, path: Path, loops: seq<Loop>, decay: bool): seq<Binding>
    decreases Bound(spec, p, decay), 0
  {
    if p.pointer != "" && p.len != "" && spec.IsHeader(p) then
      if p.qualifier != "const" then [Binding(XrArray, path, p, loops, Length(prefix, p.len))] else []
    else if p.IsNext() || spec.IsHeader(p) then
      if p.qualifier != "const" then [Binding(Xr, path, p, loops, NoLength)] else []
    else if p.pointer != "" && p.len != "" then
      if p.qualifier != "const" then [Binding(SizedPtr, path, p, loops, Length(prefix, p.len))]
      else CollectStruct(spec, p, path + [Index(|loops|)], loops + [Loop(p.len, |loops|)], decay)
    else if p.pointer != "" then
      if p.qualifier != "const" then [Binding(Ptr, path, p, loops, NoLength)]
      else CollectStruct(spec, p, path + [Deref], loops, decay)
    else if p.extent != "" then
      if decay && p.qualifier != "const" then [Binding(Array, path, p, loops, Length([], p.extent))]
      else CollectStruct(spec, p, path + [Index(|loops|)], loops + [Loop(p.extent, |loops|)], decay)
    else
      CollectStruct(spec, p, path, loops, decay)
  }

  function CollectStruct(spec: Spec, p: Param, prefix: Path, loops: seq<Loop>, decay: bool): seq<Binding>
    requires !spec.IsHeader(p) && !p.IsNext() && !spec.Modifiable(p, decay)
    decreases Bound(spec, p, decay), 0, 0
  {
    if p.typ !in spec.structs then []
    else CollectMembers(spec, spec.rank[p.typ], spec.Members(p), prefix, loops, false)
  }

  function CollectMembers(spec: Spec, bound: nat, members: seq<Param>, prefix: Path, loops: seq<Loop>, decay: bool)
    : seq<Binding>
    requires spec.RankedMembers(bound, members, decay)
    decreases bound, |members|
  {
    if members == [] then []
    else
      Collect(spec, members[0], prefix, prefix + [Field(members[0].name)], loops, decay)
      + CollectMembers(spec, bound, members[1..], prefix, loops, decay)
  }

  /** A bound on the rank of every struct entered from the parameters of a function. */
  function TopRank(spec: Spec, params: seq<Param>): (bound: nat)
    ensures spec.RankedMembers(bound, params, true)
  {
    if params == [] then 0
    else
      var first, rest := Bound(spec, params[0], true), TopRank(spec, params[1..]);
      if first < rest then rest else first
  }

  /** All bindings of a function: those of its parameters in order, arrays decayed. */
  function FunctionBindings(spec: Spec, params: seq<Param>): seq<Binding> {
    CollectMembers(spec, TopRank(spec, params), params, [], [], true)
  }

  // ----- The frontier, defined on access paths without reference to the collector -----

  /** The position of the first parameter called `name`, or |ps|. */
  function Find(ps: seq<Param>, name: string): (k: nat)
    ensures k <= |ps|
    ensures k < |ps| ==> ps[k].name == name
    ensures forall i :: 0 <= i < k ==> ps[i].name != name
  {
    if ps == [] then 0 else if ps[0].name == name then 0 else 1 + Find(ps[1..], name)
  }

  /** `path`, read from `p`, goes through const pointers, arrays and values only and ends at the
      first modifiable place; its Index steps use the variables v, v+1, ... in order. */
  predicate OnFrontier(spec: Spec, p: Param, decay: bool, path: Path, v: nat)
    decreases |path|, 1
  {
    if spec.Modifiable(p, decay) then path == []
    else
      && spec.Enters(p, decay)
      && Hop(p, v) <= path
      && OnFrontierOf(spec, spec.Members(p), false, path[|Hop(p, v)|..], if p.Loops() then v + 1 else v)
  }

  predicate OnFrontierOf(spec: Spec, members: seq<Param>, decay: bool, path: Path, v: nat)
    decreases |path|, 0
  {
    && path != []
    && path[0].Field?
    && var k := Find(members, path[0].name);
       k < |members| && OnFrontier(spec, members[k], decay, path[1..], v)
  }

  /** The parameter a frontier path ends at. */
  function EndOf(spec: Spec, p: Param, decay: bool, path: Path, v: nat): Param
    requires OnFrontier(spec, p, decay, path, v)
    decreases |path|, 1
  {
    if spec.Modifiable(p, decay) then p
    else EndOfMember(spec, spec.Members(p), false, path[|Hop(p, v)|..], if p.Loops() then v + 1 else v)
  }

  function EndOfMember(spec: Spec, members: seq<Param>, decay: bool, path: Path, v: nat): Param
    requires OnFrontierOf(spec, members, decay, path, v)
    decreases |path|, 0
  {
    EndOf(spec, members[Find(members, path[0].name)], decay, path[1..], v)
  }

  /** The loops a frontier path needs, outermost first, after those already in `loops`. */
  function LoopsAlong(spec: Spec, p: Param, decay: bool, path: Path, loops: seq<Loop>): seq<Loop>
    requires OnFrontier(spec, p, decay, path, |loops|)
    decreases |path|, 1
  {
    if spec.Modifiable(p, decay) then loops
    else LoopsAlongMember(spec, spec.Members(p), false, path[|Hop(p, |loops|)|..], HopLoops(p, loops))
  }

  function LoopsAlongMember(spec: Spec, members: seq<Param>, decay: bool, path: Path, loops: seq<Loop>): seq<Loop>
    requires OnFrontierOf(spec, members, decay, path, |loops|)
    decreases |path|, 0
  {
    LoopsAlong(spec, members[Find(members, path[0].name)], decay, path[1..], loops)
  }

  /** How a place is transferred: by the chain serializer, by counted elements or as one element;
      a count written as a sibling of the place is read through the same prefix as the place. */
  function Transfer(spec: Spec, p: Param, path: Path): (Kind, Length)
    requires path != []
  {
    var sibling := Length(path[..|path| - 1], p.len);
    if spec.IsHeader(p) && p.pointer != "" && p.len != "" then (XrArray, sibling)
    else if spec.IsHeader(p) || p.IsNext() then (Xr, NoLength)
    else if p.pointer == "" then (Array, Length([], p.extent))
    else if p.len != "" then (SizedPtr, sibling)
    else (Ptr, NoLength)
  }

  /** The collector in normal form: one binding, or the members, or nothing. */
  lemma CollectCases(spec: Spec, p: Param, prefix: Path, path: Path, loops: seq<Loop>, decay: bool)
    ensures spec.Modifiable(p, decay) ==>
              && |Collect(spec, p, prefix, path, loops, decay)| == 1
              && var b := Collect(spec, p, prefix, path, loops, decay)[0];
                 && b.path == path && b.param == p && b.loops == loops
                 && (path == prefix + [Field(p.name)] ==> (b.kind, b.len) == Transfer(spec, p, path))
    ensures spec.Enters(p, decay) ==>
              Collect(spec, p, prefix, path, loops, decay) ==
              CollectMembers(spec, spec.rank[p.typ], spec.Members(p), path + Hop(p, |loops|), HopLoops(p, loops), false)
    ensures !spec.Modifiable(p, decay) && !spec.Enters(p, decay) ==>
              Collect(spec, p, prefix, path, loops, decay) == []
  {
    assert path + [] == path;
    assert path == prefix + [Field(p.name)] ==> path[..|path| - 1] == prefix;
  }

  /** A binding that the collector returns for a place is a frontier path below that place,
      with the parameter and the loops that path has. */
  ghost predicate Describes(b: Binding, spec: Spec, p: Param, decay: bool, path: Path, loops: seq<Loop>) {
    && path <= b.path
    && var rest := b.path[|path|..];
       && OnFrontier(spec, p, decay, rest, |loops|)
       && b.param == EndOf(spec, p, decay, rest, |loops|)
       && b.loops == LoopsAlong(spec, p, decay, rest, loops)
       && b.path != [] && (b.kind, b.len) == Transfer(spec, b.param, b.path)
  }

  ghost predicate DescribesMember(
      b: Binding, spec: Spec, members: seq<Param>, decay: bool, path: Path, loops: seq<Loop>)
  {
    && path <= b.path
    && var rest := b.path[|path|..];
       && OnFrontierOf(spec, members, decay, rest, |loops|)
       && b.param == EndOfMember(spec, members, decay, rest, |loops|)
       && b.loops == LoopsAlongMember(spec, members, decay, rest, loops)
       && b.path != [] && (b.kind, b.len) == Transfer(spec, b.param, b.path)
  }

  lemma {:induction false} CollectSound(
      spec: Spec, p: Param, prefix: Path, path: Path, loops: seq<Loop>, decay: bool, b: Binding)
    requires b in Collect(spec, p, prefix, path, loops, decay) && path == prefix + [Field(p.name)]
    ensures Describes(b, spec, p, decay, path, loops)
    decreases Bound(spec, p, decay), 0
  {
    CollectCases(spec, p, prefix, path, loops, decay);
    if spec.Enters(p, decay) {
      var hop := Hop(p, |loops|);
      CollectMembersSound(spec, spec.rank[p.typ], spec.Members(p), path + hop, HopLoops(p, loops), false, b);
      var rest := b.path[|path|..];
      assert rest[|hop|..] == b.path[|path + hop|..];
      assert rest[..|hop|] == hop;
    }
  }

  lemma {:induction false} CollectMembersSound(
      spec: Spec, bound: nat, members: seq<Param>, prefix: Path, loops: seq<Loop>, decay: bool, b: Binding)
    requires spec.RankedMembers(bound, members, decay) && DistinctNames(members)
    requires b in CollectMembers(spec, bound, members, prefix, loops, decay)
    ensures DescribesMember(b, spec, members, decay, prefix, loops)
    decreases bound, |members|
  {
    var path := prefix + [Field(members[0].name)];
    if b in Collect(spec, members[0], prefix, path, loops, decay) {
      CollectSound(spec, members[0], prefix, path, loops, decay, b);
      assert b.path[|prefix|..][1..] == b.path[|path|..];
    } else {
      CollectMembersSound(spec, bound, members[1..], prefix, loops, decay, b);
      var rest := b.path[|prefix|..];
      assert members[1..][Find(members[1..], rest[0].name)] in members[1..];
    }
  }

  lemma HopReassembles(p: Param, path: Path, rest: Path, v: nat)
    requires Hop(p, v) <= rest
    ensures path + Hop(p, v) + rest[|Hop(p, v)|..] == path + rest
  {
  }

  lemma {:induction false} CollectComplete(
      spec: Spec, p: Param, prefix: Path, path: Path, loops: seq<Loop>, decay: bool, rest: Path)
    returns (b: Binding)
    requires OnFrontier(spec, p, decay, rest, |loops|)
    ensures b in Collect(spec, p, prefix, path, loops, decay) && b.path == path + rest
    decreases Bound(spec, p, decay), 0
  {
    CollectCases(spec, p, prefix, path, loops, decay);
    if spec.Modifiable(p, decay) {
      b := Collect(spec, p, prefix, path, loops, decay)[0];
    } else {
      var hop := Hop(p, |loops|);
      HopReassembles(p, path, rest, |loops|);
      b := CollectMembersComplete(
        spec, spec.rank[p.typ], spec.Members(p), path + hop, HopLoops(p, loops), false, rest[|hop|..]);
    }
  }

  lemma {:induction false} CollectMembersComplete(
    spec: Spec, bound: nat, members: seq<Param>, prefix: Path, loops: seq<Loop>, decay: bool, rest: Path)
    returns (b: Binding)
    requires spec.RankedMembers(bound, members, decay)
    requires OnFrontierOf(spec, members, decay, rest, |loops|)
    ensures b in CollectMembers(spec, bound, members, prefix, loops, decay) && b.path == prefix + rest
    decreases bound, |members|
  {
    var path := prefix + [Field(members[0].name)];
    if Find(members, rest[0].name) == 0 {
      b := CollectComplete(spec, members[0], prefix, path, loops, decay, rest[1..]);
      assert rest == [rest[0]] + rest[1..];
    } else {
      b := CollectMembersComplete(spec, bound, members[1..], prefix, loops, decay, rest);
    }
  }

  /** Depth-first member order on frontier paths. */
  predicate Before(spec: Spec, p: Param, decay: bool, a: Path, b: Path, v: nat)
    requires OnFrontier(spec, p, decay, a, v) && OnFrontier(spec, p, decay, b, v)
    decreases |a|, 1
  {
    && !spec.Modifiable(p, decay)
    && var n := |Hop(p, v)|;
       BeforeOf(spec, spec.Members(p), false, a[n..], b[n..], if p.Loops() then v + 1 else v)
  }

  predicate BeforeOf(spec: Spec, members: seq<Param>, decay: bool, a: Path, b: Path, v: nat)
    requires OnFrontierOf(spec, members, decay, a, v) && OnFrontierOf(spec, members, decay, b, v)
    decreases |a|, 0
  {
    var i, j := Find(members, a[0].name), Find(members, b[0].name);
    i < j || (i == j && Before(spec, members[i], decay, a[1..], b[1..], v))
  }

  /** A frontier path is never a prefix of another one. */
  lemma {:induction false} PrefixFree(spec: Spec, p: Param, decay: bool, a: Path, b: Path, v: nat)
    requires OnFrontier(spec, p, decay, a, v) && OnFrontier(spec, p, decay, b, v)
    requires a <= b
    ensures a == b
    decreases |a|, 1
  {
    if !spec.Modifiable(p, decay) {
      var n := |Hop(p, v)|;
      PrefixFreeOf(spec, spec.Members(p), false, a[n..], b[n..], if p.Loops() then v + 1 else v);
      assert a == Hop(p, v) + a[n..] && b == Hop(p, v) + b[n..];
    }
  }

  lemma {:induction false} PrefixFreeOf(spec: Spec, members: seq<Param>, decay: bool, a: Path, b: Path, v: nat)
    requires OnFrontierOf(spec, members, decay, a, v) && OnFrontierOf(spec, members, decay, b, v)
    requires a <= b
    ensures a == b
    decreases |a|, 0
  {
    PrefixFree(spec, members[Find(members, a[0].name)], decay, a[1..], b[1..], v);
    assert a == [a[0]] + a[1..] && b == [b[0]] + b[1..];
  }

  /** Member order is strict, so a path never precedes itself. */
  lemma {:induction false} BeforeIrreflexive(spec: Spec, members: seq<Param>, decay: bool, a: Path, v: nat)
    requires OnFrontierOf(spec, members, decay, a, v)
    ensures !BeforeOf(spec, members, decay, a, a, v)
    decreases |a|
  {
    var m := members[Find(members, a[0].name)];
    if !spec.Modifiable(m, decay) {
      BeforeIrreflexive(spec, spec.Members(m), false, a[1..][|Hop(m, v)|..], if m.Loops() then v + 1 else v);
    }
  }

  /** Two bindings below the same place, the first one earlier in member order. */
  ghost predicate Precedes(a: Binding, b: Binding, spec: Spec, p: Param, decay: bool, path: Path, v: nat) {
    && path <= a.path && path <= b.path
    && OnFrontier(spec, p, decay, a.path[|path|..], v) && OnFrontier(spec, p, decay, b.path[|path|..], v)
    && Before(spec, p, decay, a.path[|path|..], b.path[|path|..], v)
  }

  ghost predicate PrecedesOf(a: Binding, b: Binding, spec: Spec, members: seq<Param>, decay: bool, path: Path, v: nat) {
    && path <= a.path && path <= b.path
    && OnFrontierOf(spec, members, decay, a.path[|path|..], v)
    && OnFrontierOf(spec, members, decay, b.path[|path|..], v)
    && BeforeOf(spec, members, decay, a.path[|path|..], b.path[|path|..], v)
  }

  lemma PrecedesThroughHop(a: Binding, b: Binding, spec: Spec, p: Param, decay: bool, path: Path, v: nat)
    requires spec.Enters(p, decay)
    requires PrecedesOf(a, b, spec, spec.Members(p), false, path + Hop(p, v), if p.Loops() then v + 1 else v)
    ensures Precedes(a, b, spec, p, decay, path, v)
  {
    var hop := Hop(p, v);
    assert a.path[|path|..][|hop|..] == a.path[|path + hop|..];
    assert b.path[|path|..][|hop|..] == b.path[|path + hop|..];
    assert a.path[|path|..][..|hop|] == hop && b.path[|path|..][..|hop|] == hop;
  }

  lemma PrecedesThroughFirst(a: Binding, b: Binding, spec: Spec, members: seq<Param>, decay: bool, prefix: Path, v: nat)
    requires members != []
    requires Precedes(a, b, spec, members[0], decay, prefix + [Field(members[0].name)], v)
    ensures PrecedesOf(a, b, spec, members, decay, prefix, v)
  {
    assert a.path[|prefix|..][1..] == a.path[|prefix| + 1..];
    assert b.path[|prefix|..][1..] == b.path[|prefix| + 1..];
  }

  lemma FindSkipsFirst(spec: Spec, members: seq<Param>, decay: bool, path: Path, v: nat)
    requires members != [] && DistinctNames(members)
    requires OnFrontierOf(spec, members[1..], decay, path, v)
    ensures Find(members, path[0].name) == 1 + Find(members[1..], path[0].name)
    ensures OnFrontierOf(spec, members, decay, path, v)
  {
    assert members[1..][Find(members[1..], path[0].name)] in members[1..];
  }

  lemma PrecedesThroughRest(a: Binding, b: Binding, spec: Spec, members: seq<Param>, decay: bool, prefix: Path, v: nat)
    requires members != [] && DistinctNames(members)
    requires PrecedesOf(a, b, spec, members[1..], decay, prefix, v)
    ensures PrecedesOf(a, b, spec, members, decay, prefix, v)
  {
    FindSkipsFirst(spec, members, decay, a.path[|prefix|..], v);
    FindSkipsFirst(spec, members, decay, b.path[|prefix|..], v);
  }

  lemma FirstPrecedesRest(
      a: Binding, b: Binding, spec: Spec, members: seq<Param>, decay: bool, prefix: Path, loops: seq<Loop>)
    requires members != [] && DistinctNames(members)
    requires Describes(a, spec, members[0], decay, prefix + [Field(members[0].name)], loops)
    requires DescribesMember(b, spec, members[1..], decay, prefix, loops)
    ensures PrecedesOf(a, b, spec, members, decay, prefix, |loops|)
  {
    FindSkipsFirst(spec, members, decay, b.path[|prefix|..], |loops|);
    assert a.path[|prefix|..][1..] == a.path[|prefix| + 1..];
  }

  ghost predicate InOrder(bs: seq<Binding>, spec: Spec, p: Param, decay: bool, path: Path, v: nat) {
    forall i, j :: 0 <= i < j < |bs| ==> Precedes(bs[i], bs[j], spec, p, decay, path, v)
  }

  ghost predicate InOrderOf(bs: seq<Binding>, spec: Spec, members: seq<Param>, decay: bool, path: Path, v: nat) {
    forall i, j :: 0 <= i < j < |bs| ==> PrecedesOf(bs[i], bs[j], spec, members, decay, path, v)
  }

  lemma InOrderThroughHop(bs: seq<Binding>, spec: Spec, p: Param, decay: bool, path: Path, v: nat)
    requires spec.Enters(p, decay)
    requires InOrderOf(bs, spec, spec.Members(p), false, path + Hop(p, v), if p.Loops() then v + 1 else v)
    ensures InOrder(bs, spec, p, decay, path, v)
  {
    forall i, j | 0 <= i < j < |bs|
      ensures Precedes(bs[i], bs[j], spec, p, decay, path, v)
    {
      PrecedesThroughHop(bs[i], bs[j], spec, p, decay, path, v);
    }
  }

  lemma InOrderThroughFirst(bs: seq<Binding>, spec: Spec, members: seq<Param>, decay: bool, prefix: Path, v: nat)
    requires members != [] && InOrder(bs, spec, members[0], decay, prefix + [Field(members[0].name)], v)
    ensures InOrderOf(bs, spec, members, decay, prefix, v)
  {
    forall i, j | 0 <= i < j < |bs|
      ensures PrecedesOf(bs[i], bs[j], spec, members, decay, prefix, v)
    {
      PrecedesThroughFirst(bs[i], bs[j], spec, members, decay, prefix, v);
    }
  }

  lemma InOrderThroughRest(bs: seq<Binding>, spec: Spec, members: seq<Param>, decay: bool, prefix: Path, v: nat)
    requires members != [] && DistinctNames(members) && InOrderOf(bs, spec, members[1..], decay, prefix, v)
    ensures InOrderOf(bs, spec, members, decay, prefix, v)
  {
    forall i, j | 0 <= i < j < |bs|
      ensures PrecedesOf(bs[i], bs[j], spec, members, decay, prefix, v)
    {
      PrecedesThroughRest(bs[i], bs[j], spec, members, decay, prefix, v);
    }
  }

  ghost predicate AllPrecede(
      first: seq<Binding>, rest: seq<Binding>, spec: Spec, members: seq<Param>, decay: bool, prefix: Path, v: nat)
  {
    forall a, b :: a in first && b in rest ==> PrecedesOf(a, b, spec, members, decay, prefix, v)
  }

  lemma InOrderJoins(
      first: seq<Binding>, rest: seq<Binding>, spec: Spec, members: seq<Param>, decay: bool, prefix: Path, v: nat)
    requires InOrderOf(first, spec, members, decay, prefix, v) && InOrderOf(rest, spec, members, decay, prefix, v)
    requires AllPrecede(first, rest, spec, members, decay, prefix, v)
    ensures InOrderOf(first + rest, spec, members, decay, prefix, v)
  {
  }

  lemma FirstPrecedesAll(
      spec: Spec, bound: nat, members: seq<Param>, prefix: Path, loops: seq<Loop>, decay: bool)
    requires spec.RankedMembers(bound, members, decay) && DistinctNames(members) && members != []
    ensures var first := Collect(spec, members[0], prefix, prefix + [Field(members[0].name)], loops, decay);
            var rest := CollectMembers(spec, bound, members[1..], prefix, loops, decay);
            AllPrecede(first, rest, spec, members, decay, prefix, |loops|)
  {
    var first := Collect(spec, members[0], prefix, prefix + [Field(members[0].name)], loops, decay);
    var rest := CollectMembers(spec, bound, members[1..], prefix, loops, decay);
    forall a, b | a in first && b in rest
      ensures PrecedesOf(a, b, spec, members, decay, prefix, |loops|)
    {
      CollectSound(spec, members[0], prefix, prefix + [Field(members[0].name)], loops, decay, a);
      CollectMembersSound(spec, bound, members[1..], prefix, loops, decay, b);
      FirstPrecedesRest(a, b, spec, members, decay, prefix, loops);
    }
  }

  /** The bindings come out in strict member order. */
  lemma {:induction false} CollectOrdered(
      spec: Spec, p: Param, prefix: Path, path: Path, loops: seq<Loop>, decay: bool)
    ensures InOrder(Collect(spec, p, prefix, path, loops, decay), spec, p, decay, path, |loops|)
    decreases Bound(spec, p, decay), 0
  {
    CollectCases(spec, p, prefix, path, loops, decay);
    if spec.Enters(p, decay) {
      var more := HopLoops(p, loops);
      CollectMembersOrdered(spec, spec.rank[p.typ], spec.Members(p), path + Hop(p, |loops|), more, false);
      InOrderThroughHop(Collect(spec, p, prefix, path, loops, decay), spec, p, decay, path, |loops|);
    }
  }

  lemma {:induction false} CollectMembersOrdered(
      spec: Spec, bound: nat, members: seq<Param>, prefix: Path, loops: seq<Loop>, decay: bool)
    requires spec.RankedMembers(bound, members, decay) && DistinctNames(members)
    ensures InOrderOf(
              CollectMembers(spec, bound, members, prefix, loops, decay), spec, members, decay, prefix, |loops|)
    decreases bound, |members|
  {
    if members == [] {
    } else {
      var path := prefix + [Field(members[0].name)];
      var first := Collect(spec, members[0], prefix, path, loops, decay);
      var rest := CollectMembers(spec, bound, members[1..], prefix, loops, decay);
      CollectOrdered(spec, members[0], prefix, path, loops, decay);
      InOrderThroughFirst(first, spec, members, decay, prefix, |loops|);
      CollectMembersOrdered(spec, bound, members[1..], prefix, loops, decay);
      InOrderThroughRest(rest, spec, members, decay, prefix, |loops|);
      FirstPrecedesAll(spec, bound, members, prefix, loops, decay);
      InOrderJoins(first, rest, spec, members, decay, prefix, |loops|);
    }
  }

  /** The variables of the Index steps of a path, in order. */
  function Variables(path: Path): seq<nat> {
    if path == [] then []
    else if path[0].Index? then [path[0].variable] + Variables(path[1..])
    else Variables(path[1..])
  }

  /** The loops along a frontier path extend the ones before it by exactly the Index steps of the
      path, one fresh variable each. */
  lemma {:induction false} LoopVariables(spec: Spec, p: Param, decay: bool, path: Path, loops: seq<Loop>)
    requires OnFrontier(spec, p, decay, path, |loops|)
    ensures var all := LoopsAlong(spec, p, decay, path, loops);
            && loops <= all
            && Variables(path) == seq(|all| - |loops|, k requires 0 <= k => |loops| + k)
            && forall k :: |loops| <= k < |all| ==> all[k].variable == k
    decreases |path|, 1
  {
    if !spec.Modifiable(p, decay) {
      var hop, more := Hop(p, |loops|), HopLoops(p, loops);
      var rest := path[|hop|..];
      LoopVariablesOf(spec, spec.Members(p), false, rest, more);
      assert path == hop + rest;
      if hop != [] {
        assert path[1..] == rest;
      }
    }
  }

  lemma {:induction false} LoopVariablesOf(spec: Spec, members: seq<Param>, decay: bool, path: Path, loops: seq<Loop>)
    requires OnFrontierOf(spec, members, decay, path, |loops|)
    ensures var all := LoopsAlongMember(spec, members, decay, path, loops);
            && loops <= all
            && Variables(path) == seq(|all| - |loops|, k requires 0 <= k => |loops| + k)
            && forall k :: |loops| <= k < |all| ==> all[k].variable == k
    decreases |path|, 0
  {
    LoopVariables(spec, members[Find(members, path[0].name)], decay, path[1..], loops);
  }

  /** The bindings of a function are exactly the frontier of its parameters: every frontier path
      has a binding, every binding is a frontier path carrying the loops of that path with the
      variables i0, i1, ... in order, and bindings come in strict member order, so that no path
      occurs twice and none is a prefix of another. */
  lemma FunctionBindingsExact(spec: Spec, params: seq<Param>)
    requires DistinctNames(params)
    ensures var bs := FunctionBindings(spec, params);
      && (forall path :: OnFrontierOf(spec, params, true, path, 0) <==> exists b :: b in bs && b.path == path)
      && (forall b <- bs ::
            && b.param == EndOfMember(spec, params, true, b.path, 0)
            && b.loops == LoopsAlongMember(spec, params, true, b.path, [])
            && (b.kind, b.len) == Transfer(spec, b.param, b.path)
            && Variables(b.path) == seq(|b.loops|, k => k)
            && (forall k :: 0 <= k < |b.loops| ==> b.loops[k].variable == k))
      && (forall i, j :: 0 <= i < j < |bs| ==>
            && BeforeOf(spec, params, true, bs[i].path, bs[j].path, 0)
            && !(bs[i].path <= bs[j].path) && !(bs[j].path <= bs[i].path))
  {
    var bound := TopRank(spec, params);
    var bs := FunctionBindings(spec, params);
    forall b | b in bs
      ensures OnFrontierOf(spec, params, true, b.path, 0)
      ensures b.param == EndOfMember(spec, params, true, b.path, 0)
      ensures b.loops == LoopsAlongMember(spec, params, true, b.path, [])
      ensures (b.kind, b.len) == Transfer(spec, b.param, b.path)
      ensures Variables(b.path) == seq(|b.loops|, k => k)
      ensures forall k :: 0 <= k < |b.loops| ==> b.loops[k].variable == k
    {
      CollectMembersSound(spec, bound, params, [], [], true, b);
      assert b.path[0..] == b.path;
      LoopVariablesOf(spec, params, true, b.path, []);
    }
    forall path | OnFrontierOf(spec, params, true, path, 0)
      ensures exists b :: b in bs && b.path == path
    {
      var b := CollectMembersComplete(spec, bound, params, [], [], true, path);
      assert [] + path == path;
    }
    CollectMembersOrdered(spec, bound, params, [], [], true);
    forall i, j | 0 <= i < j < |bs|
      ensures BeforeOf(spec, params, true, bs[i].path, bs[j].path, 0)
      ensures !(bs[i].path <= bs[j].path) && !(bs[j].path <= bs[i].path)
    {
      assert PrecedesOf(bs[i], bs[j], spec, params, true, [], 0);
      var a, b := bs[i].path, bs[j].path;
      assert a[0..] == a && b[0..] == b;
      BeforeIrreflexive(spec, params, true, a, 0);
      if a <= b {
        PrefixFreeOf(spec, params, true, a, b, 0);
      } else if b <= a {
        PrefixFreeOf(spec, params, true, b, a, 0);
      }
    }
  }

  // ----- The collector as it runs: a shared result list that grows -----

  class BindingList {
    var items: seq<Binding>

    constructor ()
      ensures items == []
    {
      items := [];
    }
  }

  method CollectInto(
      spec: Spec, p: Param, prefix: Path, path: Path, loops: seq<Loop>, decay: bool, results: BindingList)
    modifies results
    ensures results.items == old(results.items) + Collect(spec, p, prefix, path, loops, decay)
    decreases Bound(spec, p, decay), 0
  {
    var inner, innerLoops := path, loops;
    if p.pointer != "" && p.len != "" && spec.IsHeader(p) {
      if p.qualifier != "const" {
        results.items := results.items + [Binding(XrArray, path, p, loops, Length(prefix, p.len))];
      }
      return;
    }
    if p.IsNext() || spec.IsHeader(p) {
      if p.qualifier != "const" {
        results.items := results.items + [Binding(Xr, path, p, loops, NoLength)];
      }
      return;
    }
    if p.pointer != "" && p.len != "" {
      if p.qualifier != "const" {
        results.items := results.items + [Binding(SizedPtr, path, p, loops, Length(prefix, p.len))];
        return;
      }
      inner, innerLoops := path + [Index(|loops|)], loops + [Loop(p.len, |loops|)];
    } else if p.pointer != "" {
      if p.qualifier != "const" {
        results.items := results.items + [Binding(Ptr, path, p, loops, NoLength)];
        return;
      }
      inner := path + [Deref];
    } else if p.extent != "" {
      if decay && p.qualifier != "const" {
        results.items := results.items + [Binding(Array, path, p, loops, Length([], p.extent))];
        return;
      }
      inner, innerLoops := path + [Index(|loops|)], loops + [Loop(p.extent, |loops|)];
    }
    if p.typ !in spec.structs {
      return;
    }
    CollectMembersInto(spec, spec.rank[p.typ], spec.Members(p), inner, innerLoops, false, results);
  }

  /** The loop over members at the end of the recursion. */
  method CollectMembersInto(
    spec: Spec, ghost bound: nat, members: seq<Param>, prefix: Path, loops: seq<Loop>, decay: bool,
    results: BindingList)
    requires spec.RankedMembers(bound, members, decay)
    modifies results
    ensures results.items == old(results.items) + CollectMembers(spec, bound, members, prefix, loops, decay)
    decreases bound, 1
  {
    for k := 0 to |members|
      invariant results.items + CollectMembers(spec, bound, members[k..], prefix, loops, decay)
             == old(results.items) + CollectMembers(spec, bound, members, prefix, loops, decay)
    {
      var m := members[k];
      assert members[k..][1..] == members[k + 1..];
      CollectInto(spec, m, prefix, prefix + [Field(m.name)], loops, decay, results);
    }
  }

  class XrFunction {
    const params: seq<Param>
    var modifiableBindings: seq<Binding>

    constructor (params: seq<Param>)
      ensures this.params == params && modifiableBindings == []
    {
      this.params, modifiableBindings := params, [];
    }
  }

  lemma CollectParam(spec: Spec, bound: nat, params: seq<Param>, k: nat)
    requires k < |params| && spec.RankedMembers(bound, params, true)
    ensures CollectMembers(spec, bound, params[k..], [], [], true) ==
            Collect(spec, params[k], [], [Field(params[k].name)], [], true)
            + CollectMembers(spec, bound, params[k + 1..], [], [], true)
  {
    assert params[k..][1..] == params[k + 1..];
    assert [] + [Field(params[k].name)] == [Field(params[k].name)];
  }

  /** One function: its parameters in order. */
  method ApplyTo(spec: Spec, f: XrFunction)
    modifies f
    ensures f.modifiableBindings == old(f.modifiableBindings) + FunctionBindings(spec, f.params)
  {
    ghost var bound := TopRank(spec, f.params);
    for k := 0 to |f.params|
      invariant f.modifiableBindings + CollectMembers(spec, bound, f.params[k..], [], [], true)
             == old(f.modifiableBindings) + FunctionBindings(spec, f.params)
    {
      var results := new BindingList();
      CollectInto(spec, f.params[k], [], [Field(f.params[k].name)], [], true, results);
      CollectParam(spec, bound, f.params, k);
      f.modifiableBindings := f.modifiableBindings + results.items;
    }
  }

  method ApplyModifiableBindings(spec: Spec, functions: seq<XrFunction>)
    requires forall i, j :: 0 <= i < j < |functions| ==> functions[i] != functions[j]
    modifies functions
    ensures forall f <- functions ::
              f.modifiableBindings == old(f.modifiableBindings) + FunctionBindings(spec, f.params)
  {
    for i := 0 to |functions|
      invariant forall k :: 0 <= k < i ==>
                  functions[k].modifiableBindings ==
                  old(functions[k].modifiableBindings) + FunctionBindings(spec, functions[k].params)
      invariant forall k :: i <= k < |functions| ==>
                  functions[k].modifiableBindings == old(functions[k].modifiableBindings)
    {
      ApplyTo(spec, functions[i]);
    }
  }
}
