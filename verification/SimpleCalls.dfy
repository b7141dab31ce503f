/**
 The usual shape of a call, as xrCreateSession has it: numbers, const pointers to create infos with
 their next pointers, and pointers to single results.  Every such call writes back exactly.
 */
module SimpleCalls {
  import opened Options
  import opened Bindings
  import opened Declarations
  import opened WriteBack
  import opened Transfer
  import opened RequestPlaces
  import opened RemoteCalls

  predicate IsNumber(spec: Spec, p: Param) {
    p.pointer == "" && p.extent == "" && p.typ !in spec.structs
  }

  /** A const pointer that does not lead on. */
  predicate IsConstEnd(spec: Spec, p: Param) {
    && p.qualifier == "const" && p.pointer != "" && p.len == ""
    && (p.typ !in spec.structs || HeaderStruct(spec, p) || NextPointer(p))
  }

  /** A const pointer to one struct of numbers and const pointers that do not lead on. */
  predicate IsInfo(spec: Spec, p: Param) {
    && p.qualifier == "const" && p.pointer != "" && p.len == "" && GoesOn(spec, p, true)
    && forall m <- spec.structs[p.typ].members :: IsNumber(spec, m) || IsConstEnd(spec, m)
  }

  /** A pointer to one result. */
  predicate IsResult(p: Param) {
    p.qualifier != "const" && p.pointer != "" && p.len == ""
  }

  predicate Simple(spec: Spec, p: Param) {
    IsNumber(spec, p) || IsConstEnd(spec, p) || IsInfo(spec, p) || IsResult(p)
  }

  /** A pointer that is null or leads to one element. */
  predicate NullOrOne(v: Value) {
    v.Null? || (v.Block? && |v.elems| == 1)
  }

  /** Results, next pointers and header structs are null or there, and so are those of the infos. */
  predicate SimpleValue(spec: Spec, p: Param, v: Value) {
    && (IsResult(p) || IsConstEnd(spec, p) ==> NullOrOne(v))
    && (IsInfo(spec, p) && v.Block? ==> forall x <- v.elems :: MembersSimple(spec, spec.structs[p.typ].members, x))
  }

  predicate MembersSimple(spec: Spec, ms: seq<Param>, v: Value) {
    forall m <- ms :: v.Record? && m.name in v.fields && IsConstEnd(spec, m) ==> NullOrOne(v.fields[m.name])
  }

  predicate SimpleCall(spec: Spec, params: seq<Param>, args: Value) {
    && args.Record?
    && forall p <- params :: Simple(spec, p) && (p.name in args.fields ==> SimpleValue(spec, p, args.fields[p.name]))
  }

  lemma EndIsNoFrontier(spec: Spec, p: Param, top: bool, path: Path, v: nat)
    requires IsNumber(spec, p) || IsConstEnd(spec, p)
    ensures !OnFrontier(spec, p, top, path, v)
  {
    EntersExactly(spec, p, top);
  }

  lemma InfoIsNoFrontier(spec: Spec, p: Param, path: Path, v: nat)
    requires IsInfo(spec, p)
    ensures !OnFrontier(spec, p, true, path, v)
  {
    EntersExactly(spec, p, true);
    var ms := spec.Members(p);
    if Hop(p, v) <= path && OnFrontierOf(spec, ms, false, path[|Hop(p, v)|..], v) {
      var rest := path[|Hop(p, v)|..];
      var m := ms[Find(ms, rest[0].name)];
      assert m in ms;
      EndIsNoFrontier(spec, m, false, rest[1..], v);
    }
  }

  /** What is written back are the results. */
  lemma SimpleFrontier(spec: Spec, params: seq<Param>, args: Value, path: Path)
    requires SimpleCall(spec, params, args) && OnFrontierOf(spec, params, true, path, 0)
    ensures |path| == 1 && IsResult(EndOfMember(spec, params, true, path, 0))
    ensures LoopsAlongMember(spec, params, true, path, []) == []
    ensures LineCompiles(spec, params, path)
  {
    var p := params[Find(params, path[0].name)];
    assert p in params;
    FrontierIsResult(spec, p, path[1..]);
    EntersExactly(spec, p, true);
  }

  lemma FrontierIsResult(spec: Spec, p: Param, path: Path)
    requires Simple(spec, p) && OnFrontier(spec, p, true, path, 0)
    ensures IsResult(p)
  {
    if IsInfo(spec, p) {
      InfoIsNoFrontier(spec, p, path, 0);
    } else if !IsResult(p) {
      EndIsNoFrontier(spec, p, true, path, 0);
    }
  }

  lemma NoLiveMembers(spec: Spec, p: Param)
    requires IsInfo(spec, p)
    ensures !Live(spec, spec.Members(p), false)
  {
    var ms := spec.Members(p);
    if path: Path, n: nat :| OnFrontierOf(spec, ms, false, path, n) {
      var m := ms[Find(ms, path[0].name)];
      assert m in ms;
      EndIsNoFrontier(spec, m, false, path[1..], n);
    }
  }

  lemma SimpleCountsAgree(spec: Spec, params: seq<Param>, args: Value)
    requires SimpleCall(spec, params, args)
    ensures CountsAgreeIn(spec, params, true, args, args)
  {
    forall k | 0 <= k < |params| && params[k].name in args.fields
      ensures CountsAgree(spec, params[k], true, args.fields[params[k].name], args)
    {
      var p := params[k];
      assert p in params;
      EntersExactly(spec, p, true);
      if IsInfo(spec, p) {
        NoLiveMembers(spec, p);
      }
    }
  }

  lemma SimpleAsDeclared(spec: Spec, pl: Placed)
    requires Simple(spec, pl.param) && SimpleValue(spec, pl.param, pl.value)
    requires Typed(spec, pl.param, pl.top, pl.value) && (pl.top || !IsInfo(spec, pl.param))
    ensures AsDeclared(spec, pl)
  {
    EntersExactly(spec, pl.param, pl.top);
  }

  lemma SimpleBelow(spec: Spec, pl: Placed, loc: Location)
    requires pl.top && Simple(spec, pl.param) && SimpleValue(spec, pl.param, pl.value)
    requires Typed(spec, pl.param, true, pl.value) && loc != [] && PlaceBelow(spec, pl, loc).Some?
    ensures AsDeclared(spec, PlaceBelow(spec, pl, loc).value)
  {
    var p := pl.param;
    EntersExactly(spec, p, true);
    assert IsInfo(spec, p);
    var ms, x, rest := spec.Members(p), pl.value.elems[loc[0].i], loc[1..];
    var k := Find(ms, rest[0].name);
    PlaceThrough(spec, ms, false, x, rest, k);
    assert ms[k] in ms && !GoesOn(spec, ms[k], false);
    assert x in pl.value.elems && MembersSimple(spec, ms, x);
    SimpleAsDeclared(spec, Placed(ms[k], false, x.fields[ms[k].name], x));
  }

  lemma SimpleAllAsDeclared(spec: Spec, params: seq<Param>, args: Value)
    requires SimpleCall(spec, params, args) && TypedFields(spec, params, true, args)
    ensures AllAsDeclared(spec, params, true, args)
  {
    forall loc: Location | PlaceIn(spec, params, true, args, loc).Some?
      ensures AsDeclared(spec, PlaceIn(spec, params, true, args, loc).value)
    {
      var k := Find(params, loc[0].name);
      var p := params[k];
      assert p in params;
      var pl := Placed(p, true, args.fields[p.name], args);
      if |loc| == 1 {
        SimpleAsDeclared(spec, pl);
      } else {
        SimpleBelow(spec, pl, loc[1..]);
      }
    }
  }

  /** Whatever the callee writes to its results, the caller sees exactly that. */
  lemma SimpleCallsWriteBack(spec: Spec, params: seq<Param>, pre: Value, post: Value)
    requires DistinctNames(params) && TypedFields(spec, params, true, pre) && CalleeEffect(spec, params, pre, post)
    requires SimpleCall(spec, params, pre)
    ensures RemoteCall(spec, params, pre, post) == Some(post)
  {
    forall path | OnFrontierOf(spec, params, true, path, 0)
      ensures LineCompiles(spec, params, path) && LoopsNamedAlong(spec, params, pre, path)
    {
      SimpleFrontier(spec, params, pre, path);
    }
    SimpleCountsAgree(spec, params, pre);
    SimpleAllAsDeclared(spec, params, pre);
    AgreeingCountsWriteBack(spec, params, pre, post);
  }

  // ----- xrCreateSession, and a single header struct as the result -----

  const TYPE := Param("", "Type", "", "type", "", "")
  const NEXT := Param("const", "void", "*", "next", "", "")
  const INSTANCE := Param("", "Handle", "", "instance", "", "")
  const INFO := Param("const", "Info", "*", "info", "", "")
  const SESSION := Param("", "Handle", "*", "out", "", "")
  const DATA := Param("", "Data", "*", "out", "", "")

  const SPEC: Spec :=
    RawSpec(
      map["Info" := Struct([TYPE, NEXT], false), "Data" := Struct([], true)], map[], map["Info" := 0, "Data" := 0])

  function CreateInfo(next: Value): Value {
    Record(map["type" := Leaf(8), "next" := next])
  }

  function Args(next: Value, result: Value): Value {
    Record(map["instance" := Leaf(1), "info" := Block([CreateInfo(next)]), "out" := Block([result])])
  }

  lemma PairIsTyped(spec: Spec, p: Param, q: Param, v: Value)
    requires v.Record? && v.fields.Keys == {p.name, q.name}
    requires Typed(spec, p, false, v.fields[p.name]) && Typed(spec, q, false, v.fields[q.name])
    ensures TypedFields(spec, [p, q], false, v)
  {
    assert Names([p, q]) == {p.name, q.name} by {
      assert [p, q][0] == p && [p, q][1] == q;
    }
  }

  lemma InfoIsTyped(next: Value)
    requires NullOrOne(next)
    ensures TypedFields(SPEC, [TYPE, NEXT], false, CreateInfo(next))
    ensures MembersSimple(SPEC, [TYPE, NEXT], CreateInfo(next))
  {
    assert Typed(SPEC, NEXT, false, next) && Typed(SPEC, TYPE, false, Leaf(8));
    PairIsTyped(SPEC, TYPE, NEXT, CreateInfo(next));
  }

  lemma ParamsAreSimple()
    ensures IsNumber(SPEC, INSTANCE) && IsResult(SESSION) && IsResult(DATA) && IsInfo(SPEC, INFO)
    ensures SPEC.Enters(INFO, true) && INFO.Hops() && !INFO.Loops() && SPEC.Members(INFO) == [TYPE, NEXT]
    ensures forall out <- [SESSION, DATA] :: SPEC.Modifiable(out, true) && !SPEC.Plain(out)
  {
    assert IsNumber(SPEC, TYPE) && IsConstEnd(SPEC, NEXT);
  }

  lemma TripleIsSimple(spec: Spec, p: Param, q: Param, r: Param, v: Value)
    requires v.Record? && v.fields.Keys == {p.name, q.name, r.name}
    requires IsNumber(spec, p) && IsInfo(spec, q) && IsResult(r)
    requires SimpleValue(spec, q, v.fields[q.name]) && NullOrOne(v.fields[r.name])
    ensures SimpleCall(spec, [p, q, r], v)
  {
  }

  lemma ArgsAreTyped(next: Value, result: Value, out: Param)
    requires NullOrOne(next) && out in {SESSION, DATA}
    ensures Typed(SPEC, INFO, true, Block([CreateInfo(next)])) && Typed(SPEC, out, true, Block([result]))
    ensures SimpleValue(SPEC, INFO, Block([CreateInfo(next)]))
  {
    ParamsAreSimple();
    InfoIsTyped(next);
    assert out in [SESSION, DATA];
  }

  /** One call with an info and a result. */
  lemma CallIsSimple(next: Value, result: Value, out: Param)
    requires NullOrOne(next) && out in {SESSION, DATA}
    ensures SimpleCall(SPEC, [INSTANCE, INFO, out], Args(next, result))
    ensures TypedFields(SPEC, [INSTANCE, INFO, out], true, Args(next, result))
  {
    ArgsAreTyped(next, result, out);
    ParamsAreSimple();
    TripleIsTyped(SPEC, INSTANCE, INFO, out, true, Args(next, result));
    TripleIsSimple(SPEC, INSTANCE, INFO, out, Args(next, result));
  }

  /** The create info's next pointer is null or leads to a struct, and the result is a handle or a header
      struct. */
  lemma CreateSessionWritesBack(next: Value, result: Value, out: Param, post: Value)
    requires NullOrOne(next) && out in {SESSION, DATA}
    requires CalleeEffect(SPEC, [INSTANCE, INFO, out], Args(next, result), post)
    ensures RemoteCall(SPEC, [INSTANCE, INFO, out], Args(next, result), post) == Some(post)
  {
    CallIsSimple(next, result, out);
    DistinctTriple(INSTANCE, INFO, out);
    SimpleCallsWriteBack(SPEC, [INSTANCE, INFO, out], Args(next, result), post);
  }

  lemma DistinctTriple(p: Param, q: Param, r: Param)
    requires p.name != q.name && q.name != r.name && p.name != r.name
    ensures DistinctNames([p, q, r])
  {
  }
}
