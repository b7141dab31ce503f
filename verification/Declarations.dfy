/**
 What a declaration says, attribute by attribute, and the paths that the collector finds, read off the
 declarations alone.
 */
module Declarations {
  import opened Bindings

  predicate HeaderStruct(spec: Spec, p: Param) {
    p.typ in spec.structs && spec.structs[p.typ].header
  }

  predicate NextPointer(p: Param) {
    p.typ == "void" && p.pointer == "*" && p.name == "next"
  }

  predicate HeaderArray(spec: Spec, p: Param) {
    HeaderStruct(spec, p) && p.pointer != "" && p.len != ""
  }

  /** A change here is the caller's: a pointer, a header struct, or an array parameter, not const. */
  predicate WrittenBack(spec: Spec, p: Param, top: bool) {
    p.qualifier != "const" && (p.pointer != "" || HeaderStruct(spec, p) || (top && p.extent != ""))
  }

  /** The members of the struct are places too. */
  predicate GoesOn(spec: Spec, p: Param, top: bool) {
    && p.typ in spec.structs && !spec.structs[p.typ].header && !NextPointer(p)
    && (p.qualifier == "const" || (p.pointer == "" && (p.extent == "" || !top)))
  }

  lemma EntersExactly(spec: Spec, p: Param, top: bool)
    ensures spec.Enters(p, top) <==> GoesOn(spec, p, top)
    ensures spec.Modifiable(p, top) <==> WrittenBack(spec, p, top)
  {
  }

  // ----- The bindings, read off the declarations -----

  /** `path` goes from these members to a place that is written back: over members of structs by value, by
      Deref through a const pointer without length, and by Index through a const pointer with a length or an
      array, whose loops end at the texts in `ends`, outermost first.  It ends at the declaration `p`. */
  ghost predicate Leads(spec: Spec, ms: seq<Param>, top: bool, path: Path, ends: seq<string>, v: nat, p: Param)
    decreases |path|, 0
  {
    path != [] && path[0].Field? &&
    exists k :: 0 <= k < |ms| && ms[k].name == path[0].name && LeadsFrom(spec, ms[k], top, path[1..], ends, v, p)
  }

  ghost predicate LeadsFrom(spec: Spec, m: Param, top: bool, path: Path, ends: seq<string>, v: nat, p: Param)
    decreases |path|, 1
  {
    if WrittenBack(spec, m, top) then path == [] && ends == [] && p == m
    else if !GoesOn(spec, m, top) then false
    else if m.pointer == "" && m.extent == "" then Leads(spec, spec.structs[m.typ].members, false, path, ends, v, p)
    else if m.pointer != "" && m.len == "" then
      path != [] && path[0] == Deref && Leads(spec, spec.structs[m.typ].members, false, path[1..], ends, v, p)
    else
      && path != [] && path[0] == Index(v)
      && ends != [] && ends[0] == (if m.pointer != "" then m.len else m.extent)
      && Leads(spec, spec.structs[m.typ].members, false, path[1..], ends[1..], v + 1, p)
  }

  function Ends(loops: seq<Loop>): (ends: seq<string>)
    ensures |ends| == |loops|
  {
    seq(|loops|, k requires 0 <= k < |loops| => loops[k].end)
  }

  lemma EndsHop(p: Param, loops: seq<Loop>)
    ensures Ends(HopLoops(p, loops)) == Ends(loops) + if p.Loops() then [p.LoopEnd()] else []
  {
  }

  lemma EndsPrefix(a: seq<Loop>, b: seq<Loop>)
    requires a <= b
    ensures Ends(a) <= Ends(b)
  {
  }

  lemma {:induction false} LeadsFromExactly(
      spec: Spec, m: Param, top: bool, path: Path, loops: seq<Loop>, ends: seq<string>, p: Param)
    ensures LeadsFrom(spec, m, top, path, ends, |loops|, p) <==>
              && OnFrontier(spec, m, top, path, |loops|) && p == EndOf(spec, m, top, path, |loops|)
              && Ends(LoopsAlong(spec, m, top, path, loops)) == Ends(loops) + ends
    decreases |path|, 1
  {
    EntersExactly(spec, m, top);
    if !spec.Modifiable(m, top) && spec.Enters(m, top) {
      var hop, more := Hop(m, |loops|), HopLoops(m, loops);
      EndsHop(m, loops);
      if hop == [] {
        assert path[0..] == path;
        LeadsExactly(spec, spec.Members(m), false, path, more, ends, p);
      } else if path != [] && path[0] == hop[0] {
        assert path == [path[0]] + path[1..];
        if m.Loops() {
          LoopLeads(spec, m, path, loops, ends, p);
        } else {
          LeadsExactly(spec, spec.Members(m), false, path[1..], more, ends, p);
        }
      }
    } else {
      assert Ends(loops) == Ends(loops) + ends <==> ends == [];
    }
  }

  lemma {:induction false} LoopLeads(
      spec: Spec, m: Param, path: Path, loops: seq<Loop>, ends: seq<string>, p: Param)
    requires path != [] && m.Loops() && m.typ in spec.structs
    ensures var ms, more := spec.Members(m), HopLoops(m, loops);
            (ends != [] && ends[0] == m.LoopEnd() && Leads(spec, ms, false, path[1..], ends[1..], |more|, p)) <==>
            && OnFrontierOf(spec, ms, false, path[1..], |more|)
            && p == EndOfMember(spec, ms, false, path[1..], |more|)
            && Ends(LoopsAlongMember(spec, ms, false, path[1..], more)) == Ends(loops) + ends
    decreases |path|, 0
  {
    var ms, more := spec.Members(m), HopLoops(m, loops);
    EndsHop(m, loops);
    if ends != [] && ends[0] == m.LoopEnd() {
      assert Ends(more) + ends[1..] == Ends(loops) + ends;
      LeadsExactly(spec, ms, false, path[1..], more, ends[1..], p);
    } else if OnFrontierOf(spec, ms, false, path[1..], |more|) {
      LoopVariablesOf(spec, ms, false, path[1..], more);
      var all := LoopsAlongMember(spec, ms, false, path[1..], more);
      EndsPrefix(more, all);
      assert Ends(all)[|loops|] == m.LoopEnd();
      assert ends != [] ==> (Ends(loops) + ends)[|loops|] == ends[0];
    }
  }

  lemma {:induction false} LeadsExactly(
      spec: Spec, ms: seq<Param>, top: bool, path: Path, loops: seq<Loop>, ends: seq<string>, p: Param)
    requires DistinctNames(ms)
    ensures Leads(spec, ms, top, path, ends, |loops|, p) <==>
              && OnFrontierOf(spec, ms, top, path, |loops|) && p == EndOfMember(spec, ms, top, path, |loops|)
              && Ends(LoopsAlongMember(spec, ms, top, path, loops)) == Ends(loops) + ends
    decreases |path|, 0
  {
    if path != [] && path[0].Field? && Find(ms, path[0].name) < |ms| {
      var k := Find(ms, path[0].name);
      LeadsFromExactly(spec, ms[k], top, path[1..], loops, ends, p);
      assert forall i :: 0 <= i < |ms| && ms[i].name == path[0].name ==> i == k;
    }
  }

  /** How a place is transferred, and where its count is written: beside it, or the bound of an array. */
  predicate Carries(spec: Spec, b: Binding) {
    var p, beside := b.param, if b.path == [] then [] else b.path[..|b.path| - 1];
    if HeaderArray(spec, p) then b.kind == XrArray && b.len == Length(beside, p.len)
    else if NextPointer(p) || HeaderStruct(spec, p) then b.kind == Xr && b.len == NoLength
    else if p.pointer != "" && p.len != "" then b.kind == SizedPtr && b.len == Length(beside, p.len)
    else if p.pointer != "" then b.kind == Ptr && b.len == NoLength
    else b.kind == Array && b.len == Length([], p.extent)
  }

  ghost predicate IsBinding(spec: Spec, b: Binding, path: Path, ends: seq<string>, p: Param) {
    && b.path == path && b.param == p && Carries(spec, b)
    && |b.loops| == |ends| && forall k :: 0 <= k < |ends| ==> b.loops[k] == Loop(ends[k], k)
  }

  lemma LoopsAre(loops: seq<Loop>, ends: seq<string>)
    requires forall k :: 0 <= k < |loops| ==> loops[k].variable == k
    ensures Ends(loops) == ends <==>
              |loops| == |ends| && forall k :: 0 <= k < |ends| ==> loops[k] == Loop(ends[k], k)
  {
  }

  lemma TransferCarries(spec: Spec, b: Binding)
    requires b.path != [] && (b.kind, b.len) == Transfer(spec, b.param, b.path)
    ensures Carries(spec, b)
  {
  }

  /** The bindings of a function are exactly those of the paths that lead to a place which is written back. */
  lemma BindingsLead(spec: Spec, params: seq<Param>, path: Path, ends: seq<string>, p: Param)
    requires DistinctNames(params)
    ensures Leads(spec, params, true, path, ends, 0, p) <==>
              exists b :: b in FunctionBindings(spec, params) && IsBinding(spec, b, path, ends, p)
  {
    var bs := FunctionBindings(spec, params);
    FunctionBindingsExact(spec, params);
    LeadsExactly(spec, params, true, path, [], ends, p);
    assert Ends([]) + ends == ends;
    if OnFrontierOf(spec, params, true, path, 0) {
      var b :| b in bs && b.path == path;
      LoopsAre(b.loops, ends);
      TransferCarries(spec, b);
    }
    if b :| b in bs && IsBinding(spec, b, path, ends, p) {
      LoopsAre(b.loops, ends);
    }
  }
}
