/**
 What the collected bindings are for: after a call, the server sends the value at every
 binding and the client stores it back, so that the caller sees the callee's writes.

 Values are trees.  `Null` is a null pointer, `Block` is what a pointer or an array refers
 to, `Record` is a struct (or the parameters of a call) and `Leaf` is anything else.
 */
module WriteBack {
  import opened Options
  import opened Bindings

  datatype Value = Null | Leaf(bits: int) | Record(fields: map<string, Value>) | Block(elems: seq<Value>)

  datatype Place = InField(name: string) | At(i: nat)

  type Location = seq<Place>

  /** The value at a location; None is an access through null or out of bounds. */
  function Get(v: Value, loc: Location): Option<Value>
    decreases |loc|
  {
    if loc == [] then Some(v)
    else match loc[0]
      case InField(n) => if v.Record? && n in v.fields then Get(v.fields[n], loc[1..]) else None
      case At(i) => if v.Block? && i < |v.elems| then Get(v.elems[i], loc[1..]) else None
  }

  function Put(v: Value, loc: Location, w: Value): Value
    requires Get(v, loc).Some?
    decreases |loc|
  {
    if loc == [] then w
    else match loc[0]
      case InField(n) => Record(v.fields[n := Put(v.fields[n], loc[1..], w)])
      case At(i) => Block(v.elems[i := Put(v.elems[i], loc[1..], w)])
  }

  // ----- What a callee that respects const may do -----

  /** A callee writes behind a reference; it cannot retarget it or resize what it refers to. */
  predicate SameShape(a: Value, b: Value) {
    match a
    case Null => b == a
    case Leaf(_) => b == a
    case Record(f) => b.Record? && b.fields.Keys == f.Keys
    case Block(e) => b.Block? && |b.elems| == |e|
  }

  /** The same, but for a reference that has become null, which no callee can do to its caller. */
  predicate KeepsShape(clears: bool, a: Value, b: Value) {
    SameShape(a, b) || (clears && a.Block? && b.Null?)
  }

  /** There is something to write behind this reference. */
  predicate Writable(v: Value) {
    (v.Record? && v.fields != map[]) || (v.Block? && v.elems != [])
  }

  function Names(ps: seq<Param>): set<string> {
    set p <- ps :: p.name
  }

  /** The value has the shape its declaration gives it, as far as the collector looks. */
  predicate Typed(spec: Spec, p: Param, decay: bool, v: Value)
    decreases v, 1
  {
    if !spec.Enters(p, decay) then v.Leaf? <==> spec.Plain(p)
    else if p.Hops() then
      v.Null? || (v.Block? && (!p.Loops() ==> |v.elems| == 1) &&
                  forall i :: 0 <= i < |v.elems| ==> TypedFields(spec, spec.Members(p), false, v.elems[i]))
    else TypedFields(spec, spec.Members(p), false, v)
  }

  predicate TypedFields(spec: Spec, ps: seq<Param>, decay: bool, v: Value)
    decreases v, 0
  {
    && v.Record? && v.fields.Keys == Names(ps)
    && forall k :: 0 <= k < |ps| ==> Typed(spec, ps[k], decay, v.fields[ps[k].name])
  }

  /** `b` differs from `a` only behind non-const references, and, if it says so, in references that have
      become null. */
  predicate Changed(spec: Spec, p: Param, decay: bool, clears: bool, a: Value, b: Value)
    decreases a, 1
  {
    if spec.Modifiable(p, decay) then KeepsShape(clears, a, b)
    else if !spec.Enters(p, decay) then a == b
    else if p.Hops() then
      (a.Null? && b.Null?) ||
      (a.Block? && b.Block? && |a.elems| == |b.elems| &&
       forall i :: 0 <= i < |a.elems| ==> ChangedFields(spec, spec.Members(p), false, clears, a.elems[i], b.elems[i]))
    else ChangedFields(spec, spec.Members(p), false, clears, a, b)
  }

  predicate ChangedFields(spec: Spec, ps: seq<Param>, decay: bool, clears: bool, a: Value, b: Value)
    decreases a, 0
  {
    && a.Record? && b.Record? && a.fields.Keys == b.fields.Keys == Names(ps)
    && forall k :: 0 <= k < |ps| ==> Changed(spec, ps[k], decay, clears, a.fields[ps[k].name], b.fields[ps[k].name])
  }

  /** The locations inside a value where a modifiable reference sits. */
  predicate IsLocation(spec: Spec, p: Param, decay: bool, v: Value, loc: Location)
    decreases v, 1
  {
    if spec.Modifiable(p, decay) then loc == []
    else
      && spec.Enters(p, decay)
      && if p.Hops() then
           && loc != [] && loc[0].At? && v.Block? && loc[0].i < |v.elems|
           && IsLocationIn(spec, spec.Members(p), false, v.elems[loc[0].i], loc[1..])
         else IsLocationIn(spec, spec.Members(p), false, v, loc)
  }

  predicate IsLocationIn(spec: Spec, ps: seq<Param>, decay: bool, v: Value, loc: Location)
    decreases v, 0
  {
    && loc != [] && loc[0].InField? && v.Record? && loc[0].name in v.fields
    && var k := Find(ps, loc[0].name);
       k < |ps| && IsLocation(spec, ps[k], decay, v.fields[loc[0].name], loc[1..])
  }

  lemma {:induction false} TypedIsChanged(spec: Spec, p: Param, decay: bool, clears: bool, v: Value)
    requires Typed(spec, p, decay, v)
    ensures Changed(spec, p, decay, clears, v, v)
    decreases v, 1
  {
    if spec.Enters(p, decay) {
      if p.Hops() {
        if v.Block? {
          forall i | 0 <= i < |v.elems|
            ensures ChangedFields(spec, spec.Members(p), false, clears, v.elems[i], v.elems[i])
          {
            TypedFieldsIsChanged(spec, spec.Members(p), false, clears, v.elems[i]);
          }
        }
      } else {
        TypedFieldsIsChanged(spec, spec.Members(p), false, clears, v);
      }
    }
  }

  lemma {:induction false} TypedFieldsIsChanged(spec: Spec, ps: seq<Param>, decay: bool, clears: bool, v: Value)
    requires TypedFields(spec, ps, decay, v)
    ensures ChangedFields(spec, ps, decay, clears, v, v)
    decreases v, 0
  {
    forall k | 0 <= k < |ps|
      ensures Changed(spec, ps[k], decay, clears, v.fields[ps[k].name], v.fields[ps[k].name])
    {
      TypedIsChanged(spec, ps[k], decay, clears, v.fields[ps[k].name]);
    }
  }

  lemma FieldIsChanged(spec: Spec, ps: seq<Param>, decay: bool, clears: bool, a: Value, b: Value, k: nat)
    requires ChangedFields(spec, ps, decay, clears, a, b) && k < |ps|
    ensures ps[k].name in a.fields && ps[k].name in b.fields
    ensures Changed(spec, ps[k], decay, clears, a.fields[ps[k].name], b.fields[ps[k].name])
  {
    assert ps[k].name in Names(ps);
  }

  lemma TripleIsTyped(spec: Spec, p: Param, q: Param, r: Param, decay: bool, v: Value)
    requires v.Record? && v.fields.Keys == {p.name, q.name, r.name}
    requires Typed(spec, p, decay, v.fields[p.name]) && Typed(spec, q, decay, v.fields[q.name])
    requires Typed(spec, r, decay, v.fields[r.name])
    ensures TypedFields(spec, [p, q, r], decay, v)
  {
    assert Names([p, q, r]) == {p.name, q.name, r.name} by {
      assert [p, q, r][0] == p && [p, q, r][1] == q && [p, q, r][2] == r;
    }
  }

  /** The members one by one. */
  lemma PairIsChanged(spec: Spec, p: Param, q: Param, decay: bool, clears: bool, a: Value, b: Value)
    requires a.Record? && b.Record? && a.fields.Keys == {p.name, q.name} && b.fields.Keys == {p.name, q.name}
    requires Changed(spec, p, decay, clears, a.fields[p.name], b.fields[p.name])
    requires Changed(spec, q, decay, clears, a.fields[q.name], b.fields[q.name])
    ensures ChangedFields(spec, [p, q], decay, clears, a, b)
  {
    assert Names([p, q]) == {p.name, q.name} by {
      assert [p, q][0] == p && [p, q][1] == q;
    }
  }

  /** A change keeps every location, and what is there keeps its shape. */
  lemma {:induction false} ChangeKeepsLocation(
      spec: Spec, p: Param, decay: bool, clears: bool, a: Value, b: Value, loc: Location)
    requires Changed(spec, p, decay, clears, a, b)
    requires IsLocation(spec, p, decay, a, loc)
    ensures IsLocation(spec, p, decay, b, loc)
    ensures Get(a, loc).Some? && Get(b, loc).Some? && KeepsShape(clears, Get(a, loc).value, Get(b, loc).value)
    decreases a, 1
  {
    if !spec.Modifiable(p, decay) {
      if p.Hops() {
        ChangeKeepsLocationIn(spec, spec.Members(p), false, clears, a.elems[loc[0].i], b.elems[loc[0].i], loc[1..]);
      } else {
        ChangeKeepsLocationIn(spec, spec.Members(p), false, clears, a, b, loc);
      }
    }
  }

  lemma {:induction false} ChangeKeepsLocationIn(
      spec: Spec, ps: seq<Param>, decay: bool, clears: bool, a: Value, b: Value, loc: Location)
    requires ChangedFields(spec, ps, decay, clears, a, b)
    requires IsLocationIn(spec, ps, decay, a, loc)
    ensures IsLocationIn(spec, ps, decay, b, loc)
    ensures Get(a, loc).Some? && Get(b, loc).Some? && KeepsShape(clears, Get(a, loc).value, Get(b, loc).value)
    decreases a, 0
  {
    var n := loc[0].name;
    ChangeKeepsLocation(spec, ps[Find(ps, n)], decay, clears, a.fields[n], b.fields[n], loc[1..]);
  }

  /** The member called `name` of the struct that the reference at `loc` is a member of. */
  function Beside(loc: Location, name: string): Location {
    (if loc == [] then [] else loc[..|loc| - 1]) + [InField(name)]
  }

  function Scalar(v: Option<Value>): Option<int> {
    if v.Some? && v.value.Leaf? then Some(v.value.bits) else None
  }

  /** A change brings no new locations. */
  lemma {:induction false} ChangeAddsNoLocation(
      spec: Spec, p: Param, decay: bool, clears: bool, a: Value, b: Value, loc: Location)
    requires Changed(spec, p, decay, clears, a, b) && IsLocation(spec, p, decay, b, loc)
    ensures IsLocation(spec, p, decay, a, loc)
    decreases |loc|, 1
  {
    if !spec.Modifiable(p, decay) {
      if p.Hops() {
        var i := loc[0].i;
        ChangeAddsNoLocationIn(spec, spec.Members(p), false, clears, a.elems[i], b.elems[i], loc[1..]);
      } else {
        ChangeAddsNoLocationIn(spec, spec.Members(p), false, clears, a, b, loc);
      }
    }
  }

  lemma {:induction false} ChangeAddsNoLocationIn(
      spec: Spec, ps: seq<Param>, decay: bool, clears: bool, a: Value, b: Value, loc: Location)
    requires ChangedFields(spec, ps, decay, clears, a, b) && IsLocationIn(spec, ps, decay, b, loc)
    ensures IsLocationIn(spec, ps, decay, a, loc)
    decreases |loc|, 0
  {
    var n := loc[0].name;
    ChangeAddsNoLocation(spec, ps[Find(ps, n)], decay, clears, a.fields[n], b.fields[n], loc[1..]);
  }

  /** A callee that clears nothing is a special case. */
  lemma {:induction false} ChangedAllowsClearing(spec: Spec, p: Param, decay: bool, a: Value, b: Value)
    requires Changed(spec, p, decay, false, a, b)
    ensures Changed(spec, p, decay, true, a, b)
    decreases a, 1
  {
    if spec.Enters(p, decay) {
      if !p.Hops() {
        FieldsAllowClearing(spec, spec.Members(p), false, a, b);
      } else if a.Block? {
        forall i | 0 <= i < |a.elems|
          ensures ChangedFields(spec, spec.Members(p), false, true, a.elems[i], b.elems[i])
        {
          FieldsAllowClearing(spec, spec.Members(p), false, a.elems[i], b.elems[i]);
        }
      }
    }
  }

  lemma {:induction false} FieldsAllowClearing(spec: Spec, ps: seq<Param>, decay: bool, a: Value, b: Value)
    requires ChangedFields(spec, ps, decay, false, a, b)
    ensures ChangedFields(spec, ps, decay, true, a, b)
    decreases a, 0
  {
    forall k | 0 <= k < |ps|
      ensures Changed(spec, ps[k], decay, true, a.fields[ps[k].name], b.fields[ps[k].name])
    {
      ChangedAllowsClearing(spec, ps[k], decay, a.fields[ps[k].name], b.fields[ps[k].name]);
    }
  }

  lemma BesideBelow(loc: Location, name: string)
    requires |loc| > 1
    ensures Beside(loc, name)[0] == loc[0] && Beside(loc, name)[1..] == Beside(loc[1..], name)
  {
  }

  /** A callee cannot change a number beside a reference: numbers are no references. */
  lemma {:induction false} ChangeKeepsScalar(
      spec: Spec, p: Param, decay: bool, clears: bool, a: Value, b: Value, loc: Location, name: string)
    requires Changed(spec, p, decay, clears, a, b)
    requires IsLocation(spec, p, decay, a, loc) && loc != []
    ensures Scalar(Get(b, Beside(loc, name))) == Scalar(Get(a, Beside(loc, name)))
    decreases |loc|, 1
  {
    if p.Hops() {
      BesideBelow(loc, name);
      var i := loc[0].i;
      ChangeKeepsScalarIn(spec, spec.Members(p), false, clears, a.elems[i], b.elems[i], loc[1..], name);
    } else {
      ChangeKeepsScalarIn(spec, spec.Members(p), false, clears, a, b, loc, name);
    }
  }

  lemma {:induction false} ChangeKeepsScalarIn(
      spec: Spec, ps: seq<Param>, decay: bool, clears: bool, a: Value, b: Value, loc: Location, name: string)
    requires ChangedFields(spec, ps, decay, clears, a, b)
    requires IsLocationIn(spec, ps, decay, a, loc)
    ensures Scalar(Get(b, Beside(loc, name))) == Scalar(Get(a, Beside(loc, name)))
    decreases |loc|, 0
  {
    if |loc| == 1 {
      ChangeKeepsScalarField(spec, ps, decay, clears, a, b, name);
    } else {
      BesideBelow(loc, name);
      var n := loc[0].name;
      ChangeKeepsScalar(spec, ps[Find(ps, n)], decay, clears, a.fields[n], b.fields[n], loc[1..], name);
    }
  }

  lemma ChangeKeepsScalarField(spec: Spec, ps: seq<Param>, decay: bool, clears: bool, a: Value, b: Value, name: string)
    requires ChangedFields(spec, ps, decay, clears, a, b)
    ensures Scalar(Get(b, [InField(name)])) == Scalar(Get(a, [InField(name)]))
  {
    if name in a.fields {
      var k :| 0 <= k < |ps| && ps[k].name == name;
      assert Changed(spec, ps[k], decay, clears, a.fields[name], b.fields[name]);
    }
  }

  lemma OneElementIsChange(spec: Spec, p: Param, decay: bool, clears: bool, a: Value, b: Value, i: nat, x: Value)
    requires spec.Enters(p, decay) && p.Hops() && Changed(spec, p, decay, clears, a, b)
    requires a.Block? && i < |a.elems| && ChangedFields(spec, spec.Members(p), false, clears, a.elems[i], x)
    ensures Changed(spec, p, decay, clears, a, Block(b.elems[i := x]))
  {
  }

  /** Writing a value of the right shape at a location is again a change. */
  lemma {:induction false} PutIsChange(
      spec: Spec, p: Param, decay: bool, clears: bool, a: Value, b: Value, loc: Location, w: Value)
    requires Changed(spec, p, decay, clears, a, b)
    requires IsLocation(spec, p, decay, a, loc)
    requires Get(a, loc).Some? && Get(b, loc).Some? && KeepsShape(clears, Get(a, loc).value, w)
    ensures Changed(spec, p, decay, clears, a, Put(b, loc, w))
    decreases a, 1
  {
    if !spec.Modifiable(p, decay) {
      if p.Hops() {
        var i := loc[0].i;
        PutInFieldsIsChange(spec, spec.Members(p), false, clears, a.elems[i], b.elems[i], loc[1..], w);
        OneElementIsChange(spec, p, decay, clears, a, b, i, Put(b.elems[i], loc[1..], w));
      } else {
        PutInFieldsIsChange(spec, spec.Members(p), false, clears, a, b, loc, w);
      }
    }
  }

  lemma {:induction false} PutInFieldsIsChange(
      spec: Spec, ps: seq<Param>, decay: bool, clears: bool, a: Value, b: Value, loc: Location, w: Value)
    requires ChangedFields(spec, ps, decay, clears, a, b)
    requires IsLocationIn(spec, ps, decay, a, loc)
    requires Get(a, loc).Some? && Get(b, loc).Some? && KeepsShape(clears, Get(a, loc).value, w)
    requires DistinctNames(ps)
    ensures ChangedFields(spec, ps, decay, clears, a, Put(b, loc, w))
    decreases a, 0
  {
    var n := loc[0].name;
    var i := Find(ps, n);
    PutIsChange(spec, ps[i], decay, clears, a.fields[n], b.fields[n], loc[1..], w);
    var c := Put(b, loc, w);
    forall k | 0 <= k < |ps|
      ensures Changed(spec, ps[k], decay, clears, a.fields[ps[k].name], c.fields[ps[k].name])
    {
      assert k != i ==> ps[k].name != n;
    }
  }

  /** Reading back what was written. */
  lemma {:induction false} GetPut(v: Value, loc: Location, w: Value)
    requires Get(v, loc).Some?
    ensures Get(Put(v, loc, w), loc) == Some(w)
    decreases |loc|
  {
    if loc == [] {
    } else {
      match loc[0]
      case InField(n) => GetPut(v.fields[n], loc[1..], w);
      case At(i) => GetPut(v.elems[i], loc[1..], w);
    }
  }

  /** Distinct locations do not disturb each other. */
  lemma {:induction false} PutElsewhere(
      spec: Spec, p: Param, decay: bool, v: Value, loc: Location, other: Location, w: Value)
    requires IsLocation(spec, p, decay, v, loc) && IsLocation(spec, p, decay, v, other) && loc != other
    requires Get(v, loc).Some?
    ensures Get(Put(v, loc, w), other) == Get(v, other)
    decreases v, 1
  {
    if p.Hops() {
      if loc[0].i == other[0].i {
        assert loc == [loc[0]] + loc[1..] && other == [other[0]] + other[1..];
        PutElsewhereIn(spec, spec.Members(p), false, v.elems[loc[0].i], loc[1..], other[1..], w);
      }
    } else {
      PutElsewhereIn(spec, spec.Members(p), false, v, loc, other, w);
    }
  }

  lemma {:induction false} PutElsewhereIn(
      spec: Spec, ps: seq<Param>, decay: bool, v: Value, loc: Location, other: Location, w: Value)
    requires IsLocationIn(spec, ps, decay, v, loc) && IsLocationIn(spec, ps, decay, v, other) && loc != other
    requires Get(v, loc).Some?
    ensures Get(Put(v, loc, w), other) == Get(v, other)
    decreases v, 0
  {
    var n := loc[0].name;
    if n == other[0].name {
      assert loc == [loc[0]] + loc[1..] && other == [other[0]] + other[1..];
      PutElsewhere(spec, ps[Find(ps, n)], decay, v.fields[n], loc[1..], other[1..], w);
    }
  }

  /** Two changes of the same value are equal once they agree at every location. */
  lemma {:induction false} ChangesDetermined(
      spec: Spec, p: Param, decay: bool, clears: bool, a: Value, b: Value, c: Value)
    requires Changed(spec, p, decay, clears, a, b) && Changed(spec, p, decay, clears, a, c)
    requires forall loc :: IsLocation(spec, p, decay, a, loc) ==> Get(b, loc) == Get(c, loc)
    ensures b == c
    decreases a, 1
  {
    if spec.Modifiable(p, decay) {
      assert IsLocation(spec, p, decay, a, []);
      assert Get(b, []) == Get(c, []);
    } else if spec.Enters(p, decay) {
      var ms := spec.Members(p);
      if p.Hops() {
        if a.Block? {
          forall i | 0 <= i < |a.elems|
            ensures b.elems[i] == c.elems[i]
          {
            forall loc | IsLocationIn(spec, ms, false, a.elems[i], loc)
              ensures Get(b.elems[i], loc) == Get(c.elems[i], loc)
            {
              var full := [At(i)] + loc;
              assert full[1..] == loc;
              assert IsLocation(spec, p, decay, a, full);
              assert Get(b, full) == Get(c, full);
            }
            ChangesDeterminedIn(spec, ms, false, clears, a.elems[i], b.elems[i], c.elems[i]);
          }
        }
      } else {
        forall loc | IsLocationIn(spec, ms, false, a, loc)
          ensures Get(b, loc) == Get(c, loc)
        {
          assert IsLocation(spec, p, decay, a, loc);
        }
        ChangesDeterminedIn(spec, ms, false, clears, a, b, c);
      }
    }
  }

  lemma {:induction false} ChangesDeterminedIn(
      spec: Spec, ps: seq<Param>, decay: bool, clears: bool, a: Value, b: Value, c: Value)
    requires ChangedFields(spec, ps, decay, clears, a, b) && ChangedFields(spec, ps, decay, clears, a, c)
    requires DistinctNames(ps)
    requires forall loc :: IsLocationIn(spec, ps, decay, a, loc) ==> Get(b, loc) == Get(c, loc)
    ensures b == c
    decreases a, 0
  {
    forall k | 0 <= k < |ps|
      ensures b.fields[ps[k].name] == c.fields[ps[k].name]
    {
      var n := ps[k].name;
      assert Find(ps, n) == k;
      forall loc | IsLocation(spec, ps[k], decay, a.fields[n], loc)
        ensures Get(b.fields[n], loc) == Get(c.fields[n], loc)
      {
        var full := [InField(n)] + loc;
        assert full[1..] == loc;
        assert IsLocationIn(spec, ps, decay, a, full);
        assert Get(b, full) == Get(c, full);
      }
      ChangesDetermined(spec, ps[k], decay, clears, a.fields[n], b.fields[n], c.fields[n]);
    }
    forall n | n in b.fields
      ensures b.fields[n] == c.fields[n]
    {
      var k :| 0 <= k < |ps| && ps[k].name == n;
    }
    assert b.fields == c.fields;
  }
}
