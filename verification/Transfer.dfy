/**
 The generated write-back: the server walks the bindings over the arguments after the call and
 puts one counted run of elements on the wire per visit; the client walks the same bindings over
 its own arguments and stores the runs in place.

 A loop end is the bare text of the declared length, so it is resolved as a constant or among the
 parameters of the function, never through the struct it was found in.  The element count of a
 binding is written with the prefix of the place, so it is a member beside the place, or a name in
 the generated function for a parameter.

 Before that the request brings the arguments to the server: of a pointer with a length as many
 elements as are counted, and null if none are.  An array of header structs is written with the
 type of its first element after the count, and that word is written even if the count is zero;
 the other side then does not read it, and takes it for what comes next.
 */
module Transfer {
  import opened Options
  import opened Bindings
  import opened WriteBack

  /** A name in the generated function; None does not compile. */
  function Number(spec: Spec, args: Value, name: string): Option<int> {
    if name in spec.constants then Some(spec.constants[name]) else Scalar(Get(args, [InField(name)]))
  }

  /** The number of iterations of a loop up to `end`; None does not compile. */
  function LoopCount(spec: Spec, args: Value, end: string): Option<nat> {
    match Number(spec, args, end)
    case None => None
    case Some(n) => Some(if n < 0 then 0 else n)
  }

  function Counts(spec: Spec, args: Value, loops: seq<Loop>): Option<seq<nat>> {
    if loops == [] then Some([])
    else
      match (LoopCount(spec, args, loops[0].end), Counts(spec, args, loops[1..]))
      case (Some(n), Some(rest)) => Some([n] + rest)
      case _ => None
  }

  function ConcreteStep(step: Step, idx: seq<nat>): Place {
    match step
    case Field(n) => InField(n)
    case Deref => At(0)
    case Index(k) => At(if k < |idx| then idx[k] else 0)
  }

  /** A path under an assignment of its loop variables. */
  function Concrete(path: Path, idx: seq<nat>): (loc: Location)
    ensures |loc| == |path|
  {
    if path == [] then [] else [ConcreteStep(path[0], idx)] + Concrete(path[1..], idx)
  }

  /** One pass of the innermost loop body of a binding. */
  datatype Visit = Visit(binding: Binding, idx: seq<nat>) {
    function Place(): Location {
      Concrete(binding.path, idx)
    }
  }

  /** The passes of the nested loops, outermost loop slowest. */
  function Nest(b: Binding, counts: seq<nat>, idx: seq<nat>): seq<Visit>
    requires |idx| <= |counts|
    decreases |counts| - |idx|, 0, 0
  {
    if |idx| == |counts| then [Visit(b, idx)] else NestFrom(b, counts, idx, 0)
  }

  function NestFrom(b: Binding, counts: seq<nat>, idx: seq<nat>, i: nat): seq<Visit>
    requires |idx| < |counts| && i <= counts[|idx|]
    decreases |counts| - |idx|, 0, 0, counts[|idx|] - i
  {
    if i == counts[|idx|] then []
    else Nest(b, counts, idx + [i]) + NestFrom(b, counts, idx, i + 1)
  }

  function Visits(spec: Spec, args: Value, b: Binding): Option<seq<Visit>> {
    match Counts(spec, args, b.loops)
    case None => None
    case Some(counts) => Some(Nest(b, counts, []))
  }

  function AllVisits(spec: Spec, args: Value, bs: seq<Binding>): Option<seq<Visit>> {
    if bs == [] then Some([])
    else
      match (Visits(spec, args, bs[0]), AllVisits(spec, args, bs[1..]))
      case (Some(first), Some(rest)) => Some(first + rest)
      case _ => None
  }

  function Places(visits: seq<Visit>): set<Location> {
    set visit <- visits :: visit.Place()
  }

  // ----- Element counts -----

  /** The value of the count expression of a binding in one visit. */
  function CountIn(spec: Spec, args: Value, visit: Visit): Option<int> {
    match visit.binding.len
    case NoLength => Some(1)
    case Length(prefix, text) =>
      if prefix == [] then Number(spec, args, text)
      else Scalar(Get(args, Concrete(prefix + [Field(text)], visit.idx)))
  }

  function PathNames(path: Path): seq<string> {
    if path == [] then []
    else (if path[0].Field? then [path[0].name] else []) + PathNames(path[1..])
  }

  /** The declaration of the member reached through these names. */
  function Declaration(spec: Spec, members: seq<Param>, names: seq<string>): Option<Param>
    decreases |names|
  {
    if names == [] then None
    else
      var k := Find(members, names[0]);
      if k == |members| then None
      else if |names| == 1 then Some(members[k])
      else if members[k].typ in spec.structs then Declaration(spec, spec.Members(members[k]), names[1..])
      else None
  }

  predicate DeclaresNumber(spec: Spec, members: seq<Param>, names: seq<string>) {
    var p := Declaration(spec, members, names);
    p.Some? && spec.Plain(p.value)
  }

  /** The generated line for a binding compiles, whether or not it is ever executed: its count is a
      constant, a number beside the place or the literal 1, and a place that is handed to the chain
      serializer is a pointer. */
  predicate Compiles(spec: Spec, params: seq<Param>, b: Binding) {
    match b.len
    case NoLength => b.kind.Xr? ==> b.param.pointer != "" || (|b.path| == 1 && b.param.extent != "")
    case Length(prefix, text) =>
      (prefix == [] && text in spec.constants) || DeclaresNumber(spec, params, PathNames(prefix + [Field(text)]))
  }

  // ----- The request -----

  /** Markers and the counts of struct arrays have 32 bits. */
  const MARKER_LIMIT := 0x1_0000_0000

  /** A count as it is written: the count of a struct array is cut to 32 bits first, while a marker
      that does not fit would disagree with the elements after it. */
  function Marker(kind: Kind, count: int): int {
    if kind.XrArray? then count % MARKER_LIMIT else count
  }

  /** The count in the generated serializer, where a member's length is read through its own struct. */
  function FieldCount(spec: Spec, top: bool, record: Value, p: Param): Option<int> {
    if p.pointer == "" then (if p.extent in spec.constants then Some(spec.constants[p.extent]) else None)
    else if p.len == "" then Some(1)
    else if top then Number(spec, record, p.len)
    else Scalar(Get(record, [InField(p.len)]))
  }

  /** What serializing one thing does: it is all there; it leaves a type that is not read; it goes
      through null, past the end of a block, or does not compile. */
  datatype Word = Sound | TypeWord | Unreadable

  /** As many elements as the marker says. */
  function PointerWord(v: Value, count: Option<int>): Word {
    match v
    case Null => if count.Some? then Sound else Unreadable
    case Block(e) => if count.Some? && 0 <= count.value <= |e| && count.value < MARKER_LIMIT then Sound else Unreadable
    case _ => Unreadable
  }

  /** The type of the first struct is read and written whatever the count is. */
  function StructArrayWords(v: Value, count: Option<int>): seq<Word> {
    match v
    case Null => [if count.Some? then Sound else Unreadable]
    case Block(e) =>
      if e == [] || count.None? || Marker(XrArray, count.value) > |e| then [Unreadable]
      else if Marker(XrArray, count.value) == 0 then [Sound, TypeWord]
      else [Sound]
    case _ => [Unreadable]
  }

  predicate StructArray(spec: Spec, p: Param) {
    spec.IsHeader(p) && p.pointer != "" && p.len != ""
  }

  /** The serialization of one parameter or member, as far as the collector looks. */
  function Words(spec: Spec, p: Param, decay: bool, v: Value, count: Option<int>): seq<Word>
    decreases v, 2, 0
  {
    if StructArray(spec, p) then StructArrayWords(v, count)
    else if p.IsNext() || spec.IsHeader(p) then [PointerWord(v, Some(1))]
    else if p.pointer != "" then
      if spec.Modifiable(p, decay) then [PointerWord(v, count)]
      else if !spec.Enters(p, decay) then [Sound]
      else if v.Block? && PointerWord(v, count).Sound? then [Sound] + ElementWords(spec, p, v, count.value, 0)
      else [PointerWord(v, count)]
    else if p.extent != "" then
      if spec.Modifiable(p, decay) then [if v.Block? then PointerWord(v, count) else Unreadable]
      else if !spec.Enters(p, decay) then [Sound]
      else if v.Block? then ElementWords(spec, p, v, |v.elems|, 0)
      else [Unreadable]
    else if spec.Enters(p, decay) then MemberWords(spec, spec.Members(p), false, v, 0)
    else [Sound]
  }

  function ElementWords(spec: Spec, p: Param, v: Value, n: nat, i: nat): seq<Word>
    requires v.Block? && i <= n <= |v.elems| && p.typ in spec.structs
    decreases v, 1, n - i
  {
    if i == n then []
    else MemberWords(spec, spec.Members(p), false, v.elems[i], 0) + ElementWords(spec, p, v, n, i + 1)
  }

  function MemberWords(spec: Spec, ps: seq<Param>, top: bool, v: Value, k: nat): seq<Word>
    requires k <= |ps|
    decreases v, 1, |ps| - k
  {
    if k == |ps| then []
    else if v.Record? && ps[k].name in v.fields then
      Words(spec, ps[k], top, v.fields[ps[k].name], FieldCount(spec, top, v, ps[k]))
      + MemberWords(spec, ps, top, v, k + 1)
    else [Unreadable]
  }

  /** The server reads what the client wrote: everything was there, and no type is left before
      something else. */
  predicate Readable(words: seq<Word>) {
    forall i :: 0 <= i < |words| ==> !words[i].Unreadable? && (words[i].TypeWord? ==> i == |words| - 1)
  }

  predicate RequestReads(spec: Spec, params: seq<Param>, args: Value) {
    Readable(MemberWords(spec, params, true, args, 0))
  }

  /** The elements on the way to a place are among those that the request brings along. */
  predicate ArrivesBelow(spec: Spec, p: Param, v: Value, count: Option<int>, loc: Location)
    decreases |loc|, 1
  {
    if p.typ !in spec.structs || loc == [] then true
    else if loc[0].At? then
      && v.Block? && loc[0].i < |v.elems|
      && (p.pointer != "" ==> count.Some? && loc[0].i < count.value)
      && Arrives(spec, spec.Members(p), false, v.elems[loc[0].i], loc[1..])
    else Arrives(spec, spec.Members(p), false, v, loc)
  }

  predicate Arrives(spec: Spec, ps: seq<Param>, top: bool, v: Value, loc: Location)
    decreases |loc|, 0
  {
    loc != [] && loc[0].InField? && v.Record? && loc[0].name in v.fields ==>
      var k := Find(ps, loc[0].name);
      k < |ps| ==>
        ArrivesBelow(spec, ps[k], v.fields[loc[0].name], FieldCount(spec, top, v, ps[k]), loc[1..])
  }

  // ----- The reply -----

  /** The run a server sends for a reference: none for null, otherwise `count` elements; with a count
      of zero the server's pointer is null. */
  function Sent(kind: Kind, v: Value, count: int): Option<seq<Value>> {
    var n := Marker(kind, count);
    match v
    case Null => Some([])
    case Block(e) => if 0 <= n <= |e| && n < MARKER_LIMIT then Some(e[..n]) else None
    case _ => None
  }

  /** The reference after a run has been stored in place.  A run that is not empty is refused by null.
      An empty one is refused by a pointer that is not null, except that a struct array sets the
      pointer to null, which for a parameter is the client's own copy. */
  function Received(kind: Kind, nested: bool, v: Value, run: seq<Value>): Option<Value> {
    match v
    case Null => if run == [] then Some(v) else None
    case Block(e) =>
      if run != [] then (if |run| <= |e| then Some(Block(run + e[|run|..])) else None)
      else if !kind.XrArray? then None
      else if nested then Some(Null)
      else Some(v)
    case _ => None
  }

  function Send(spec: Spec, params: seq<Param>, args: Value, visit: Visit): Option<seq<Value>> {
    match (Get(args, visit.Place()), CountIn(spec, args, visit))
    case (Some(v), Some(n)) =>
      if Arrives(spec, params, true, args, visit.Place()) then Sent(visit.binding.kind, v, n) else None
    case _ => None
  }

  function Receive(args: Value, visit: Visit, run: seq<Value>): Option<Value> {
    match Get(args, visit.Place())
    case None => None
    case Some(v) =>
      match Received(visit.binding.kind, |visit.Place()| > 1, v, run)
      case None => None
      case Some(w) => Some(Put(args, visit.Place(), w))
  }

  function Read(spec: Spec, params: seq<Param>, args: Value, visits: seq<Visit>): Option<seq<seq<Value>>> {
    if visits == [] then Some([])
    else
      match (Send(spec, params, args, visits[0]), Read(spec, params, args, visits[1..]))
      case (Some(run), Some(rest)) => Some([run] + rest)
      case _ => None
  }

  /** Stores runs off the front of the wire; returns the new arguments and the rest of the wire. */
  function Store(args: Value, visits: seq<Visit>, wire: seq<seq<Value>>): Option<(Value, seq<seq<Value>>)>
    decreases |visits|
  {
    if visits == [] then Some((args, wire))
    else if wire == [] then None
    else
      match Receive(args, visits[0], wire[0])
      case None => None
      case Some(next) => Store(next, visits[1..], wire[1..])
  }

  /** The server half: serialize every binding in order. */
  function Emit(spec: Spec, params: seq<Param>, bs: seq<Binding>, args: Value): Option<seq<seq<Value>>> {
    if bs == [] then Some([])
    else
      match Visits(spec, args, bs[0])
      case None => None
      case Some(visits) =>
        match (Read(spec, params, args, visits), Emit(spec, params, bs[1..], args))
        case (Some(first), Some(rest)) => Some(first + rest)
        case _ => None
  }

  /** The client half: deserialize every binding in order, in place. */
  function Absorb(spec: Spec, bs: seq<Binding>, args: Value, wire: seq<seq<Value>>): Option<Value> {
    if bs == [] then (if wire == [] then Some(args) else None)
    else
      match Visits(spec, args, bs[0])
      case None => None
      case Some(visits) =>
        match Store(args, visits, wire)
        case None => None
        case Some((next, rest)) => Absorb(spec, bs[1..], next, rest)
  }

  predicate AllCompile(spec: Spec, params: seq<Param>) {
    forall b <- FunctionBindings(spec, params) :: Compiles(spec, params, b)
  }

  /** The caller's arguments after a remote call of a callee that turns `pre` into `post`. */
  function RemoteCall(spec: Spec, params: seq<Param>, pre: Value, post: Value): Option<Value> {
    var bs := FunctionBindings(spec, params);
    if AllCompile(spec, params) && RequestReads(spec, params, pre) then Returned(spec, params, bs, pre, post)
    else None
  }

  /** Both halves of the reply over a list of bindings. */
  function Returned(spec: Spec, params: seq<Param>, bs: seq<Binding>, base: Value, post: Value): Option<Value> {
    match Emit(spec, params, bs, post)
    case None => None
    case Some(wire) => Absorb(spec, bs, base, wire)
  }

  predicate CalleeEffect(spec: Spec, params: seq<Param>, pre: Value, post: Value) {
    ChangedFields(spec, params, true, false, pre, post)
  }

  predicate Reference(spec: Spec, params: seq<Param>, args: Value, loc: Location) {
    IsLocationIn(spec, params, true, args, loc)
  }

  // ----- The declared element count of a reference, without reference to the bindings -----

  function PlaceNames(loc: Location): seq<string> {
    if loc == [] then []
    else (if loc[0].InField? then [loc[0].name] else []) + PlaceNames(loc[1..])
  }

  /** How many elements the declaration of a reference gives it: the value of its length, which is a
      number beside it or, for a parameter, a name in the function; otherwise one. */
  function ElementCount(spec: Spec, params: seq<Param>, args: Value, loc: Location): Option<int> {
    match Declaration(spec, params, PlaceNames(loc))
    case None => None
    case Some(p) =>
      match Transfer(spec, p, [Field(p.name)]).0
      case Xr => Some(1)
      case Ptr => Some(1)
      case Array => Number(spec, args, p.extent)
      case _ => if |loc| == 1 then Number(spec, args, p.len) else Scalar(Get(args, Beside(loc, p.len)))
  }

  /** How the declaration of a reference has it transferred. */
  function KindAt(spec: Spec, params: seq<Param>, loc: Location): Kind {
    match Declaration(spec, params, PlaceNames(loc))
    case None => Ptr
    case Some(p) => Transfer(spec, p, [Field(p.name)]).0
  }

  /** The number of elements that travel. */
  function Travelling(spec: Spec, params: seq<Param>, args: Value, loc: Location): Option<int> {
    match ElementCount(spec, params, args, loc)
    case None => None
    case Some(n) => Some(Marker(KindAt(spec, params, loc), n))
  }

  /** A run for this reference can be sent and stored: it has arrived, and is null or a block with that
      many elements, at least one unless it is a struct array. */
  predicate Fits(spec: Spec, params: seq<Param>, args: Value, loc: Location) {
    && Arrives(spec, params, true, args, loc)
    && match Get(args, loc)
       case Some(Null) => true
       case Some(Block(e)) =>
         var n := Travelling(spec, params, args, loc);
         && n.Some? && 0 <= n.value <= |e| && n.value < MARKER_LIMIT
         && (n.value == 0 ==> KindAt(spec, params, loc).XrArray?)
       case _ => false
  }

  /** The run for this reference is all there is behind it. */
  predicate Whole(spec: Spec, params: seq<Param>, args: Value, loc: Location) {
    && Arrives(spec, params, true, args, loc)
    && match Get(args, loc)
       case Some(Null) => true
       case Some(Block(e)) => 0 < |e| < MARKER_LIMIT && Travelling(spec, params, args, loc) == Some(|e|)
       case _ => false
  }

  /** Checked on the arguments before the call: the generated lines compile, the server can read the
      request, no visit runs through null or out of bounds, every visited pointer is null or has
      exactly as many elements as its count says, at least one, and every reference with something
      behind it is visited. */
  ghost predicate Covered(spec: Spec, params: seq<Param>, pre: Value) {
    var visits := AllVisits(spec, pre, FunctionBindings(spec, params));
    && AllCompile(spec, params)
    && RequestReads(spec, params, pre)
    && visits.Some?
    && (forall loc <- Places(visits.value) :: Whole(spec, params, pre, loc))
    && (forall loc :: Reference(spec, params, pre, loc) && Get(pre, loc).Some? && Writable(Get(pre, loc).value)
                      ==> loc in Places(visits.value))
  }

  /** An empty run makes this reference null. */
  predicate Empties(spec: Spec, params: seq<Param>, args: Value, loc: Location) {
    |loc| > 1 && KindAt(spec, params, loc).XrArray? && Travelling(spec, params, args, loc) == Some(0)
  }

  /** A reference keeps its shape, or is one that an empty run has made null. */
  predicate ClientKeeps(spec: Spec, params: seq<Param>, pre: Value, loc: Location, v: Value, w: Value) {
    SameShape(v, w) || (v.Block? && w.Null? && Empties(spec, params, pre, loc))
  }

  /** The client's arguments while the reply is stored. */
  ghost predicate ClientState(spec: Spec, params: seq<Param>, pre: Value, args: Value) {
    && ChangedFields(spec, params, true, true, pre, args)
    && forall loc :: Reference(spec, params, pre, loc) ==>
         && Get(pre, loc).Some? && Get(args, loc).Some?
         && ClientKeeps(spec, params, pre, loc, Get(pre, loc).value, Get(args, loc).value)
  }

  // ----- The two sides run the same loops -----

  lemma ChangeKeepsLoopCount(
      spec: Spec, params: seq<Param>, clears: bool, pre: Value, args: Value, end: string)
    requires ChangedFields(spec, params, true, clears, pre, args)
    ensures LoopCount(spec, args, end) == LoopCount(spec, pre, end)
  {
    ChangeKeepsNumber(spec, params, clears, pre, args, end);
  }

  lemma {:induction false} ChangeKeepsCounts(
      spec: Spec, params: seq<Param>, clears: bool, pre: Value, args: Value, loops: seq<Loop>)
    requires ChangedFields(spec, params, true, clears, pre, args)
    ensures Counts(spec, args, loops) == Counts(spec, pre, loops)
  {
    if loops == [] {
    } else {
      ChangeKeepsLoopCount(spec, params, clears, pre, args, loops[0].end);
      ChangeKeepsCounts(spec, params, clears, pre, args, loops[1..]);
    }
  }

  // ----- The count expressions are the declared counts -----

  lemma ConcreteFirst(step: Step, path: Path, idx: seq<nat>)
    ensures Concrete([step] + path, idx) == [ConcreteStep(step, idx)] + Concrete(path, idx)
  {
    assert ([step] + path)[1..] == path;
  }

  lemma {:induction false} ConcreteJoin(a: Path, b: Path, idx: seq<nat>)
    ensures Concrete(a + b, idx) == Concrete(a, idx) + Concrete(b, idx)
  {
    if a == [] {
      assert [] + b == b;
    } else {
      ConcreteJoin(a[1..], b, idx);
      ConcreteFirst(a[0], a[1..] + b, idx);
      assert a + b == [a[0]] + (a[1..] + b);
      var s, t := Concrete(a[1..], idx), Concrete(b, idx);
      assert [ConcreteStep(a[0], idx)] + (s + t) == [ConcreteStep(a[0], idx)] + s + t;
    }
  }

  lemma {:induction false} ConcreteNames(path: Path, idx: seq<nat>)
    ensures PlaceNames(Concrete(path, idx)) == PathNames(path)
  {
    if path == [] {
    } else {
      ConcreteNames(path[1..], idx);
    }
  }

  lemma {:induction false} FrontierDeclares(spec: Spec, p: Param, decay: bool, path: Path, v: nat)
    requires OnFrontier(spec, p, decay, path, v)
    ensures path == [] ==> EndOf(spec, p, decay, path, v) == p && PathNames(path) == []
    ensures path != [] ==>
              && p.typ in spec.structs && PathNames(path) != []
              && Declaration(spec, spec.Members(p), PathNames(path)) == Some(EndOf(spec, p, decay, path, v))
    decreases |path|, 1
  {
    if !spec.Modifiable(p, decay) {
      var rest := path[|Hop(p, v)|..];
      FrontierDeclaresIn(spec, spec.Members(p), false, rest, if p.Loops() then v + 1 else v);
      assert Hop(p, v) + rest == path;
      if p.Hops() {
        assert path[1..] == rest && !path[0].Field?;
      } else {
        assert path == rest;
      }
      assert PathNames(path) == PathNames(rest);
    }
  }

  lemma {:induction false} FrontierDeclaresIn(spec: Spec, members: seq<Param>, decay: bool, path: Path, v: nat)
    requires OnFrontierOf(spec, members, decay, path, v)
    ensures PathNames(path) != []
    ensures Declaration(spec, members, PathNames(path)) == Some(EndOfMember(spec, members, decay, path, v))
    decreases |path|, 0
  {
    FrontierDeclares(spec, members[Find(members, path[0].name)], decay, path[1..], v);
    assert PathNames(path)[1..] == PathNames(path[1..]);
  }

  /** A binding that the collector returns for these parameters. */
  predicate Collected(spec: Spec, params: seq<Param>, b: Binding) {
    && OnFrontierOf(spec, params, true, b.path, 0)
    && b.param == EndOfMember(spec, params, true, b.path, 0)
    && (b.kind, b.len) == Transfer(spec, b.param, b.path)
  }

  lemma TransferKind(spec: Spec, p: Param, path: Path)
    requires path != []
    ensures Transfer(spec, p, path).0 == Transfer(spec, p, [Field(p.name)]).0
    ensures var (kind, len) := Transfer(spec, p, path);
            len == match kind
                   case Xr => NoLength
                   case Ptr => NoLength
                   case Array => Length([], p.extent)
                   case _ => Length(path[..|path| - 1], p.len)
  {
  }

  /** In every visit the count that the collector wrote down is the declared count of the place. */
  lemma CountIsDeclared(spec: Spec, params: seq<Param>, args: Value, visit: Visit)
    requires Collected(spec, params, visit.binding)
    ensures CountIn(spec, args, visit) == ElementCount(spec, params, args, visit.Place())
  {
    var b := visit.binding;
    ConcreteNames(b.path, visit.idx);
    FrontierDeclaresIn(spec, params, true, b.path, 0);
    BesideIsConcrete(b.path, b.param.len, visit.idx);
    TransferKind(spec, b.param, b.path);
  }

  lemma BesideIsConcrete(path: Path, name: string, idx: seq<nat>)
    requires path != []
    ensures Concrete(path[..|path| - 1] + [Field(name)], idx) == Beside(Concrete(path, idx), name)
  {
    var prefix, last := path[..|path| - 1], path[|path| - 1..];
    assert path == prefix + last;
    ConcreteJoin(prefix, last, idx);
    ConcreteJoin(prefix, [Field(name)], idx);
  }

  lemma ChangeKeepsNumber(spec: Spec, params: seq<Param>, clears: bool, pre: Value, args: Value, name: string)
    requires ChangedFields(spec, params, true, clears, pre, args)
    ensures Number(spec, args, name) == Number(spec, pre, name)
  {
    ChangeKeepsScalarField(spec, params, true, clears, pre, args, name);
  }

  lemma ChangeKeepsElementCount(
      spec: Spec, params: seq<Param>, clears: bool, pre: Value, args: Value, loc: Location)
    requires ChangedFields(spec, params, true, clears, pre, args) && Reference(spec, params, pre, loc)
    ensures ElementCount(spec, params, args, loc) == ElementCount(spec, params, pre, loc)
  {
    var p := Declaration(spec, params, PlaceNames(loc));
    if p.Some? {
      ChangeKeepsNumber(spec, params, clears, pre, args, p.value.extent);
      ChangeKeepsNumber(spec, params, clears, pre, args, p.value.len);
      ChangeKeepsScalarIn(spec, params, true, clears, pre, args, loc, p.value.len);
    }
  }

  lemma ChangeKeepsFieldCount(
      spec: Spec, ps: seq<Param>, top: bool, clears: bool, pre: Value, args: Value, p: Param)
    requires ChangedFields(spec, ps, top, clears, pre, args)
    ensures FieldCount(spec, top, args, p) == FieldCount(spec, top, pre, p)
  {
    ChangeKeepsScalarField(spec, ps, top, clears, pre, args, p.len);
  }

  lemma {:induction false} ChangeKeepsArrivalBelow(
      spec: Spec, p: Param, decay: bool, clears: bool, pre: Value, args: Value, count: Option<int>, loc: Location)
    requires Changed(spec, p, decay, clears, pre, args) && IsLocation(spec, p, decay, pre, loc)
    ensures ArrivesBelow(spec, p, args, count, loc) == ArrivesBelow(spec, p, pre, count, loc)
    decreases |loc|, 1
  {
    if !spec.Modifiable(p, decay) {
      if p.Hops() {
        var i := loc[0].i;
        ChangeKeepsArrival(spec, spec.Members(p), false, clears, pre.elems[i], args.elems[i], loc[1..]);
      } else {
        ChangeKeepsArrival(spec, spec.Members(p), false, clears, pre, args, loc);
      }
    }
  }

  lemma {:induction false} ChangeKeepsArrival(
      spec: Spec, ps: seq<Param>, top: bool, clears: bool, pre: Value, args: Value, loc: Location)
    requires ChangedFields(spec, ps, top, clears, pre, args) && IsLocationIn(spec, ps, top, pre, loc)
    ensures Arrives(spec, ps, top, args, loc) == Arrives(spec, ps, top, pre, loc)
    decreases |loc|, 0
  {
    var n := loc[0].name;
    var p := ps[Find(ps, n)];
    ChangeKeepsFieldCount(spec, ps, top, clears, pre, args, p);
    ChangeKeepsArrivalBelow(
      spec, p, top, clears, pre.fields[n], args.fields[n], FieldCount(spec, top, pre, p), loc[1..]);
  }

  /** The collector's kind is the declared one. */
  lemma KindIsDeclared(spec: Spec, params: seq<Param>, visit: Visit)
    requires Collected(spec, params, visit.binding)
    ensures visit.binding.kind == KindAt(spec, params, visit.Place())
  {
    var b := visit.binding;
    ConcreteNames(b.path, visit.idx);
    FrontierDeclaresIn(spec, params, true, b.path, 0);
    TransferKind(spec, b.param, b.path);
  }

  // ----- An empty struct array is read in the request -----

  predicate DeclaresStructArray(spec: Spec, members: seq<Param>, names: seq<string>) {
    var p := Declaration(spec, members, names);
    p.Some? && StructArray(spec, p.value)
  }

  lemma {:induction false} MembersHaveWord(
      spec: Spec, ps: seq<Param>, top: bool, v: Value, k: nat, j: nat, word: Word)
    requires k <= j < |ps| && v.Record? && ps[j].name in v.fields
    requires word in Words(spec, ps[j], top, v.fields[ps[j].name], FieldCount(spec, top, v, ps[j]))
    ensures word in MemberWords(spec, ps, top, v, k) || Unreadable in MemberWords(spec, ps, top, v, k)
    decreases j - k
  {
    if k < j {
      MembersHaveWord(spec, ps, top, v, k + 1, j, word);
    }
  }

  lemma {:induction false} ElementsHaveWord(
      spec: Spec, p: Param, v: Value, n: nat, i: nat, j: nat, word: Word)
    requires v.Block? && i <= j < n <= |v.elems| && p.typ in spec.structs
    requires word in MemberWords(spec, spec.Members(p), false, v.elems[j], 0)
    ensures word in ElementWords(spec, p, v, n, i)
    decreases j - i
  {
    if i < j {
      ElementsHaveWord(spec, p, v, n, i + 1, j, word);
    }
  }

  lemma {:induction false} UnreadBelow(
      spec: Spec, p: Param, decay: bool, v: Value, count: Option<int>, loc: Location)
    requires IsLocation(spec, p, decay, v, loc) && ArrivesBelow(spec, p, v, count, loc)
    requires Get(v, loc) == Some(Block([]))
    requires loc == [] ==> StructArray(spec, p)
    requires loc != [] ==> p.typ in spec.structs && DeclaresStructArray(spec, spec.Members(p), PlaceNames(loc))
    ensures Unreadable in Words(spec, p, decay, v, count)
    decreases |loc|, 1
  {
    if !spec.Modifiable(p, decay) {
      var ms := spec.Members(p);
      if p.Hops() {
        var i := loc[0].i;
        assert PlaceNames(loc) == PlaceNames(loc[1..]);
        UnreadIn(spec, ms, false, v.elems[i], loc[1..]);
        if p.pointer == "" {
          ElementsHaveWord(spec, p, v, |v.elems|, 0, i, Unreadable);
        } else if PointerWord(v, count).Sound? {
          ElementsHaveWord(spec, p, v, count.value, 0, i, Unreadable);
        }
      } else {
        UnreadIn(spec, ms, false, v, loc);
      }
    }
  }

  lemma {:induction false} UnreadIn(spec: Spec, ps: seq<Param>, top: bool, v: Value, loc: Location)
    requires IsLocationIn(spec, ps, top, v, loc) && Arrives(spec, ps, top, v, loc)
    requires Get(v, loc) == Some(Block([])) && DeclaresStructArray(spec, ps, PlaceNames(loc))
    ensures Unreadable in MemberWords(spec, ps, top, v, 0)
    decreases |loc|, 0
  {
    var n := loc[0].name;
    var k := Find(ps, n);
    var count := FieldCount(spec, top, v, ps[k]);
    assert PlaceNames(loc) == [n] + PlaceNames(loc[1..]);
    RestIsDeclared(spec, ps, n, PlaceNames(loc[1..]));
    LongerHasNames(spec, ps[k], top, v.fields[n], loc[1..]);
    UnreadBelow(spec, ps[k], top, v.fields[n], count, loc[1..]);
    MembersHaveWord(spec, ps, top, v, 0, k, Unreadable);
  }

  lemma RestIsDeclared(spec: Spec, ps: seq<Param>, name: string, rest: seq<string>)
    requires Find(ps, name) < |ps|
    ensures var p := ps[Find(ps, name)];
            Declaration(spec, ps, [name] + rest) ==
            if rest == [] then Some(p)
            else if p.typ in spec.structs then Declaration(spec, spec.Members(p), rest) else None
  {
    assert ([name] + rest)[1..] == rest;
  }

  /** What a place inside a parameter goes through has names. */
  lemma LongerHasNames(spec: Spec, p: Param, decay: bool, v: Value, loc: Location)
    requires IsLocation(spec, p, decay, v, loc)
    ensures loc != [] <==> PlaceNames(loc) != []
    ensures loc != [] ==> p.typ in spec.structs
  {
    if loc != [] && loc[0].At? {
      assert PlaceNames(loc) == PlaceNames(loc[1..]);
    }
  }

  /** The type of its first element is read whatever the count is. */
  lemma EmptyStructArrayUnread(spec: Spec, params: seq<Param>, pre: Value, loc: Location)
    requires Reference(spec, params, pre, loc) && Arrives(spec, params, true, pre, loc)
    requires Get(pre, loc) == Some(Block([])) && KindAt(spec, params, loc).XrArray?
    ensures !RequestReads(spec, params, pre)
  {
    UnreadIn(spec, params, true, pre, loc);
  }

  // ----- Storing a run -----

  /** The first elements of `w`, the others of `v`; null if there are none in a struct array that is not
      a parameter. */
  function Overlaid(kind: Kind, nested: bool, n: int, v: Value, w: Value): Value {
    match (v, w)
    case (Block(e), Block(f)) =>
      if 0 < n <= |e| == |f| then Block(f[..n] + e[n..])
      else if n == 0 && kind.XrArray? && nested then Null
      else v
    case _ => v
  }

  function Overlay(
      spec: Spec, params: seq<Param>, pre: Value, loc: Location, v: Option<Value>, w: Option<Value>): Option<Value>
  {
    match (Travelling(spec, params, pre, loc), v, w)
    case (Some(n), Some(x), Some(y)) => Some(Overlaid(KindAt(spec, params, loc), |loc| > 1, n, x, y))
    case _ => v
  }

  lemma OverlaidTwice(kind: Kind, nested: bool, n: int, v: Value, w: Value)
    ensures Overlaid(kind, nested, n, Overlaid(kind, nested, n, v, w), w) == Overlaid(kind, nested, n, v, w)
  {
    if v.Block? && w.Block? && 0 < n <= |v.elems| == |w.elems| {
      var e, f := v.elems, w.elems;
      assert f[..n] + (f[..n] + e[n..])[n..] == f[..n] + e[n..];
    }
  }

  /** A run goes from one side to the other exactly if the reference fits its count. */
  lemma RunOverlays(kind: Kind, nested: bool, count: int, v: Value, w: Value)
    requires SameShape(v, w)
    ensures var sent, n := Sent(kind, w, count), Marker(kind, count);
            if v.Null? || (v.Block? && 0 <= n <= |v.elems| && n < MARKER_LIMIT && (n == 0 ==> kind.XrArray?)) then
              && sent.Some?
              && Received(kind, nested, v, sent.value) == Some(Overlaid(kind, nested, n, v, w))
            else sent.None? || Received(kind, nested, v, sent.value).None?
  {
  }

  /** A visit of a collected binding to a reference, with a count that the generated code can evaluate. */
  ghost predicate Proper(spec: Spec, params: seq<Param>, pre: Value, visit: Visit) {
    && Collected(spec, params, visit.binding)
    && Reference(spec, params, pre, visit.Place())
    && ElementCount(spec, params, pre, visit.Place()).Some?
  }

  ghost predicate AllProper(spec: Spec, params: seq<Param>, pre: Value, visits: seq<Visit>) {
    forall visit <- visits :: Proper(spec, params, pre, visit)
  }

  predicate AllFit(spec: Spec, params: seq<Param>, pre: Value, visits: seq<Visit>) {
    forall visit <- visits :: Fits(spec, params, pre, visit.Place())
  }

  /** `args` holds the callee's elements at `locs`, as many as are counted there, and what `base` holds
      everywhere else. */
  ghost predicate Merged(
      spec: Spec, params: seq<Param>, pre: Value, base: Value, post: Value, locs: set<Location>, args: Value)
  {
    && ClientState(spec, params, pre, args)
    && forall loc :: Reference(spec, params, pre, loc) ==>
         Get(args, loc) ==
         if loc in locs then Overlay(spec, params, pre, loc, Get(base, loc), Get(post, loc)) else Get(base, loc)
  }

  lemma PutChangesOne(
      spec: Spec, params: seq<Param>, clears: bool, pre: Value, base: Value, loc: Location, w: Value)
    requires DistinctNames(params) && Reference(spec, params, pre, loc)
    requires ChangedFields(spec, params, true, clears, pre, base)
    requires Get(pre, loc).Some? && KeepsShape(clears, Get(pre, loc).value, w)
    ensures Get(base, loc).Some? && ChangedFields(spec, params, true, clears, pre, Put(base, loc, w))
    ensures forall other :: Reference(spec, params, pre, other) ==>
              Get(Put(base, loc, w), other) == if other == loc then Some(w) else Get(base, other)
  {
    ChangeKeepsLocationIn(spec, params, true, clears, pre, base, loc);
    PutInFieldsIsChange(spec, params, true, clears, pre, base, loc, w);
    GetPut(base, loc, w);
    forall other | Reference(spec, params, pre, other) && other != loc
      ensures Get(Put(base, loc, w), other) == Get(base, other)
    {
      ChangeKeepsLocationIn(spec, params, true, clears, pre, base, other);
      PutElsewhereIn(spec, params, true, base, loc, other, w);
    }
  }

  lemma PutKeepsClientState(
      spec: Spec, params: seq<Param>, pre: Value, base: Value, loc: Location, w: Value)
    requires DistinctNames(params) && Reference(spec, params, pre, loc) && ClientState(spec, params, pre, base)
    requires ClientKeeps(spec, params, pre, loc, Get(pre, loc).value, w)
    ensures ClientState(spec, params, pre, Put(base, loc, w))
    ensures forall other :: Reference(spec, params, pre, other) ==>
              Get(Put(base, loc, w), other) == if other == loc then Some(w) else Get(base, other)
  {
    PutChangesOne(spec, params, true, pre, base, loc, w);
  }

  /** The arguments the caller starts with. */
  lemma CallerIsClientState(spec: Spec, params: seq<Param>, pre: Value)
    requires TypedFields(spec, params, true, pre)
    ensures ClientState(spec, params, pre, pre)
  {
    TypedFieldsIsChanged(spec, params, true, true, pre);
    forall loc | Reference(spec, params, pre, loc)
      ensures Get(pre, loc).Some?
    {
      ChangeKeepsLocationIn(spec, params, true, true, pre, pre, loc);
    }
  }

  /** One visit: what the server sends there, stored by the client. */
  function Handover(spec: Spec, params: seq<Param>, base: Value, post: Value, visit: Visit): Option<Value> {
    match Send(spec, params, post, visit)
    case None => None
    case Some(run) => Receive(base, visit, run)
  }

  /** What is left of a reference that an earlier empty run has made null. */
  lemma ClearedStaysNull(kind: Kind, nested: bool, count: int, w: Value)
    requires w.Block? && kind.XrArray? && nested && Marker(kind, count) == 0
    ensures Sent(kind, w, count) == Some([]) && Received(kind, nested, Null, []) == Some(Null)
    ensures Overlaid(kind, nested, 0, Null, w) == Null
  {
  }

  lemma ReferenceHandsOver(
      spec: Spec, params: seq<Param>, pre: Value, loc: Location, count: int, u: Value, v: Value, w: Value)
    requires Get(pre, loc) == Some(u) && Arrives(spec, params, true, pre, loc)
    requires ElementCount(spec, params, pre, loc) == Some(count)
    requires SameShape(u, w) && ClientKeeps(spec, params, pre, loc, u, v)
    ensures var kind, nested := KindAt(spec, params, loc), |loc| > 1;
            var sent := Sent(kind, w, count);
            if Fits(spec, params, pre, loc) then
              && sent.Some?
              && Received(kind, nested, v, sent.value) == Some(Overlaid(kind, nested, Marker(kind, count), v, w))
            else sent.None? || Received(kind, nested, v, sent.value).None?
  {
    var kind, nested := KindAt(spec, params, loc), |loc| > 1;
    if SameShape(u, v) {
      SameShapeJoin(u, v, w);
      RunOverlays(kind, nested, count, v, w);
    } else {
      ClearedStaysNull(kind, nested, count, w);
    }
  }

  lemma VisitHandsOver(spec: Spec, params: seq<Param>, pre: Value, base: Value, post: Value, visit: Visit)
    requires Proper(spec, params, pre, visit)
    requires ClientState(spec, params, pre, base) && CalleeEffect(spec, params, pre, post)
    ensures Handover(spec, params, base, post, visit) ==
            if !Fits(spec, params, pre, visit.Place()) then None
            else
              match Overlay(spec, params, pre, visit.Place(), Get(base, visit.Place()), Get(post, visit.Place()))
              case None => None
              case Some(w) => Some(Put(base, visit.Place(), w))
  {
    var loc := visit.Place();
    CountIsDeclared(spec, params, post, visit);
    KindIsDeclared(spec, params, visit);
    ChangeKeepsElementCount(spec, params, false, pre, post, loc);
    ChangeKeepsArrival(spec, params, true, false, pre, post, loc);
    ChangeKeepsLocationIn(spec, params, true, false, pre, post, loc);
    if Arrives(spec, params, true, pre, loc) {
      ReferenceHandsOver(
        spec, params, pre, loc, CountIn(spec, post, visit).value, Get(pre, loc).value, Get(base, loc).value,
        Get(post, loc).value);
    }
  }

  lemma OverlayKeeps(spec: Spec, params: seq<Param>, pre: Value, loc: Location, v: Value, w: Value)
    requires Get(pre, loc).Some? && SameShape(Get(pre, loc).value, w)
    requires ClientKeeps(spec, params, pre, loc, Get(pre, loc).value, v)
    ensures var r := Overlay(spec, params, pre, loc, Some(v), Some(w));
            r.Some? && ClientKeeps(spec, params, pre, loc, Get(pre, loc).value, r.value)
  {
  }

  lemma SameShapeJoin(a: Value, b: Value, c: Value)
    requires SameShape(a, b)
    ensures SameShape(a, c) <==> SameShape(b, c)
  {
  }

  lemma VisitMerges(spec: Spec, params: seq<Param>, pre: Value, base: Value, post: Value, visit: Visit)
    requires DistinctNames(params) && Proper(spec, params, pre, visit)
    requires ClientState(spec, params, pre, base) && CalleeEffect(spec, params, pre, post)
    ensures var next := Handover(spec, params, base, post, visit);
            && (next.Some? <==> Fits(spec, params, pre, visit.Place()))
            && (next.Some? ==> Merged(spec, params, pre, base, post, {visit.Place()}, next.value))
  {
    VisitHandsOver(spec, params, pre, base, post, visit);
    var loc := visit.Place();
    ChangeKeepsLocationIn(spec, params, true, false, pre, post, loc);
    OverlayKeeps(spec, params, pre, loc, Get(base, loc).value, Get(post, loc).value);
    var w := Overlay(spec, params, pre, loc, Get(base, loc), Get(post, loc)).value;
    PutKeepsClientState(spec, params, pre, base, loc, w);
  }

  lemma MergedJoin(
    spec: Spec, params: seq<Param>, pre: Value, base: Value, next: Value, last: Value, post: Value,
    first: set<Location>, rest: set<Location>)
    requires Merged(spec, params, pre, base, post, first, next)
    requires Merged(spec, params, pre, next, post, rest, last)
    ensures Merged(spec, params, pre, base, post, first + rest, last)
  {
    forall loc | Reference(spec, params, pre, loc) && loc in first && loc in rest
      ensures Get(last, loc) == Overlay(spec, params, pre, loc, Get(base, loc), Get(post, loc))
    {
      OverlayTwice(spec, params, pre, loc, Get(base, loc), Get(post, loc));
    }
  }

  lemma OverlayTwice(
      spec: Spec, params: seq<Param>, pre: Value, loc: Location, v: Option<Value>, w: Option<Value>)
    ensures var once := Overlay(spec, params, pre, loc, v, w);
            Overlay(spec, params, pre, loc, once, w) == once
  {
    var n := Travelling(spec, params, pre, loc);
    if n.Some? && v.Some? && w.Some? {
      OverlaidTwice(KindAt(spec, params, loc), |loc| > 1, n.value, v.value, w.value);
    }
  }

  lemma SplitProper(spec: Spec, params: seq<Param>, pre: Value, first: seq<Visit>, rest: seq<Visit>)
    requires AllProper(spec, params, pre, first + rest)
    ensures AllProper(spec, params, pre, first) && AllProper(spec, params, pre, rest)
    ensures AllFit(spec, params, pre, first + rest) <==>
            AllFit(spec, params, pre, first) && AllFit(spec, params, pre, rest)
    ensures Places(first + rest) == Places(first) + Places(rest)
  {
    assert forall visit <- first :: visit in first + rest;
    assert forall visit <- rest :: visit in first + rest;
  }

  lemma FirstOrLater(visits: seq<Visit>, visit: Visit)
    requires visits != []
    ensures visit in visits <==> visit == visits[0] || visit in visits[1..]
  {
    assert visits == [visits[0]] + visits[1..];
  }

  lemma FirstVisit(spec: Spec, params: seq<Param>, pre: Value, visits: seq<Visit>)
    requires visits != [] && AllProper(spec, params, pre, visits)
    ensures Proper(spec, params, pre, visits[0]) && AllProper(spec, params, pre, visits[1..])
    ensures AllFit(spec, params, pre, visits) <==>
            Fits(spec, params, pre, visits[0].Place()) && AllFit(spec, params, pre, visits[1..])
    ensures Places(visits) == {visits[0].Place()} + Places(visits[1..])
  {
    forall visit: Visit
      ensures visit in visits <==> visit == visits[0] || visit in visits[1..]
    {
      FirstOrLater(visits, visit);
    }
  }

  /** The visits of one binding on both sides. */
  function Exchange(
      spec: Spec, params: seq<Param>, base: Value, post: Value, visits: seq<Visit>, wire: seq<seq<Value>>)
    : Option<(Value, seq<seq<Value>>)>
  {
    match Read(spec, params, post, visits)
    case None => None
    case Some(runs) => Store(base, visits, runs + wire)
  }

  /** Visit by visit is the same as all sent first and stored afterwards. */
  lemma ExchangeFirst(
      spec: Spec, params: seq<Param>, base: Value, post: Value, visits: seq<Visit>, wire: seq<seq<Value>>)
    requires visits != []
    ensures Exchange(spec, params, base, post, visits, wire) ==
            match Handover(spec, params, base, post, visits[0])
            case None => None
            case Some(next) => Exchange(spec, params, next, post, visits[1..], wire)
  {
    var rest := Read(spec, params, post, visits[1..]);
    if Send(spec, params, post, visits[0]).Some? && rest.Some? {
      var run := Send(spec, params, post, visits[0]).value;
      assert [run] + rest.value + wire == [run] + (rest.value + wire);
    }
  }

  lemma {:induction false} StoreMerges(
    spec: Spec, params: seq<Param>, pre: Value, base: Value, post: Value, visits: seq<Visit>, wire: seq<seq<Value>>)
    requires DistinctNames(params) && AllProper(spec, params, pre, visits)
    requires ClientState(spec, params, pre, base) && CalleeEffect(spec, params, pre, post)
    ensures var r := Exchange(spec, params, base, post, visits, wire);
            && (r.Some? <==> AllFit(spec, params, pre, visits))
            && (r.Some? ==> r.value.1 == wire)
            && (r.Some? ==> Merged(spec, params, pre, base, post, Places(visits), r.value.0))
    decreases |visits|
  {
    if visits == [] {
      assert [] + wire == wire;
    } else {
      var visit, rest := visits[0], visits[1..];
      FirstVisit(spec, params, pre, visits);
      VisitMerges(spec, params, pre, base, post, visit);
      ExchangeFirst(spec, params, base, post, visits, wire);
      var next := Handover(spec, params, base, post, visit);
      if next.Some? {
        StoreMerges(spec, params, pre, next.value, post, rest, wire);
        var last := Exchange(spec, params, next.value, post, rest, wire);
        if last.Some? {
          MergedJoin(
            spec, params, pre, base, next.value, last.value.0, post, {visit.Place()}, Places(rest));
        }
      }
    }
  }

  lemma ReturnedFirst(
      spec: Spec, params: seq<Param>, bs: seq<Binding>, base: Value, post: Value, visits: seq<Visit>)
    requires bs != [] && Visits(spec, post, bs[0]) == Some(visits) && Visits(spec, base, bs[0]) == Some(visits)
    ensures Returned(spec, params, bs, base, post) ==
            match Emit(spec, params, bs[1..], post)
            case None => None
            case Some(wire) =>
              match Exchange(spec, params, base, post, visits, wire)
              case None => None
              case Some((next, rest)) => Absorb(spec, bs[1..], next, rest)
  {
  }

  lemma {:induction false} RemoteCallMerges(
    spec: Spec, params: seq<Param>, bs: seq<Binding>, pre: Value, base: Value, post: Value)
    requires DistinctNames(params)
    requires ClientState(spec, params, pre, base) && CalleeEffect(spec, params, pre, post)
    requires AllVisits(spec, pre, bs).Some? && AllProper(spec, params, pre, AllVisits(spec, pre, bs).value)
    ensures var r := Returned(spec, params, bs, base, post);
            && (r.Some? <==> AllFit(spec, params, pre, AllVisits(spec, pre, bs).value))
            && (r.Some? ==> Merged(spec, params, pre, base, post, Places(AllVisits(spec, pre, bs).value), r.value))
    decreases |bs|
  {
    if bs == [] {
    } else {
      var visits, later := Visits(spec, pre, bs[0]).value, AllVisits(spec, pre, bs[1..]).value;
      ChangeKeepsCounts(spec, params, true, pre, base, bs[0].loops);
      ChangeKeepsCounts(spec, params, false, pre, post, bs[0].loops);
      SplitProper(spec, params, pre, visits, later);
      ReturnedFirst(spec, params, bs, base, post, visits);
      RemoteCallMerges(spec, params, bs[1..], pre, base, post);
      var wire := Emit(spec, params, bs[1..], post);
      if wire.Some? {
        StoreMerges(spec, params, pre, base, post, visits, wire.value);
        var r := Exchange(spec, params, base, post, visits, wire.value);
        if r.Some? {
          var next := r.value.0;
          RemoteCallMerges(spec, params, bs[1..], pre, next, post);
          var last := Returned(spec, params, bs[1..], next, post);
          if last.Some? {
            MergedJoin(spec, params, pre, base, next, last.value, post, Places(visits), Places(later));
          }
        }
      }
    }
  }

  // ----- Visited locations are references -----

  lemma {:induction false} FrontierIsLocation(
      spec: Spec, p: Param, decay: bool, v: Value, path: Path, n: nat, idx: seq<nat>)
    requires OnFrontier(spec, p, decay, path, n)
    requires Get(v, Concrete(path, idx)).Some?
    ensures IsLocation(spec, p, decay, v, Concrete(path, idx))
    decreases |path|, 1
  {
    if !spec.Modifiable(p, decay) {
      var loc := Concrete(path, idx);
      var rest := path[|Hop(p, n)|..];
      if p.Hops() {
        assert path[1..] == rest;
        var next := if p.Loops() then n + 1 else n;
        FrontierIsLocationIn(spec, spec.Members(p), false, v.elems[loc[0].i], rest, next, idx);
      } else {
        assert path == rest;
        FrontierIsLocationIn(spec, spec.Members(p), false, v, path, n, idx);
      }
    }
  }

  lemma {:induction false} FrontierIsLocationIn(
      spec: Spec, ps: seq<Param>, decay: bool, v: Value, path: Path, n: nat, idx: seq<nat>)
    requires OnFrontierOf(spec, ps, decay, path, n)
    requires Get(v, Concrete(path, idx)).Some?
    ensures IsLocationIn(spec, ps, decay, v, Concrete(path, idx))
    decreases |path|, 0
  {
    var name := path[0].name;
    FrontierIsLocation(spec, ps[Find(ps, name)], decay, v.fields[name], path[1..], n, idx);
  }

  /** Every visit of the nested loops is one of the binding, with loop variables below the counts. */
  lemma {:induction false} NestIsWithin(b: Binding, counts: seq<nat>, idx: seq<nat>, visit: Visit)
    requires |idx| <= |counts| && visit in Nest(b, counts, idx)
    ensures visit.binding == b && |visit.idx| == |counts| && idx <= visit.idx
    ensures forall k :: |idx| <= k < |counts| ==> visit.idx[k] < counts[k]
    decreases |counts| - |idx|
  {
    if |idx| < |counts| {
      var i := NestFromMember(b, counts, idx, 0, visit);
      NestIsWithin(b, counts, idx + [i], visit);
      assert visit.idx[|idx|] == (idx + [i])[|idx|] == i;
    }
  }

  lemma {:induction false} NestFromMember(b: Binding, counts: seq<nat>, idx: seq<nat>, i: nat, visit: Visit)
    returns (j: nat)
    requires |idx| < |counts| && i <= counts[|idx|] && visit in NestFrom(b, counts, idx, i)
    ensures i <= j < counts[|idx|] && visit in Nest(b, counts, idx + [j])
    decreases counts[|idx|] - i
  {
    if visit in Nest(b, counts, idx + [i]) {
      j := i;
    } else {
      j := NestFromMember(b, counts, idx, i + 1, visit);
    }
  }

  lemma {:induction false} AllVisitsMember(spec: Spec, args: Value, bs: seq<Binding>, visit: Visit)
    requires AllVisits(spec, args, bs).Some? && visit in AllVisits(spec, args, bs).value
    ensures visit.binding in bs && Counts(spec, args, visit.binding.loops).Some?
    ensures Within(visit.idx, Counts(spec, args, visit.binding.loops).value)
  {
    if visit in Visits(spec, args, bs[0]).value {
      NestIsWithin(bs[0], Counts(spec, args, bs[0].loops).value, [], visit);
    } else {
      AllVisitsMember(spec, args, bs[1..], visit);
    }
  }

  ghost predicate Within(idx: seq<nat>, counts: seq<nat>) {
    |idx| == |counts| && forall k :: 0 <= k < |idx| ==> idx[k] < counts[k]
  }

  lemma VisitIsCollected(spec: Spec, params: seq<Param>, args: Value, visit: Visit)
    requires DistinctNames(params)
    requires AllVisits(spec, args, FunctionBindings(spec, params)).Some?
    requires visit in AllVisits(spec, args, FunctionBindings(spec, params)).value
    ensures visit.binding in FunctionBindings(spec, params) && Collected(spec, params, visit.binding)
    ensures Get(args, visit.Place()).Some? ==> Reference(spec, params, args, visit.Place())
  {
    FunctionBindingsExact(spec, params);
    AllVisitsMember(spec, args, FunctionBindings(spec, params), visit);
    var path := visit.binding.path;
    assert OnFrontierOf(spec, params, true, path, 0);
    if Get(args, visit.Place()).Some? {
      FrontierIsLocationIn(spec, params, true, args, path, 0, visit.idx);
    }
  }

  // ----- A count that compiles has a value -----

  lemma {:induction false} PlaceNamesEnd(loc: Location, name: string)
    ensures PlaceNames(loc + [InField(name)]) == PlaceNames(loc) + [name]
  {
    if loc == [] {
    } else {
      PlaceNamesEnd(loc[1..], name);
      assert (loc + [InField(name)])[1..] == loc[1..] + [InField(name)];
    }
  }

  lemma NumberField(spec: Spec, ps: seq<Param>, decay: bool, v: Value, name: string)
    requires TypedFields(spec, ps, decay, v) && DeclaresNumber(spec, ps, [name])
    ensures Scalar(Get(v, [InField(name)])).Some?
  {
    var k := Find(ps, name);
    assert ps[k].name in Names(ps) && Typed(spec, ps[k], decay, v.fields[name]);
  }

  lemma {:induction false} NumberBeside(spec: Spec, p: Param, decay: bool, v: Value, loc: Location, name: string)
    requires Typed(spec, p, decay, v) && IsLocation(spec, p, decay, v, loc) && loc != []
    requires DeclaresNumber(spec, spec.Members(p), PlaceNames(Beside(loc, name)))
    ensures Scalar(Get(v, Beside(loc, name))).Some?
    decreases |loc|, 1
  {
    if p.Hops() {
      BesideBelow(loc, name);
      assert PlaceNames(Beside(loc, name)) == PlaceNames(Beside(loc[1..], name));
      NumberBesideIn(spec, spec.Members(p), false, v.elems[loc[0].i], loc[1..], name);
    } else {
      NumberBesideIn(spec, spec.Members(p), false, v, loc, name);
    }
  }

  lemma {:induction false} NumberBesideIn(
      spec: Spec, ps: seq<Param>, decay: bool, v: Value, loc: Location, name: string)
    requires TypedFields(spec, ps, decay, v) && IsLocationIn(spec, ps, decay, v, loc)
    requires DeclaresNumber(spec, ps, PlaceNames(Beside(loc, name)))
    ensures Scalar(Get(v, Beside(loc, name))).Some?
    decreases |loc|, 0
  {
    PlaceNamesEnd(loc[..|loc| - 1], name);
    if |loc| == 1 {
      NumberField(spec, ps, decay, v, name);
    } else {
      BesideBelow(loc, name);
      PlaceNamesEnd(loc[1..][..|loc| - 2], name);
      assert PlaceNames(Beside(loc, name)) == [loc[0].name] + PlaceNames(Beside(loc[1..], name));
      NumberBeside(spec, ps[Find(ps, loc[0].name)], decay, v.fields[loc[0].name], loc[1..], name);
    }
  }

  lemma CompiledCount(spec: Spec, params: seq<Param>, pre: Value, visit: Visit)
    requires TypedFields(spec, params, true, pre) && Reference(spec, params, pre, visit.Place())
    requires Collected(spec, params, visit.binding) && Compiles(spec, params, visit.binding)
    ensures CountIn(spec, pre, visit).Some?
  {
    match visit.binding.len
    case NoLength =>
    case Length(prefix, text) =>
      if prefix == [] {
        if text !in spec.constants {
          assert [] + [Field(text)] == [Field(text)] && PathNames([Field(text)][1..]) == [];
          NumberField(spec, params, true, pre, text);
        }
      } else {
        BesideIsConcrete(visit.binding.path, text, visit.idx);
        ConcreteNames(prefix + [Field(text)], visit.idx);
        NumberBesideIn(spec, params, true, pre, visit.Place(), text);
      }
  }

  lemma VisitsAreProper(spec: Spec, params: seq<Param>, pre: Value, visits: seq<Visit>)
    requires DistinctNames(params) && TypedFields(spec, params, true, pre) && AllCompile(spec, params)
    requires AllVisits(spec, pre, FunctionBindings(spec, params)) == Some(visits)
    requires forall visit <- visits :: Get(pre, visit.Place()).Some?
    ensures AllProper(spec, params, pre, visits)
  {
    forall visit | visit in visits
      ensures Proper(spec, params, pre, visit)
    {
      VisitIsCollected(spec, params, pre, visit);
      CompiledCount(spec, params, pre, visit);
      CountIsDeclared(spec, params, pre, visit);
    }
  }

  // ----- What the caller sees -----

  lemma {:induction false} CalleeKeepsVisits(
      spec: Spec, params: seq<Param>, pre: Value, args: Value, bs: seq<Binding>)
    requires CalleeEffect(spec, params, pre, args)
    ensures AllVisits(spec, args, bs) == AllVisits(spec, pre, bs)
  {
    if bs == [] {
    } else {
      ChangeKeepsCounts(spec, params, false, pre, args, bs[0].loops);
      CalleeKeepsVisits(spec, params, pre, args, bs[1..]);
    }
  }

  lemma {:induction false} ReadIsInside(spec: Spec, params: seq<Param>, args: Value, visits: seq<Visit>)
    requires Read(spec, params, args, visits).Some?
    ensures forall visit <- visits :: Get(args, visit.Place()).Some?
  {
    if visits == [] {
    } else {
      ReadIsInside(spec, params, args, visits[1..]);
    }
  }

  lemma {:induction false} EmitVisits(spec: Spec, params: seq<Param>, bs: seq<Binding>, args: Value)
    requires Emit(spec, params, bs, args).Some?
    ensures AllVisits(spec, args, bs).Some?
    ensures forall visit <- AllVisits(spec, args, bs).value :: Get(args, visit.Place()).Some?
  {
    if bs == [] {
    } else {
      EmitVisits(spec, params, bs[1..], args);
      ReadIsInside(spec, params, args, Visits(spec, args, bs[0]).value);
    }
  }

  /** Where the server can read, the caller has a reference. */
  lemma EmittedIsInside(spec: Spec, params: seq<Param>, pre: Value, post: Value)
    requires DistinctNames(params) && CalleeEffect(spec, params, pre, post)
    requires Emit(spec, params, FunctionBindings(spec, params), post).Some?
    ensures AllVisits(spec, pre, FunctionBindings(spec, params)).Some?
    ensures forall visit <- AllVisits(spec, pre, FunctionBindings(spec, params)).value :: Get(pre, visit.Place()).Some?
  {
    var bs := FunctionBindings(spec, params);
    EmitVisits(spec, params, bs, post);
    CalleeKeepsVisits(spec, params, pre, post, bs);
    forall visit | visit in AllVisits(spec, pre, bs).value
      ensures Get(pre, visit.Place()).Some?
    {
      VisitIsCollected(spec, params, post, visit);
      ChangeAddsNoLocationIn(spec, params, true, false, pre, post, visit.Place());
      ChangeKeepsLocationIn(spec, params, true, false, pre, post, visit.Place());
    }
  }

  /** After any remote call: it returns exactly if every generated line compiles, the server can read
      the request, every loop end resolves and every visited reference fits its count.  The caller
      then has the callee's elements at the visited places, as many as are counted there, null in
      place of a struct array inside a struct that counts none, and its own elements everywhere
      else. */
  lemma RemoteCallResult(spec: Spec, params: seq<Param>, pre: Value, post: Value)
    requires DistinctNames(params) && TypedFields(spec, params, true, pre) && CalleeEffect(spec, params, pre, post)
    ensures var r, visits := RemoteCall(spec, params, pre, post), AllVisits(spec, pre, FunctionBindings(spec, params));
            && (r.Some? <==> && AllCompile(spec, params) && RequestReads(spec, params, pre)
                             && visits.Some? && AllFit(spec, params, pre, visits.value))
            && (r.Some? ==> Merged(spec, params, pre, pre, post, Places(visits.value), r.value))
  {
    var bs := FunctionBindings(spec, params);
    if AllCompile(spec, params) && RequestReads(spec, params, pre) {
      if Emit(spec, params, bs, post).Some? {
        EmittedIsInside(spec, params, pre, post);
      }
      var visits := AllVisits(spec, pre, bs);
      if visits.Some? && forall visit <- visits.value :: Get(pre, visit.Place()).Some? {
        CallerIsClientState(spec, params, pre);
        VisitsAreProper(spec, params, pre, visits.value);
        RemoteCallMerges(spec, params, bs, pre, pre, post);
      }
    }
  }

  /** One visited reference that does not fit is enough for the call to fail. */
  lemma UnfitFails(spec: Spec, params: seq<Param>, pre: Value, post: Value, visits: seq<Visit>, k: nat)
    requires DistinctNames(params) && TypedFields(spec, params, true, pre) && CalleeEffect(spec, params, pre, post)
    requires AllVisits(spec, pre, FunctionBindings(spec, params)) == Some(visits)
    requires k < |visits| && !Fits(spec, params, pre, visits[k].Place())
    ensures RemoteCall(spec, params, pre, post) == None
  {
    RemoteCallResult(spec, params, pre, post);
    assert visits[k] in visits;
  }

  /** If all of that holds, the call returns. */
  lemma ReturnsMerged(spec: Spec, params: seq<Param>, pre: Value, post: Value, visits: seq<Visit>) returns (r: Value)
    requires DistinctNames(params) && TypedFields(spec, params, true, pre) && CalleeEffect(spec, params, pre, post)
    requires AllCompile(spec, params) && RequestReads(spec, params, pre)
    requires AllVisits(spec, pre, FunctionBindings(spec, params)) == Some(visits) && AllFit(spec, params, pre, visits)
    ensures RemoteCall(spec, params, pre, post) == Some(r)
    ensures Merged(spec, params, pre, pre, post, Places(visits), r)
  {
    RemoteCallResult(spec, params, pre, post);
    r := RemoteCall(spec, params, pre, post).value;
  }

  lemma EmptiedIsNull(spec: Spec, params: seq<Param>, pre: Value, loc: Location, v: Value, w: Value)
    requires Empties(spec, params, pre, loc) && v.Block? && w.Block?
    ensures Overlay(spec, params, pre, loc, Some(v), Some(w)) == Some(Null)
  {
  }

  /** Inside a struct, a struct array that counts no elements costs the caller its pointer, whatever the
      callee does. */
  lemma EmptiedIsLost(
      spec: Spec, params: seq<Param>, pre: Value, post: Value, visits: seq<Visit>, visit: Visit, r: Value)
    requires DistinctNames(params) && TypedFields(spec, params, true, pre) && CalleeEffect(spec, params, pre, post)
    requires AllVisits(spec, pre, FunctionBindings(spec, params)) == Some(visits) && visit in visits
    requires RemoteCall(spec, params, pre, post) == Some(r)
    requires Empties(spec, params, pre, visit.Place())
    requires Get(pre, visit.Place()).Some? && Get(pre, visit.Place()).value.Block?
    ensures Get(r, visit.Place()) == Some(Null) && Get(post, visit.Place()) != Some(Null)
  {
    var loc := visit.Place();
    RemoteCallResult(spec, params, pre, post);
    VisitIsCollected(spec, params, pre, visit);
    ChangeKeepsLocationIn(spec, params, true, false, pre, post, loc);
    assert loc in Places(visits);
    EmptiedIsNull(spec, params, pre, loc, Get(pre, loc).value, Get(post, loc).value);
  }

  /** A different value of the same shape, different in its last element if it is a block. */
  ghost function Rewritten(v: Value): (w: Value)
    requires Writable(v)
    ensures SameShape(v, w) && w != v
    ensures v.Block? ==> w.elems[|v.elems| - 1] != v.elems[|v.elems| - 1]
  {
    match v
    case Record(f) =>
      var n :| n in f.Keys;
      var x := if f[n].Null? then Leaf(0) else Null;
      var g := f[n := x];
      assert g[n] != f[n];
      Record(g)
    case Block(e) =>
      var last := |e| - 1;
      Block(e[last := if e[last].Null? then Leaf(0) else Null])
  }

  /** Write-back correctness: the caller sees exactly the callee's effect, whatever the callee
      writes behind non-const references, if and only if the arguments are covered. */
  lemma WriteBackExact(spec: Spec, params: seq<Param>, pre: Value)
    requires DistinctNames(params) && TypedFields(spec, params, true, pre)
    ensures (forall post :: CalleeEffect(spec, params, pre, post) ==> RemoteCall(spec, params, pre, post) == Some(post))
       <==> Covered(spec, params, pre)
  {
    if Covered(spec, params, pre) {
      forall post | CalleeEffect(spec, params, pre, post)
        ensures RemoteCall(spec, params, pre, post) == Some(post)
      {
        CoveredWritesBack(spec, params, pre, post);
      }
    } else {
      var post := UncoveredLosesWrite(spec, params, pre);
    }
  }

  lemma WholeFits(spec: Spec, params: seq<Param>, pre: Value, visits: seq<Visit>)
    requires forall loc <- Places(visits) :: Whole(spec, params, pre, loc)
    ensures AllFit(spec, params, pre, visits)
  {
    forall visit | visit in visits
      ensures Fits(spec, params, pre, visit.Place())
    {
      assert visit.Place() in Places(visits);
    }
  }

  lemma CoveredReference(spec: Spec, params: seq<Param>, pre: Value, post: Value, loc: Location, visited: bool)
    requires CalleeEffect(spec, params, pre, post) && Reference(spec, params, pre, loc)
    requires visited ==> Whole(spec, params, pre, loc)
    requires !visited ==> Get(pre, loc).None? || !Writable(Get(pre, loc).value)
    ensures Get(post, loc) ==
            if visited then Overlay(spec, params, pre, loc, Get(pre, loc), Get(post, loc)) else Get(pre, loc)
  {
    ChangeKeepsLocationIn(spec, params, true, false, pre, post, loc);
    var v, w := Get(pre, loc).value, Get(post, loc).value;
    if v.Block? {
      assert w.elems[..|v.elems|] + v.elems[|v.elems|..] == w.elems;
    }
  }

  lemma CoveredWritesBack(spec: Spec, params: seq<Param>, pre: Value, post: Value)
    requires DistinctNames(params) && TypedFields(spec, params, true, pre) && CalleeEffect(spec, params, pre, post)
    requires Covered(spec, params, pre)
    ensures RemoteCall(spec, params, pre, post) == Some(post)
  {
    var visits := AllVisits(spec, pre, FunctionBindings(spec, params)).value;
    WholeFits(spec, params, pre, visits);
    RemoteCallResult(spec, params, pre, post);
    var r := RemoteCall(spec, params, pre, post).value;
    forall loc | IsLocationIn(spec, params, true, pre, loc)
      ensures Get(r, loc) == Get(post, loc)
    {
      assert Reference(spec, params, pre, loc);
      CoveredReference(spec, params, pre, post, loc, loc in Places(visits));
    }
    FieldsAllowClearing(spec, params, true, pre, post);
    ChangesDeterminedIn(spec, params, true, true, pre, r, post);
  }

  /** A callee may write behind a reference. */
  lemma RewritingIsEffect(spec: Spec, params: seq<Param>, pre: Value, loc: Location, w: Value)
    requires DistinctNames(params) && TypedFields(spec, params, true, pre) && Reference(spec, params, pre, loc)
    requires Get(pre, loc).Some? && SameShape(Get(pre, loc).value, w)
    ensures CalleeEffect(spec, params, pre, Put(pre, loc, w))
    ensures Get(Put(pre, loc, w), loc) == Some(w)
  {
    TypedFieldsIsChanged(spec, params, true, false, pre);
    PutChangesOne(spec, params, false, pre, pre, loc, w);
  }

  lemma UncoveredLosesWrite(spec: Spec, params: seq<Param>, pre: Value) returns (post: Value)
    requires DistinctNames(params) && TypedFields(spec, params, true, pre)
    requires !Covered(spec, params, pre)
    ensures CalleeEffect(spec, params, pre, post) && RemoteCall(spec, params, pre, post) != Some(post)
  {
    TypedFieldsIsChanged(spec, params, true, false, pre);
    post := pre;
    RemoteCallResult(spec, params, pre, pre);
    if RemoteCall(spec, params, pre, pre).Some? {
      var visits := AllVisits(spec, pre, FunctionBindings(spec, params)).value;
      var loc := UncoveredReference(spec, params, pre, visits);
      post := UncoveredLosesRewrite(spec, params, pre, visits, loc);
    }
  }

  lemma UncoveredLosesRewrite(
      spec: Spec, params: seq<Param>, pre: Value, visits: seq<Visit>, loc: Location)
    returns (post: Value)
    requires DistinctNames(params) && TypedFields(spec, params, true, pre) && Reference(spec, params, pre, loc)
    requires AllVisits(spec, pre, FunctionBindings(spec, params)) == Some(visits)
    requires Get(pre, loc).Some? && Writable(Get(pre, loc).value)
    requires loc in Places(visits) ==>
               && Get(pre, loc).value.Block?
               && Travelling(spec, params, pre, loc) != Some(|Get(pre, loc).value.elems|)
    ensures CalleeEffect(spec, params, pre, post) && RemoteCall(spec, params, pre, post) != Some(post)
  {
    var x := Get(pre, loc).value;
    var w := Rewritten(x);
    post := Put(pre, loc, w);
    RewritingIsEffect(spec, params, pre, loc, w);
    RemoteCallResult(spec, params, pre, post);
    if loc in Places(visits) {
      LastIsNotOverlaid(spec, params, pre, loc, x, w);
    }
    assert RemoteCall(spec, params, pre, post).Some? ==>
             Get(RemoteCall(spec, params, pre, post).value, loc) != Some(w);
  }

  /** The last element of a block that does not fit into its run stays the caller's. */
  lemma LastIsNotOverlaid(spec: Spec, params: seq<Param>, pre: Value, loc: Location, v: Value, w: Value)
    requires v.Block? && w.Block? && |v.elems| == |w.elems| > 0
    requires v.elems[|v.elems| - 1] != w.elems[|v.elems| - 1]
    requires Travelling(spec, params, pre, loc) != Some(|v.elems|)
    ensures Overlay(spec, params, pre, loc, Some(v), Some(w)) != Some(w)
  {
    var r := Overlay(spec, params, pre, loc, Some(v), Some(w));
    if r.value.Block? {
      assert r.value.elems[|v.elems| - 1] == v.elems[|v.elems| - 1];
    }
  }

  lemma FitsInPart(spec: Spec, params: seq<Param>, pre: Value, loc: Location)
    requires Fits(spec, params, pre, loc) && !Whole(spec, params, pre, loc)
    ensures Get(pre, loc).Some? && Get(pre, loc).value.Block?
    ensures Get(pre, loc).value.elems == [] ==> KindAt(spec, params, loc).XrArray?
    ensures Get(pre, loc).value.elems != [] ==>
              Travelling(spec, params, pre, loc) != Some(|Get(pre, loc).value.elems|)
  {
  }

  /** If the call returns and the arguments are not covered, the last element behind some reference does
      not travel. */
  lemma UncoveredReference(spec: Spec, params: seq<Param>, pre: Value, visits: seq<Visit>) returns (loc: Location)
    requires DistinctNames(params) && RequestReads(spec, params, pre)
    requires AllCompile(spec, params) && AllVisits(spec, pre, FunctionBindings(spec, params)) == Some(visits)
    requires AllFit(spec, params, pre, visits) && !Covered(spec, params, pre)
    ensures Reference(spec, params, pre, loc) && Get(pre, loc).Some? && Writable(Get(pre, loc).value)
    ensures loc in Places(visits) ==>
              && Get(pre, loc).value.Block?
              && Travelling(spec, params, pre, loc) != Some(|Get(pre, loc).value.elems|)
  {
    if at :| at in Places(visits) && !Whole(spec, params, pre, at) {
      var visit :| visit in visits && visit.Place() == at;
      VisitIsCollected(spec, params, pre, visit);
      FitsInPart(spec, params, pre, at);
      if Get(pre, at).value.elems == [] {
        EmptyStructArrayUnread(spec, params, pre, at);
      }
      loc := at;
    } else {
      loc :| Reference(spec, params, pre, loc) && Get(pre, loc).Some? && Writable(Get(pre, loc).value) &&
        loc !in Places(visits);
    }
  }

  // ----- A condition in terms of the declared lengths -----

  /** What a bare loop end stands for: a constant, or a number among the parameters; none if it is negative. */
  function EndValue(spec: Spec, args: Value, end: string): Option<nat> {
    if end in spec.constants then Some(spec.constants[end])
    else if args.Record? && end in args.fields && args.fields[end].Leaf? then
      Some(if args.fields[end].bits < 0 then 0 else args.fields[end].bits)
    else None
  }

  lemma EndIsLoopCount(spec: Spec, args: Value, end: string)
    ensures LoopCount(spec, args, end) == EndValue(spec, args, end)
  {
    assert [InField(end)][1..] == [];
    assert Get(args, [InField(end)]) ==
           if args.Record? && end in args.fields then Some(args.fields[end]) else None;
  }

  /** Some modifiable place lies below these members. */
  ghost predicate Live(spec: Spec, ps: seq<Param>, decay: bool) {
    exists path, n :: OnFrontierOf(spec, ps, decay, path, n)
  }

  /** Wherever the traversal leads to a modifiable place, the bare loop end has the value of the
      element count it stands for, and a single pointer is not null. */
  ghost predicate CountsAgree(spec: Spec, p: Param, decay: bool, v: Value, args: Value)
    decreases v, 1
  {
    if !spec.Enters(p, decay) || !Live(spec, spec.Members(p), false) then true
    else if p.Hops() then
      && (p.Loops() ==> EndValue(spec, args, p.LoopEnd()) == Some(if v.Block? then |v.elems| else 0))
      && (!p.Loops() ==> v.Block?)
      && (v.Block? ==> forall i :: 0 <= i < |v.elems| ==> CountsAgreeIn(spec, spec.Members(p), false, v.elems[i], args))
    else CountsAgreeIn(spec, spec.Members(p), false, v, args)
  }

  ghost predicate CountsAgreeIn(spec: Spec, ps: seq<Param>, decay: bool, v: Value, args: Value)
    decreases v, 0
  {
    v.Record? ==>
      forall k :: 0 <= k < |ps| && ps[k].name in v.fields ==>
        CountsAgree(spec, ps[k], decay, v.fields[ps[k].name], args)
  }

  ghost predicate Resolved(spec: Spec, args: Value, loops: seq<Loop>, counts: seq<nat>) {
    |counts| == |loops| && forall k :: 0 <= k < |loops| ==> LoopCount(spec, args, loops[k].end) == Some(counts[k])
  }

  lemma {:induction false} CountsResolve(spec: Spec, args: Value, loops: seq<Loop>)
    requires Counts(spec, args, loops).Some?
    ensures Resolved(spec, args, loops, Counts(spec, args, loops).value)
  {
    if loops == [] {
    } else {
      CountsResolve(spec, args, loops[1..]);
    }
  }

  /** The element a hop goes to. */
  function HopIndex(p: Param, n: nat, idx: seq<nat>): nat {
    if p.Loops() && n < |idx| then idx[n] else 0
  }

  lemma GetThroughHop(p: Param, v: Value, path: Path, n: nat, idx: seq<nat>)
    requires Hop(p, n) <= path && (p.Loops() ==> n < |idx|)
    requires p.Hops() ==> v.Block? && HopIndex(p, n, idx) < |v.elems|
    ensures Get(v, Concrete(path, idx)) ==
            Get(if p.Hops() then v.elems[HopIndex(p, n, idx)] else v, Concrete(path[|Hop(p, n)|..], idx))
  {
    if p.Hops() {
      var k, rest := HopIndex(p, n, idx), Concrete(path[1..], idx);
      assert path[0] == Hop(p, n)[0];
      assert Concrete(path, idx) == [At(k)] + rest;
      GetAt(v, k, rest);
    } else {
      assert path[0..] == path;
    }
  }

  lemma GetAt(v: Value, k: nat, rest: Location)
    requires v.Block? && k < |v.elems|
    ensures Get(v, [At(k)] + rest) == Get(v.elems[k], rest)
  {
    assert ([At(k)] + rest)[1..] == rest;
  }

  lemma HopIsInside(
    spec: Spec, p: Param, decay: bool, v: Value, args: Value, path: Path, loops: seq<Loop>, counts: seq<nat>,
    idx: seq<nat>)
    requires OnFrontier(spec, p, decay, path, |loops|) && !spec.Modifiable(p, decay)
    requires Typed(spec, p, decay, v) && CountsAgree(spec, p, decay, v, args)
    requires Resolved(spec, args, LoopsAlong(spec, p, decay, path, loops), counts) && Within(idx, counts)
    ensures p.Hops() ==> v.Block? && HopIndex(p, |loops|, idx) < |v.elems|
    ensures var inner := if p.Hops() then v.elems[HopIndex(p, |loops|, idx)] else v;
            TypedFields(spec, spec.Members(p), false, inner) && CountsAgreeIn(spec, spec.Members(p), false, inner, args)
  {
    var n, ms := |loops|, spec.Members(p);
    var rest, more := path[|Hop(p, n)|..], HopLoops(p, loops);
    LoopVariablesOf(spec, ms, false, rest, more);
    assert Live(spec, ms, false);
    EndIsLoopCount(spec, args, p.LoopEnd());
    if p.Loops() {
      assert LoopsAlong(spec, p, decay, path, loops)[n] == more[n];
    }
  }

  /** An index tuple within the loop counts leads to an existing location. */
  lemma {:induction false} TupleIsInside(
    spec: Spec, p: Param, decay: bool, v: Value, args: Value, path: Path, loops: seq<Loop>, counts: seq<nat>,
    idx: seq<nat>)
    requires OnFrontier(spec, p, decay, path, |loops|)
    requires Typed(spec, p, decay, v) && CountsAgree(spec, p, decay, v, args)
    requires Resolved(spec, args, LoopsAlong(spec, p, decay, path, loops), counts) && Within(idx, counts)
    ensures Get(v, Concrete(path, idx)).Some?
    decreases |path|, 1
  {
    if spec.Modifiable(p, decay) {
    } else {
      HopIsInside(spec, p, decay, v, args, path, loops, counts, idx);
      LoopVariables(spec, p, decay, path, loops);
      var rest := path[|Hop(p, |loops|)|..];
      var inner := if p.Hops() then v.elems[HopIndex(p, |loops|, idx)] else v;
      LoopVariablesOf(spec, spec.Members(p), false, rest, HopLoops(p, loops));
      TupleIsInsideOf(spec, spec.Members(p), false, inner, args, rest, HopLoops(p, loops), counts, idx);
      GetThroughHop(p, v, path, |loops|, idx);
    }
  }

  lemma {:induction false} TupleIsInsideOf(
    spec: Spec, ps: seq<Param>, decay: bool, v: Value, args: Value, path: Path, loops: seq<Loop>, counts: seq<nat>,
    idx: seq<nat>)
    requires OnFrontierOf(spec, ps, decay, path, |loops|)
    requires TypedFields(spec, ps, decay, v) && CountsAgreeIn(spec, ps, decay, v, args)
    requires Resolved(spec, args, LoopsAlongMember(spec, ps, decay, path, loops), counts) && Within(idx, counts)
    ensures Get(v, Concrete(path, idx)).Some?
    decreases |path|, 0
  {
    var k := Find(ps, path[0].name);
    assert ps[k].name in Names(ps);
    TupleIsInside(spec, ps[k], decay, v.fields[ps[k].name], args, path[1..], loops, counts, idx);
  }

  /** The access path of a location. */
  lemma {:induction false} PathOfLocation(
      spec: Spec, p: Param, decay: bool, v: Value, loc: Location, n: nat)
    returns (path: Path)
    requires IsLocation(spec, p, decay, v, loc)
    ensures OnFrontier(spec, p, decay, path, n)
    decreases v, 1
  {
    path := [];
    if !spec.Modifiable(p, decay) {
      var hop := Hop(p, n);
      var next := if p.Loops() then n + 1 else n;
      if p.Hops() {
        path := PathOfLocationIn(spec, spec.Members(p), false, v.elems[loc[0].i], loc[1..], next);
      } else {
        path := PathOfLocationIn(spec, spec.Members(p), false, v, loc, next);
      }
      assert (hop + path)[|hop|..] == path;
      path := hop + path;
    }
  }

  lemma {:induction false} PathOfLocationIn(
      spec: Spec, ps: seq<Param>, decay: bool, v: Value, loc: Location, n: nat)
    returns (path: Path)
    requires IsLocationIn(spec, ps, decay, v, loc)
    ensures OnFrontierOf(spec, ps, decay, path, n)
    decreases v, 0
  {
    var name := loc[0].name;
    path := PathOfLocation(spec, ps[Find(ps, name)], decay, v.fields[name], loc[1..], n);
    assert ([Field(name)] + path)[1..] == path;
    path := [Field(name)] + path;
  }

  lemma LocationIsLive(spec: Spec, p: Param, decay: bool, v: Value, loc: Location)
    requires IsLocation(spec, p, decay, v, loc) && !spec.Modifiable(p, decay)
    ensures Live(spec, spec.Members(p), false)
  {
    var inner := if p.Hops() then v.elems[loc[0].i] else v;
    var path := PathOfLocationIn(spec, spec.Members(p), false, inner, if p.Hops() then loc[1..] else loc, 0);
  }

  lemma PrependHop(spec: Spec, p: Param, decay: bool, rest: Path, loops: seq<Loop>, idx: seq<nat>)
    requires spec.Enters(p, decay) && OnFrontierOf(spec, spec.Members(p), false, rest, |HopLoops(p, loops)|)
    ensures var path := Hop(p, |loops|) + rest;
            && OnFrontier(spec, p, decay, path, |loops|)
            && LoopsAlong(spec, p, decay, path, loops)
            == LoopsAlongMember(spec, spec.Members(p), false, rest, HopLoops(p, loops))
            && Concrete(path, idx) == Concrete(Hop(p, |loops|), idx) + Concrete(rest, idx)
  {
    var hop := Hop(p, |loops|);
    assert (hop + rest)[|hop|..] == rest;
    if hop != [] {
      assert (hop + rest)[1..] == rest;
    } else {
      assert hop + rest == rest;
    }
  }

  function HopCounts(p: Param, v: Value, counts: seq<nat>): seq<nat> {
    if p.Loops() then counts + [if v.Block? then |v.elems| else 0] else counts
  }

  function HopTuple(p: Param, loc: Location, idx: seq<nat>): seq<nat> {
    if p.Loops() && loc != [] && loc[0].At? then idx + [loc[0].i] else idx
  }

  lemma HopIsInner(spec: Spec, p: Param, decay: bool, v: Value, args: Value, loc: Location)
    requires IsLocation(spec, p, decay, v, loc) && Typed(spec, p, decay, v) && CountsAgree(spec, p, decay, v, args)
    requires !spec.Modifiable(p, decay)
    ensures p.Loops() ==> LoopCount(spec, args, p.LoopEnd()) == Some(if v.Block? then |v.elems| else 0)
    ensures p.Hops() ==> loc != [] && loc[0].At? && (!p.Loops() ==> loc[0].i == 0)
    ensures var inner := if p.Hops() then v.elems[loc[0].i] else v;
            TypedFields(spec, spec.Members(p), false, inner) && CountsAgreeIn(spec, spec.Members(p), false, inner, args)
  {
    LocationIsLive(spec, p, decay, v, loc);
    EndIsLoopCount(spec, args, p.LoopEnd());
  }

  lemma HopIsResolved(
    spec: Spec, p: Param, decay: bool, v: Value, args: Value, loc: Location, loops: seq<Loop>, counts: seq<nat>,
    idx: seq<nat>)
    requires IsLocation(spec, p, decay, v, loc) && !spec.Modifiable(p, decay)
    requires p.Loops() ==> LoopCount(spec, args, p.LoopEnd()) == Some(if v.Block? then |v.elems| else 0)
    requires Resolved(spec, args, loops, counts) && Within(idx, counts)
    ensures Resolved(spec, args, HopLoops(p, loops), HopCounts(p, v, counts))
    ensures Within(HopTuple(p, loc, idx), HopCounts(p, v, counts))
  {
  }

  lemma TupleExtends(p: Param, loc: Location, idx: seq<nat>, all: seq<nat>)
    requires HopTuple(p, loc, idx) <= all
    ensures idx <= all
    ensures p.Loops() && loc != [] && loc[0].At? ==> |idx| < |all| && all[|idx|] == loc[0].i
  {
    var t := HopTuple(p, loc, idx);
    if t != idx {
      assert all[|idx|] == t[|idx|];
      assert idx == t[..|idx|];
    }
  }

  lemma HopIsConcrete(p: Param, loc: Location, idx: seq<nat>, all: seq<nat>)
    requires p.Hops() ==> loc != [] && loc[0].At? && (!p.Loops() ==> loc[0].i == 0)
    requires HopTuple(p, loc, idx) <= all
    ensures idx <= all
    ensures Concrete(Hop(p, |idx|), all) + (if p.Hops() then loc[1..] else loc) == loc
  {
    TupleExtends(p, loc, idx, all);
    if p.Hops() {
      assert loc == [loc[0]] + loc[1..];
      assert Concrete(Hop(p, |idx|)[1..], all) == [];
      assert Concrete(Hop(p, |idx|), all) == [loc[0]];
    } else {
      assert [] + loc == loc;
    }
  }

  /** Every location is reached by a tuple within the loop counts. */
  lemma {:induction false} LocationIsReached(
    spec: Spec, p: Param, decay: bool, v: Value, args: Value, loc: Location, loops: seq<Loop>, counts: seq<nat>,
    idx: seq<nat>)
    returns (path: Path, allCounts: seq<nat>, all: seq<nat>)
    requires IsLocation(spec, p, decay, v, loc) && Typed(spec, p, decay, v) && CountsAgree(spec, p, decay, v, args)
    requires Resolved(spec, args, loops, counts) && Within(idx, counts)
    ensures OnFrontier(spec, p, decay, path, |loops|)
    ensures Resolved(spec, args, LoopsAlong(spec, p, decay, path, loops), allCounts) && Within(all, allCounts)
    ensures idx <= all && Concrete(path, all) == loc
    decreases v, 1
  {
    if spec.Modifiable(p, decay) {
      path, allCounts, all := [], counts, idx;
    } else {
      HopIsInner(spec, p, decay, v, args, loc);
      HopIsResolved(spec, p, decay, v, args, loc, loops, counts, idx);
      var t := HopTuple(p, loc, idx);
      var rest: Path;
      rest, allCounts, all := LocationIsReachedIn(
        spec, spec.Members(p), false, if p.Hops() then v.elems[loc[0].i] else v, args,
        if p.Hops() then loc[1..] else loc, HopLoops(p, loops), HopCounts(p, v, counts), t);
      HopIsConcrete(p, loc, idx, all);
      PrependHop(spec, p, decay, rest, loops, all);
      path := Hop(p, |loops|) + rest;
    }
  }

  lemma {:induction false} LocationIsReachedIn(
    spec: Spec, ps: seq<Param>, decay: bool, v: Value, args: Value, loc: Location, loops: seq<Loop>, counts: seq<nat>,
    idx: seq<nat>)
    returns (path: Path, allCounts: seq<nat>, all: seq<nat>)
    requires IsLocationIn(spec, ps, decay, v, loc)
    requires TypedFields(spec, ps, decay, v) && CountsAgreeIn(spec, ps, decay, v, args)
    requires Resolved(spec, args, loops, counts) && Within(idx, counts)
    ensures OnFrontierOf(spec, ps, decay, path, |loops|)
    ensures Resolved(spec, args, LoopsAlongMember(spec, ps, decay, path, loops), allCounts) && Within(all, allCounts)
    ensures idx <= all && Concrete(path, all) == loc
    decreases v, 0
  {
    var name := loc[0].name;
    path, allCounts, all := LocationIsReached(
      spec, ps[Find(ps, name)], decay, v.fields[name], args, loc[1..], loops, counts, idx);
    assert ([Field(name)] + path)[1..] == path;
    path := [Field(name)] + path;
  }

  /** The nested loops visit every tuple within their counts. */
  lemma {:induction false} NestReaches(b: Binding, counts: seq<nat>, idx: seq<nat>, full: seq<nat>)
    requires idx <= full && Within(full, counts)
    ensures Visit(b, full) in Nest(b, counts, idx)
    decreases |counts| - |idx|
  {
    if |idx| == |counts| {
      assert idx == full;
    } else {
      var i := full[|idx|];
      NestReaches(b, counts, idx + [i], full);
      NestFromReaches(b, counts, idx, 0, i, Visit(b, full));
    }
  }

  lemma {:induction false} NestFromReaches(
      b: Binding, counts: seq<nat>, idx: seq<nat>, i: nat, j: nat, visit: Visit)
    requires |idx| < |counts| && i <= j < counts[|idx|] && visit in Nest(b, counts, idx + [j])
    ensures visit in NestFrom(b, counts, idx, i)
    decreases counts[|idx|] - i
  {
    assert NestFrom(b, counts, idx, i) == Nest(b, counts, idx + [i]) + NestFrom(b, counts, idx, i + 1);
    if i < j {
      NestFromReaches(b, counts, idx, i + 1, j, visit);
    }
  }

  lemma {:induction false} AllVisitsContains(spec: Spec, args: Value, bs: seq<Binding>, b: Binding)
    requires AllVisits(spec, args, bs).Some? && b in bs
    ensures Visits(spec, args, b).Some?
    ensures forall visit <- Visits(spec, args, b).value :: visit in AllVisits(spec, args, bs).value
  {
    if b != bs[0] {
      AllVisitsContains(spec, args, bs[1..], b);
    }
  }

  lemma {:induction false} ResolvedUnique(spec: Spec, args: Value, loops: seq<Loop>, a: seq<nat>, b: seq<nat>)
    requires Resolved(spec, args, loops, a) && Resolved(spec, args, loops, b)
    ensures a == b
  {
    forall k | 0 <= k < |loops|
      ensures a[k] == b[k]
    {
      assert LoopCount(spec, args, loops[k].end) == Some(a[k]) && LoopCount(spec, args, loops[k].end) == Some(b[k]);
    }
  }

  ghost predicate AllWhole(spec: Spec, params: seq<Param>, args: Value) {
    forall loc :: Reference(spec, params, args, loc) ==> Whole(spec, params, args, loc)
  }

  /** If the bare loop ends agree with the blocks they run over, the visits are the references. */
  lemma AllReferencesVisited(spec: Spec, params: seq<Param>, pre: Value)
    requires DistinctNames(params) && TypedFields(spec, params, true, pre)
    requires AllVisits(spec, pre, FunctionBindings(spec, params)).Some? && CountsAgreeIn(spec, params, true, pre, pre)
    ensures forall loc :: Reference(spec, params, pre, loc) <==>
                            loc in Places(AllVisits(spec, pre, FunctionBindings(spec, params)).value)
  {
    var visits := AllVisits(spec, pre, FunctionBindings(spec, params)).value;
    forall visit | visit in visits
      ensures Reference(spec, params, pre, visit.Place())
    {
      VisitIsInside(spec, params, pre, visit);
    }
    forall loc | Reference(spec, params, pre, loc)
      ensures loc in Places(visits)
    {
      var visit := ReferenceIsVisited(spec, params, pre, loc);
      assert visit in visits;
    }
  }

  lemma WholeReferencesWriteBack(spec: Spec, params: seq<Param>, pre: Value, post: Value)
    requires DistinctNames(params) && TypedFields(spec, params, true, pre) && CalleeEffect(spec, params, pre, post)
    requires AllCompile(spec, params) && AllVisits(spec, pre, FunctionBindings(spec, params)).Some?
    requires RequestReads(spec, params, pre) && CountsAgreeIn(spec, params, true, pre, pre)
    requires AllWhole(spec, params, pre)
    ensures RemoteCall(spec, params, pre, post) == Some(post)
  {
    AllReferencesVisited(spec, params, pre);
    CoveredWritesBack(spec, params, pre, post);
  }

  lemma VisitIsInside(spec: Spec, params: seq<Param>, pre: Value, visit: Visit)
    requires DistinctNames(params) && TypedFields(spec, params, true, pre)
    requires CountsAgreeIn(spec, params, true, pre, pre)
    requires AllVisits(spec, pre, FunctionBindings(spec, params)).Some?
    requires visit in AllVisits(spec, pre, FunctionBindings(spec, params)).value
    ensures Reference(spec, params, pre, visit.Place())
  {
    VisitIsCollected(spec, params, pre, visit);
    AllVisitsMember(spec, pre, FunctionBindings(spec, params), visit);
    var b := visit.binding;
    CountsResolve(spec, pre, b.loops);
    FunctionBindingsExact(spec, params);
    TupleIsInsideOf(spec, params, true, pre, pre, b.path, [], Counts(spec, pre, b.loops).value, visit.idx);
  }

  lemma ReferenceIsVisited(spec: Spec, params: seq<Param>, pre: Value, loc: Location) returns (visit: Visit)
    requires DistinctNames(params) && TypedFields(spec, params, true, pre)
    requires CountsAgreeIn(spec, params, true, pre, pre)
    requires AllVisits(spec, pre, FunctionBindings(spec, params)).Some?
    requires Reference(spec, params, pre, loc)
    ensures visit in AllVisits(spec, pre, FunctionBindings(spec, params)).value && visit.Place() == loc
  {
    var bs := FunctionBindings(spec, params);
    var path, counts, idx := LocationIsReachedIn(spec, params, true, pre, pre, loc, [], [], []);
    FunctionBindingsExact(spec, params);
    var b :| b in bs && b.path == path;
    AllVisitsContains(spec, pre, bs, b);
    CountsResolve(spec, pre, b.loops);
    ResolvedUnique(spec, pre, b.loops, counts, Counts(spec, pre, b.loops).value);
    NestReaches(b, counts, [], idx);
    visit := Visit(b, idx);
  }
}
