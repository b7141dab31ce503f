/**
 When the server can read a request, place by place.

 The places of a request are the parameters and, behind const pointers, in arrays and in structs by
 value, the members of the structs found there: of a pointer as many elements as are counted.  Each
 place is read on its own, except that the type after an empty struct array is left for what comes
 next.  Nothing here is stated through the serializer of the model.
 */
module RequestPlaces {
  import opened Options
  import opened Bindings
  import opened Declarations
  import opened WriteBack
  import opened Transfer

  /** A place: its declaration, whether it is a parameter, its value, and the struct it is a member of. */
  datatype Placed = Placed(param: Param, top: bool, value: Value, record: Value)

  /** The declared number of elements: an array's bound, which is a constant; one; for a parameter a constant
      or another parameter; for a member another member. */
  function DeclaredNumber(spec: Spec, top: bool, record: Value, p: Param): Option<int> {
    if p.pointer == "" then (if p.extent in spec.constants then Some(spec.constants[p.extent]) else None)
    else if p.len == "" then Some(1)
    else if top && p.len in spec.constants then Some(spec.constants[p.len])
    else if record.Record? && p.len in record.fields && record.fields[p.len].Leaf? then Some(record.fields[p.len].bits)
    else None
  }

  function Count(spec: Spec, pl: Placed): Option<int> {
    DeclaredNumber(spec, pl.top, pl.record, pl.param)
  }

  /** The place at a location below these members. */
  function PlaceIn(spec: Spec, ps: seq<Param>, top: bool, v: Value, loc: Location): Option<Placed>
    decreases |loc|, 0
  {
    if loc == [] || !loc[0].InField? || !v.Record? || loc[0].name !in v.fields then None
    else if Find(ps, loc[0].name) == |ps| then None
    else
      var p, w := ps[Find(ps, loc[0].name)], v.fields[loc[0].name];
      if |loc| == 1 then Some(Placed(p, top, w, v)) else PlaceBelow(spec, Placed(p, top, w, v), loc[1..])
  }

  function PlaceBelow(spec: Spec, pl: Placed, loc: Location): Option<Placed>
    requires loc != []
    decreases |loc|, 1
  {
    var p, v := pl.param, pl.value;
    if !GoesOn(spec, p, pl.top) then None
    else if p.pointer == "" && p.extent == "" then PlaceIn(spec, spec.structs[p.typ].members, false, v, loc)
    else if !loc[0].At? || !v.Block? || loc[0].i >= |v.elems| then None
    else if p.pointer != "" && (Count(spec, pl).None? || loc[0].i >= Count(spec, pl).value) then None
    else PlaceIn(spec, spec.structs[p.typ].members, false, v.elems[loc[0].i], loc[1..])
  }

  /** What is written for the place by itself can be read: an array of header structs is null or has a first
      one, and as many as are counted in 32 bits; a next pointer or a single header struct is null or there;
      another pointer is null or has the counted elements, unless it is const and refers to no struct; an
      array is there. */
  predicate Legible(spec: Spec, pl: Placed) {
    var p, v, n := pl.param, pl.value, Count(spec, pl);
    if HeaderArray(spec, p) then
      n.Some? && (v.Null? || (v.Block? && v.elems != [] && n.value % 0x1_0000_0000 <= |v.elems|))
    else if NextPointer(p) || HeaderStruct(spec, p) then v.Null? || (v.Block? && v.elems != [])
    else if p.pointer != "" then
      (p.qualifier == "const" && p.typ !in spec.structs) ||
      (n.Some? && (v.Null? || (v.Block? && 0 <= n.value <= |v.elems| && n.value < 0x1_0000_0000)))
    else if p.extent != "" then
      if pl.top && p.qualifier != "const" then
        v.Block? && n.Some? && 0 <= n.value <= |v.elems| && n.value < 0x1_0000_0000
      else p.typ in spec.structs ==> v.Block?
    else true
  }

  /** A struct array that counts nothing, but is not null: its type stays unread. */
  predicate LeavesType(spec: Spec, pl: Placed) {
    HeaderArray(spec, pl.param) && pl.value.Block? && Count(spec, pl).Some? &&
    Count(spec, pl).value % 0x1_0000_0000 == 0
  }

  /** Something is written for the place itself: it is not just a struct or an array of structs. */
  predicate WritesItself(spec: Spec, pl: Placed) {
    pl.param.pointer != "" || !GoesOn(spec, pl.param, pl.top)
  }

  /** Location a comes before location b: members in their order, elements in theirs, a pointer before what
      is behind it. */
  predicate EarlierIn(spec: Spec, ps: seq<Param>, a: Location, b: Location)
    decreases |a|, 0
  {
    && a != [] && b != [] && a[0].InField? && b[0].InField?
    && var i, j := Find(ps, a[0].name), Find(ps, b[0].name);
       i < j || (i == j && i < |ps| && EarlierBelow(spec, ps[i], a[1..], b[1..]))
  }

  predicate EarlierBelow(spec: Spec, p: Param, a: Location, b: Location)
    decreases |a|, 1
  {
    if a == [] || b == [] then a == [] && b != []
    else if p.typ !in spec.structs then false
    else if a[0].At? && b[0].At? then
      a[0].i < b[0].i || (a[0].i == b[0].i && EarlierIn(spec, spec.structs[p.typ].members, a[1..], b[1..]))
    else EarlierIn(spec, spec.structs[p.typ].members, a, b)
  }

  ghost predicate AllLegible(spec: Spec, params: seq<Param>, args: Value) {
    forall loc :: var pl := PlaceIn(spec, params, true, args, loc); pl.Some? ==> Legible(spec, pl.value)
  }

  ghost predicate IsPlace(spec: Spec, params: seq<Param>, args: Value, loc: Location) {
    PlaceIn(spec, params, true, args, loc).Some?
  }

  /** Something is written after the type that is left at location a. */
  ghost predicate TypeIsMisread(spec: Spec, params: seq<Param>, args: Value, a: Location, b: Location) {
    && IsPlace(spec, params, args, a) && LeavesType(spec, PlaceIn(spec, params, true, args, a).value)
    && IsPlace(spec, params, args, b) && WritesItself(spec, PlaceIn(spec, params, true, args, b).value)
    && EarlierIn(spec, params, a, b)
  }

  // ----- The words of a place -----

  /** The words that are written for a place itself. */
  function Own(spec: Spec, pl: Placed): seq<Word> {
    if !Legible(spec, pl) then [Unreadable]
    else if LeavesType(spec, pl) then [Sound, TypeWord]
    else if WritesItself(spec, pl) then [Sound]
    else []
  }

  /** The words of what is below it. */
  function Below(spec: Spec, pl: Placed): seq<Word> {
    var p, v := pl.param, pl.value;
    if !GoesOn(spec, p, pl.top) || !Legible(spec, pl) then []
    else if p.pointer == "" && p.extent == "" then MemberWords(spec, spec.Members(p), false, v, 0)
    else if v.Block? then ElementWords(spec, p, v, Followed(spec, pl), 0)
    else []
  }

  function Followed(spec: Spec, pl: Placed): (n: nat)
    requires Legible(spec, pl) && GoesOn(spec, pl.param, pl.top) && pl.value.Block?
    requires pl.param.pointer != "" || pl.param.extent != ""
    ensures n <= |pl.value.elems|
  {
    if pl.param.pointer != "" then Count(spec, pl).value else |pl.value.elems|
  }

  lemma CountIsFieldCount(spec: Spec, pl: Placed)
    ensures FieldCount(spec, pl.top, pl.record, pl.param) == Count(spec, pl)
  {
    var len := pl.param.len;
    assert [InField(len)][1..] == [];
    assert Get(pl.record, [InField(len)]) ==
           if pl.record.Record? && len in pl.record.fields then Some(pl.record.fields[len]) else None;
  }

  lemma WordsSplit(spec: Spec, pl: Placed)
    ensures Words(spec, pl.param, pl.top, pl.value, FieldCount(spec, pl.top, pl.record, pl.param)) ==
            Own(spec, pl) + Below(spec, pl)
  {
    CountIsFieldCount(spec, pl);
    EntersExactly(spec, pl.param, pl.top);
  }

  // ----- Every word comes from a place -----

  lemma PlaceOfMember(spec: Spec, ps: seq<Param>, top: bool, v: Value, k: nat, rest: Location)
    requires k < |ps| && DistinctNames(ps) && v.Record? && ps[k].name in v.fields
    ensures var pl, loc := Placed(ps[k], top, v.fields[ps[k].name], v), [InField(ps[k].name)] + rest;
            && Find(ps, loc[0].name) == k && loc[1..] == rest
            && PlaceIn(spec, ps, top, v, loc) == if rest == [] then Some(pl) else PlaceBelow(spec, pl, rest)
  {
    var loc := [InField(ps[k].name)] + rest;
    assert loc[0] == InField(ps[k].name) && loc[1..] == rest;
    assert Find(ps, ps[k].name) == k;
  }

  lemma {:induction false} MemberWordHasPlace(spec: Spec, ps: seq<Param>, top: bool, v: Value, k: nat, w: Word)
    returns (loc: Location)
    requires k <= |ps| && DistinctNames(ps) && TypedFields(spec, ps, top, v)
    requires w in MemberWords(spec, ps, top, v, k)
    ensures PlaceIn(spec, ps, top, v, loc).Some? && w in Own(spec, PlaceIn(spec, ps, top, v, loc).value)
    ensures loc != [] && loc[0].InField? && k <= Find(ps, loc[0].name) < |ps|
    decreases v, 1, |ps| - k
  {
    var pl := Placed(ps[k], top, v.fields[ps[k].name], v);
    WordsSplit(spec, pl);
    if w in Own(spec, pl) {
      PlaceOfMember(spec, ps, top, v, k, []);
      loc := [InField(ps[k].name)] + [];
    } else if w in Below(spec, pl) {
      var rest := BelowWordHasPlace(spec, pl, w);
      PlaceOfMember(spec, ps, top, v, k, rest);
      loc := [InField(ps[k].name)] + rest;
    } else {
      loc := MemberWordHasPlace(spec, ps, top, v, k + 1, w);
    }
  }

  lemma {:induction false} BelowWordHasPlace(spec: Spec, pl: Placed, w: Word) returns (loc: Location)
    requires Typed(spec, pl.param, pl.top, pl.value) && w in Below(spec, pl)
    ensures loc != [] && PlaceBelow(spec, pl, loc).Some? && w in Own(spec, PlaceBelow(spec, pl, loc).value)
    decreases pl.value, 2, 0
  {
    var p, v := pl.param, pl.value;
    EntersExactly(spec, p, pl.top);
    if p.pointer == "" && p.extent == "" {
      loc := MemberWordHasPlace(spec, spec.Members(p), false, v, 0, w);
    } else {
      var j, rest := ElementWordHasPlace(spec, p, v, Followed(spec, pl), 0, w);
      loc := [At(j)] + rest;
      assert loc[1..] == rest;
    }
  }

  lemma {:induction false} ElementWordHasPlace(spec: Spec, p: Param, v: Value, n: nat, i: nat, w: Word)
    returns (j: nat, loc: Location)
    requires v.Block? && i <= n <= |v.elems| && p.typ in spec.structs
    requires forall x <- v.elems :: TypedFields(spec, spec.Members(p), false, x)
    requires w in ElementWords(spec, p, v, n, i)
    ensures i <= j < n && PlaceIn(spec, spec.Members(p), false, v.elems[j], loc).Some?
    ensures w in Own(spec, PlaceIn(spec, spec.Members(p), false, v.elems[j], loc).value)
    decreases v, 1, n - i
  {
    if w in MemberWords(spec, spec.Members(p), false, v.elems[i], 0) {
      j := i;
      loc := MemberWordHasPlace(spec, spec.Members(p), false, v.elems[i], 0, w);
    } else {
      j, loc := ElementWordHasPlace(spec, p, v, n, i + 1, w);
    }
  }

  // ----- Every place has its words -----

  lemma {:induction false} PlaceHasWord(spec: Spec, ps: seq<Param>, top: bool, v: Value, loc: Location, k: nat, w: Word)
    requires PlaceIn(spec, ps, top, v, loc).Some? && w in Own(spec, PlaceIn(spec, ps, top, v, loc).value)
    requires k <= Find(ps, loc[0].name)
    ensures w in MemberWords(spec, ps, top, v, k) || Unreadable in MemberWords(spec, ps, top, v, k)
    decreases |loc|, 0
  {
    var j := Find(ps, loc[0].name);
    var pl := Placed(ps[j], top, v.fields[loc[0].name], v);
    WordsSplit(spec, pl);
    if |loc| > 1 {
      PlaceBelowHasWord(spec, pl, loc[1..], w);
    }
    var words := Own(spec, pl) + Below(spec, pl);
    if w in words {
      MembersHaveWord(spec, ps, top, v, k, j, w);
    } else {
      MembersHaveWord(spec, ps, top, v, k, j, Unreadable);
    }
  }

  lemma {:induction false} PlaceBelowHasWord(spec: Spec, pl: Placed, loc: Location, w: Word)
    requires loc != [] && PlaceBelow(spec, pl, loc).Some? && w in Own(spec, PlaceBelow(spec, pl, loc).value)
    ensures var words := Own(spec, pl) + Below(spec, pl); w in words || Unreadable in words
    decreases |loc|, 1
  {
    var p, v := pl.param, pl.value;
    if !Legible(spec, pl) {
      assert Own(spec, pl)[0] == Unreadable;
    } else if p.pointer == "" && p.extent == "" {
      PlaceHasWord(spec, spec.Members(p), false, v, loc, 0, w);
    } else {
      var i := loc[0].i;
      PlaceHasWord(spec, spec.Members(p), false, v.elems[i], loc[1..], 0, w);
      var word := if w in MemberWords(spec, spec.Members(p), false, v.elems[i], 0) then w else Unreadable;
      ElementsHaveWord(spec, p, v, Followed(spec, pl), 0, i, word);
    }
  }

  lemma PlaceHasSome(spec: Spec, ps: seq<Param>, top: bool, v: Value, loc: Location, k: nat)
    requires PlaceIn(spec, ps, top, v, loc).Some? && Own(spec, PlaceIn(spec, ps, top, v, loc).value) != []
    requires k <= Find(ps, loc[0].name)
    ensures MemberWords(spec, ps, top, v, k) != []
  {
    PlaceHasWord(spec, ps, top, v, loc, k, Own(spec, PlaceIn(spec, ps, top, v, loc).value)[0]);
  }

  // ----- A type that is followed by something -----

  predicate TypeFollowed(words: seq<Word>) {
    exists i :: 0 <= i < |words| - 1 && words[i].TypeWord?
  }

  lemma TypeFollowedJoin(a: seq<Word>, b: seq<Word>)
    ensures TypeFollowed(a + b) <==> TypeFollowed(a) || TypeFollowed(b) || (TypeWord in a && b != [])
  {
    var words := a + b;
    assert forall i :: 0 <= i < |b| ==> words[|a| + i] == b[i];
    if i :| 0 <= i < |a| - 1 && a[i].TypeWord? {
      assert words[i] == a[i];
    }
    if i :| 0 <= i < |b| - 1 && b[i].TypeWord? {
      assert words[|a| + i] == b[i];
    }
    if TypeWord in a && b != [] {
      var i :| 0 <= i < |a| && a[i] == TypeWord;
      assert words[i] == a[i];
    }
    if i :| 0 <= i < |words| - 1 && words[i].TypeWord? {
      assert i < |a| ==> a[i] == words[i];
      assert i >= |a| ==> b[i - |a|] == words[i];
    }
  }

  lemma OwnType(spec: Spec, pl: Placed)
    ensures !TypeFollowed(Own(spec, pl))
    ensures TypeWord in Own(spec, pl) <==> Legible(spec, pl) && LeavesType(spec, pl)
    ensures TypeWord in Own(spec, pl) ==> Below(spec, pl) == []
    ensures Own(spec, pl) != [] <==> !Legible(spec, pl) || WritesItself(spec, pl)
  {
    var words := Own(spec, pl);
    assert words == [Unreadable] || words == [Sound, TypeWord] || words == [Sound] || words == [];
  }

  /** Two places below these members, the first of which leaves a type, and the second writes. */
  predicate LeavesAndWrites(spec: Spec, a: Option<Placed>, b: Option<Placed>) {
    && a.Some? && TypeWord in Own(spec, a.value)
    && b.Some? && Own(spec, b.value) != []
  }

  lemma {:induction false} FollowedTypeHasPlaces(spec: Spec, ps: seq<Param>, top: bool, v: Value, k: nat)
    returns (a: Location, b: Location)
    requires k <= |ps| && DistinctNames(ps) && TypedFields(spec, ps, top, v)
    requires TypeFollowed(MemberWords(spec, ps, top, v, k))
    ensures LeavesAndWrites(spec, PlaceIn(spec, ps, top, v, a), PlaceIn(spec, ps, top, v, b))
    ensures EarlierIn(spec, ps, a, b) && k <= Find(ps, a[0].name)
    decreases v, 1, |ps| - k
  {
    var name := ps[k].name;
    var pl := Placed(ps[k], top, v.fields[name], v);
    var first, rest := Own(spec, pl) + Below(spec, pl), MemberWords(spec, ps, top, v, k + 1);
    WordsSplit(spec, pl);
    TypeFollowedJoin(first, rest);
    if TypeFollowed(first) {
      TypeFollowedJoin(Own(spec, pl), Below(spec, pl));
      OwnType(spec, pl);
      var a', b' := BelowTypeHasPlaces(spec, pl);
      PlacesOfMember(spec, ps, top, v, k, a', b');
      a, b := [InField(name)] + a', [InField(name)] + b';
    } else if TypeFollowed(rest) {
      a, b := FollowedTypeHasPlaces(spec, ps, top, v, k + 1);
    } else {
      a := FirstHasType(spec, ps, top, v, k);
      b := MemberWordHasPlace(spec, ps, top, v, k + 1, rest[0]);
    }
  }

  lemma PlacesOfMember(spec: Spec, ps: seq<Param>, top: bool, v: Value, k: nat, a: Location, b: Location)
    requires k < |ps| && DistinctNames(ps) && v.Record? && ps[k].name in v.fields && a != [] && b != []
    requires var pl := Placed(ps[k], top, v.fields[ps[k].name], v);
             && LeavesAndWrites(spec, PlaceBelow(spec, pl, a), PlaceBelow(spec, pl, b))
             && EarlierBelow(spec, ps[k], a, b)
    ensures var a', b' := [InField(ps[k].name)] + a, [InField(ps[k].name)] + b;
            && LeavesAndWrites(spec, PlaceIn(spec, ps, top, v, a'), PlaceIn(spec, ps, top, v, b'))
            && EarlierIn(spec, ps, a', b') && Find(ps, a'[0].name) == k
  {
    PlaceOfMember(spec, ps, top, v, k, a);
    PlaceOfMember(spec, ps, top, v, k, b);
  }

  /** A type among the words of member k. */
  lemma FirstHasType(spec: Spec, ps: seq<Param>, top: bool, v: Value, k: nat) returns (a: Location)
    requires k < |ps| && DistinctNames(ps) && TypedFields(spec, ps, top, v)
    requires var pl := Placed(ps[k], top, v.fields[ps[k].name], v); TypeWord in Own(spec, pl) + Below(spec, pl)
    ensures PlaceIn(spec, ps, top, v, a).Some? && TypeWord in Own(spec, PlaceIn(spec, ps, top, v, a).value)
    ensures a[0] == InField(ps[k].name) && Find(ps, a[0].name) == k
  {
    var pl := Placed(ps[k], top, v.fields[ps[k].name], v);
    var rest: Location := [];
    if TypeWord !in Own(spec, pl) {
      rest := BelowWordHasPlace(spec, pl, TypeWord);
    }
    PlaceOfMember(spec, ps, top, v, k, rest);
    a := [InField(ps[k].name)] + rest;
  }

  lemma {:induction false} BelowTypeHasPlaces(spec: Spec, pl: Placed) returns (a: Location, b: Location)
    requires Typed(spec, pl.param, pl.top, pl.value) && TypeFollowed(Below(spec, pl))
    ensures a != [] && b != [] && LeavesAndWrites(spec, PlaceBelow(spec, pl, a), PlaceBelow(spec, pl, b))
    ensures EarlierBelow(spec, pl.param, a, b)
    decreases pl.value, 2, 0
  {
    var p, v := pl.param, pl.value;
    EntersExactly(spec, p, pl.top);
    if p.pointer == "" && p.extent == "" {
      a, b := FollowedTypeHasPlaces(spec, spec.Members(p), false, v, 0);
    } else {
      var i, j, a', b' := ElementTypeHasPlaces(spec, p, v, Followed(spec, pl), 0);
      a, b := [At(i)] + a', [At(j)] + b';
      assert a[1..] == a' && b[1..] == b';
    }
  }

  lemma {:induction false} ElementTypeHasPlaces(spec: Spec, p: Param, v: Value, n: nat, m: nat)
    returns (i: nat, j: nat, a: Location, b: Location)
    requires v.Block? && m <= n <= |v.elems| && p.typ in spec.structs
    requires forall x <- v.elems :: TypedFields(spec, spec.Members(p), false, x)
    requires TypeFollowed(ElementWords(spec, p, v, n, m))
    ensures m <= i <= j < n
    ensures LeavesAndWrites(
              spec, PlaceIn(spec, spec.Members(p), false, v.elems[i], a),
              PlaceIn(spec, spec.Members(p), false, v.elems[j], b))
    ensures i == j ==> EarlierIn(spec, spec.Members(p), a, b)
    decreases v, 1, n - m
  {
    var ms := spec.Members(p);
    var first, rest := MemberWords(spec, ms, false, v.elems[m], 0), ElementWords(spec, p, v, n, m + 1);
    TypeFollowedJoin(first, rest);
    if TypeFollowed(first) {
      i, j := m, m;
      a, b := FollowedTypeHasPlaces(spec, ms, false, v.elems[m], 0);
    } else if TypeFollowed(rest) {
      i, j, a, b := ElementTypeHasPlaces(spec, p, v, n, m + 1);
    } else {
      i := m;
      a := MemberWordHasPlace(spec, ms, false, v.elems[m], 0, TypeWord);
      j, b := ElementWordHasPlace(spec, p, v, n, m + 1, rest[0]);
    }
  }

  lemma MemberWordsFrom(spec: Spec, ps: seq<Param>, top: bool, v: Value, k: nat)
    requires k < |ps| && v.Record? && ps[k].name in v.fields
    ensures var pl := Placed(ps[k], top, v.fields[ps[k].name], v);
            MemberWords(spec, ps, top, v, k) ==
            (Own(spec, pl) + Below(spec, pl)) + MemberWords(spec, ps, top, v, k + 1)
  {
    WordsSplit(spec, Placed(ps[k], top, v.fields[ps[k].name], v));
  }

  /** Later words are among them. */
  lemma {:induction false} MembersHaveType(spec: Spec, ps: seq<Param>, top: bool, v: Value, k: nat, j: nat)
    requires k <= j < |ps| && v.Record? && ps[j].name in v.fields && Unreadable !in MemberWords(spec, ps, top, v, k)
    requires TypeFollowed(MemberWords(spec, ps, top, v, j))
    ensures TypeFollowed(MemberWords(spec, ps, top, v, k))
    decreases j - k
  {
    if k < j {
      MemberWordsFrom(spec, ps, top, v, k);
      MembersHaveType(spec, ps, top, v, k + 1, j);
      var pl := Placed(ps[k], top, v.fields[ps[k].name], v);
      TypeFollowedJoin(Own(spec, pl) + Below(spec, pl), MemberWords(spec, ps, top, v, k + 1));
    }
  }

  lemma {:induction false} MembersLack(spec: Spec, ps: seq<Param>, top: bool, v: Value, k: nat, j: nat)
    requires k <= j <= |ps| && v.Record? && Unreadable !in MemberWords(spec, ps, top, v, k)
    ensures Unreadable !in MemberWords(spec, ps, top, v, j)
    decreases j - k
  {
    if k < j {
      MembersLack(spec, ps, top, v, k + 1, j);
    }
  }

  /** A place is its member, or below it. */
  lemma PlaceThrough(spec: Spec, ps: seq<Param>, top: bool, v: Value, loc: Location, i: nat)
    requires PlaceIn(spec, ps, top, v, loc).Some? && i == Find(ps, loc[0].name)
    ensures i < |ps| && v.Record? && ps[i].name in v.fields
    ensures var pl := Placed(ps[i], top, v.fields[ps[i].name], v);
            && PlaceIn(spec, ps, top, v, loc) == (if |loc| == 1 then Some(pl) else PlaceBelow(spec, pl, loc[1..]))
            && (|loc| > 1 ==> GoesOn(spec, pl.param, top))
  {
  }

  lemma {:induction false} PlacesFollowType(spec: Spec, ps: seq<Param>, top: bool, v: Value, a: Location, b: Location)
    requires LeavesAndWrites(spec, PlaceIn(spec, ps, top, v, a), PlaceIn(spec, ps, top, v, b))
    requires EarlierIn(spec, ps, a, b) && Unreadable !in MemberWords(spec, ps, top, v, 0)
    ensures TypeFollowed(MemberWords(spec, ps, top, v, 0))
    decreases |a|, 0
  {
    var i, j := Find(ps, a[0].name), Find(ps, b[0].name);
    PlaceThrough(spec, ps, top, v, a, i);
    PlaceThrough(spec, ps, top, v, b, j);
    MembersLack(spec, ps, top, v, 0, i);
    if i < j {
      LaterMemberFollows(spec, ps, top, v, a, b, i);
    } else {
      var pl := Placed(ps[i], top, v.fields[ps[i].name], v);
      MemberWordsFrom(spec, ps, top, v, i);
      OwnType(spec, pl);
      PlacesBelowFollowType(spec, pl, a[1..], b[1..]);
      TypeFollowedInside(Own(spec, pl), Below(spec, pl), MemberWords(spec, ps, top, v, i + 1));
    }
    MembersHaveType(spec, ps, top, v, 0, i);
  }

  lemma TypeFollowedInside(own: seq<Word>, below: seq<Word>, rest: seq<Word>)
    requires TypeFollowed(below)
    ensures TypeFollowed((own + below) + rest)
  {
    TypeFollowedJoin(own, below);
    TypeFollowedJoin(own + below, rest);
  }

  lemma LaterMemberFollows(
      spec: Spec, ps: seq<Param>, top: bool, v: Value, a: Location, b: Location, i: nat)
    requires LeavesAndWrites(spec, PlaceIn(spec, ps, top, v, a), PlaceIn(spec, ps, top, v, b))
    requires i == Find(ps, a[0].name) < Find(ps, b[0].name) && i < |ps| && v.Record? && ps[i].name in v.fields
    requires Unreadable !in MemberWords(spec, ps, top, v, i)
    ensures TypeFollowed(MemberWords(spec, ps, top, v, i))
  {
    var pl := Placed(ps[i], top, v.fields[ps[i].name], v);
    PlaceThrough(spec, ps, top, v, a, i);
    MemberWordsFrom(spec, ps, top, v, i);
    PlaceHasType(spec, pl, a[1..]);
    PlaceHasSome(spec, ps, top, v, b, i + 1);
    TypeFollowedJoin(Own(spec, pl) + Below(spec, pl), MemberWords(spec, ps, top, v, i + 1));
  }

  lemma PlaceHasType(spec: Spec, pl: Placed, loc: Location)
    requires Unreadable !in Own(spec, pl) + Below(spec, pl)
    requires var at := if loc == [] then Some(pl) else PlaceBelow(spec, pl, loc);
             at.Some? && TypeWord in Own(spec, at.value)
    ensures TypeWord in Own(spec, pl) + Below(spec, pl)
  {
    if loc != [] {
      PlaceBelowHasWord(spec, pl, loc, TypeWord);
    }
  }

  lemma {:induction false} PlacesBelowFollowType(spec: Spec, pl: Placed, a: Location, b: Location)
    requires a != [] && b != [] && LeavesAndWrites(spec, PlaceBelow(spec, pl, a), PlaceBelow(spec, pl, b))
    requires EarlierBelow(spec, pl.param, a, b) && Unreadable !in Own(spec, pl) + Below(spec, pl)
    ensures TypeFollowed(Below(spec, pl))
    decreases |a|, 1
  {
    var p, v := pl.param, pl.value;
    if p.pointer == "" && p.extent == "" {
      PlacesFollowType(spec, spec.Members(p), false, v, a, b);
    } else {
      ElementsFollowType(spec, p, v, Followed(spec, pl), 0, a, b);
    }
  }

  lemma {:induction false} ElementsFollowType(
      spec: Spec, p: Param, v: Value, n: nat, m: nat, a: Location, b: Location)
    requires v.Block? && m <= n <= |v.elems| && p.typ in spec.structs
    requires a != [] && b != [] && a[0].At? && b[0].At? && m <= a[0].i <= b[0].i < n
    requires LeavesAndWrites(
               spec, PlaceIn(spec, spec.Members(p), false, v.elems[a[0].i], a[1..]),
               PlaceIn(spec, spec.Members(p), false, v.elems[b[0].i], b[1..]))
    requires a[0].i == b[0].i ==> EarlierIn(spec, spec.Members(p), a[1..], b[1..])
    requires Unreadable !in ElementWords(spec, p, v, n, m)
    ensures TypeFollowed(ElementWords(spec, p, v, n, m))
    decreases |a|, 0, n - m
  {
    var ms, i, j := spec.Members(p), a[0].i, b[0].i;
    var first, rest := MemberWords(spec, ms, false, v.elems[m], 0), ElementWords(spec, p, v, n, m + 1);
    TypeFollowedJoin(first, rest);
    if m < i {
      ElementsFollowType(spec, p, v, n, m + 1, a, b);
    } else if i == j {
      PlacesFollowType(spec, ms, false, v.elems[m], a[1..], b[1..]);
    } else {
      PlaceHasWord(spec, ms, false, v.elems[m], a[1..], 0, TypeWord);
      PlaceHasSome(spec, ms, false, v.elems[j], b[1..], 0);
      ElementsHaveWord(spec, p, v, n, m + 1, j, MemberWords(spec, ms, false, v.elems[j], 0)[0]);
    }
  }

  // ----- The exact condition -----

  /** The server reads a request if and only if every place is legible by itself, and nothing is written
      after a type that an empty struct array leaves. */
  lemma RequestReadsExactly(spec: Spec, params: seq<Param>, args: Value)
    requires DistinctNames(params) && TypedFields(spec, params, true, args)
    ensures RequestReads(spec, params, args) <==>
              AllLegible(spec, params, args) && forall a, b :: !TypeIsMisread(spec, params, args, a, b)
  {
    var words := MemberWords(spec, params, true, args, 0);
    assert RequestReads(spec, params, args) <==> Unreadable !in words && !TypeFollowed(words);
    if Unreadable in words {
      var loc := MemberWordHasPlace(spec, params, true, args, 0, Unreadable);
      assert !Legible(spec, PlaceIn(spec, params, true, args, loc).value);
    } else {
      forall loc | IsPlace(spec, params, args, loc)
        ensures Legible(spec, PlaceIn(spec, params, true, args, loc).value)
      {
        if !Legible(spec, PlaceIn(spec, params, true, args, loc).value) {
          PlaceHasWord(spec, params, true, args, loc, 0, Unreadable);
        }
      }
      TypeFollowedExactly(spec, params, args);
    }
  }

  lemma TypeFollowedExactly(spec: Spec, params: seq<Param>, args: Value)
    requires DistinctNames(params) && TypedFields(spec, params, true, args)
    requires Unreadable !in MemberWords(spec, params, true, args, 0) && AllLegible(spec, params, args)
    ensures TypeFollowed(MemberWords(spec, params, true, args, 0)) <==>
              exists a, b :: TypeIsMisread(spec, params, args, a, b)
  {
    if TypeFollowed(MemberWords(spec, params, true, args, 0)) {
      var a, b := FollowedTypeHasPlaces(spec, params, true, args, 0);
      OwnType(spec, PlaceIn(spec, params, true, args, a).value);
      OwnType(spec, PlaceIn(spec, params, true, args, b).value);
      assert TypeIsMisread(spec, params, args, a, b);
    }
    if a, b :| TypeIsMisread(spec, params, args, a, b) {
      OwnType(spec, PlaceIn(spec, params, true, args, a).value);
      OwnType(spec, PlaceIn(spec, params, true, args, b).value);
      PlacesFollowType(spec, params, true, args, a, b);
    }
  }
}
