/**
 Arrays of header structs with a count of zero and a pointer that is not null, as in asking
 xrEnumerateSwapchainImages for the required capacity.  The type of the first struct follows the
 count in the request; as nothing follows that, the call succeeds.
 */
module StructArrayExamples {
  import opened Options
  import opened Bindings
  import opened WriteBack
  import opened Transfer

  const CAPACITY := Param("", "uint32_t", "", "capacity", "", "")
  const COUNT := Param("", "uint32_t", "*", "count", "", "")
  const IMAGES := Param("", "Image", "*", "images", "", "capacity")
  const BATCH := Param("const", "Batch", "*", "batch", "", "")

  const SPEC: Spec :=
    RawSpec(
      map["Image" := Struct([], true), "Batch" := Struct([CAPACITY, IMAGES], false)],
      map[],
      map["Image" := 0, "Batch" := 0])

  const PARAMS := [CAPACITY, COUNT, IMAGES]
  const COUNT_BINDING := Binding(Ptr, [Field("count")], COUNT, [], NoLength)
  const IMAGES_BINDING := Binding(XrArray, [Field("images")], IMAGES, [], Length([], "capacity"))

  function Call(count: Value, images: Value): Value {
    Record(map["capacity" := Leaf(0), "count" := count, "images" := images])
  }

  lemma GetField(v: Value, name: string)
    ensures Get(v, [InField(name)]) == if v.Record? && name in v.fields then Some(v.fields[name]) else None
  {
    assert [InField(name)][1..] == [];
  }

  lemma GetFields(v: Value)
    requires v.Record? && v.fields.Keys == {"capacity", "count", "images"}
    ensures Get(v, [InField("count")]) == Some(v.fields["count"])
    ensures Get(v, [InField("images")]) == Some(v.fields["images"])
  {
    GetField(v, "count");
    GetField(v, "images");
  }

  lemma FieldBindings(prefix: Path, loops: seq<Loop>, decay: bool)
    ensures Collect(SPEC, CAPACITY, prefix, prefix + [Field("capacity")], loops, decay) == []
    ensures Collect(SPEC, COUNT, prefix, prefix + [Field("count")], loops, decay) ==
            [Binding(Ptr, prefix + [Field("count")], COUNT, loops, NoLength)]
    ensures Collect(SPEC, IMAGES, prefix, prefix + [Field("images")], loops, decay) ==
            [Binding(XrArray, prefix + [Field("images")], IMAGES, loops, Length(prefix, "capacity"))]
  {
  }

  lemma CallBindings()
    ensures FunctionBindings(SPEC, PARAMS) == [COUNT_BINDING, IMAGES_BINDING]
  {
    FieldBindings([], [], true);
    var bound := TopRank(SPEC, PARAMS);
    assert forall n: string :: [] + [Field(n)] == [Field(n)];
    assert PARAMS[1..] == [COUNT, IMAGES] && [COUNT, IMAGES][1..] == [IMAGES] && [IMAGES][1..] == [];
    assert CollectMembers(SPEC, bound, [], [], [], true) == [];
    assert CollectMembers(SPEC, bound, [IMAGES], [], [], true) == [IMAGES_BINDING];
    assert CollectMembers(SPEC, bound, [COUNT, IMAGES], [], [], true) == [COUNT_BINDING, IMAGES_BINDING];
  }

  lemma CallCompiles()
    ensures AllCompile(SPEC, PARAMS)
  {
    CallBindings();
    assert PathNames([Field("capacity")][1..]) == [];
    assert [] + [Field("capacity")] == [Field("capacity")];
    assert Find(PARAMS, "capacity") == 0;
    assert Compiles(SPEC, PARAMS, COUNT_BINDING) && Compiles(SPEC, PARAMS, IMAGES_BINDING);
  }

  lemma ImagesWords(count: Value, images: Value)
    ensures MemberWords(SPEC, PARAMS, true, Call(count, images), 2) == StructArrayWords(images, Some(0))
  {
    var pre := Call(count, images);
    GetField(pre, "capacity");
    assert FieldCount(SPEC, true, pre, IMAGES) == Some(0);
    assert MemberWords(SPEC, PARAMS, true, pre, 3) == [];
  }

  lemma CallWords(first: Value, images: Value)
    ensures MemberWords(SPEC, PARAMS, true, Call(Block([first]), images), 0) ==
            [Sound, Sound] + StructArrayWords(images, Some(0))
  {
    var pre, words := Call(Block([first]), images), StructArrayWords(images, Some(0));
    ImagesWords(Block([first]), images);
    assert PARAMS[0] == CAPACITY && PARAMS[1] == COUNT;
    assert Words(SPEC, COUNT, true, Block([first]), Some(1)) == [Sound];
    assert MemberWords(SPEC, PARAMS, true, pre, 1) == [Sound] + words;
    assert [Sound] + ([Sound] + words) == [Sound, Sound] + words;
  }

  lemma CallIsRead(first: Value, images: Value)
    ensures RequestReads(SPEC, PARAMS, Call(Block([first]), images)) <==>
            images.Null? || (images.Block? && images.elems != [])
  {
    CallWords(first, images);
    var words := StructArrayWords(images, Some(0));
    assert words[0] == ([Sound, Sound] + words)[2];
  }

  lemma OneVisit(args: Value, b: Binding)
    requires b.loops == []
    ensures Visits(SPEC, args, b) == Some([Visit(b, [])])
  {
    assert Counts(SPEC, args, []) == Some([]);
  }

  lemma CallVisits(args: Value)
    ensures AllVisits(SPEC, args, [COUNT_BINDING, IMAGES_BINDING]) ==
            Some([Visit(COUNT_BINDING, []), Visit(IMAGES_BINDING, [])])
    ensures Visit(COUNT_BINDING, []).Place() == [InField("count")]
    ensures Visit(IMAGES_BINDING, []).Place() == [InField("images")]
  {
    OneVisit(args, COUNT_BINDING);
    OneVisit(args, IMAGES_BINDING);
    var bs := [COUNT_BINDING, IMAGES_BINDING];
    assert bs[1..] == [IMAGES_BINDING] && [IMAGES_BINDING][1..] == [];
    var visits := [Visit(COUNT_BINDING, []), Visit(IMAGES_BINDING, [])];
    assert visits == [visits[0]] + ([visits[1]] + []);
    assert AllVisits(SPEC, args, []) == Some([]);
    assert AllVisits(SPEC, args, [IMAGES_BINDING]) == Some([Visit(IMAGES_BINDING, [])] + []);
    assert Concrete([Field("count")][1..], []) == [] && Concrete([Field("images")][1..], []) == [];
  }

  lemma CallDeclares(args: Value)
    ensures KindAt(SPEC, PARAMS, [InField("count")]) == Ptr
    ensures KindAt(SPEC, PARAMS, [InField("images")]) == XrArray
    ensures ElementCount(SPEC, PARAMS, args, [InField("count")]) == Some(1)
    ensures ElementCount(SPEC, PARAMS, args, [InField("images")]) == Number(SPEC, args, "capacity")
  {
    assert PlaceNames([InField("count")][1..]) == [] && PlaceNames([InField("images")][1..]) == [];
    assert PlaceNames([InField("count")]) == ["count"] && PlaceNames([InField("images")]) == ["images"];
    FindInCall();
  }

  lemma FindInCall()
    ensures Find(PARAMS, "capacity") == 0 && Find(PARAMS, "count") == 1 && Find(PARAMS, "images") == 2
  {
    assert PARAMS[1..] == [COUNT, IMAGES] && [COUNT, IMAGES][1..] == [IMAGES];
    assert Find([IMAGES], "images") == 0 && Find([COUNT, IMAGES], "images") == 1;
  }

  lemma CallFits(first: Value, elems: seq<Value>)
    ensures var pre := Call(Block([first]), Block(elems));
            Fits(SPEC, PARAMS, pre, [InField("count")]) && Fits(SPEC, PARAMS, pre, [InField("images")])
  {
    var pre := Call(Block([first]), Block(elems));
    CallDeclares(pre);
    GetField(pre, "capacity");
    GetField(pre, "count");
    GetField(pre, "images");
    assert [InField("count")][1..] == [] && [InField("images")][1..] == [];
  }

  lemma CallIsTyped(count: Value, images: Value)
    requires !count.Leaf? && !images.Leaf?
    ensures DistinctNames(PARAMS) && TypedFields(SPEC, PARAMS, true, Call(count, images))
  {
    assert Typed(SPEC, CAPACITY, true, Leaf(0)) && Typed(SPEC, COUNT, true, count) && Typed(SPEC, IMAGES, true, images);
    TripleIsTyped(SPEC, CAPACITY, COUNT, IMAGES, true, Call(count, images));
  }

  lemma CallReferences(count: Value, images: Value)
    ensures Reference(SPEC, PARAMS, Call(count, images), [InField("count")])
    ensures Reference(SPEC, PARAMS, Call(count, images), [InField("images")])
  {
    FindInCall();
    assert [InField("count")][1..] == [] && [InField("images")][1..] == [];
    assert IsLocation(SPEC, COUNT, true, count, []) && IsLocation(SPEC, IMAGES, true, images, []);
  }

  const VISITS := [Visit(COUNT_BINDING, []), Visit(IMAGES_BINDING, [])]

  lemma CallPlaces()
    ensures Places(VISITS) == {[InField("count")], [InField("images")]}
  {
    CallVisits(Null);
    assert VISITS[0] in VISITS && VISITS[1] in VISITS;
    assert forall visit <- VISITS :: visit == VISITS[0] || visit == VISITS[1];
  }

  lemma CallAllFits(first: Value, elems: seq<Value>)
    ensures AllFit(SPEC, PARAMS, Call(Block([first]), Block(elems)), VISITS)
  {
    CallFits(first, elems);
    CallPlaces();
    forall visit | visit in VISITS
      ensures Fits(SPEC, PARAMS, Call(Block([first]), Block(elems)), visit.Place())
    {
      assert visit.Place() in Places(VISITS);
    }
  }

  lemma CallIsSound(first: Value, elems: seq<Value>)
    requires elems != []
    ensures var pre := Call(Block([first]), Block(elems));
            && AllCompile(SPEC, PARAMS) && RequestReads(SPEC, PARAMS, pre) && AllFit(SPEC, PARAMS, pre, VISITS)
            && AllVisits(SPEC, pre, FunctionBindings(SPEC, PARAMS)) == Some(VISITS)
  {
    CallBindings();
    CallCompiles();
    CallIsRead(first, Block(elems));
    CallVisits(Call(Block([first]), Block(elems)));
    CallAllFits(first, elems);
  }

  lemma CallReturns(first: Value, elems: seq<Value>, post: Value) returns (r: Value)
    requires elems != [] && CalleeEffect(SPEC, PARAMS, Call(Block([first]), Block(elems)), post)
    ensures var pre := Call(Block([first]), Block(elems));
            RemoteCall(SPEC, PARAMS, pre, post) == Some(r) && Merged(SPEC, PARAMS, pre, pre, post, Places(VISITS), r)
  {
    CallIsSound(first, elems);
    CallIsTyped(Block([first]), Block(elems));
    r := ReturnsMerged(SPEC, PARAMS, Call(Block([first]), Block(elems)), post, VISITS);
  }

  lemma ImagesStay(count: Value, elems: seq<Value>, w: Option<Value>)
    ensures var pre := Call(count, Block(elems));
            Overlay(SPEC, PARAMS, pre, [InField("images")], Some(Block(elems)), w) == Some(Block(elems))
  {
    var pre := Call(count, Block(elems));
    CallDeclares(pre);
    GetField(pre, "capacity");
  }

  lemma CountIsTaken(first: Value, count: Value)
    requires SameShape(Block([first]), count)
    ensures Overlaid(Ptr, false, 1, Block([first]), count) == count
  {
    assert count.elems[..1] + [first][1..] == count.elems;
  }

  lemma CountIsWritten(first: Value, images: Value, count: Value)
    requires SameShape(Block([first]), count)
    ensures var pre := Call(Block([first]), images);
            Overlay(SPEC, PARAMS, pre, [InField("count")], Some(Block([first])), Some(count)) == Some(count)
  {
    CallDeclares(Call(Block([first]), images));
    CountIsTaken(first, count);
  }

  lemma FieldsOfCall(args: Value, clears: bool, count: Value, images: Value)
    requires ChangedFields(SPEC, PARAMS, true, clears, Call(count, images), args)
    ensures args.Record? && args.fields.Keys == {"capacity", "count", "images"}
    ensures args.fields["capacity"] == Leaf(0)
    ensures KeepsShape(clears, count, args.fields["count"]) && KeepsShape(clears, images, args.fields["images"])
  {
    FieldIsChanged(SPEC, PARAMS, true, clears, Call(count, images), args, 0);
    FieldIsChanged(SPEC, PARAMS, true, clears, Call(count, images), args, 1);
    FieldIsChanged(SPEC, PARAMS, true, clears, Call(count, images), args, 2);
  }

  lemma CallOfFields(args: Value)
    requires args.Record? && args.fields.Keys == {"capacity", "count", "images"} && args.fields["capacity"] == Leaf(0)
    ensures args == Call(args.fields["count"], args.fields["images"])
  {
    assert args.fields == Call(args.fields["count"], args.fields["images"]).fields;
  }

  /** Whatever the callee does, a capacity of zero with images that are not null gives the caller the
      callee's count and leaves the images alone. */
  lemma ZeroCapacityReturns(first: Value, elems: seq<Value>, post: Value)
    requires elems != [] && CalleeEffect(SPEC, PARAMS, Call(Block([first]), Block(elems)), post)
    ensures post.Record? && "count" in post.fields
    ensures RemoteCall(SPEC, PARAMS, Call(Block([first]), Block(elems)), post) ==
            Some(Call(post.fields["count"], Block(elems)))
  {
    var pre := Call(Block([first]), Block(elems));
    var r := CallReturns(first, elems, post);
    CallPlaces();
    CallReferences(Block([first]), Block(elems));
    FieldsOfCall(post, false, Block([first]), Block(elems));
    FieldsOfCall(r, true, Block([first]), Block(elems));
    CallOfFields(r);
    GetFields(pre);
    GetFields(post);
    GetFields(r);
    ImagesStay(Block([first]), elems, Get(post, [InField("images")]));
    CountIsWritten(first, Block(elems), post.fields["count"]);
  }

  /** A pointer to no image at all: the type of the first one is read nevertheless. */
  lemma NoImagesUnread(first: Value, post: Value)
    ensures RemoteCall(SPEC, PARAMS, Call(Block([first]), Block([])), post) == None
  {
    CallIsRead(first, Block([]));
  }

  lemma CountWords(count: Value, images: Value)
    ensures MemberWords(SPEC, [CAPACITY, IMAGES, COUNT], true, Call(count, images), 2) == [PointerWord(count, Some(1))]
  {
    var params, pre := [CAPACITY, IMAGES, COUNT], Call(count, images);
    assert MemberWords(SPEC, params, true, pre, 3) == [];
    assert pre.fields["count"] == count && FieldCount(SPEC, true, pre, COUNT) == Some(1);
    assert Words(SPEC, COUNT, true, count, Some(1)) == [PointerWord(count, Some(1))];
  }

  lemma ShiftedWords(count: Value, images: Value)
    ensures MemberWords(SPEC, [CAPACITY, IMAGES, COUNT], true, Call(count, images), 0) ==
            [Sound] + (StructArrayWords(images, Some(0)) + [PointerWord(count, Some(1))])
  {
    var params, pre := [CAPACITY, IMAGES, COUNT], Call(count, images);
    CountWords(count, images);
    GetField(pre, "capacity");
    assert FieldCount(SPEC, true, pre, IMAGES) == Some(0);
    assert Words(SPEC, IMAGES, true, images, Some(0)) == StructArrayWords(images, Some(0));
  }

  /** With the count after the images the server takes the type for the start of what follows. */
  lemma TypeShiftsCount(count: Value, elems: seq<Value>, post: Value)
    ensures RemoteCall(SPEC, [CAPACITY, IMAGES, COUNT], Call(count, Block(elems)), post) == None
  {
    ShiftedWords(count, Block(elems));
    var all := [Sound] + (StructArrayWords(Block(elems), Some(0)) + [PointerWord(count, Some(1))]);
    if elems == [] {
      assert all[1] == Unreadable;
    } else {
      assert all[2] == TypeWord && |all| == 4;
    }
  }

  // ----- The same array inside a struct -----

  const BATCH_PARAMS := [BATCH]
  const BATCH_PATH: Path := [Field("batch"), Deref, Field("images")]
  const BATCH_BINDING := Binding(XrArray, BATCH_PATH, IMAGES, [], Length([Field("batch"), Deref], "capacity"))
  const BATCH_PLACE: Location := [InField("batch"), At(0), InField("images")]

  function Batch(images: Value): Value {
    Record(map["capacity" := Leaf(0), "images" := images])
  }

  function BatchCall(images: Value): Value {
    Record(map["batch" := Block([Batch(images)])])
  }

  lemma BatchBindings()
    ensures FunctionBindings(SPEC, BATCH_PARAMS) == [BATCH_BINDING]
  {
    var deref := [Field("batch"), Deref];
    FieldBindings(deref, [], false);
    assert deref + [Field("images")] == BATCH_PATH;
    assert [CAPACITY, IMAGES][1..] == [IMAGES] && [IMAGES][1..] == [];
    assert CollectMembers(SPEC, 0, [], deref, [], false) == [];
    assert CollectMembers(SPEC, 0, [IMAGES], deref, [], false) == [BATCH_BINDING];
    assert CollectMembers(SPEC, 0, [CAPACITY, IMAGES], deref, [], false) == [BATCH_BINDING];
    assert [] + [Field("batch")] == [Field("batch")] && [Field("batch")] + [Deref] == deref;
    assert Collect(SPEC, BATCH, [], [Field("batch")], [], true) == [BATCH_BINDING];
    var bound := TopRank(SPEC, BATCH_PARAMS);
    assert BATCH_PARAMS[1..] == [] && CollectMembers(SPEC, bound, [], [], [], true) == [];
  }

  lemma BatchCompiles()
    ensures AllCompile(SPEC, BATCH_PARAMS)
  {
    BatchBindings();
    var path := [Field("batch"), Deref] + [Field("capacity")];
    assert path[1..][1..][1..] == [] && path[1..][1..][0] == Field("capacity");
    assert PathNames(path[1..][1..]) == ["capacity"];
    assert PathNames(path) == ["batch", "capacity"];
    assert ["batch", "capacity"][1..] == ["capacity"];
    assert Declaration(SPEC, [CAPACITY, IMAGES], ["capacity"]) == Some(CAPACITY);
    assert Declaration(SPEC, BATCH_PARAMS, ["batch", "capacity"]) == Some(CAPACITY);
    assert Compiles(SPEC, BATCH_PARAMS, BATCH_BINDING);
  }

  lemma BatchIsRead(elems: seq<Value>)
    requires elems != []
    ensures RequestReads(SPEC, BATCH_PARAMS, BatchCall(Block(elems)))
  {
    var pre, batch := BatchCall(Block(elems)), Batch(Block(elems));
    GetField(batch, "capacity");
    var ms := [CAPACITY, IMAGES];
    assert FieldCount(SPEC, false, batch, IMAGES) == Some(0);
    assert MemberWords(SPEC, ms, false, batch, 2) == [];
    assert MemberWords(SPEC, ms, false, batch, 1) == [Sound, TypeWord];
    assert MemberWords(SPEC, ms, false, batch, 0) == [Sound, Sound, TypeWord];
    var refs := Block([batch]);
    assert ElementWords(SPEC, BATCH, refs, 1, 1) == [];
    assert ElementWords(SPEC, BATCH, refs, 1, 0) == [Sound, Sound, TypeWord];
    assert Words(SPEC, BATCH, true, refs, Some(1)) == [Sound, Sound, Sound, TypeWord];
    assert MemberWords(SPEC, BATCH_PARAMS, true, pre, 1) == [];
    assert MemberWords(SPEC, BATCH_PARAMS, true, pre, 0) == [Sound, Sound, Sound, TypeWord];
  }

  lemma BatchVisits(args: Value)
    ensures AllVisits(SPEC, args, [BATCH_BINDING]) == Some([Visit(BATCH_BINDING, [])])
    ensures Visit(BATCH_BINDING, []).Place() == BATCH_PLACE
  {
    OneVisit(args, BATCH_BINDING);
    assert [BATCH_BINDING][1..] == [] && AllVisits(SPEC, args, []) == Some([]);
    assert [Visit(BATCH_BINDING, [])] + [] == [Visit(BATCH_BINDING, [])];
    assert BATCH_PATH[1..][1..][1..] == [] && BATCH_PATH[1..][1..][0] == Field("images");
    assert Concrete(BATCH_PATH[1..][1..], []) == [InField("images")];
    assert Concrete(BATCH_PATH[1..], []) == [At(0), InField("images")];
  }

  lemma BatchGets(images: Value, name: string)
    ensures Get(BatchCall(images), [InField("batch"), At(0), InField(name)]) == Get(Batch(images), [InField(name)])
  {
    var loc := [InField("batch"), At(0), InField(name)];
    assert loc[1..][1..] == [InField(name)];
  }

  lemma BatchEmpties(images: Value)
    ensures Empties(SPEC, BATCH_PARAMS, BatchCall(images), BATCH_PLACE)
    ensures Get(BatchCall(images), BATCH_PLACE) == Some(images)
  {
    BatchGets(images, "images");
    BatchGets(images, "capacity");
    GetField(Batch(images), "images");
    GetField(Batch(images), "capacity");
    assert Beside(BATCH_PLACE, "capacity") == [InField("batch"), At(0), InField("capacity")];
    assert BATCH_PLACE[1..][1..][1..] == [] && BATCH_PLACE[1..][1..][0] == InField("images");
    assert PlaceNames(BATCH_PLACE[1..][1..]) == ["images"];
    assert PlaceNames(BATCH_PLACE) == ["batch", "images"];
    assert ["batch", "images"][1..] == ["images"] && [CAPACITY, IMAGES][1..] == [IMAGES];
    assert Find([IMAGES], "images") == 0 && Find([CAPACITY, IMAGES], "images") == 1;
    assert Declaration(SPEC, [CAPACITY, IMAGES], ["images"]) == Some(IMAGES);
    assert Declaration(SPEC, BATCH_PARAMS, ["batch", "images"]) == Some(IMAGES);
  }

  lemma BatchArrives(images: Value)
    ensures Arrives(SPEC, BATCH_PARAMS, true, BatchCall(images), BATCH_PLACE)
  {
    var rest := BATCH_PLACE[1..][1..];
    assert rest == [InField("images")] && rest[1..] == [];
    assert Arrives(SPEC, [CAPACITY, IMAGES], false, Batch(images), rest);
    assert FieldCount(SPEC, true, BatchCall(images), BATCH) == Some(1);
    assert ArrivesBelow(SPEC, BATCH, Block([Batch(images)]), Some(1), BATCH_PLACE[1..]);
  }

  lemma BatchIsTyped(images: Value)
    requires !images.Leaf?
    ensures TypedFields(SPEC, BATCH_PARAMS, true, BatchCall(images))
  {
    assert Names([CAPACITY, IMAGES]) == {"capacity", "images"} && Names(BATCH_PARAMS) == {"batch"};
    assert Typed(SPEC, CAPACITY, false, Leaf(0)) && Typed(SPEC, IMAGES, false, images);
    assert TypedFields(SPEC, [CAPACITY, IMAGES], false, Batch(images));
    assert Typed(SPEC, BATCH, true, Block([Batch(images)]));
  }

  /** The call returns, and the caller's pointer to the images is null. */
  lemma NestedImagesLost(elems: seq<Value>, post: Value)
    requires elems != [] && CalleeEffect(SPEC, BATCH_PARAMS, BatchCall(Block(elems)), post)
    ensures var r := RemoteCall(SPEC, BATCH_PARAMS, BatchCall(Block(elems)), post);
            r.Some? && r != Some(post) && Get(r.value, BATCH_PLACE) == Some(Null)
  {
    var pre := BatchCall(Block(elems));
    var visits := [Visit(BATCH_BINDING, [])];
    BatchBindings();
    BatchCompiles();
    BatchIsRead(elems);
    BatchVisits(pre);
    BatchEmpties(Block(elems));
    BatchArrives(Block(elems));
    BatchIsTyped(Block(elems));
    assert visits[0] in visits && BATCH_PLACE in Places(visits);
    assert Fits(SPEC, BATCH_PARAMS, pre, BATCH_PLACE);
    RemoteCallResult(SPEC, BATCH_PARAMS, pre, post);
    EmptiedIsLost(
      SPEC, BATCH_PARAMS, pre, post, visits, visits[0], RemoteCall(SPEC, BATCH_PARAMS, pre, post).value);
  }
}
