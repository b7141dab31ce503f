/**
 Where write-back fails.  `info` is a const pointer to a struct that holds a count and a const
 array of items, each with one non-const pointer.  The loop over the items ends at the bare name
 `count`, which is a member of `*info` and not a name in the generated function.
 */
module TransferExamples {
  import opened Options
  import opened Bindings
  import opened WriteBack
  import opened Transfer

  const ITEM_OUT := Param("", "int32_t", "*", "out", "", "")
  const ITEMS := Param("const", "Item", "*", "items", "", "count")
  const COUNT := Param("", "uint32_t", "", "count", "", "")
  const INFO := Param("const", "Info", "*", "info", "", "")

  const SPEC: Spec :=
    RawSpec(
      map["Item" := Struct([ITEM_OUT], false), "Info" := Struct([COUNT, ITEMS], false)],
      map[],
      map["Item" := 0, "Info" := 1])

  const PATH: Path := [Field("info"), Deref, Field("items"), Index(0), Field("out")]
  const BINDING := Binding(Ptr, PATH, ITEM_OUT, [Loop("count", 0)], NoLength)

  function Info(out: int): Value {
    Block([Record(map["count" := Leaf(1), "items" := Block([Item(out)])])])
  }

  const DEREF: Path := [Field("info"), Deref]
  const AT_ITEMS: Path := [Field("info"), Deref, Field("items")]

  lemma ItemsBindings()
    ensures Collect(SPEC, ITEMS, DEREF, AT_ITEMS, [], false) == [BINDING]
  {
    var index := [Field("info"), Deref, Field("items"), Index(0)];
    var loops := [Loop("count", 0)];
    assert CollectMembers(SPEC, 0, [ITEM_OUT], index, loops, false) == [BINDING] by {
      assert index + [Field("out")] == PATH;
      assert CollectMembers(SPEC, 0, [ITEM_OUT][1..], index, loops, false) == [];
    }
    CollectCases(SPEC, ITEMS, DEREF, AT_ITEMS, [], false);
    assert AT_ITEMS + [Index(0)] == index && [] + [Loop("count", 0)] == loops;
  }

  lemma MembersBindings()
    ensures CollectMembers(SPEC, 1, [COUNT, ITEMS], DEREF, [], false) == [BINDING]
  {
    ItemsBindings();
    assert Collect(SPEC, COUNT, DEREF, DEREF + [Field("count")], [], false) == [];
    assert [COUNT, ITEMS][1..] == [ITEMS] && DEREF + [Field("items")] == AT_ITEMS;
    assert CollectMembers(SPEC, 1, [ITEMS][1..], DEREF, [], false) == [];
  }

  lemma InfoBindings(params: seq<Param>)
    requires params == [INFO] || params == [INFO, COUNT]
    ensures FunctionBindings(SPEC, params) == [BINDING]
  {
    MembersBindings();
    assert Collect(SPEC, INFO, [], [Field("info")], [], true) == [BINDING] by {
      assert [Field("info")] + [Deref] == DEREF;
    }
    var bound := TopRank(SPEC, params);
    assert CollectMembers(SPEC, bound, params[1..], [], [], true) == [] by {
      if params == [INFO, COUNT] {
        assert params[1..] == [COUNT] && [COUNT][1..] == [] && [] + [Field("count")] == [Field("count")];
        assert Collect(SPEC, COUNT, [], [Field("count")], [], true) == [];
      }
    }
    assert [] + [Field("info")] == [Field("info")];
  }

  /** No parameter is called `count`: the generated loop does not compile. */
  lemma NestedCountUnresolved(post: Value)
    requires CalleeEffect(SPEC, [INFO], Record(map["info" := Info(0)]), post)
    ensures RemoteCall(SPEC, [INFO], Record(map["info" := Info(0)]), post) == None
  {
    InfoBindings([INFO]);
    var pre := Record(map["info" := Info(0)]);
    ChangeKeepsLoopCount(SPEC, [INFO], false, pre, post, "count");
    assert Counts(SPEC, post, BINDING.loops).None?;
  }

  function Item(out: int): Value {
    Record(map["out" := Block([Leaf(out)])])
  }

  lemma ItemIsWritable(a: int, b: int)
    ensures ChangedFields(SPEC, [ITEM_OUT], false, false, Item(a), Item(b))
  {
    assert Changed(SPEC, ITEM_OUT, false, false, Block([Leaf(a)]), Block([Leaf(b)]));
  }

  lemma ItemsAreWritable(a: int, b: int)
    ensures Changed(SPEC, ITEMS, false, false, Block([Item(a)]), Block([Item(b)]))
  {
    ItemIsWritable(a, b);
  }

  lemma MembersAreWritable(a: int, b: int)
    ensures ChangedFields(SPEC, [COUNT, ITEMS], false, false, Info(a).elems[0], Info(b).elems[0])
  {
    ItemsAreWritable(a, b);
    assert Changed(SPEC, COUNT, false, false, Leaf(1), Leaf(1));
    PairIsChanged(SPEC, COUNT, ITEMS, false, false, Info(a).elems[0], Info(b).elems[0]);
  }

  lemma InfoIsWritable(a: int, b: int)
    ensures Changed(SPEC, INFO, true, false, Info(a), Info(b))
  {
    MembersAreWritable(a, b);
  }

  function Args(out: int): Value {
    Record(map["info" := Info(out), "count" := Leaf(0)])
  }

  lemma NothingVisited(a: int)
    ensures Visits(SPEC, Args(a), BINDING) == Some([])
  {
    assert [InField("count")][1..] == [];
    assert LoopCount(SPEC, Args(a), "count") == Some(0);
    assert Counts(SPEC, Args(a), BINDING.loops[1..]) == Some([]);
    var none: seq<nat> := [];
    assert [0] + none == [0];
    assert Counts(SPEC, Args(a), BINDING.loops) == Some([0]);
    assert Nest(BINDING, [0], none) == NestFrom(BINDING, [0], none, 0);
  }

  lemma NothingTravels(a: int, b: int)
    ensures Emit(SPEC, [INFO, COUNT], [BINDING], Args(b)) == Some([])
    ensures Absorb(SPEC, [BINDING], Args(a), []) == Some(Args(a))
  {
    NothingVisited(a);
    NothingVisited(b);
    assert [BINDING][1..] == [];
    assert Read(SPEC, [INFO, COUNT], Args(b), []) == Some([]) && Emit(SPEC, [INFO, COUNT], [], Args(b)) == Some([]);
    var empty: seq<seq<Value>> := [];
    assert empty + empty == empty;
    assert Store(Args(a), [], empty) == Some((Args(a), empty));
    assert Absorb(SPEC, [], Args(a), empty) == Some(Args(a));
  }

  lemma ArgsAreWritable(a: int, b: int)
    ensures CalleeEffect(SPEC, [INFO, COUNT], Args(a), Args(b))
  {
    InfoIsWritable(a, b);
    assert Changed(SPEC, COUNT, true, false, Leaf(0), Leaf(0));
    PairIsChanged(SPEC, INFO, COUNT, true, false, Args(a), Args(b));
  }

  lemma ItemsAreRead(a: int)
    ensures MemberWords(SPEC, [COUNT, ITEMS], false, Info(a).elems[0], 0) == [Sound, Sound, Sound]
  {
    var info := Info(a).elems[0];
    assert [InField("count")][1..] == [];
    assert FieldCount(SPEC, false, info, ITEMS) == Some(1);
    var items := Block([Item(a)]);
    assert MemberWords(SPEC, [ITEM_OUT], false, Item(a), 0) == [Sound] by {
      assert Words(SPEC, ITEM_OUT, false, Block([Leaf(a)]), Some(1)) == [Sound];
      assert MemberWords(SPEC, [ITEM_OUT], false, Item(a), 1) == [];
    }
    assert ElementWords(SPEC, ITEMS, items, 1, 1) == [];
    assert ElementWords(SPEC, ITEMS, items, 1, 0) == [Sound];
    assert Words(SPEC, ITEMS, false, items, Some(1)) == [Sound, Sound];
    assert MemberWords(SPEC, [COUNT, ITEMS], false, info, 2) == [];
    assert MemberWords(SPEC, [COUNT, ITEMS], false, info, 1) == [Sound, Sound];
    assert Words(SPEC, COUNT, false, Leaf(1), FieldCount(SPEC, false, info, COUNT)) == [Sound];
  }

  lemma ArgsAreRead(a: int)
    ensures RequestReads(SPEC, [INFO, COUNT], Args(a))
  {
    ItemsAreRead(a);
    assert ElementWords(SPEC, INFO, Info(a), 1, 1) == [];
    assert ElementWords(SPEC, INFO, Info(a), 1, 0) == [Sound, Sound, Sound];
    assert Words(SPEC, INFO, true, Info(a), Some(1)) == [Sound, Sound, Sound, Sound];
    assert MemberWords(SPEC, [INFO, COUNT], true, Args(a), 2) == [];
    assert MemberWords(SPEC, [INFO, COUNT], true, Args(a), 1) == [Sound];
    assert MemberWords(SPEC, [INFO, COUNT], true, Args(a), 0) == [Sound, Sound, Sound, Sound, Sound];
  }

  /** An unrelated parameter is called `count`: the write is lost without any error. */
  lemma NestedCountCaptured(a: int, b: int)
    ensures CalleeEffect(SPEC, [INFO, COUNT], Args(a), Args(b))
    ensures RemoteCall(SPEC, [INFO, COUNT], Args(a), Args(b)) == Some(Args(a))
  {
    ArgsAreWritable(a, b);
    InfoBindings([INFO, COUNT]);
    NothingTravels(a, b);
    ArgsAreRead(a);
    assert Compiles(SPEC, [INFO, COUNT], BINDING);
  }

  // ----- Lengths -----

  const BUF := Param("", "char", "*", "buf", "", "null-terminated")

  /** A buffer that ends at a null character: only the serializer of parameters knows this length, so
      the generated line for the binding does not compile. */
  lemma NullTerminatedUnresolved(pre: Value, post: Value)
    ensures RemoteCall(SPEC, [BUF], pre, post) == None
  {
    var b := Binding(SizedPtr, [Field("buf")], BUF, [], Length([], "null-terminated"));
    assert FunctionBindings(SPEC, [BUF]) == [b] by {
      assert [] + [Field("buf")] == [Field("buf")] && [BUF][1..] == [];
      assert Collect(SPEC, BUF, [], [Field("buf")], [], true) == [b];
      var bound := TopRank(SPEC, [BUF]);
      assert CollectMembers(SPEC, bound, [BUF][1..], [], [], true) == [];
    }
    assert PathNames([Field("null-terminated")]) == ["null-terminated"] by {
      assert PathNames([Field("null-terminated")][1..]) == [];
    }
    assert [] + [Field("null-terminated")] == [Field("null-terminated")];
    assert !Compiles(SPEC, [BUF], b);
  }

  const CAPACITY := Param("", "uint32_t", "", "capacity", "", "")
  const BUFFER := Param("", "int32_t", "*", "buffer", "", "capacity")
  const BUFFER_BINDING := Binding(SizedPtr, [Field("buffer")], BUFFER, [], Length([], "capacity"))

  lemma BufferBindings()
    ensures FunctionBindings(SPEC, [CAPACITY, BUFFER]) == [BUFFER_BINDING]
    ensures AllCompile(SPEC, [CAPACITY, BUFFER])
  {
    var params := [CAPACITY, BUFFER];
    assert params[1..] == [BUFFER] && [BUFFER][1..] == [];
    assert [] + [Field("capacity")] == [Field("capacity")] && [] + [Field("buffer")] == [Field("buffer")];
    assert Collect(SPEC, CAPACITY, [], [Field("capacity")], [], true) == [];
    assert Collect(SPEC, BUFFER, [], [Field("buffer")], [], true) == [BUFFER_BINDING];
    var bound := TopRank(SPEC, params);
    assert CollectMembers(SPEC, bound, [BUFFER], [], [], true) == [BUFFER_BINDING];
    assert PathNames([Field("capacity")]) == ["capacity"] by {
      assert PathNames([Field("capacity")][1..]) == [];
    }
    assert Find(params, "capacity") == 0;
    assert Compiles(SPEC, params, BUFFER_BINDING);
  }

  lemma BufferVisits(args: Value)
    ensures AllVisits(SPEC, args, [BUFFER_BINDING]) == Some([Visit(BUFFER_BINDING, [])])
    ensures Visit(BUFFER_BINDING, []).Place() == [InField("buffer")]
  {
    assert [BUFFER_BINDING][1..] == [] && AllVisits(SPEC, args, []) == Some([]);
    assert Counts(SPEC, args, []) == Some([]);
    assert Visits(SPEC, args, BUFFER_BINDING) == Some([Visit(BUFFER_BINDING, [])]);
    assert [Visit(BUFFER_BINDING, [])] + [] == [Visit(BUFFER_BINDING, [])];
    assert Concrete([Field("buffer")][1..], []) == [];
  }

  lemma BufferCount(args: Value)
    ensures KindAt(SPEC, [CAPACITY, BUFFER], [InField("buffer")]) == SizedPtr
    ensures ElementCount(SPEC, [CAPACITY, BUFFER], args, [InField("buffer")]) == Number(SPEC, args, "capacity")
  {
    assert PlaceNames([InField("buffer")]) == ["buffer"] by {
      assert PlaceNames([InField("buffer")][1..]) == [];
    }
    assert Find([CAPACITY, BUFFER], "buffer") == 1 by {
      assert [CAPACITY, BUFFER][1..] == [BUFFER];
    }
  }

  function Call(capacity: int, buffer: Value): Value {
    Record(map["capacity" := Leaf(capacity), "buffer" := buffer])
  }

  lemma CallIsTyped(capacity: int, buffer: Value)
    requires !buffer.Leaf?
    ensures TypedFields(SPEC, [CAPACITY, BUFFER], true, Call(capacity, buffer))
  {
    assert Names([CAPACITY, BUFFER]) == {"capacity", "buffer"};
    assert Typed(SPEC, CAPACITY, true, Leaf(capacity)) && Typed(SPEC, BUFFER, true, buffer);
  }

  lemma OnlyTheBuffer(capacity: int, buffer: Value, loc: Location)
    ensures Reference(SPEC, [CAPACITY, BUFFER], Call(capacity, buffer), loc) <==> loc == [InField("buffer")]
    ensures Get(Call(capacity, buffer), [InField("buffer")]) == Some(buffer)
    ensures Number(SPEC, Call(capacity, buffer), "capacity") == Some(capacity)
  {
    assert [InField("capacity")][1..] == [] && [InField("buffer")][1..] == [];
    assert Find([CAPACITY, BUFFER], "buffer") == 1 && Find([CAPACITY, BUFFER], "capacity") == 0 by {
      assert [CAPACITY, BUFFER][1..] == [BUFFER];
    }
    assert IsLocation(SPEC, BUFFER, true, buffer, []);
    assert Reference(SPEC, [CAPACITY, BUFFER], Call(capacity, buffer), [InField("buffer")]);
    if Reference(SPEC, [CAPACITY, BUFFER], Call(capacity, buffer), loc) {
      assert loc[0].name == "capacity" || loc[0].name == "buffer";
      assert loc[0].name == "capacity" ==> !IsLocation(SPEC, CAPACITY, true, Leaf(capacity), loc[1..]);
      assert IsLocation(SPEC, BUFFER, true, buffer, loc[1..]) ==> loc[1..] == [];
      assert loc == [loc[0]] + loc[1..];
    }
  }

  lemma CallIsRead(capacity: int, buffer: Value)
    ensures RequestReads(SPEC, [CAPACITY, BUFFER], Call(capacity, buffer)) <==>
            PointerWord(buffer, Some(capacity)).Sound?
  {
    var params, pre := [CAPACITY, BUFFER], Call(capacity, buffer);
    OnlyTheBuffer(capacity, buffer, [InField("buffer")]);
    assert FieldCount(SPEC, true, pre, BUFFER) == Some(capacity);
    assert MemberWords(SPEC, params, true, pre, 2) == [];
    assert MemberWords(SPEC, params, true, pre, 1) == [PointerWord(buffer, Some(capacity))];
    var words := [Sound, PointerWord(buffer, Some(capacity))];
    assert MemberWords(SPEC, params, true, pre, 0) == words;
    assert words[1] == PointerWord(buffer, Some(capacity));
  }

  lemma ZeroCapacityUnfit(elems: seq<Value>)
    ensures !Fits(SPEC, [CAPACITY, BUFFER], Call(0, Block(elems)), [InField("buffer")])
  {
    BufferCount(Call(0, Block(elems)));
    OnlyTheBuffer(0, Block(elems), [InField("buffer")]);
  }

  /** Asking for the required capacity: a capacity of zero with a buffer that is not null fails,
      whatever the callee does, because the reply marks the buffer as null. */
  lemma ZeroCapacityRefused(elems: seq<Value>, post: Value)
    requires CalleeEffect(SPEC, [CAPACITY, BUFFER], Call(0, Block(elems)), post)
    ensures RemoteCall(SPEC, [CAPACITY, BUFFER], Call(0, Block(elems)), post) == None
  {
    BufferBindings();
    BufferVisits(Call(0, Block(elems)));
    CallIsTyped(0, Block(elems));
    ZeroCapacityUnfit(elems);
    UnfitFails(SPEC, [CAPACITY, BUFFER], Call(0, Block(elems)), post, [Visit(BUFFER_BINDING, [])], 0);
  }

  lemma BufferIsCovered(capacity: int, buffer: Value)
    ensures Covered(SPEC, [CAPACITY, BUFFER], Call(capacity, buffer)) <==>
            buffer.Null? || (buffer.Block? && 0 < capacity == |buffer.elems| < MARKER_LIMIT)
  {
    var params, pre := [CAPACITY, BUFFER], Call(capacity, buffer);
    BufferBindings();
    BufferVisits(pre);
    BufferCount(pre);
    OnlyTheBuffer(capacity, buffer, [InField("buffer")]);
    CallIsRead(capacity, buffer);
    var visit := Visit(BUFFER_BINDING, []);
    assert visit in [visit];
    assert Places([visit]) == {[InField("buffer")]};
    assert Whole(SPEC, params, pre, [InField("buffer")]) <==>
           buffer.Null? || (buffer.Block? && 0 < capacity == |buffer.elems| < MARKER_LIMIT);
    forall loc | Reference(SPEC, params, pre, loc)
      ensures loc in Places([visit])
    {
      OnlyTheBuffer(capacity, buffer, loc);
    }
  }

  /** With a length that does resolve, write-back is exact for every callee if and only if the buffer
      is null or has as many elements as the capacity says, at least one. */
  lemma BufferWritesBackExactly(capacity: int, buffer: Value)
    requires !buffer.Leaf?
    ensures (forall post :: CalleeEffect(SPEC, [CAPACITY, BUFFER], Call(capacity, buffer), post) ==>
                              RemoteCall(SPEC, [CAPACITY, BUFFER], Call(capacity, buffer), post) == Some(post))
       <==> buffer.Null? || (buffer.Block? && 0 < capacity == |buffer.elems| < MARKER_LIMIT)
  {
    CallIsTyped(capacity, buffer);
    BufferIsCovered(capacity, buffer);
    WriteBackExact(SPEC, [CAPACITY, BUFFER], Call(capacity, buffer));
  }
}
