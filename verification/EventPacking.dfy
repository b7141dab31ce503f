/**
 Packing a chain of polled events into the caller's event buffer.

 Memory is one array of cells indexed by address.  A struct occupies the addresses from its own
 address up to its size; its type is in its first cell and its next pointer in the cell at offset
 NEXT.  Address 0 is null.  Copying a struct moves all its cells.
 */
module EventPacking {

  const NEXT: nat := 8
  const HEADER: nat := 16
  const ALIGN: nat := 16
  /** sizeof(XrEventDataBuffer): header and 4000 bytes of payload. */
  const BUFFER: nat := 4016

  /** (x + ALIGN - 1) & ~(ALIGN - 1) */
  function AlignUp(x: nat): (y: nat)
    ensures Aligned(y) && x <= y < x + ALIGN
  {
    (x + 15) / 16 * 16
  }

  predicate Aligned(x: nat) {
    x % 16 == 0
  }

  /** The mask expression rounds up to the next multiple of 16 unless the address wraps. */
  lemma MaskRoundsUp(x: bv64)
    requires x <= 0xFFFF_FFFF_FFFF_FFF0
    ensures var y := (x + 15) & !15; y & 15 == 0 && x <= y && y - x <= 15
  {
  }

  /** The type-to-size table of the serializer. */
  type Sizes = int -> nat

  ghost predicate IsStruct(m: seq<int>, size: Sizes, a: nat) {
    0 < a < |m| && HEADER <= size(m[a]) && a + size(m[a]) <= |m|
  }

  /** `chain` lists the addresses of a null-terminated chain, in order. */
  ghost predicate IsChain(m: seq<int>, size: Sizes, chain: seq<nat>) {
    && chain != []
    && (forall i :: 0 <= i < |chain| ==> IsStruct(m, size, chain[i]))
    && Linked(m, chain, 0)
  }

  ghost predicate Linked(m: seq<int>, chain: seq<nat>, rest: nat) {
    forall i :: 0 <= i < |chain| ==> NextIs(m, chain, i, rest)
  }

  /** Struct i of `chain` points at struct i+1, and the last one at `rest`. */
  ghost predicate NextIs(m: seq<int>, chain: seq<nat>, i: nat, rest: nat)
    requires i < |chain|
  {
    var a := chain[i] + NEXT;
    a < |m| && m[a] == if i + 1 < |chain| then chain[i + 1] else rest
  }

  ghost function ChainSizes(m: seq<int>, size: Sizes, chain: seq<nat>): (sizes: seq<nat>)
    requires forall i :: 0 <= i < |chain| ==> chain[i] < |m|
    ensures |sizes| == |chain| && forall i :: 0 <= i < |chain| ==> sizes[i] == size(m[chain[i]])
  {
    seq(|chain|, i requires 0 <= i < |chain| => size(m[chain[i]]))
  }

  ghost function NextPlace(sizes: seq<nat>, p: seq<nat>): nat
    requires 0 < |p| <= |sizes|
  {
    AlignUp(p[|p| - 1] + sizes[|p| - 1])
  }

  ghost predicate Full(end: nat, sizes: seq<nat>, p: seq<nat>)
    requires 0 < |p| <= |sizes|
  {
    |p| == |sizes| || NextPlace(sizes, p) + sizes[|p|] > end
  }

  /** Where the structs go: after those at `p`, each at the next aligned address, up to the first
      one that would pass `end`. */
  ghost function Places(end: nat, sizes: seq<nat>, p: seq<nat>): (all: seq<nat>)
    requires 0 < |p| <= |sizes|
    ensures |p| <= |all| <= |sizes|
    decreases |sizes| - |p|
  {
    if Full(end, sizes, p) then p else Places(end, sizes, p + [NextPlace(sizes, p)])
  }

  /** An independent reading of a placement: consecutive, aligned, inside, and maximal. */
  ghost predicate Layout(end: nat, at: nat, sizes: seq<nat>, p: seq<nat>) {
    Consecutive(end, at, sizes, p) && Full(end, sizes, p)
  }

  ghost predicate Consecutive(end: nat, at: nat, sizes: seq<nat>, p: seq<nat>) {
    0 < |p| <= |sizes| && p[0] == at && forall i :: 0 < i < |p| ==> Follows(end, sizes, p, i)
  }

  /** Struct i starts at the first aligned address after struct i-1 and ends inside. */
  ghost predicate Follows(end: nat, sizes: seq<nat>, p: seq<nat>, i: nat)
    requires 0 < i < |p| <= |sizes|
  {
    p[i] == NextPlace(sizes, p[..i]) && p[i] + sizes[i] <= end
  }

  lemma Extended(end: nat, at: nat, sizes: seq<nat>, p: seq<nat>)
    requires Consecutive(end, at, sizes, p) && !Full(end, sizes, p)
    ensures Consecutive(end, at, sizes, p + [NextPlace(sizes, p)])
  {
    var q := p + [NextPlace(sizes, p)];
    forall i | 0 < i < |q|
      ensures Follows(end, sizes, q, i)
    {
      assert q[..i] == p[..i];
      assert p[..|p|] == p;
      assert i < |p| ==> Follows(end, sizes, p, i);
    }
  }

  lemma {:induction false} PlacesLayout(end: nat, at: nat, sizes: seq<nat>, p: seq<nat>)
    requires Consecutive(end, at, sizes, p)
    ensures Layout(end, at, sizes, Places(end, sizes, p))
    decreases |sizes| - |p|
  {
    if !Full(end, sizes, p) {
      Extended(end, at, sizes, p);
      PlacesLayout(end, at, sizes, p + [NextPlace(sizes, p)]);
    }
  }

  lemma ShorterIsNotFull(end: nat, at: nat, sizes: seq<nat>, p: seq<nat>, n: nat)
    requires Consecutive(end, at, sizes, p)
    ensures 0 < n < |p| ==> !Full(end, sizes, p[..n])
  {
    assert 0 < n < |p| ==> Follows(end, sizes, p, n);
  }

  /** That reading determines the placement. */
  lemma {:induction false} LayoutUnique(end: nat, at: nat, sizes: seq<nat>, p: seq<nat>, q: seq<nat>)
    requires Layout(end, at, sizes, p) && Layout(end, at, sizes, q)
    ensures p == q
  {
    var n: nat := if |p| < |q| then |p| else |q|;
    var i := 1;
    while i < n
      invariant 1 <= i <= n && p[..i] == q[..i]
    {
      assert Follows(end, sizes, p, i) && Follows(end, sizes, q, i);
      assert p[..i + 1] == p[..i] + [p[i]] && q[..i + 1] == q[..i] + [q[i]];
      i := i + 1;
    }
    assert p[..|p|] == p && q[..|q|] == q;
    ShorterIsNotFull(end, at, sizes, q, n);
    ShorterIsNotFull(end, at, sizes, p, n);
  }

  /** Placed structs are pairwise disjoint, in address order, aligned after the first, and inside
      the buffer if the first one fits. */
  lemma {:induction false} LayoutDisjoint(end: nat, at: nat, sizes: seq<nat>, p: seq<nat>)
    requires Consecutive(end, at, sizes, p)
    ensures forall i, j :: 0 <= i < j < |p| ==> p[i] + sizes[i] <= p[j]
    ensures forall i :: 0 < i < |p| ==> Aligned(p[i])
    ensures forall i :: 0 <= i < |p| ==> at <= p[i] && (at + sizes[0] <= end ==> p[i] + sizes[i] <= end)
  {
    var n := 1;
    while n < |p|
      invariant 1 <= n <= |p|
      invariant forall i :: 0 < i < n ==> Aligned(p[i])
      invariant forall i :: 0 <= i < n ==> at <= p[i] && (at + sizes[0] <= end ==> p[i] + sizes[i] <= end)
      invariant forall i, j :: 0 <= i < j < n ==> p[i] + sizes[i] <= p[j]
    {
      assert Follows(end, sizes, p, n);
      assert p[n] == AlignUp(p[n - 1] + sizes[n - 1]);
      n := n + 1;
    }
  }

  /** The n cells at `src` have been copied to `dst` and no other cell has changed. */
  ghost predicate Copied(before: seq<int>, after: seq<int>, src: nat, dst: nat, n: nat) {
    && |after| == |before| && src + n <= |before| && dst + n <= |before|
    && (forall a :: dst <= a < dst + n ==> after[a] == before[src + (a - dst)])
    && (forall a {:trigger after[a]} :: 0 <= a < |before| && !(dst <= a < dst + n) ==> after[a] == before[a])
  }

  method Copy(mem: array<int>, dst: nat, src: nat, n: nat)
    requires dst + n <= mem.Length && src + n <= mem.Length
    requires dst + n <= src || src + n <= dst
    modifies mem
    ensures Copied(old(mem[..]), mem[..], src, dst, n)
  {
    for i := 0 to n
      invariant forall a :: dst <= a < dst + i ==> mem[a] == old(mem[src + (a - dst)])
      invariant forall a :: 0 <= a < mem.Length && !(dst <= a < dst + i) ==> mem[a] == old(mem[a])
    {
      mem[dst + i] := mem[src + i];
    }
  }

  ghost function Reserved(first: nat): nat {
    if first < BUFFER then BUFFER else first
  }

  /** The input chain is elsewhere than the memory the first copy or the buffer may touch. */
  ghost predicate Apart(m: seq<int>, size: Sizes, chain: seq<nat>, out: nat) {
    IsChain(m, size, chain) &&
    forall i :: 0 <= i < |chain| ==>
      chain[i] + size(m[chain[i]]) <= out || out + Reserved(size(m[chain[0]])) <= chain[i]
  }

  /** Cell `a` belongs to one of the placed structs. */
  ghost predicate InPlaced(p: seq<nat>, sizes: seq<nat>, a: int)
    requires |p| <= |sizes|
  {
    exists i :: 0 <= i < |p| && p[i] <= a < p[i] + sizes[i]
  }

  /** The part of a chain after its first n structs. */
  function Rest(chain: seq<nat>, n: nat): nat {
    if n < |chain| then chain[n] else 0
  }

  /** All cells of a struct but its next pointer. */
  ghost predicate SameBody(before: seq<int>, after: seq<int>, src: nat, dst: nat, n: nat) {
    && src + n <= |before| && dst + n <= |after|
    && forall a :: dst <= a < dst + n && a != dst + NEXT ==> after[a] == before[src + (a - dst)]
  }

  ghost predicate Bodies(before: seq<int>, after: seq<int>, sizes: seq<nat>, chain: seq<nat>, p: seq<nat>)
    requires |p| <= |sizes| == |chain|
  {
    forall i :: 0 <= i < |p| ==> SameBody(before, after, chain[i], p[i], sizes[i])
  }

  ghost predicate OnlyPlacedChanged(before: seq<int>, after: seq<int>, sizes: seq<nat>, p: seq<nat>)
    requires |p| <= |sizes| && |after| == |before|
  {
    forall a {:trigger after[a]} :: 0 <= a < |after| && !InPlaced(p, sizes, a) ==> after[a] == before[a]
  }

  /** What the buffer holds: the first |p| structs of the chain, each identical to its original but
      for its next pointer, which leads to its successor in the buffer.  The last one's next is null
      when the whole chain was placed, and otherwise still names the first struct left out.
      Nothing else has changed. */
  ghost predicate Packed(before: seq<int>, after: seq<int>, size: Sizes, chain: seq<nat>, p: seq<nat>) {
    && IsChain(before, size, chain) && 0 < |p| <= |chain| && |after| == |before|
    && var sizes := ChainSizes(before, size, chain);
    && Bodies(before, after, sizes, chain, p)
    && Linked(after, p, Rest(chain, |p|))
    && OnlyPlacedChanged(before, after, sizes, p)
  }

  /** The n cells from `a` on are unchanged. */
  ghost predicate SameStruct(before: seq<int>, after: seq<int>, a: nat, n: nat) {
    && a + n <= |before| == |after|
    && forall b {:trigger after[b]} :: a <= b < a + n ==> after[b] == before[b]
  }

  lemma PlacedInReserve(sizes: seq<nat>, out: nat, p: seq<nat>, a: int)
    requires Consecutive(out + BUFFER, out, sizes, p) && InPlaced(p, sizes, a)
    ensures out <= a < out + Reserved(sizes[0])
  {
    LayoutDisjoint(out + BUFFER, out, sizes, p);
    var i :| 0 <= i < |p| && p[i] <= a < p[i] + sizes[i];
    assert i > 0 ==> Follows(out + BUFFER, sizes, p, i);
  }

  lemma CellUntouched(
      before: seq<int>, after: seq<int>, size: Sizes, chain: seq<nat>, out: nat, p: seq<nat>, i: nat, a: nat)
    requires Apart(before, size, chain, out) && Packed(before, after, size, chain, p)
    requires Consecutive(out + BUFFER, out, ChainSizes(before, size, chain), p)
    requires i < |chain| && chain[i] <= a < chain[i] + size(before[chain[i]])
    ensures after[a] == before[a]
  {
    var sizes := ChainSizes(before, size, chain);
    if InPlaced(p, sizes, a) {
      PlacedInReserve(sizes, out, p, a);
    }
  }

  /** The input chain is still what it was, so it can be released as it was received. */
  lemma InputUntouched(before: seq<int>, after: seq<int>, size: Sizes, chain: seq<nat>, out: nat, p: seq<nat>)
    requires Apart(before, size, chain, out) && Packed(before, after, size, chain, p)
    requires Consecutive(out + BUFFER, out, ChainSizes(before, size, chain), p)
    ensures forall i :: 0 <= i < |chain| ==> SameStruct(before, after, chain[i], size(before[chain[i]]))
    ensures IsChain(after, size, chain)
  {
    forall i: nat | i < |chain|
      ensures SameStruct(before, after, chain[i], size(before[chain[i]]))
    {
      assert IsStruct(before, size, chain[i]);
      forall a: nat | chain[i] <= a < chain[i] + size(before[chain[i]])
        ensures after[a] == before[a]
      {
        CellUntouched(before, after, size, chain, out, p, i, a);
      }
    }
    forall i | 0 <= i < |chain|
      ensures IsStruct(after, size, chain[i]) && NextIs(after, chain, i, 0)
    {
      assert IsStruct(before, size, chain[i]) && NextIs(before, chain, i, 0);
      CellUntouched(before, after, size, chain, out, p, i, chain[i]);
      CellUntouched(before, after, size, chain, out, p, i, chain[i] + NEXT);
    }
  }

  /** Copying the next struct of the chain to its place and linking it there. */
  ghost predicate Placed(m: seq<int>, after: seq<int>, src: nat, dst: nat, n: nat, link: nat) {
    && |after| == |m| && src + n <= |m| && dst + n <= |m| && link < |m|
    && (forall a :: dst <= a < dst + n ==> after[a] == m[src + (a - dst)])
    && after[link] == dst
    && (forall a {:trigger after[a]} :: 0 <= a < |m| && a != link && !(dst <= a < dst + n) ==> after[a] == m[a])
  }

  /** Every struct placed so far ends before the next place. */
  ghost predicate AllBelow(sizes: seq<nat>, p: seq<nat>, place: nat)
    requires |p| <= |sizes|
  {
    && (forall i :: 0 <= i < |p| ==> p[i] + sizes[i] <= place)
    && (forall i, j :: 0 <= i < j < |p| ==> p[i] + sizes[i] <= p[j])
    && (forall i :: 0 <= i < |sizes| ==> HEADER <= sizes[i])
  }

  lemma BodiesMore(
    before: seq<int>, m: seq<int>, after: seq<int>, sizes: seq<nat>, chain: seq<nat>, p: seq<nat>, place: nat)
    requires 0 < |p| < |sizes| == |chain| && AllBelow(sizes, p, place)
    requires Bodies(before, m, sizes, chain, p)
    requires Placed(m, after, chain[|p|], place, sizes[|p|], p[|p| - 1] + NEXT)
    requires SameStruct(before, m, chain[|p|], sizes[|p|])
    ensures Bodies(before, after, sizes, chain, p + [place])
  {
    forall i | 0 <= i < |p|
      ensures SameBody(before, after, chain[i], p[i], sizes[i])
    {
      assert SameBody(before, m, chain[i], p[i], sizes[i]);
      assert i < |p| - 1 ==> p[i] + sizes[i] <= p[|p| - 1];
    }
    forall a | place <= a < place + sizes[|p|] && a != place + NEXT
      ensures after[a] == before[chain[|p|] + (a - place)]
    {
      var b := chain[|p|] + (a - place);
      assert after[a] == m[b];
      assert m[b] == before[b];
    }
  }

  lemma LinkedMore(m: seq<int>, after: seq<int>, sizes: seq<nat>, chain: seq<nat>, p: seq<nat>, place: nat)
    requires 0 < |p| < |sizes| == |chain| && AllBelow(sizes, p, place)
    requires Linked(m, p, Rest(chain, |p|))
    requires Placed(m, after, chain[|p|], place, sizes[|p|], p[|p| - 1] + NEXT)
    requires NextIs(m, chain, |p|, 0)
    ensures Linked(after, p + [place], Rest(chain, |p| + 1))
  {
    var q := p + [place];
    forall i | 0 <= i < |q|
      ensures NextIs(after, q, i, Rest(chain, |q|))
    {
      if i < |p| - 1 {
        assert NextIs(m, p, i, chain[|p|]);
        assert p[i] + sizes[i] <= p[|p| - 1];
      } else if i == |p| {
        var a := place + NEXT;
        assert after[a] == m[chain[|p|] + (a - place)];
      }
    }
  }

  lemma OnlyPlacedMore(
    before: seq<int>, m: seq<int>, after: seq<int>, sizes: seq<nat>, src: nat, p: seq<nat>, place: nat)
    requires 0 < |p| < |sizes| && |m| == |before| && AllBelow(sizes, p, place)
    requires OnlyPlacedChanged(before, m, sizes, p)
    requires Placed(m, after, src, place, sizes[|p|], p[|p| - 1] + NEXT)
    ensures OnlyPlacedChanged(before, after, sizes, p + [place])
  {
    var q, last := p + [place], |p| - 1;
    forall a | 0 <= a < |after| && !InPlaced(q, sizes, a)
      ensures after[a] == before[a]
    {
      assert forall i :: 0 <= i < |p| ==> q[i] == p[i];
      assert !(q[last] <= a < q[last] + sizes[last]) && !(q[|p|] <= a < q[|p|] + sizes[|p|]);
    }
  }

  lemma SourceIntact(before: seq<int>, m: seq<int>, size: Sizes, chain: seq<nat>, out: nat, p: seq<nat>)
    requires Apart(before, size, chain, out) && Packed(before, m, size, chain, p) && |p| < |chain|
    requires Consecutive(out + BUFFER, out, ChainSizes(before, size, chain), p)
    ensures SameStruct(before, m, chain[|p|], size(before[chain[|p|]])) && NextIs(m, chain, |p|, 0)
  {
    InputUntouched(before, m, size, chain, out, p);
  }

  lemma PackedMore(
    before: seq<int>, m: seq<int>, after: seq<int>, size: Sizes, chain: seq<nat>, p: seq<nat>, place: nat)
    requires Packed(before, m, size, chain, p) && |p| < |chain|
    requires SameStruct(before, m, chain[|p|], size(before[chain[|p|]])) && NextIs(m, chain, |p|, 0)
    requires AllBelow(ChainSizes(before, size, chain), p, place)
    requires Placed(m, after, chain[|p|], place, size(before[chain[|p|]]), p[|p| - 1] + NEXT)
    ensures Packed(before, after, size, chain, p + [place])
  {
    var sizes := ChainSizes(before, size, chain);
    BodiesMore(before, m, after, sizes, chain, p, place);
    LinkedMore(m, after, sizes, chain, p, place);
    OnlyPlacedMore(before, m, after, sizes, chain[|p|], p, place);
  }

  lemma NextIsAbove(before: seq<int>, size: Sizes, chain: seq<nat>, end: nat, out: nat, p: seq<nat>)
    requires IsChain(before, size, chain) && Consecutive(end, out, ChainSizes(before, size, chain), p)
    ensures AllBelow(ChainSizes(before, size, chain), p, NextPlace(ChainSizes(before, size, chain), p))
  {
    var sizes := ChainSizes(before, size, chain);
    LayoutDisjoint(end, out, sizes, p);
    forall i | 0 <= i < |sizes|
      ensures HEADER <= sizes[i]
    {
      assert IsStruct(before, size, chain[i]);
    }
  }

  lemma PlaceIsApart(before: seq<int>, size: Sizes, chain: seq<nat>, out: nat, p: seq<nat>)
    requires Apart(before, size, chain, out)
    requires Consecutive(out + BUFFER, out, ChainSizes(before, size, chain), p)
    requires !Full(out + BUFFER, ChainSizes(before, size, chain), p)
    ensures var sizes := ChainSizes(before, size, chain);
            var place, src := NextPlace(sizes, p), chain[|p|];
            p[|p| - 1] + NEXT < place && place + sizes[|p|] <= out + BUFFER &&
            (place + sizes[|p|] <= src || src + sizes[|p|] <= place)
  {
    LayoutDisjoint(out + BUFFER, out, ChainSizes(before, size, chain), p);
    assert IsStruct(before, size, chain[|p| - 1]) && IsStruct(before, size, chain[|p|]);
  }

  lemma FirstLinked(before: seq<int>, after: seq<int>, chain: seq<nat>, out: nat, n: nat)
    requires chain != [] && Copied(before, after, chain[0], out, n) && HEADER <= n
    requires NextIs(before, chain, 0, 0)
    ensures Linked(after, [out], Rest(chain, 1))
  {
    var link := out + NEXT;
    assert after[link] == before[chain[0] + (link - out)];
  }

  lemma FirstOnly(before: seq<int>, after: seq<int>, sizes: seq<nat>, src: nat, out: nat)
    requires sizes != [] && Copied(before, after, src, out, sizes[0])
    ensures OnlyPlacedChanged(before, after, sizes, [out])
  {
    forall a | 0 <= a < |after| && !InPlaced([out], sizes, a)
      ensures after[a] == before[a]
    {
      assert !([out][0] <= a < [out][0] + sizes[0]);
    }
  }

  /** The first struct is copied to the start of the buffer, whatever its size. */
  lemma FirstPacked(before: seq<int>, after: seq<int>, size: Sizes, chain: seq<nat>, out: nat)
    requires IsChain(before, size, chain) && Copied(before, after, chain[0], out, size(before[chain[0]]))
    ensures Packed(before, after, size, chain, [out])
  {
    var sizes := ChainSizes(before, size, chain);
    assert IsStruct(before, size, chain[0]) && NextIs(before, chain, 0, 0);
    assert SameBody(before, after, chain[0], out, sizes[0]);
    FirstLinked(before, after, chain, out, sizes[0]);
    FirstOnly(before, after, sizes, chain[0], out);
  }

  /** The loop invariant: the structs at `p` are packed, and `p` is on the way to the final places. */
  ghost predicate Packing(before: seq<int>, after: seq<int>, size: Sizes, chain: seq<nat>, out: nat, p: seq<nat>) {
    && Apart(before, size, chain, out)
    && Packed(before, after, size, chain, p)
    && var sizes := ChainSizes(before, size, chain);
    && Consecutive(out + BUFFER, out, sizes, p)
    && Places(out + BUFFER, sizes, p) == Places(out + BUFFER, sizes, [out])
  }

  /** What the loop reads: the address, size and place of the next struct of the chain. */
  lemma NextStruct(before: seq<int>, m: seq<int>, size: Sizes, chain: seq<nat>, out: nat, p: seq<nat>)
    requires Packing(before, m, size, chain, out, p)
    ensures p[|p| - 1] + NEXT < |m|
    ensures m[p[|p| - 1] + NEXT] == 0 <==> |p| == |chain|
    ensures |p| < |chain| ==>
              var src := m[p[|p| - 1] + NEXT];
              src == chain[|p|] && src < |m| && src + size(m[src]) <= |m| &&
              size(m[src]) == ChainSizes(before, size, chain)[|p|]
  {
    assert NextIs(m, p, |p| - 1, Rest(chain, |p|));
    if |p| < |chain| {
      assert IsStruct(before, size, chain[|p|]);
      CellUntouched(before, m, size, chain, out, p, |p|, chain[|p|]);
    }
  }

  lemma PlacesMore(end: nat, at: nat, sizes: seq<nat>, p: seq<nat>, place: nat)
    requires Consecutive(end, at, sizes, p) && !Full(end, sizes, p) && place == NextPlace(sizes, p)
    ensures Consecutive(end, at, sizes, p + [place])
    ensures Places(end, sizes, p + [place]) == Places(end, sizes, p)
  {
    Extended(end, at, sizes, p);
  }

  lemma PackedNext(
    before: seq<int>, m: seq<int>, after: seq<int>, size: Sizes, chain: seq<nat>, out: nat, p: seq<nat>, place: nat)
    requires Apart(before, size, chain, out) && Packed(before, m, size, chain, p) && |p| < |chain|
    requires Consecutive(out + BUFFER, out, ChainSizes(before, size, chain), p)
    requires place == NextPlace(ChainSizes(before, size, chain), p)
    requires Placed(m, after, chain[|p|], place, size(before[chain[|p|]]), p[|p| - 1] + NEXT)
    ensures Packed(before, after, size, chain, p + [place])
  {
    NextIsAbove(before, size, chain, out + BUFFER, out, p);
    SourceIntact(before, m, size, chain, out, p);
    PackedMore(before, m, after, size, chain, p, place);
  }

  lemma PackingMore(
    before: seq<int>, m: seq<int>, after: seq<int>, size: Sizes, chain: seq<nat>, out: nat, p: seq<nat>, place: nat)
    requires Packing(before, m, size, chain, out, p)
    requires !Full(out + BUFFER, ChainSizes(before, size, chain), p)
    requires place == NextPlace(ChainSizes(before, size, chain), p)
    requires Placed(m, after, chain[|p|], place, size(before[chain[|p|]]), p[|p| - 1] + NEXT)
    ensures Packing(before, after, size, chain, out, p + [place])
  {
    PackedNext(before, m, after, size, chain, out, p, place);
    PlacesMore(out + BUFFER, out, ChainSizes(before, size, chain), p, place);
  }

  /** Copies a struct to its place and points the previous struct's next at it. */
  method PlaceStruct(mem: array<int>, dst: nat, src: nat, n: nat, last: nat)
    requires dst + n <= mem.Length && src + n <= mem.Length && last + NEXT < dst
    requires dst + n <= src || src + n <= dst
    modifies mem
    ensures Placed(old(mem[..]), mem[..], src, dst, n, last + NEXT)
  {
    Copy(mem, dst, src, n);
    mem[last + NEXT] := dst;
  }

  /** The loop state: `last` is the most recently placed struct and `lastSize` its size. */
  ghost predicate LoopState(
    before: seq<int>, m: seq<int>, size: Sizes, chain: seq<nat>, out: nat, p: seq<nat>, last: nat, lastSize: nat) {
    && Packing(before, m, size, chain, out, p)
    && last == p[|p| - 1] && last + NEXT < |m| && out + BUFFER <= |m|
    && lastSize == ChainSizes(before, size, chain)[|p| - 1]
  }

  /** One turn of the loop: place the next struct, or leave everything if it does not fit. */
  method PackNext(
    mem: array<int>, size: Sizes, out: nat, last: nat, lastSize: nat,
    ghost before: seq<int>, ghost chain: seq<nat>, ghost p: seq<nat>)
    returns (fits: bool, next: nat, nextSize: nat)
    requires LoopState(before, mem[..], size, chain, out, p, last, lastSize) && mem[last + NEXT] != 0
    modifies mem
    ensures |p| < |chain|
    ensures fits ==> LoopState(before, mem[..], size, chain, out, p + [next], next, nextSize)
    ensures !fits ==> mem[..] == old(mem[..]) && Full(out + BUFFER, ChainSizes(before, size, chain), p)
  {
    ghost var m := mem[..];
    NextStruct(before, m, size, chain, out, p);
    var structIn := mem[last + NEXT];
    nextSize := size(mem[structIn]);
    next := AlignUp(last + lastSize);
    fits := next + nextSize <= out + BUFFER;
    if fits {
      PlaceIsApart(before, size, chain, out, p);
      PlaceStruct(mem, next, structIn, nextSize, last);
      PackingMore(before, m, mem[..], size, chain, out, p, next);
    }
  }

  /** Copies the event chain at `input` into the buffer at `out`. */
  method PackEvents(mem: array<int>, size: Sizes, out: nat, input: nat, ghost chain: seq<nat>)
    requires Apart(mem[..], size, chain, out) && chain[0] == input
    requires 0 < out && out + Reserved(size(mem[input])) <= mem.Length
    modifies mem
    ensures IsChain(old(mem[..]), size, chain)
    ensures Packed(old(mem[..]), mem[..], size, chain,
                   Places(out + BUFFER, ChainSizes(old(mem[..]), size, chain), [out]))
  {
    ghost var before := mem[..];
    var last: nat, lastSize: nat := out, size(mem[input]);
    Copy(mem, out, input, lastSize);
    ghost var p: seq<nat> := [out];
    FirstPacked(before, mem[..], size, chain, out);
    NextStruct(before, mem[..], size, chain, out, p);

    var fits := true;
    while fits && mem[last + NEXT] != 0
      invariant LoopState(before, mem[..], size, chain, out, p, last, lastSize)
      invariant !fits ==> Full(out + BUFFER, ChainSizes(before, size, chain), p)
      decreases fits, |chain| - |p|
    {
      var next: nat, nextSize: nat;
      fits, next, nextSize := PackNext(mem, size, out, last, lastSize, before, chain, p);
      if fits {
        last, lastSize, p := next, nextSize, p + [next];
      }
    }
    NextStruct(before, mem[..], size, chain, out, p);
  }

  lemma OutsideUntouched(before: seq<int>, after: seq<int>, sizes: seq<nat>, out: nat, p: seq<nat>, a: nat)
    requires Consecutive(out + BUFFER, out, sizes, p)
    requires |after| == |before| && OnlyPlacedChanged(before, after, sizes, p)
    requires sizes[0] <= BUFFER && a < |after| && !(out <= a < out + BUFFER)
    ensures after[a] == before[a]
  {
    if InPlaced(p, sizes, a) {
      PlacedInReserve(sizes, out, p, a);
    }
  }

  lemma SourceIsOutside(before: seq<int>, size: Sizes, chain: seq<nat>, out: nat, i: nat)
    requires Apart(before, size, chain, out) && i < |chain|
    ensures !(out <= chain[i] < out + BUFFER)
  {
    assert IsStruct(before, size, chain[i]);
  }

  /** Struct i is placed at the first multiple of 16 after the one before it, and ends inside. */
  ghost predicate AtNextMultiple(end: nat, sizes: seq<nat>, p: seq<nat>, i: nat)
    requires 0 < i < |p| <= |sizes|
  {
    var after := p[i - 1] + sizes[i - 1];
    p[i] % 16 == 0 && after <= p[i] <= after + 15 && p[i] + sizes[i] <= end
  }

  /** At every multiple of 16 from `from` on, a struct of this size ends outside. */
  ghost predicate FitsNowhereAfter(end: nat, from: nat, size: nat) {
    forall a: nat :: Aligned(a) && a >= from ==> a + size > end
  }

  lemma FullFitsNowhere(end: nat, sizes: seq<nat>, p: seq<nat>)
    requires 0 < |p| < |sizes| && Full(end, sizes, p)
    ensures FitsNowhereAfter(end, p[|p| - 1] + sizes[|p| - 1], sizes[|p|])
  {
    var from := p[|p| - 1] + sizes[|p| - 1];
    forall a: nat | Aligned(a) && a >= from
      ensures a >= AlignUp(from)
    {
    }
  }

  lemma FollowsMultiple(end: nat, at: nat, sizes: seq<nat>, p: seq<nat>, i: nat)
    requires Consecutive(end, at, sizes, p) && 0 < i < |p|
    ensures AtNextMultiple(end, sizes, p, i)
  {
    assert Follows(end, sizes, p, i);
  }

  /** Where the events end up: disjoint, in address order, and all inside the buffer whenever the first
      event fits it. */
  lemma PlacesSound(end: nat, at: nat, sizes: seq<nat>)
    requires sizes != []
    ensures var p := Places(end, sizes, [at]);
      && Layout(end, at, sizes, p)
      && (forall i, j :: 0 <= i < j < |p| ==> p[i] + sizes[i] <= p[j])
      && (at + sizes[0] <= end ==> forall i :: 0 <= i < |p| ==> at <= p[i] && p[i] + sizes[i] <= end)
  {
    PlacesLayout(end, at, sizes, [at]);
    LayoutDisjoint(end, at, sizes, Places(end, sizes, [at]));
  }

  /** The first event starts the buffer, each other one the next multiple of 16; the first one left out
      would end outside at every multiple of 16 that is free. */
  lemma PlacesExactly(end: nat, at: nat, sizes: seq<nat>)
    requires sizes != []
    ensures var p := Places(end, sizes, [at]);
      && p[0] == at
      && (forall i :: 0 < i < |p| ==> AtNextMultiple(end, sizes, p, i))
      && (|p| < |sizes| ==> FitsNowhereAfter(end, p[|p| - 1] + sizes[|p| - 1], sizes[|p|]))
  {
    PlacesLayout(end, at, sizes, [at]);
    var p := Places(end, sizes, [at]);
    forall i | 0 < i < |p|
      ensures AtNextMultiple(end, sizes, p, i)
    {
      FollowsMultiple(end, at, sizes, p, i);
    }
    if |p| < |sizes| {
      FullFitsNowhere(end, sizes, p);
    }
  }

  /** Nothing outside the buffer is written if the first event fits it. */
  lemma PackedInside(before: seq<int>, after: seq<int>, size: Sizes, chain: seq<nat>, out: nat, p: seq<nat>)
    requires Packed(before, after, size, chain, p)
    requires p == Places(out + BUFFER, ChainSizes(before, size, chain), [out])
    requires size(before[chain[0]]) <= 4016
    ensures forall a :: 0 <= a < |after| && !(out <= a < out + 4016) ==> after[a] == before[a]
  {
    PlacesLayout(out + BUFFER, out, ChainSizes(before, size, chain), [out]);
    forall a | 0 <= a < |after| && !(out <= a < out + BUFFER)
      ensures after[a] == before[a]
    {
      OutsideUntouched(before, after, ChainSizes(before, size, chain), out, p, a);
    }
  }

  /** Where struct i would go if there were no limit. */
  ghost function AlignedPlace(at: nat, sizes: seq<nat>, i: nat): nat
    requires i < |sizes|
  {
    if i == 0 then at else AlignUp(AlignedPlace(at, sizes, i - 1) + sizes[i - 1])
  }

  ghost predicate EndsInside(end: nat, at: nat, sizes: seq<nat>, i: nat)
    requires i < |sizes|
  {
    AlignedPlace(at, sizes, i) + sizes[i] <= end
  }

  ghost predicate AllEndInside(end: nat, at: nat, sizes: seq<nat>) {
    forall i :: 0 < i < |sizes| ==> EndsInside(end, at, sizes, i)
  }

  lemma {:induction false} PlacedWhereAligned(end: nat, at: nat, sizes: seq<nat>, p: seq<nat>, i: nat)
    requires Consecutive(end, at, sizes, p) && i < |p|
    ensures p[i] == AlignedPlace(at, sizes, i) && (i > 0 ==> EndsInside(end, at, sizes, i))
  {
    if i > 0 {
      PlacedWhereAligned(end, at, sizes, p, i - 1);
      assert Follows(end, sizes, p, i);
    }
  }

  /** How far the placement comes: every struct is placed if and only if each of them after the first
      ends inside at its aligned place; otherwise it stops before the first one that does not. */
  lemma AllPlacedExactly(end: nat, at: nat, sizes: seq<nat>)
    requires sizes != []
    ensures var p := Places(end, sizes, [at]);
      && (|p| == |sizes| <==> AllEndInside(end, at, sizes))
      && (|p| < |sizes| ==> !EndsInside(end, at, sizes, |p|))
      && forall i :: 0 <= i < |p| ==> p[i] == AlignedPlace(at, sizes, i)
  {
    var p := Places(end, sizes, [at]);
    PlacesLayout(end, at, sizes, [at]);
    forall i | 0 <= i < |p|
      ensures p[i] == AlignedPlace(at, sizes, i)
    {
      PlacedWhereAligned(end, at, sizes, p, i);
    }
    forall i | 0 < i < |p|
      ensures EndsInside(end, at, sizes, i)
    {
      PlacedWhereAligned(end, at, sizes, p, i);
    }
    if |p| < |sizes| {
      assert p[|p| - 1] == AlignedPlace(at, sizes, |p| - 1);
      assert AlignedPlace(at, sizes, |p|) == NextPlace(sizes, p);
      assert !EndsInside(end, at, sizes, |p|);
    } else {
      assert AllEndInside(end, at, sizes);
    }
  }

  /** The cell at offset 8 of struct i leads to the next one, and that of the last one to `rest`. */
  ghost predicate LinkedAt(m: seq<int>, p: seq<nat>, i: nat, rest: nat)
    requires i < |p|
  {
    p[i] + 8 < |m| && m[p[i] + 8] == if i == |p| - 1 then rest else p[i + 1]
  }

  /** All cells of a struct are those of its original, but for the one at offset 8. */
  ghost predicate SameButLink(before: seq<int>, after: seq<int>, src: nat, dst: nat, n: nat) {
    && 16 <= n && src + n <= |before| && dst + n <= |after|
    && after[dst..dst + 8] == before[src..src + 8] && after[dst + 9..dst + n] == before[src + 9..src + n]
  }

  lemma BodyIsSame(before: seq<int>, after: seq<int>, src: nat, dst: nat, n: nat)
    requires SameBody(before, after, src, dst, n) && 16 <= n
    ensures SameButLink(before, after, src, dst, n)
  {
    assert forall a :: dst <= a < dst + 8 ==> after[a] == before[src + (a - dst)];
    assert forall a :: dst + 9 <= a < dst + n ==> after[a] == before[src + (a - dst)];
  }

  lemma LinksAndBodies(before: seq<int>, after: seq<int>, size: Sizes, chain: seq<nat>, p: seq<nat>, i: nat)
    requires Packed(before, after, size, chain, p) && i < |p|
    ensures LinkedAt(after, p, i, if |p| == |chain| then 0 else chain[|p|])
    ensures SameButLink(before, after, chain[i], p[i], size(before[chain[i]]))
  {
    assert NextIs(after, p, i, Rest(chain, |p|));
    assert IsStruct(before, size, chain[i]);
    BodyIsSame(before, after, chain[i], p[i], ChainSizes(before, size, chain)[i]);
  }

  /** What the buffer holds: every event is its original but for its link, which leads to the next event in
      the buffer; that of the last one is null, or leads to the first event left out. */
  lemma PackedContents(before: seq<int>, after: seq<int>, size: Sizes, chain: seq<nat>, p: seq<nat>)
    requires Packed(before, after, size, chain, p)
    ensures var rest := if |p| == |chain| then 0 else chain[|p|];
            forall i :: 0 <= i < |p| ==>
              LinkedAt(after, p, i, rest) && SameButLink(before, after, chain[i], p[i], size(before[chain[i]]))
  {
    var rest := if |p| == |chain| then 0 else chain[|p|];
    forall i | 0 <= i < |p|
      ensures LinkedAt(after, p, i, rest) && SameButLink(before, after, chain[i], p[i], size(before[chain[i]]))
    {
      LinksAndBodies(before, after, size, chain, p, i);
    }
  }

  /** What the links lead to: the input chain is as it was, and if an event was left out, which is so exactly
      if some event after the first does not end inside at its aligned place, then the last link leads out of
      the buffer. */
  lemma PackedLinks(before: seq<int>, after: seq<int>, size: Sizes, chain: seq<nat>, out: nat, p: seq<nat>)
    requires Apart(before, size, chain, out) && Packed(before, after, size, chain, p)
    requires p == Places(out + BUFFER, ChainSizes(before, size, chain), [out])
    ensures IsChain(after, size, chain)
    ensures forall i :: 0 <= i < |chain| ==> SameStruct(before, after, chain[i], size(before[chain[i]]))
    ensures |p| == |chain| ==> Linked(after, p, 0)
    ensures |p| < |chain| ==> Linked(after, p, chain[|p|]) && !(out <= chain[|p|] < out + 4016)
    ensures |p| == |chain| <==> AllEndInside(out + BUFFER, out, ChainSizes(before, size, chain))
  {
    PlacesLayout(out + BUFFER, out, ChainSizes(before, size, chain), [out]);
    AllPlacedExactly(out + BUFFER, out, ChainSizes(before, size, chain));
    InputUntouched(before, after, size, chain, out, p);
    if |p| < |chain| {
      SourceIsOutside(before, size, chain, out, |p|);
    }
  }

  // ----- An event that does not fit -----

  /** Every event fills a whole buffer. */
  const FULL: Sizes := typ => BUFFER

  /** Two events after the buffer, at the end of a memory of three. */
  const OUT: nat := 16
  const EVENTS: seq<nat> := [4032, 8048]
  const MEMORY: seq<int> := seq(12064, a => if a == 4040 then 8048 else 0)

  lemma EventsAreApart()
    ensures Apart(MEMORY, FULL, EVENTS, OUT)
  {
    assert |MEMORY| == 12064;
    assert NextIs(MEMORY, EVENTS, 0, 0) && NextIs(MEMORY, EVENTS, 1, 0);
    assert IsStruct(MEMORY, FULL, 4032) && IsStruct(MEMORY, FULL, 8048);
  }

  /** The second event is left out, and the packed one still points at it. */
  lemma LastLinkDangles(after: seq<int>)
    requires Packed(MEMORY, after, FULL, EVENTS,
                    Places(OUT + BUFFER, ChainSizes(MEMORY, FULL, EVENTS), [OUT]))
    ensures Places(OUT + BUFFER, ChainSizes(MEMORY, FULL, EVENTS), [OUT]) == [OUT]
    ensures 24 < |after| && after[24] == 8048 && 8048 >= 16 + 4016
  {
    EventsAreApart();
    var sizes := ChainSizes(MEMORY, FULL, EVENTS);
    assert NextPlace(sizes, [OUT]) >= OUT + BUFFER && sizes[1] == BUFFER;
    assert Full(OUT + BUFFER, sizes, [OUT]);
    PackedLinks(MEMORY, after, FULL, EVENTS, OUT, [OUT]);
    assert NextIs(after, [OUT], 0, EVENTS[1]);
  }
}
