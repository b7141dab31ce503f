/**
 Removing every struct of one type from a next chain, in place.
 */
module NextChain {

  class ChainNode {
    const typ: int
    var next: ChainNode?

    constructor (typ: int)
      ensures this.typ == typ && next == null
    {
      this.typ, next := typ, null;
    }
  }

  /** Node i of `path` points at node i+1, and the last one at `end`. */
  ghost predicate NextIs(path: seq<ChainNode>, i: nat, end: ChainNode?)
    requires i < |path|
    reads path
  {
    path[i].next == if i + 1 < |path| then path[i + 1] else end
  }

  ghost predicate Chain(path: seq<ChainNode>, end: ChainNode?)
    reads path
  {
    forall i :: 0 <= i < |path| ==> NextIs(path, i, end)
  }

  ghost predicate Distinct(nodes: seq<ChainNode>) {
    forall i, j :: 0 <= i < j < |nodes| ==> nodes[i] != nodes[j]
  }

  ghost function Without(nodes: seq<ChainNode>, typ: int): (kept: seq<ChainNode>)
    ensures forall n <- kept :: n in nodes && n.typ != typ
  {
    if nodes == [] then []
    else (if nodes[0].typ == typ then [] else [nodes[0]]) + Without(nodes[1..], typ)
  }

  ghost function FirstOf(nodes: seq<ChainNode>, typ: int): ChainNode? {
    if nodes == [] then null else if nodes[0].typ == typ then nodes[0] else FirstOf(nodes[1..], typ)
  }

  /** Filtering goes node by node: it respects every way of cutting the chain. */
  lemma {:induction false} WithoutJoins(a: seq<ChainNode>, b: seq<ChainNode>, typ: int)
    ensures Without(a + b, typ) == Without(a, typ) + Without(b, typ)
  {
    if a == [] {
      assert a + b == b;
    } else {
      assert (a + b)[0] == a[0] && (a + b)[1..] == a[1..] + b;
      WithoutJoins(a[1..], b, typ);
    }
  }

  /** What stays: every node of another type, as often as it was there, and no node of this type. */
  lemma {:induction false} WithoutCounts(nodes: seq<ChainNode>, typ: int, n: ChainNode)
    ensures multiset(Without(nodes, typ))[n] == if n.typ == typ then 0 else multiset(nodes)[n]
  {
    if nodes == [] {
    } else {
      WithoutCounts(nodes[1..], typ, n);
      assert nodes == [nodes[0]] + nodes[1..];
    }
  }

  /** Node i is the first of its type. */
  ghost predicate IsFirst(nodes: seq<ChainNode>, i: int, typ: int) {
    0 <= i < |nodes| && nodes[i].typ == typ && forall j :: 0 <= j < i ==> nodes[j].typ != typ
  }

  lemma {:induction false} FirstOfIsFirst(nodes: seq<ChainNode>, typ: int)
    ensures FirstOf(nodes, typ) == null <==> forall n <- nodes :: n.typ != typ
    ensures forall i :: IsFirst(nodes, i, typ) ==> FirstOf(nodes, typ) == nodes[i]
  {
    if nodes == [] {
    } else {
      FirstOfIsFirst(nodes[1..], typ);
      forall i | IsFirst(nodes, i, typ)
        ensures FirstOf(nodes, typ) == nodes[i]
      {
        assert i > 0 ==> IsFirst(nodes[1..], i - 1, typ);
      }
      assert nodes == [nodes[0]] + nodes[1..];
    }
  }

  function Head(nodes: seq<ChainNode>): ChainNode? {
    if nodes == [] then null else nodes[0]
  }

  /** A chain is a first part that leads to a second one. */
  lemma SplitChain(a: seq<ChainNode>, b: seq<ChainNode>)
    requires a != [] && Chain(a + b, null)
    ensures Chain(a, Head(b)) && Chain(b, null)
    ensures a[|a| - 1].next == Head(b)
  {
    assert forall i :: 0 <= i < |a| ==> NextIs(a + b, i, null);
    assert forall i :: 0 <= i < |a| ==> (NextIs(a + b, i, null) ==> NextIs(a, i, Head(b)));
    forall i | 0 <= i < |b|
      ensures NextIs(b, i, null)
    {
      assert NextIs(a + b, |a| + i, null);
    }
    assert NextIs(a, |a| - 1, Head(b));
  }

  lemma JoinChain(path: seq<ChainNode>, node: ChainNode, end: ChainNode?)
    requires Chain(path, node) && node.next == end
    ensures Chain(path + [node], end)
  {
    var longer := path + [node];
    forall i | 0 <= i < |longer|
      ensures NextIs(longer, i, end)
    {
      assert i < |path| ==> NextIs(path, i, node);
    }
  }

  lemma DropMiddle(a: seq<ChainNode>, b: seq<ChainNode>, c: seq<ChainNode>)
    requires Distinct(a + (b + c))
    ensures Distinct(a + c)
  {
    var all, some := a + (b + c), a + c;
    forall i, j | 0 <= i < j < |some|
      ensures some[i] != some[j]
    {
      var i', j' := if i < |a| then i else i + |b|, if j < |a| then j else j + |b|;
      assert all[i'] == some[i] && all[j'] == some[j];
    }
  }

  lemma NextIsNotLast(path: seq<ChainNode>, rest: seq<ChainNode>)
    requires path != [] && rest != [] && Distinct(path + rest)
    ensures path[|path| - 1] != rest[0]
  {
    assert (path + rest)[|path|] == rest[0] && (path + rest)[|path| - 1] == path[|path| - 1];
  }

  lemma AppendIsPrepend(a: seq<ChainNode>, x: ChainNode, b: seq<ChainNode>)
    ensures a + ([x] + b) == a + [x] + b
  {
  }

  lemma WithoutFirst(path: seq<ChainNode>, rest: seq<ChainNode>, typ: int)
    requires rest != []
    ensures rest[0].typ == typ ==> path + Without(rest, typ) == path + Without(rest[1..], typ)
    ensures rest[0].typ != typ ==> path + Without(rest, typ) == path + [rest[0]] + Without(rest[1..], typ)
    ensures path + rest == path + [rest[0]] + rest[1..]
  {
    var later := Without(rest[1..], typ);
    AppendIsPrepend(path, rest[0], later);
    AppendIsPrepend(path, rest[0], rest[1..]);
    assert [] + later == later;
    assert rest == [rest[0]] + rest[1..];
  }

  /** One node is dropped from the front of the second part. */
  lemma DropFirst(path: seq<ChainNode>, rest: seq<ChainNode>)
    requires rest != [] && Distinct(path + rest)
    ensures Distinct(path + rest[1..])
  {
    assert rest == [rest[0]] + rest[1..];
    DropMiddle(path, [rest[0]], rest[1..]);
  }

  /** Redirecting the last node of a path; the nodes elsewhere do not notice. */
  method Relink(
      ghost path: seq<ChainNode>, prev: ChainNode, ghost node: ChainNode?, next: ChainNode?,
      ghost rest: seq<ChainNode>)
    requires path != [] && Distinct(path + rest) && prev == path[|path| - 1]
    requires Chain(path, node) && Chain(rest, null)
    modifies prev`next
    ensures Chain(path, next) && Chain(rest, null)
  {
    var n := |path|;
    assert forall i :: 0 <= i < n ==> NextIs(path, i, node);
    assert forall i :: 0 <= i < |rest| ==> NextIs(rest, i, null);
    assert forall i :: 0 <= i < n - 1 ==> (path + rest)[i] != (path + rest)[n - 1];
    assert forall i :: 0 <= i < |rest| ==>
      (path + rest)[n + i] != (path + rest)[n - 1] && (path + rest)[n + i] == rest[i];
    prev.next := next;
    forall i | 0 <= i < n
      ensures NextIs(path, i, next)
    {
      assert old(NextIs(path, i, node));
      assert i < n - 1 ==> path[i] == (path + rest)[i];
    }
    forall i | 0 <= i < |rest|
      ensures NextIs(rest, i, null)
    {
      assert old(NextIs(rest, i, null));
    }
  }

  /** The nodes after `base` become exactly those of another type, in their order; the first removed
      node is returned, or null.  No next pointer changes other than those of nodes that stay. */
  method RemoveFromChain(base: ChainNode, target: int, ghost nodes: seq<ChainNode>) returns (result: ChainNode?)
    requires Distinct([base] + nodes) && Chain([base] + nodes, null)
    modifies base, set n <- nodes | n.typ != target
    ensures Chain([base] + Without(nodes, target), null)
    ensures result == null <==> forall n <- nodes :: n.typ != target
    ensures forall i :: IsFirst(nodes, i, target) ==> result == nodes[i]
  {
    result := null;
    var prev: ChainNode, node := base, base.next;
    ghost var path: seq<ChainNode>, rest := [base], nodes;
    SplitChain([base], nodes);
    while node != null
      invariant path != [] && prev == path[|path| - 1]
      invariant Distinct(path + rest)
      invariant forall n <- path :: n == base || (n in nodes && n.typ != target)
      invariant forall n <- rest :: n in nodes
      invariant Chain(path, node) && Chain(rest, null) && node == Head(rest)
      invariant path + Without(rest, target) == [base] + Without(nodes, target)
      invariant FirstOf(nodes, target) == if result != null then result else FirstOf(rest, target)
      invariant result != null ==> result.typ == target
      decreases |rest|
    {
      ghost var later := rest[1..];
      assert [node] + later == rest;
      SplitChain([node], later);
      assert node.next == Head(later);
      WithoutFirst(path, rest, target);
      if node.typ == target {
        if result == null {
          result := node;
        }
        DropFirst(path, rest);
        NextIsNotLast(path, rest);
        Relink(path, prev, node, node.next, later);
      } else {
        JoinChain(path, node, node.next);
        prev, path := node, path + [node];
      }
      node := node.next;
      rest := later;
    }
    assert path + [] == path;
    FirstOfIsFirst(nodes, target);
  }
}
