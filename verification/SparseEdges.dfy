/** Edge arrays of the sparse graph families: every edge once, in increasing code order. */
module SparseEdges {
  import opened Basics
  import opened Sorting
  import opened SparseNeighbours

  type Edge = (int, int)

  const MAX_GRAPH_NNZ := 64_000_000

  /** The code by which edges are sorted. */
  function Code(count: nat, e: Edge): int { VertexId(count, e.1, e.0) }

  predicate InRange(count: nat, e: Edge) { 0 <= e.0 < e.1 < count }

  lemma CodeInjective(count: nat, a: Edge, b: Edge)
    requires InRange(count, a) && InRange(count, b)
    ensures Code(count, a) == Code(count, b) <==> a == b
  {
    VertexIdInjective(count, a.1, a.0, b.1, b.0);
  }

  /** Strictly increasing by code, with exactly the given edges. */
  ghost predicate EdgeList(count: nat, list: seq<Edge>, edges: set<Edge>) {
    && IncreasingCodes(count, list)
    && (forall e :: e in edges <==> e in list)
  }

  predicate IncreasingCodes(count: nat, list: seq<Edge>) {
    forall i, j :: 0 <= i < j < |list| ==> Code(count, list[i]) < Code(count, list[j])
  }

  /** Each edge once, in any order. */
  ghost predicate Listed(list: seq<Edge>, edges: set<Edge>) {
    && (forall i, j :: 0 <= i < j < |list| ==> list[i] != list[j])
    && (forall e :: e in edges <==> e in list)
  }

  lemma {:induction false} ListedSize(list: seq<Edge>, edges: set<Edge>)
    requires Listed(list, edges)
    ensures |list| == |edges|
  {
    if list == [] {
      assert forall e :: e !in edges;
      assert edges == {};
    } else {
      var last := |list| - 1;
      assert list == list[..last] + [list[last]];
      assert list[last] in list;
      ListedSize(list[..last], edges - {list[last]});
    }
  }

  /** There is only one edge list of a set of edges, whatever the batches and orders it was built in. */
  lemma {:induction false} EdgeListUnique(count: nat, a: seq<Edge>, b: seq<Edge>, edges: set<Edge>)
    requires EdgeList(count, a, edges) && EdgeList(count, b, edges)
    ensures a == b
    decreases |a|
  {
    assert a != [] ==> a[|a| - 1] in a && a[|a| - 1] in b;
    assert b != [] ==> b[|b| - 1] in b && b[|b| - 1] in a;
    if a == [] {
    } else {
      var x := a[|a| - 1];
      assert x == b[|b| - 1];
      assert a == a[..|a| - 1] + [x] && b == b[..|b| - 1] + [x];
      EdgeListUnique(count, a[..|a| - 1], b[..|b| - 1], edges - {x});
    }
  }

  // ----- Sorting -----

  /** The order of codes. */
  function ByCode(count: nat): (Edge, Edge) -> bool { (a: Edge, b: Edge) => Code(count, a) < Code(count, b) }

  /** Sorting a listing by code gives the edge list. */
  lemma SortedByCode(count: nat, list: seq<Edge>, edges: set<Edge>)
    requires Listed(list, edges) && forall e :: e in edges ==> InRange(count, e)
    ensures EdgeList(count, SortBy(ByCode(count), list), edges)
  {
    var less := ByCode(count);
    forall i, j | 0 <= i < j < |list|
      ensures less(list[i], list[j]) || less(list[j], list[i])
    {
      assert list[i] in list && list[j] in list;
      CodeInjective(count, list[i], list[j]);
    }
    SortIncreases(less, list);
    SortKeeps(less, list);
    SameMembers(SortBy(less, list), list);
  }

  function Flat(blocks: seq<seq<Edge>>): seq<Edge> {
    if blocks == [] then [] else Flat(blocks[..|blocks| - 1]) + blocks[|blocks| - 1]
  }

  /** Concatenates the blocks and sorts by code, unless there are too many edges. */
  method EdgeArrays(blocks: seq<seq<Edge>>, count: nat, ghost edges: set<Edge>) returns (outcome: Outcome<seq<Edge>>)
    requires Listed(Flat(blocks), edges) && forall e :: e in edges ==> InRange(count, e)
    ensures outcome.Done? <==> 2 * |edges| <= MAX_GRAPH_NNZ
    ensures outcome.Done? ==> EdgeList(count, outcome.value, edges)
    ensures outcome.Failed? ==> outcome.error == Budget
  {
    var list := Flat(blocks);
    ListedSize(list, edges);
    if 2 * |list| > MAX_GRAPH_NNZ {
      return Failed(Budget);
    }
    SortedByCode(count, list, edges);
    outcome := Done(SortBy(ByCode(count), list));
  }

  /** The edges of a set in no particular order. */
  method AnyOrder(edges: set<Edge>) returns (list: seq<Edge>)
    ensures Listed(list, edges)
  {
    list := [];
    var rest := edges;
    assert edges - rest == {};
    while rest != {}
      invariant rest <= edges && Listed(list, edges - rest)
      decreases |rest|
    {
      var e: Edge :| e in rest;
      AddListed(list, edges - rest, e);
      assert edges - (rest - {e}) == (edges - rest) + {e};
      rest := rest - {e};
      list := list + [e];
    }
    assert edges - rest == edges;
  }

  lemma AddListed(list: seq<Edge>, edges: set<Edge>, e: Edge)
    requires Listed(list, edges) && e !in edges
    ensures Listed(list + [e], edges + {e})
  {
    assert forall i :: 0 <= i < |list| ==> list[i] in list;
  }

  lemma JoinListed(a: seq<Edge>, b: seq<Edge>, left: set<Edge>, right: set<Edge>)
    requires Listed(a, left) && Listed(b, right) && left !! right
    ensures Listed(a + b, left + right)
  {
    assert forall i :: 0 <= i < |a| ==> a[i] in a && a[i] in left;
    assert forall i :: 0 <= i < |b| ==> b[i] in b && b[i] in right;
  }

  lemma AppendBlock(blocks: seq<seq<Edge>>, block: seq<Edge>)
    ensures Flat(blocks + [block]) == Flat(blocks) + block
  {
    assert (blocks + [block])[..|blocks|] == blocks;
  }

  // ----- Degrees -----

  /** The number of edges at a row. */
  function Degree(list: seq<Edge>, v: int): nat {
    if list == [] then 0
    else Degree(list[..|list| - 1], v) + Bit(v == list[|list| - 1].0) + Bit(v == list[|list| - 1].1)
  }

  function DegreeSum(list: seq<Edge>, n: nat): nat {
    if n == 0 then 0 else DegreeSum(list, n - 1) + Degree(list, n - 1)
  }

  lemma {:induction false} DegreeSumAppend(list: seq<Edge>, e: Edge, n: nat)
    requires e.0 >= 0 && e.1 >= 0
    ensures DegreeSum(list + [e], n) == DegreeSum(list, n) + Bit(e.0 < n) + Bit(e.1 < n)
  {
    if n == 0 {
    } else {
      DegreeSumAppend(list, e, n - 1);
      assert (list + [e])[..|list|] == list;
    }
  }

  lemma {:induction false} NoDegrees(n: nat)
    ensures DegreeSum([], n) == 0
  {
    if n == 0 {
    } else {
      NoDegrees(n - 1);
    }
  }

  /** Degrees add up to twice the number of edges. */
  lemma {:induction false} DegreesCountEdgesTwice(count: nat, list: seq<Edge>)
    requires forall i :: 0 <= i < |list| ==> InRange(count, list[i])
    ensures DegreeSum(list, count) == 2 * |list|
  {
    if list == [] {
      NoDegrees(count);
    } else {
      var last := |list| - 1;
      DegreesCountEdgesTwice(count, list[..last]);
      DegreeSumAppend(list[..last], list[last], count);
      assert list == list[..last] + [list[last]];
    }
  }
}
