/** What a graph receipt stores beside its edges: adjacency lists, degrees, component labels. */
module GraphReceipts {
  import opened Graphs

  type Adjacency = seq<seq<int>>

  function EdgeSet(edges: seq<(int, int)>): Edges { set i | 0 <= i < |edges| :: edges[i] }

  /** The row's list names each of its neighbours once. */
  ghost predicate ListsNeighbours(edges: Edges, list: seq<int>, v: int) {
    Distinct(list) && forall w :: w in list <==> Adjacent(edges, v, w)
  }

  ghost predicate Lists(n: nat, edges: Edges, adjacent: Adjacency) {
    |adjacent| == n && forall v :: 0 <= v < n ==> ListsNeighbours(edges, adjacent[v], v)
  }

  function Total(adjacent: Adjacency): nat {
    if adjacent == [] then 0 else Total(adjacent[..|adjacent| - 1]) + |adjacent[|adjacent| - 1]|
  }

  lemma {:induction false} TotalAfterAppend(adjacent: Adjacency, v: nat, w: int)
    requires v < |adjacent|
    ensures Total(adjacent[v := adjacent[v] + [w]]) == Total(adjacent) + 1
  {
    var last := |adjacent| - 1;
    var longer := adjacent[v := adjacent[v] + [w]];
    if v == last {
      assert longer[..last] == adjacent[..last];
    } else {
      assert longer[..last] == adjacent[..last][v := adjacent[..last][v] + [w]];
      TotalAfterAppend(adjacent[..last], v, w);
    }
  }

  lemma {:induction false} TotalOfEmpty(adjacent: Adjacency)
    requires forall v :: 0 <= v < |adjacent| ==> adjacent[v] == []
    ensures Total(adjacent) == 0
  {
    if adjacent == [] {
    } else {
      TotalOfEmpty(adjacent[..|adjacent| - 1]);
    }
  }

  lemma EdgeSetExtends(edges: seq<(int, int)>, k: nat)
    requires k < |edges| && Distinct2(edges)
    ensures EdgeSet(edges[..k + 1]) == EdgeSet(edges[..k]) + {edges[k]} && edges[k] !in EdgeSet(edges[..k])
  {
    forall e | e in EdgeSet(edges[..k + 1])
      ensures e in EdgeSet(edges[..k]) + {edges[k]}
    {
      var i :| 0 <= i < k + 1 && edges[..k + 1][i] == e;
      assert i < k ==> edges[..k][i] == e;
    }
    forall e | e in EdgeSet(edges[..k])
      ensures e in EdgeSet(edges[..k + 1])
    {
      var i :| 0 <= i < k && edges[..k][i] == e;
      assert edges[..k + 1][i] == e;
    }
    assert edges[..k + 1][k] == edges[k];
  }

  ghost predicate Distinct2(edges: seq<(int, int)>) { forall i, j :: 0 <= i < j < |edges| ==> edges[i] != edges[j] }

  /** The canonical edge rows of a receipt: in range, smaller row first, no edge twice. */
  ghost predicate CanonicalRows(n: nat, edges: seq<(int, int)>) {
    Distinct2(edges) && forall i :: 0 <= i < |edges| ==> 0 <= edges[i].0 < edges[i].1 < n
  }

  lemma LongerList(edges: Edges, list: seq<int>, v: int, w: int)
    requires ListsNeighbours(edges, list, v) && !Adjacent(edges, v, w) && v != w
    ensures ListsNeighbours(edges + {(v, w)}, list + [w], v) && ListsNeighbours(edges + {(w, v)}, list + [w], v)
  {
  }

  /** Builds the adjacency lists from the edge rows; the degrees add up to twice the number of edges. */
  method BuildAdjacency(n: nat, edges: seq<(int, int)>) returns (adjacent: Adjacency)
    requires CanonicalRows(n, edges)
    ensures Lists(n, EdgeSet(edges), adjacent)
    ensures Total(adjacent) == 2 * |edges|
  {
    adjacent := seq(n, _ => []);
    TotalOfEmpty(adjacent);
    var k := 0;
    while k < |edges|
      invariant k <= |edges|
      invariant Lists(n, EdgeSet(edges[..k]), adjacent)
      invariant Total(adjacent) == 2 * k
    {
      var (left, right) := edges[k];
      ghost var before := EdgeSet(edges[..k]);
      ghost var was := adjacent;
      EdgeSetExtends(edges, k);
      NotYetAdjacent(n, edges, k);
      LongerList(before, was[left], left, right);
      LongerList(before, was[right], right, left);
      TotalAfterAppend(adjacent, left, right);
      adjacent := adjacent[left := adjacent[left] + [right]];
      TotalAfterAppend(adjacent, right, left);
      adjacent := adjacent[right := adjacent[right] + [left]];
      forall v | 0 <= v < n && v != left && v != right
        ensures ListsNeighbours(before + {edges[k]}, adjacent[v], v)
      {
        assert ListsNeighbours(before, was[v], v);
      }
      k := k + 1;
    }
    assert edges[..|edges|] == edges;
  }

  lemma NotYetAdjacent(n: nat, edges: seq<(int, int)>, k: nat)
    requires CanonicalRows(n, edges) && k < |edges|
    ensures !Adjacent(EdgeSet(edges[..k]), edges[k].0, edges[k].1)
    ensures !Adjacent(EdgeSet(edges[..k]), edges[k].1, edges[k].0)
  {
    EdgeSetExtends(edges, k);
    var (a, b) := edges[k];
    assert (b, a) !in EdgeSet(edges[..k]);
  }
}
