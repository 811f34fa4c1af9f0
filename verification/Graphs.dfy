/** Finite undirected graphs as sets of canonical edges: walks, connection, cycles. */
module Graphs {

  type Edges = set<(int, int)>

  /** Every edge joins two different rows of the graph, smaller row first. */
  ghost predicate Canonical(n: nat, edges: Edges) {
    forall e :: e in edges ==> 0 <= e.0 < e.1 < n
  }

  predicate Adjacent(edges: Edges, u: int, v: int) { (u, v) in edges || (v, u) in edges }

  predicate Hop(edges: Edges, p: seq<int>, i: int)
    requires 0 <= i < |p| - 1
  {
    Adjacent(edges, p[i], p[i + 1])
  }

  ghost predicate Walk(edges: Edges, p: seq<int>) {
    p != [] && forall i :: 0 <= i < |p| - 1 ==> Hop(edges, p, i)
  }

  ghost predicate WalkBetween(edges: Edges, p: seq<int>, u: int, v: int) {
    Walk(edges, p) && p[0] == u && p[|p| - 1] == v
  }

  ghost predicate Connected(edges: Edges, u: int, v: int) { exists p :: WalkBetween(edges, p, u, v) }

  ghost predicate Distinct(p: seq<int>) { forall i, j :: 0 <= i < j < |p| ==> p[i] != p[j] }

  /** A simple cycle: at least three different vertices, each adjacent to the next, the last to the first. */
  ghost predicate Cycle(edges: Edges, c: seq<int>) {
    |c| >= 3 && Walk(edges, c) && Distinct(c) && Adjacent(edges, c[|c| - 1], c[0])
  }

  ghost predicate Acyclic(edges: Edges) { forall c :: !Cycle(edges, c) }

  // ----- Walks -----

  lemma JoinWalks(edges: Edges, p: seq<int>, q: seq<int>)
    requires Walk(edges, p) && Walk(edges, q) && Adjacent(edges, p[|p| - 1], q[0])
    ensures Walk(edges, p + q)
  {
    forall i | 0 <= i < |p + q| - 1
      ensures Hop(edges, p + q, i)
    {
      if i < |p| - 1 {
        assert Hop(edges, p, i);
      } else if i >= |p| {
        assert Hop(edges, q, i - |p|);
      }
    }
  }

  lemma PartOfWalk(edges: Edges, p: seq<int>, i: nat, j: nat)
    requires Walk(edges, p) && i < j <= |p|
    ensures Walk(edges, p[i..j])
  {
    forall k | 0 <= k < |p[i..j]| - 1
      ensures Hop(edges, p[i..j], k)
    {
      assert Hop(edges, p, i + k);
    }
  }

  lemma ConnectedToItself(edges: Edges, u: int)
    ensures Connected(edges, u, u)
  {
    assert WalkBetween(edges, [u], u, u);
  }

  lemma AdjacentConnected(edges: Edges, u: int, v: int)
    requires Adjacent(edges, u, v)
    ensures Connected(edges, u, v)
  {
    assert Hop(edges, [u, v], 0);
    assert WalkBetween(edges, [u, v], u, v);
  }

  lemma ConnectedExtends(edges: Edges, u: int, v: int, w: int)
    requires Connected(edges, u, v) && Adjacent(edges, v, w)
    ensures Connected(edges, u, w)
  {
    var p :| WalkBetween(edges, p, u, v);
    JoinWalks(edges, p, [w]);
    assert WalkBetween(edges, p + [w], u, w);
  }

  lemma ConnectedTransitive(edges: Edges, u: int, v: int, w: int)
    requires Connected(edges, u, v) && Connected(edges, v, w)
    ensures Connected(edges, u, w)
  {
    var q :| WalkBetween(edges, q, v, w);
    AlongWalk(edges, u, q);
  }

  lemma {:induction false} AlongWalk(edges: Edges, u: int, q: seq<int>)
    requires Walk(edges, q) && Connected(edges, u, q[0])
    ensures Connected(edges, u, q[|q| - 1])
  {
    if |q| <= 1 {
    } else {
      PartOfWalk(edges, q, 0, |q| - 1);
      AlongWalk(edges, u, q[..|q| - 1]);
      assert Hop(edges, q, |q| - 2);
      ConnectedExtends(edges, u, q[|q| - 2], q[|q| - 1]);
    }
  }

  lemma ConnectedSymmetric(edges: Edges, u: int, v: int)
    requires Connected(edges, u, v)
    ensures Connected(edges, v, u)
  {
    var p :| WalkBetween(edges, p, u, v);
    BackAlongWalk(edges, p);
  }

  lemma {:induction false} BackAlongWalk(edges: Edges, p: seq<int>)
    requires Walk(edges, p)
    ensures Connected(edges, p[|p| - 1], p[0])
  {
    if |p| == 1 {
      ConnectedToItself(edges, p[0]);
    } else {
      PartOfWalk(edges, p, 1, |p|);
      assert p[1..] == p[1..|p|];
      BackAlongWalk(edges, p[1..]);
      assert Hop(edges, p, 0);
      ConnectedExtends(edges, p[|p| - 1], p[1], p[0]);
    }
  }

  lemma MoreEdgesConnect(edges: Edges, more: Edges, u: int, v: int)
    requires edges <= more && Connected(edges, u, v)
    ensures Connected(more, u, v)
  {
    var p :| WalkBetween(edges, p, u, v);
    WalkInMore(edges, more, p);
    assert WalkBetween(more, p, u, v);
  }

  lemma WalkInMore(edges: Edges, more: Edges, p: seq<int>)
    requires edges <= more && Walk(edges, p)
    ensures Walk(more, p)
  {
    forall i | 0 <= i < |p| - 1
      ensures Hop(more, p, i)
    {
      assert Hop(edges, p, i);
    }
  }

  /** A walk can be shortened to one that visits no vertex twice. */
  lemma {:induction false} SimpleWalk(edges: Edges, p: seq<int>, u: int, v: int) returns (q: seq<int>)
    requires WalkBetween(edges, p, u, v)
    ensures WalkBetween(edges, q, u, v) && Distinct(q) && |q| <= |p|
    decreases |p|
  {
    if Distinct(p) {
      q := p;
    } else {
      var i, j :| 0 <= i < j < |p| && p[i] == p[j];
      var cut := p[..i] + p[j..];
      forall k | 0 <= k < |cut| - 1
        ensures Hop(edges, cut, k)
      {
        if k < i {
          assert Hop(edges, p, k);
        } else {
          assert Hop(edges, p, k + j - i);
        }
      }
      q := SimpleWalk(edges, cut, u, v);
    }
  }

  // ----- Labels -----

  /** Labels that tell connected rows together and unconnected rows apart. */
  ghost predicate LabelsComponents(n: nat, edges: Edges, labels: seq<int>) {
    |labels| == n && forall u, v :: 0 <= u < n && 0 <= v < n ==> (labels[u] == labels[v] <==> Connected(edges, u, v))
  }

  ghost predicate ConstantOnEdges(n: nat, edges: Edges, labels: seq<int>)
    requires Canonical(n, edges) && |labels| == n
  {
    forall e :: e in edges ==> labels[e.0] == labels[e.1]
  }

  lemma {:induction false} ConstantAlongWalk(n: nat, edges: Edges, labels: seq<int>, p: seq<int>)
    requires Canonical(n, edges) && |labels| == n && ConstantOnEdges(n, edges, labels)
    requires Walk(edges, p) && 0 <= p[0] < n
    ensures 0 <= p[|p| - 1] < n && labels[p[|p| - 1]] == labels[p[0]]
  {
    if |p| <= 1 {
    } else {
      PartOfWalk(edges, p, 0, |p| - 1);
      ConstantAlongWalk(n, edges, labels, p[..|p| - 1]);
      assert Hop(edges, p, |p| - 2);
    }
  }

  lemma ConstantOnComponents(n: nat, edges: Edges, labels: seq<int>, u: int, v: int)
    requires Canonical(n, edges) && |labels| == n && ConstantOnEdges(n, edges, labels)
    requires 0 <= u < n && Connected(edges, u, v)
    ensures 0 <= v < n && labels[u] == labels[v]
  {
    var p :| WalkBetween(edges, p, u, v);
    ConstantAlongWalk(n, edges, labels, p);
  }

  // ----- Cycles -----

  lemma RotateCycle(edges: Edges, c: seq<int>, k: nat)
    requires Cycle(edges, c) && 0 < k < |c|
    ensures Cycle(edges, c[k..] + c[..k])
  {
    PartOfWalk(edges, c, k, |c|);
    assert c[k..] == c[k..|c|] && c[..k] == c[0..k];
    PartOfWalk(edges, c, 0, k);
    JoinWalks(edges, c[k..], c[..k]);
    assert Hop(edges, c, k - 1);
  }

  /** An edge between two rows that were already connected closes a cycle. */
  lemma ConnectedEdgeClosesCycle(edges: Edges, e: (int, int)) returns (c: seq<int>)
    requires e.0 != e.1 && !Adjacent(edges, e.0, e.1) && Connected(edges, e.0, e.1)
    ensures Cycle(edges + {e}, c)
  {
    var p :| WalkBetween(edges, p, e.0, e.1);
    c := SimpleWalk(edges, p, e.0, e.1);
    assert Hop(edges, c, 0);
    WalkInMore(edges, edges + {e}, c);
  }

  /** A cycle that needs an edge shows that the ends of that edge are connected without it. */
  lemma CycleConnectsEnds(edges: Edges, e: (int, int), c: seq<int>)
    requires Cycle(edges + {e}, c) && Acyclic(edges)
    ensures Connected(edges, e.0, e.1)
  {
    if Walk(edges, c) {
      assert !Cycle(edges, c);
      ClosedByEdge(edges, e, c);
    } else {
      var i :| 0 <= i < |c| - 1 && !Hop(edges, c, i);
      assert Hop(edges + {e}, c, i);
      var r := c[i + 1..] + c[..i + 1];
      RotateCycle(edges + {e}, c, i + 1);
      RestAvoidsEdge(edges, e, r);
      ClosedByEdge(edges, e, r);
    }
  }

  lemma ClosedByEdge(edges: Edges, e: (int, int), c: seq<int>)
    requires |c| >= 2 && Walk(edges, c) && Adjacent({e}, c[|c| - 1], c[0])
    ensures Connected(edges, e.0, e.1)
  {
    assert WalkBetween(edges, c, c[0], c[|c| - 1]);
    ConnectedSymmetric(edges, c[0], c[|c| - 1]);
  }

  lemma RestAvoidsEdge(edges: Edges, e: (int, int), c: seq<int>)
    requires Cycle(edges + {e}, c) && Adjacent({e}, c[|c| - 1], c[0])
    ensures Walk(edges, c)
  {
    forall i | 0 <= i < |c| - 1
      ensures Hop(edges, c, i)
    {
      assert Hop(edges + {e}, c, i);
    }
  }
}
