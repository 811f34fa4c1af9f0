/** Cycle rank: edges minus rows plus components counts the edges that close a cycle. */
module CycleRank {
  import opened Basics
  import opened Graphs

  function LabelSet(labels: seq<int>): set<int> { set i | 0 <= i < |labels| :: labels[i] }

  /** The cycle rank as the graph metrics and the publisher compute it from a receipt. */
  function Rank(edgeCount: nat, rowCount: nat, componentCount: nat): int { edgeCount - rowCount + componentCount }

  /** The publisher's observation: a negative rank is an error. */
  function ObservedRank(edgeCount: nat, rowCount: nat, componentCount: nat): Option<int> {
    var rank := Rank(edgeCount, rowCount, componentCount);
    if rank < 0 then None else Some(rank)
  }

  // ----- Counting labels -----

  lemma LabelSetExtends(labels: seq<int>)
    requires labels != []
    ensures LabelSet(labels) == LabelSet(labels[..|labels| - 1]) + {labels[|labels| - 1]}
  {
    var last := |labels| - 1;
    forall x | x in LabelSet(labels)
      ensures x in LabelSet(labels[..last]) + {labels[last]}
    {
      var i :| 0 <= i < |labels| && labels[i] == x;
      assert i < last ==> labels[..last][i] == x;
    }
    forall x | x in LabelSet(labels[..last])
      ensures x in LabelSet(labels)
    {
      var i :| 0 <= i < last && labels[..last][i] == x;
      assert labels[i] == x;
    }
  }

  /** Labels that agree on which rows belong together use the same number of labels. */
  lemma {:induction false} SameGroupsSameCount(a: seq<int>, b: seq<int>)
    requires |a| == |b|
    requires forall u, v :: 0 <= u < |a| && 0 <= v < |a| ==> (a[u] == a[v] <==> b[u] == b[v])
    ensures |LabelSet(a)| == |LabelSet(b)|
  {
    if a == [] {
    } else {
      var last := |a| - 1;
      SameGroupsSameCount(a[..last], b[..last]);
      LabelSetExtends(a);
      LabelSetExtends(b);
      assert a[last] in LabelSet(a[..last]) <==> b[last] in LabelSet(b[..last]) by {
        if i :| 0 <= i < last && a[..last][i] == a[last] {
          assert b[..last][i] == b[last];
        }
        if i :| 0 <= i < last && b[..last][i] == b[last] {
          assert a[..last][i] == a[last];
        }
      }
    }
  }

  lemma {:induction false} OwnLabels(n: nat)
    ensures |LabelSet(seq(n, i => i))| == n
  {
    var labels := seq(n, i => i);
    if n == 0 {
    } else {
      OwnLabels(n - 1);
      LabelSetExtends(labels);
      assert labels[..n - 1] == seq(n - 1, i => i);
    }
  }

  // ----- One more edge -----

  function Relabelled(labels: seq<int>, from: int, to: int): seq<int> {
    seq(|labels|, i requires 0 <= i < |labels| => if labels[i] == from then to else labels[i])
  }

  lemma RelabelledCount(labels: seq<int>, a: nat, b: nat)
    requires a < |labels| && b < |labels| && labels[a] != labels[b]
    ensures |LabelSet(Relabelled(labels, labels[b], labels[a]))| == |LabelSet(labels)| - 1
  {
    var merged := Relabelled(labels, labels[b], labels[a]);
    forall x | x in LabelSet(labels) && x != labels[b]
      ensures x in LabelSet(merged)
    {
      var i :| 0 <= i < |labels| && labels[i] == x;
      assert merged[i] == x;
    }
    forall x | x in LabelSet(merged)
      ensures x in LabelSet(labels) && x != labels[b]
    {
      var i :| 0 <= i < |labels| && merged[i] == x;
      assert merged[i] == if labels[i] == labels[b] then labels[a] else labels[i];
    }
    assert LabelSet(merged) == LabelSet(labels) - {labels[b]};
    assert labels[b] in LabelSet(labels);
  }

  /** An edge within a component leaves the components as they are. */
  lemma InnerEdgeKeepsLabels(n: nat, edges: Edges, e: (int, int), labels: seq<int>)
    requires Canonical(n, edges + {e}) && LabelsComponents(n, edges, labels) && labels[e.0] == labels[e.1]
    ensures LabelsComponents(n, edges + {e}, labels)
  {
    assert ConstantOnEdges(n, edges, labels) by {
      EdgesConnect(n, edges, labels);
    }
    forall u, v | 0 <= u < n && 0 <= v < n
      ensures labels[u] == labels[v] <==> Connected(edges + {e}, u, v)
    {
      if labels[u] == labels[v] {
        MoreEdgesConnect(edges, edges + {e}, u, v);
      }
      if Connected(edges + {e}, u, v) {
        ConstantOnComponents(n, edges + {e}, labels, u, v);
      }
    }
  }

  lemma EdgesConnect(n: nat, edges: Edges, labels: seq<int>)
    requires Canonical(n, edges) && LabelsComponents(n, edges, labels)
    ensures ConstantOnEdges(n, edges, labels)
  {
    forall e | e in edges
      ensures labels[e.0] == labels[e.1]
    {
      assert (e.0, e.1) == e;
      AdjacentConnected(edges, e.0, e.1);
    }
  }

  /** An edge between two components makes them one. */
  lemma BridgeMergesLabels(n: nat, edges: Edges, e: (int, int), labels: seq<int>)
    requires Canonical(n, edges + {e}) && LabelsComponents(n, edges, labels)
    ensures LabelsComponents(n, edges + {e}, Relabelled(labels, labels[e.1], labels[e.0]))
  {
    var merged := Relabelled(labels, labels[e.1], labels[e.0]);
    EdgesConnect(n, edges, labels);
    assert ConstantOnEdges(n, edges + {e}, merged);
    forall u, v | 0 <= u < n && 0 <= v < n
      ensures merged[u] == merged[v] <==> Connected(edges + {e}, u, v)
    {
      if Connected(edges + {e}, u, v) {
        ConstantOnComponents(n, edges + {e}, merged, u, v);
      }
      if merged[u] == merged[v] {
        MergedConnected(n, edges, e, labels, u, v);
      }
    }
  }

  lemma MergedConnected(n: nat, edges: Edges, e: (int, int), labels: seq<int>, u: int, v: int)
    requires Canonical(n, edges + {e}) && LabelsComponents(n, edges, labels)
    requires 0 <= u < n && 0 <= v < n
    requires var merged := Relabelled(labels, labels[e.1], labels[e.0]); merged[u] == merged[v]
    ensures Connected(edges + {e}, u, v)
  {
    ReachesFirstEnd(n, edges, e, labels, u);
    ReachesFirstEnd(n, edges, e, labels, v);
    if labels[u] == labels[v] {
      MoreEdgesConnect(edges, edges + {e}, u, v);
    } else {
      ConnectedSymmetric(edges + {e}, v, e.0);
      ConnectedTransitive(edges + {e}, u, e.0, v);
    }
  }

  lemma ReachesFirstEnd(n: nat, edges: Edges, e: (int, int), labels: seq<int>, u: int)
    requires Canonical(n, edges + {e}) && LabelsComponents(n, edges, labels) && 0 <= u < n
    ensures labels[u] == labels[e.0] || labels[u] == labels[e.1] ==> Connected(edges + {e}, u, e.0)
  {
    if labels[u] == labels[e.0] {
      MoreEdgesConnect(edges, edges + {e}, u, e.0);
    } else if labels[u] == labels[e.1] {
      MoreEdgesConnect(edges, edges + {e}, u, e.1);
      assert (e.0, e.1) == e;
      ConnectedExtends(edges + {e}, u, e.1, e.0);
    }
  }

  // ----- The rank of a graph -----

  lemma NoEdges(n: nat)
    ensures LabelsComponents(n, {}, seq(n, i => i)) && Acyclic({})
  {
    var labels := seq(n, i => i);
    forall u, v | 0 <= u < n && 0 <= v < n
      ensures labels[u] == labels[v] <==> Connected({}, u, v)
    {
      if u == v {
        ConnectedToItself({}, u);
      }
      if Connected({}, u, v) {
        ConstantOnComponents(n, {}, labels, u, v);
      }
    }
    forall c
      ensures !Cycle({}, c)
    {
      assert |c| >= 3 && Walk({}, c) ==> Hop({}, c, 0);
    }
  }

  /** A new edge closes a cycle exactly when its ends were connected before or there was a cycle already. */
  lemma NewCycle(n: nat, edges: Edges, e: (int, int))
    requires Canonical(n, edges + {e}) && e !in edges
    ensures Acyclic(edges + {e}) <==> Acyclic(edges) && !Connected(edges, e.0, e.1)
  {
    assert (e.0, e.1) == e;
    if Acyclic(edges) {
      if Connected(edges, e.0, e.1) {
        var c := ConnectedEdgeClosesCycle(edges, e);
      } else {
        forall c | Cycle(edges + {e}, c)
          ensures false
        {
          CycleConnectsEnds(edges, e, c);
        }
      }
    } else {
      var c :| Cycle(edges, c);
      WalkInMore(edges, edges + {e}, c);
      assert Cycle(edges + {e}, c);
    }
  }

  /** Labels built edge by edge, with the rank they give. */
  lemma {:induction false} RankByEdges(n: nat, edges: Edges) returns (labels: seq<int>)
    requires Canonical(n, edges)
    ensures LabelsComponents(n, edges, labels)
    ensures Rank(|edges|, n, |LabelSet(labels)|) >= 0
    ensures Rank(|edges|, n, |LabelSet(labels)|) == 0 <==> Acyclic(edges)
    decreases |edges|
  {
    if edges == {} {
      labels := seq(n, i => i);
      NoEdges(n);
      OwnLabels(n);
    } else {
      var e :| e in edges;
      var rest := edges - {e};
      labels := RankByEdges(n, rest);
      assert edges == rest + {e};
      NewCycle(n, rest, e);
      if labels[e.0] == labels[e.1] {
        InnerEdgeKeepsLabels(n, rest, e, labels);
      } else {
        BridgeMergesLabels(n, rest, e, labels);
        RelabelledCount(labels, e.0, e.1);
        labels := Relabelled(labels, labels[e.1], labels[e.0]);
      }
    }
  }

  /** For every graph and every correct component labelling the rank is nonnegative, and zero exactly without cycles. */
  lemma RankCountsCycles(n: nat, edges: Edges, labels: seq<int>)
    requires Canonical(n, edges) && LabelsComponents(n, edges, labels)
    ensures Rank(|edges|, n, |LabelSet(labels)|) >= 0
    ensures Rank(|edges|, n, |LabelSet(labels)|) == 0 <==> Acyclic(edges)
  {
    var built := RankByEdges(n, edges);
    SameGroupsSameCount(labels, built);
  }

  /** Without edges the rank is zero. */
  lemma RankOfNoEdges(n: nat, labels: seq<int>)
    requires LabelsComponents(n, {}, labels)
    ensures Rank(0, n, |LabelSet(labels)|) == 0
  {
    NoEdges(n);
    OwnLabels(n);
    SameGroupsSameCount(labels, seq(n, i => i));
  }

  /** A new edge raises the rank by one when its ends were connected before, and otherwise leaves it. */
  lemma RankGrows(n: nat, edges: Edges, e: (int, int), labels: seq<int>, more: seq<int>)
    requires Canonical(n, edges + {e}) && e !in edges
    requires LabelsComponents(n, edges, labels) && LabelsComponents(n, edges + {e}, more)
    ensures Rank(|edges + {e}|, n, |LabelSet(more)|) ==
      Rank(|edges|, n, |LabelSet(labels)|) + if Connected(edges, e.0, e.1) then 1 else 0
  {
    assert |edges + {e}| == |edges| + 1;
    if Connected(edges, e.0, e.1) {
      InnerEdgeKeepsLabels(n, edges, e, labels);
      SameGroupsSameCount(more, labels);
    } else {
      BridgeMergesLabels(n, edges, e, labels);
      RelabelledCount(labels, e.0, e.1);
      SameGroupsSameCount(more, Relabelled(labels, labels[e.1], labels[e.0]));
    }
  }

  /** The publisher's negative-rank error cannot be reached with a consistent receipt. */
  lemma PublisherRankObserved(n: nat, edges: Edges, labels: seq<int>)
    requires Canonical(n, edges) && LabelsComponents(n, edges, labels)
    ensures ObservedRank(|edges|, n, |LabelSet(labels)|).Some?
    ensures ObservedRank(|edges|, n, |LabelSet(labels)|).value > 0 <==> exists c :: Cycle(edges, c)
  {
    RankCountsCycles(n, edges, labels);
  }
}
