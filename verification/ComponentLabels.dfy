/** Component labels of a graph receipt, by depth-first search with an explicit stack. */
module ComponentLabels {
  import opened Graphs
  import opened GraphReceipts

  /** The row's neighbours carry its label. */
  predicate Settled(adjacent: Adjacency, labels: seq<int>, u: int)
    requires 0 <= u < |adjacent|
  {
    forall w :: w in adjacent[u] ==> 0 <= w < |labels| && 0 <= u < |labels| && labels[w] == labels[u]
  }

  predicate Uses(labels: seq<int>, bound: nat, k: int)
    requires bound <= |labels|
  {
    exists u :: 0 <= u < bound && labels[u] == k
  }

  /** Labels are numbered by their least rows: every smaller label appears in an earlier row. */
  predicate Numbered(labels: seq<int>) {
    forall v :: 0 <= v < |labels| ==> labels[v] >= 0 && forall k :: 0 <= k < labels[v] ==> Uses(labels, v, k)
  }

  /** Rows sharing a label are connected. */
  ghost predicate Joined(edges: Edges, labels: seq<int>) {
    forall u, v :: 0 <= u < |labels| && 0 <= v < |labels| && labels[u] >= 0 && labels[u] == labels[v] ==>
      Connected(edges, u, v)
  }

  /** Every labelled row is settled, or has the current label and is still on the stack. */
  predicate Closed(adjacent: Adjacency, labels: seq<int>, next: int, stack: seq<int>)
    requires |adjacent| == |labels|
  {
    forall u :: 0 <= u < |labels| && labels[u] >= 0 ==>
      Settled(adjacent, labels, u) || (labels[u] == next && u in stack)
  }

  predicate OnStack(labels: seq<int>, next: int, stack: seq<int>) {
    forall i :: 0 <= i < |stack| ==> 0 <= stack[i] < |labels| && labels[stack[i]] == next
  }

  /** Rows before the start are labelled with every smaller label; labels go up to the current one. */
  predicate Progress(labels: seq<int>, next: int, start: nat)
    requires start <= |labels|
  {
    && (forall v :: 0 <= v < |labels| ==> -1 <= labels[v] <= next)
    && (forall v :: 0 <= v < start ==> labels[v] >= 0)
    && (forall v :: 0 <= v < |labels| && labels[v] >= 0 ==> forall k :: 0 <= k < labels[v] ==> Uses(labels, v, k))
    && (forall k :: 0 <= k < next ==> Uses(labels, start, k))
  }

  function Unlabelled(labels: seq<int>): set<int> { set v | 0 <= v < |labels| && labels[v] < 0 }

  lemma UnlabelledShrinks(labels: seq<int>, v: nat, k: nat)
    requires v < |labels| && labels[v] < 0
    ensures |Unlabelled(labels[v := k])| < |Unlabelled(labels)|
  {
    assert Unlabelled(labels[v := k]) == Unlabelled(labels) - {v};
    assert v in Unlabelled(labels);
  }

  lemma ProgressLabels(labels: seq<int>, next: nat, start: nat, w: nat)
    requires start <= w < |labels| && Progress(labels, next, start) && labels[w] < 0
    ensures Progress(labels[w := next], next, start)
  {
    var labels' := labels[w := next];
    forall v, k | 0 <= v < |labels| && labels'[v] >= 0 && 0 <= k < labels'[v]
      ensures Uses(labels', v, k)
    {
      if v == w {
        assert Uses(labels, start, k);
        var u :| 0 <= u < start && labels[u] == k;
        assert labels'[u] == k;
      } else {
        assert Uses(labels, v, k);
        var u :| 0 <= u < v && labels[u] == k;
        assert labels'[u] == k;
      }
    }
    forall k | 0 <= k < next
      ensures Uses(labels', start, k)
    {
      assert Uses(labels, start, k);
      var u :| 0 <= u < start && labels[u] == k;
      assert labels'[u] == k;
    }
  }

  lemma JoinedLabels(edges: Edges, labels: seq<int>, next: nat, from: nat, w: nat)
    requires Joined(edges, labels) && from < |labels| && w < |labels| && labels[w] < 0
    requires labels[from] == next && Connected(edges, from, w)
    ensures Joined(edges, labels[w := next])
  {
    ConnectedToItself(edges, w);
    ConnectedSymmetric(edges, from, w);
    forall u | 0 <= u < |labels| && labels[u] == next
      ensures Connected(edges, u, w) && Connected(edges, w, u)
    {
      ConnectedTransitive(edges, u, from, w);
      ConnectedTransitive(edges, w, from, u);
    }
  }

  /** Labelling an unlabelled row keeps settled rows settled: their neighbours are labelled already. */
  lemma ClosedLabels(adjacent: Adjacency, labels: seq<int>, next: nat, stack: seq<int>, w: nat)
    requires |adjacent| == |labels| && w < |labels| && labels[w] < 0
    requires Closed(adjacent, labels, next, stack)
    ensures Closed(adjacent, labels[w := next], next, stack + [w])
  {
    forall u | 0 <= u < |labels| && labels[u] >= 0 && Settled(adjacent, labels, u)
      ensures Settled(adjacent, labels[w := next], u)
    {
    }
  }

  /** One label per connected component, numbered by least rows. */
  method Label(adjacent: Adjacency, ghost edges: Edges) returns (labels: array<int>)
    requires Lists(|adjacent|, edges, adjacent) && Canonical(|adjacent|, edges)
    ensures fresh(labels)
    ensures LabelsComponents(|adjacent|, edges, labels[..]) && Numbered(labels[..])
  {
    var n := |adjacent|;
    labels := new int[n](_ => -1);
    var next := 0;
    var start := 0;
    while start < n
      invariant start <= n && next >= 0
      invariant Labelling(adjacent, edges, labels[..], next, start)
    {
      if labels[start] < 0 {
        LabelOne(adjacent, edges, labels, start, next);
        next := next + 1;
      } else {
        LaterRow(labels[..], next, start);
      }
      start := start + 1;
    }
    AllLabelled(adjacent, edges, labels[..], next);
  }

  /** The labels after the searches from the rows before the start. */
  ghost predicate Labelling(adjacent: Adjacency, edges: Edges, labels: seq<int>, next: int, start: nat)
    requires |labels| == |adjacent| && start <= |labels|
  {
    && Progress(labels, next, start) && (forall v :: 0 <= v < |labels| ==> labels[v] < next)
    && Closed(adjacent, labels, next, []) && Joined(edges, labels)
  }

  lemma AllLabelled(adjacent: Adjacency, edges: Edges, labels: seq<int>, next: int)
    requires |labels| == |adjacent| && Lists(|adjacent|, edges, adjacent) && Canonical(|adjacent|, edges)
    requires Closed(adjacent, labels, next, []) && Joined(edges, labels)
    requires forall v :: 0 <= v < |labels| ==> labels[v] >= 0
    ensures LabelsComponents(|adjacent|, edges, labels)
  {
    forall e | e in edges
      ensures labels[e.0] == labels[e.1]
    {
      assert (e.0, e.1) == e;
      assert Settled(adjacent, labels, e.0) && ListsNeighbours(edges, adjacent[e.0], e.0);
    }
    forall u, v | 0 <= u < |labels| && 0 <= v < |labels| && Connected(edges, u, v)
      ensures labels[u] == labels[v]
    {
      ConstantOnComponents(|adjacent|, edges, labels, u, v);
    }
  }

  /** The search from one unlabelled row. */
  method LabelOne(adjacent: Adjacency, ghost edges: Edges, labels: array<int>, start: nat, next: nat)
    requires labels.Length == |adjacent| && start < labels.Length && labels[start] < 0
    requires Lists(|adjacent|, edges, adjacent) && Canonical(|adjacent|, edges)
    requires Progress(labels[..], next, start) && Closed(adjacent, labels[..], next, []) && Joined(edges, labels[..])
    requires forall v :: 0 <= v < labels.Length ==> labels[v] < next
    modifies labels
    ensures Progress(labels[..], next + 1, start + 1)
    ensures forall v :: 0 <= v < labels.Length ==> labels[v] <= next
    ensures Closed(adjacent, labels[..], next + 1, []) && Joined(edges, labels[..])
  {
    ConnectedToItself(edges, start);
    ghost var was := labels[..];
    labels[start] := next;
    assert labels[..] == was[start := next];
    ProgressLabels(was, next, start, start);
    ClosedLabels(adjacent, was, next, [], start);
    var stack := [start];
    assert [] + [start] == stack;
    while stack != []
      invariant Progress(labels[..], next, start) && labels[start] == next
      invariant OnStack(labels[..], next, stack)
      invariant Closed(adjacent, labels[..], next, stack)
      invariant Joined(edges, labels[..])
      decreases |Unlabelled(labels[..])|, |stack|
    {
      var vertex := stack[|stack| - 1];
      ghost var entry := labels[..];
      stack := stack[..|stack| - 1];
      stack := LabelNeighbours(adjacent, edges, labels, start, next, vertex, stack);
    }
    FinishedLabel(labels[..], next, start);
  }

  lemma FinishedLabel(labels: seq<int>, next: nat, start: nat)
    requires start < |labels| && Progress(labels, next, start) && labels[start] == next
    ensures Progress(labels, next + 1, start + 1)
  {
    LaterRow(labels, next, start);
    assert Uses(labels, start + 1, next);
  }

  lemma LaterRow(labels: seq<int>, next: nat, start: nat)
    requires start < |labels| && Progress(labels, next, start) && labels[start] >= 0
    ensures Progress(labels, next, start + 1)
  {
    var later := start + 1;
    forall k | 0 <= k < next
      ensures Uses(labels, later, k)
    {
      assert Uses(labels, start, k);
    }
  }

  lemma TopOfStack(labels: seq<int>, next: int, stack: seq<int>, vertex: int)
    requires OnStack(labels, next, stack + [vertex])
    ensures OnStack(labels, next, stack) && 0 <= vertex < |labels| && labels[vertex] == next
  {
    forall i | 0 <= i < |stack|
      ensures 0 <= stack[i] < |labels| && labels[stack[i]] == next
    {
      assert (stack + [vertex])[i] == stack[i];
    }
    assert (stack + [vertex])[|stack|] == vertex;
  }

  /** One more row labelled and put on the stack below the row in hand. */
  lemma LabelNext(adjacent: Adjacency, edges: Edges, labels: seq<int>, start: nat, next: nat, vertex: nat,
                  stack: seq<int>, w: nat)
    requires |labels| == |adjacent| && start < |labels| && vertex < |labels| && labels[vertex] == next
    requires start <= w < |labels| && labels[w] < 0 && Connected(edges, vertex, w)
    requires Progress(labels, next, start) && OnStack(labels, next, stack)
    requires Closed(adjacent, labels, next, stack + [vertex]) && Joined(edges, labels)
    ensures var labels' := labels[w := next];
      && Progress(labels', next, start) && OnStack(labels', next, stack + [w])
      && Closed(adjacent, labels', next, stack + [w] + [vertex]) && Joined(edges, labels')
      && |Unlabelled(labels')| < |Unlabelled(labels)|
  {
    UnlabelledShrinks(labels, w, next);
    ProgressLabels(labels, next, start, w);
    ClosedLabels(adjacent, labels, next, stack + [vertex], w);
    JoinedLabels(edges, labels, next, vertex, w);
  }

  /** Labels the unlabelled neighbours of a row taken from the stack, and puts them on it. */
  method LabelNeighbours(adjacent: Adjacency, ghost edges: Edges, labels: array<int>, start: nat, next: nat,
                         vertex: int, stack: seq<int>)
    returns (stack': seq<int>)
    requires labels.Length == |adjacent| && start < labels.Length && labels[start] == next
    requires Lists(|adjacent|, edges, adjacent) && Canonical(|adjacent|, edges)
    requires Progress(labels[..], next, start) && OnStack(labels[..], next, stack + [vertex])
    requires Closed(adjacent, labels[..], next, stack + [vertex]) && Joined(edges, labels[..])
    modifies labels
    ensures Progress(labels[..], next, start) && labels[start] == next && OnStack(labels[..], next, stack')
    ensures Closed(adjacent, labels[..], next, stack') && Joined(edges, labels[..])
    ensures |Unlabelled(labels[..])| < |Unlabelled(old(labels[..]))|
      || (labels[..] == old(labels[..]) && stack' == stack)
  {
    stack' := stack;
    TopOfStack(labels[..], next, stack, vertex);
    var neighbours := adjacent[vertex];
    var i := 0;
    while i < |neighbours|
      invariant i <= |neighbours|
      invariant Progress(labels[..], next, start) && labels[start] == next && labels[vertex] == next
      invariant OnStack(labels[..], next, stack')
      invariant Closed(adjacent, labels[..], next, stack' + [vertex])
      invariant Joined(edges, labels[..])
      invariant forall j :: 0 <= j < i ==> 0 <= neighbours[j] < labels.Length && labels[neighbours[j]] == next
      invariant |Unlabelled(labels[..])| < |Unlabelled(old(labels[..]))|
        || (labels[..] == old(labels[..]) && stack' == stack)
    {
      var neighbour := neighbours[i];
      NeighbourFacts(adjacent, edges, labels[..], next, stack', vertex, i);
      if labels[neighbour] < 0 {
        ghost var was := labels[..];
        labels[neighbour] := next;
        assert labels[..] == was[neighbour := next];
        LabelNext(adjacent, edges, was, start, next, vertex, stack', neighbour);
        stack' := stack' + [neighbour];
      }
      i := i + 1;
    }
  }

  /** A neighbour of a row with the current label is unlabelled or has the current label too. */
  lemma NeighbourFacts(adjacent: Adjacency, edges: Edges, labels: seq<int>, next: nat, stack: seq<int>, vertex: nat,
                       i: nat)
    requires |labels| == |adjacent| && vertex < |labels| && labels[vertex] == next && i < |adjacent[vertex]|
    requires Lists(|adjacent|, edges, adjacent) && Canonical(|adjacent|, edges)
    requires forall v :: 0 <= v < |labels| ==> -1 <= labels[v] <= next
    requires Closed(adjacent, labels, next, stack + [vertex])
    ensures var w := adjacent[vertex][i];
      0 <= w < |labels| && Connected(edges, vertex, w) && (labels[w] < 0 || labels[w] == next)
  {
    var w := adjacent[vertex][i];
    assert ListsNeighbours(edges, adjacent[vertex], vertex) && Adjacent(edges, vertex, w);
    AdjacentConnected(edges, vertex, w);
    assert ListsNeighbours(edges, adjacent[w], w) && vertex in adjacent[w];
  }

  /**
   Component labels are determined by the edges: a receipt whose labels were computed so never fails the comparison.
   */
  lemma {:induction false} NumberedLabelsAgree(n: nat, edges: Edges, a: seq<int>, b: seq<int>, v: nat)
    requires LabelsComponents(n, edges, a) && Numbered(a)
    requires LabelsComponents(n, edges, b) && Numbered(b)
    requires v < n
    ensures a[v] == b[v]
  {
    forall u | 0 <= u < v
      ensures a[u] == b[u]
    {
      NumberedLabelsAgree(n, edges, a, b, u);
    }
    NotAhead(n, edges, a, b, v);
    NotAhead(n, edges, b, a, v);
  }

  lemma NotAhead(n: nat, edges: Edges, a: seq<int>, b: seq<int>, v: nat)
    requires LabelsComponents(n, edges, a) && LabelsComponents(n, edges, b) && Numbered(b)
    requires v < n && a[v] >= 0
    requires forall u :: 0 <= u < v ==> a[u] == b[u]
    ensures b[v] <= a[v]
  {
    forall u | 0 <= u < v && b[u] == a[v]
      ensures b[v] == a[v]
    {
      assert Connected(edges, u, v);
    }
    assert a[v] < b[v] ==> Uses(b, v, a[v]);
  }
}
