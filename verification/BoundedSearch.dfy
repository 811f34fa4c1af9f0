/** Breadth-first search with a hop limit, and the support of a declared boundary. */
module BoundedSearch {
  import opened Basics
  import opened Graphs
  import opened NeighbourSets
  import opened SortedSets

  /** There is a walk with exactly k steps. */
  ghost predicate ReachesIn(edges: Edges, u: int, v: int, k: nat)
    decreases k
  {
    if k == 0 then u == v else exists w :: ReachesIn(edges, u, w, k - 1) && Adjacent(edges, w, v)
  }

  /** The length of a shortest path. */
  ghost predicate Shortest(edges: Edges, u: int, v: int, d: nat) {
    ReachesIn(edges, u, v, d) && forall k: nat :: k < d ==> !ReachesIn(edges, u, v, k)
  }

  /** Some walk has at most the given number of steps. */
  ghost predicate WithinHops(edges: Edges, u: int, v: int, hops: int) {
    exists k: nat :: k <= hops && ReachesIn(edges, u, v, k)
  }

  /**
   A shortest length within the limit, or none when there is none; a vertex is at distance zero from itself whatever
   the limit.
   */
  ghost predicate BoundedLength(edges: Edges, u: int, v: int, hops: int, length: Option<nat>) {
    match length
    case Some(d) => Shortest(edges, u, v, d) && (d == 0 || d <= hops)
    case None => u != v && !WithinHops(edges, u, v, hops)
  }

  /** The search result read the other way: it is d exactly when d is the shortest length and within the limit. */
  lemma BoundedLengthExact(edges: Edges, u: int, v: int, hops: int, length: Option<nat>, d: nat)
    requires BoundedLength(edges, u, v, hops, length)
    ensures length == Some(d) <==> Shortest(edges, u, v, d) && (d == 0 || d <= hops)
    ensures length.None? <==> u != v && !WithinHops(edges, u, v, hops)
  {
    if Shortest(edges, u, v, d) && length.Some? {
      assert !(d < length.value) && !(length.value < d);
    }
  }

  lemma {:induction false} StepsAreWalks(edges: Edges, u: int, v: int, k: nat)
    ensures ReachesIn(edges, u, v, k) <==> exists p :: WalkBetween(edges, p, u, v) && |p| == k + 1
  {
    if ReachesIn(edges, u, v, k) {
      var p := WalkOfSteps(edges, u, v, k);
    }
    forall p | WalkBetween(edges, p, u, v) && |p| == k + 1
      ensures ReachesIn(edges, u, v, k)
    {
      StepsOfWalk(edges, p);
    }
  }

  lemma {:induction false} WalkOfSteps(edges: Edges, u: int, v: int, k: nat) returns (p: seq<int>)
    requires ReachesIn(edges, u, v, k)
    ensures WalkBetween(edges, p, u, v) && |p| == k + 1
    decreases k
  {
    if k == 0 {
      p := [u];
    } else {
      var w :| ReachesIn(edges, u, w, k - 1) && Adjacent(edges, w, v);
      p := WalkOfSteps(edges, u, w, k - 1);
      JoinWalks(edges, p, [v]);
      p := p + [v];
    }
  }

  lemma {:induction false} StepsOfWalk(edges: Edges, p: seq<int>)
    requires Walk(edges, p)
    ensures ReachesIn(edges, p[0], p[|p| - 1], |p| - 1)
  {
    if |p| <= 1 {
    } else {
      PartOfWalk(edges, p, 0, |p| - 1);
      StepsOfWalk(edges, p[..|p| - 1]);
      assert Hop(edges, p, |p| - 2);
    }
  }

  predicate Waits(pending: seq<(int, int)>, v: int) { exists i :: 0 <= i < |pending| && pending[i].0 == v }

  /** The row's neighbours have all been visited. */
  predicate Expanded(adjacent: Adjacency, visited: set<int>, v: int)
    requires v in adjacent
  {
    adjacent[v] <= visited
  }

  /** The queue is in order of distance, and spans at most two distances. */
  predicate InOrder(pending: seq<(int, int)>) {
    forall i, j :: 0 <= i < j < |pending| ==> pending[i].1 <= pending[j].1 <= pending[i].1 + 1
  }

  ghost predicate Known(edges: Edges, start: int, distances: map<int, nat>) {
    forall v {:trigger Shortest(edges, start, v, distances[v])} :: v in distances ==>
      Shortest(edges, start, v, distances[v])
  }

  predicate QueueKnown(pending: seq<(int, int)>, distances: map<int, nat>) {
    forall i :: 0 <= i < |pending| ==> pending[i].0 in distances && distances[pending[i].0] == pending[i].1
  }

  predicate AllExpanded(adjacent: Adjacency, distances: map<int, nat>, pending: seq<(int, int)>, maximumHops: int)
    requires distances.Keys <= adjacent.Keys
  {
    forall v {:trigger Waits(pending, v)} :: v in distances ==>
      Waits(pending, v) || distances[v] >= maximumHops || Expanded(adjacent, distances.Keys, v)
  }

  /** The state of the search: visited vertices with their distances, and the queue. */
  ghost predicate Searching(edges: Edges, adjacent: Adjacency, start: int, distances: map<int, nat>,
                            pending: seq<(int, int)>, maximumHops: int)
  {
    && start in distances && distances.Keys <= adjacent.Keys
    && Known(edges, start, distances)
    && QueueKnown(pending, distances) && InOrder(pending)
    && AllExpanded(adjacent, distances, pending, maximumHops)
  }

  /** Everything at most as far as the queue's front, and within the limit, has been visited. */
  lemma {:induction false} NearVisited(edges: Edges, adjacent: Adjacency, start: int, distances: map<int, nat>,
                                       pending: seq<(int, int)>, maximumHops: int, w: int, k: nat)
    requires Represents(adjacent, edges) && Searching(edges, adjacent, start, distances, pending, maximumHops)
    requires forall i :: 0 <= i < |pending| ==> pending[i].1 >= k
    requires k <= maximumHops && ReachesIn(edges, start, w, k)
    ensures w in distances
    decreases k
  {
    if k == 0 {
    } else {
      var u :| ReachesIn(edges, start, u, k - 1) && Adjacent(edges, u, w);
      NearVisited(edges, adjacent, start, distances, pending, maximumHops, u, k - 1);
      assert Shortest(edges, start, u, distances[u]);
      assert distances[u] <= k - 1;
      assert !Waits(pending, u);
      assert Expanded(adjacent, distances.Keys, u);
    }
  }

  /** An unvisited neighbour of the vertex in front is one step further, and no nearer. */
  lemma NeighbourDistance(edges: Edges, adjacent: Adjacency, start: int, distances: map<int, nat>,
                          pending: seq<(int, int)>, maximumHops: int, w: int)
    requires Represents(adjacent, edges) && Searching(edges, adjacent, start, distances, pending, maximumHops)
    requires pending != [] && pending[0].1 < maximumHops
    requires Adjacent(edges, pending[0].0, w) && w !in distances
    ensures Shortest(edges, start, w, distances[pending[0].0] + 1)
  {
    var d := distances[pending[0].0];
    assert NeighbourSet(edges, adjacent[pending[0].0], pending[0].0);
    assert Shortest(edges, start, pending[0].0, d);
    forall k: nat | k < d + 1
      ensures !ReachesIn(edges, start, w, k)
    {
      if ReachesIn(edges, start, w, k) {
        NearVisited(edges, adjacent, start, distances, pending, maximumHops, w, k);
      }
    }
  }

  lemma VisitNeighbour(edges: Edges, adjacent: Adjacency, start: int, distances: map<int, nat>,
                       pending: seq<(int, int)>, maximumHops: int, w: int)
    requires Represents(adjacent, edges) && Searching(edges, adjacent, start, distances, pending, maximumHops)
    requires pending != [] && pending[0].1 < maximumHops
    requires Adjacent(edges, pending[0].0, w) && w !in distances && w in adjacent
    ensures var d := pending[0].1 + 1;
      d >= 0 && Searching(edges, adjacent, start, distances[w := d], pending + [(w, d)], maximumHops)
  {
    NeighbourDistance(edges, adjacent, start, distances, pending, maximumHops, w);
    var d := pending[0].1 + 1;
    var distances' := distances[w := d];
    var pending' := pending + [(w, d)];
    assert pending'[|pending|].0 == w;
    forall v | v in distances
      ensures Waits(pending', v) || distances[v] >= maximumHops || Expanded(adjacent, distances'.Keys, v)
    {
      if Waits(pending, v) {
        var i :| 0 <= i < |pending| && pending[i].0 == v;
        assert pending'[i].0 == v;
      }
    }
    assert Waits(pending', w);
  }

  /** The same with the vertex in front kept apart from the rest of the queue. */
  lemma VisitBehind(edges: Edges, adjacent: Adjacency, start: int, distances: map<int, nat>, front: (int, int),
                    rest: seq<(int, int)>, maximumHops: int, w: int)
    requires Represents(adjacent, edges) && Searching(edges, adjacent, start, distances, [front] + rest, maximumHops)
    requires front.1 < maximumHops && Adjacent(edges, front.0, w) && w !in distances && w in adjacent
    ensures var d := front.1 + 1;
      d >= 0 && Searching(edges, adjacent, start, distances[w := d], [front] + (rest + [(w, d)]), maximumHops)
  {
    VisitNeighbour(edges, adjacent, start, distances, [front] + rest, maximumHops, w);
    assert [front] + rest + [(w, front.1 + 1)] == [front] + (rest + [(w, front.1 + 1)]);
  }

  /** The vertex in front can go once its neighbours are visited or it is at the limit. */
  lemma FrontDone(edges: Edges, adjacent: Adjacency, start: int, distances: map<int, nat>, pending: seq<(int, int)>,
                  maximumHops: int)
    requires Searching(edges, adjacent, start, distances, pending, maximumHops) && pending != []
    requires pending[0].1 >= maximumHops || Expanded(adjacent, distances.Keys, pending[0].0)
    ensures Searching(edges, adjacent, start, distances, pending[1..], maximumHops)
  {
    forall v | v in distances
      ensures Waits(pending[1..], v) || distances[v] >= maximumHops || Expanded(adjacent, distances.Keys, v)
    {
      if Waits(pending, v) {
        var i :| 0 <= i < |pending| && pending[i].0 == v;
        assert i > 0 ==> pending[1..][i - 1].0 == v;
      }
    }
  }

  /** Without the end among the visited vertices, an empty queue means that the end is out of reach. */
  lemma Exhausted(edges: Edges, adjacent: Adjacency, start: int, distances: map<int, nat>, maximumHops: int, end: int)
    requires Represents(adjacent, edges) && Searching(edges, adjacent, start, distances, [], maximumHops)
    requires end !in distances
    ensures !WithinHops(edges, start, end, maximumHops)
  {
    forall k: nat | k <= maximumHops && ReachesIn(edges, start, end, k)
      ensures false
    {
      NearVisited(edges, adjacent, start, distances, [], maximumHops, end, k);
    }
  }

  lemma EndFound(edges: Edges, adjacent: Adjacency, start: int, distances: map<int, nat>,
                 pending: seq<(int, int)>, maximumHops: int, end: int)
    requires Represents(adjacent, edges) && Searching(edges, adjacent, start, distances, pending, maximumHops)
    requires pending != [] && pending[0].1 < maximumHops
    requires Adjacent(edges, pending[0].0, end) && end !in distances
    ensures pending[0].1 >= 0 && BoundedLength(edges, start, end, maximumHops, Some(pending[0].1 + 1))
  {
    NeighbourDistance(edges, adjacent, start, distances, pending, maximumHops, end);
  }

  lemma StartSearching(edges: Edges, adjacent: Adjacency, start: int, maximumHops: int)
    requires start in adjacent
    ensures Searching(edges, adjacent, start, map[start := 0], [(start, 0)], maximumHops)
  {
    assert [(start, 0)][0].0 == start;
  }

  /** Takes the vertex in front and looks at its neighbours in increasing order, stopping at the end vertex. */
  method Expand(adjacent: Adjacency, ghost edges: Edges, start: int, end: int, maximumHops: int,
                visited: set<int>, queue: seq<(int, int)>, ghost distances: map<int, nat>)
    returns (length: Option<nat>, visited': set<int>, queue': seq<(int, int)>, ghost distances': map<int, nat>)
    requires Represents(adjacent, edges) && visited == distances.Keys && end !in visited
    requires Searching(edges, adjacent, start, distances, queue, maximumHops)
    requires queue != [] && queue[0].1 < maximumHops
    ensures length.Some? ==> BoundedLength(edges, start, end, maximumHops, length)
    ensures length.None? ==> visited' == distances'.Keys && end !in visited'
    ensures length.None? ==> Searching(edges, adjacent, start, distances', queue', maximumHops)
    ensures length.None? ==>
      || |adjacent.Keys - visited'| < |adjacent.Keys - visited|
      || (visited == visited' && queue' == queue[1..])
  {
    var (vertex, distance) := queue[0];
    var neighbours := SortedList(adjacent[vertex]);
    visited', queue', distances', length := visited, queue[1..], distances, None;
    ghost var front := [queue[0]];
    assert front + queue' == queue;
    var i := 0;
    while i < |neighbours|
      invariant i <= |neighbours| && visited' == distances'.Keys && end !in visited'
      invariant Searching(edges, adjacent, start, distances', front + queue', maximumHops)
      invariant forall j :: 0 <= j < i ==> neighbours[j] in visited'
      invariant visited <= visited' && (visited == visited' ==> queue' == queue[1..])
    {
      var neighbour := neighbours[i];
      assert neighbour in adjacent[vertex] && Adjacent(edges, vertex, neighbour);
      if neighbour == end {
        EndFound(edges, adjacent, start, distances', front + queue', maximumHops, end);
        length := Some(distance + 1);
        return;
      }
      if neighbour !in visited' {
        VisitBehind(edges, adjacent, start, distances', queue[0], queue', maximumHops, neighbour);
        visited' := visited' + {neighbour};
        distances' := distances'[neighbour := distance + 1];
        queue' := queue' + [(neighbour, distance + 1)];
      }
      i := i + 1;
    }
    assert adjacent[vertex] <= visited' by {
      assert forall w :: w in adjacent[vertex] ==> w in neighbours;
    }
    FrontDone(edges, adjacent, start, distances', front + queue', maximumHops);
    assert (front + queue')[1..] == queue';
    if visited != visited' {
      LeftOver(adjacent.Keys, visited, visited');
    }
  }

  /**
   The length of a shortest path, if there is one of at most maximumHops steps;
   a vertex reaches itself in no steps whatever the limit.
   */
  method BoundedShortestPathLength(adjacent: Adjacency, ghost edges: Edges, start: int, end: int, maximumHops: int)
    returns (length: Option<nat>)
    requires Represents(adjacent, edges) && start in adjacent
    ensures BoundedLength(edges, start, end, maximumHops, length)
  {
    if start == end {
      assert ReachesIn(edges, start, end, 0);
      return Some(0);
    }
    var queue := [(start, 0)];
    ghost var distances: map<int, nat> := map[start := 0];
    var visited := {start};
    StartSearching(edges, adjacent, start, maximumHops);
    while queue != []
      invariant visited == distances.Keys && end !in visited
      invariant Searching(edges, adjacent, start, distances, queue, maximumHops)
      decreases |adjacent.Keys - visited|, |queue|
    {
      var (vertex, distance) := queue[0];
      if distance >= maximumHops {
        FrontDone(edges, adjacent, start, distances, queue, maximumHops);
        queue := queue[1..];
        continue;
      }
      length, visited, queue, distances := Expand(adjacent, edges, start, end, maximumHops, visited, queue, distances);
      if length.Some? {
        return;
      }
    }
    Exhausted(edges, adjacent, start, distances, maximumHops, end);
    length := None;
  }

  /** The dictionary of neighbour sets, filled edge by edge in any order. */
  method AdjacencyOf(vertices: set<int>, edges: Edges) returns (adjacent: Adjacency)
    requires forall e :: e in edges ==> e.0 in vertices && e.1 in vertices
    ensures Represents(adjacent, edges) && adjacent.Keys == vertices
  {
    adjacent := map v | v in vertices :: {};
    var rest := edges;
    assert edges - rest == {};
    while rest != {}
      invariant rest <= edges && adjacent.Keys == vertices
      invariant Represents(adjacent, edges - rest)
      decreases |rest|
    {
      var e: (int, int) :| e in rest;
      WithEdgeRepresents(adjacent, edges - rest, e.0, e.1);
      assert edges - (rest - {e}) == (edges - rest) + {e};
      rest := rest - {e};
      adjacent := WithEdge(adjacent, e.0, e.1);
    }
    assert edges - rest == edges;
  }

  /** The vertex the boundary is paired with at an index: the boundary moved on by one, its first vertex last. */
  function After(boundary: seq<int>, i: nat): int
    requires i < |boundary|
  {
    (boundary[1..] + boundary[..1])[i]
  }

  /** The next vertex of the closed boundary. */
  function Next(boundary: seq<int>, i: nat): int
    requires i < |boundary|
  {
    if i + 1 == |boundary| then boundary[0] else boundary[i + 1]
  }

  ghost predicate SupportedStep(edges: Edges, boundary: seq<int>, i: nat, hops: int)
    requires i < |boundary|
  {
    boundary[i] == Next(boundary, i) || WithinHops(edges, boundary[i], Next(boundary, i), hops)
  }

  ghost predicate LengthOfStep(edges: Edges, boundary: seq<int>, i: nat, hops: int, length: Option<nat>)
    requires i < |boundary|
  {
    BoundedLength(edges, boundary[i], Next(boundary, i), hops, length)
  }

  /** A boundary is supported exactly when every vertex reaches the next, cyclically, within the hop limit. */
  method BoundarySupport(vertices: set<int>, edges: Edges, boundary: seq<int>, maximumHops: int)
    returns (supported: bool, lengths: seq<Option<nat>>)
    requires forall e :: e in edges ==> e.0 in vertices && e.1 in vertices
    requires forall i :: 0 <= i < |boundary| ==> boundary[i] in vertices
    ensures |lengths| == |boundary|
    ensures forall i :: 0 <= i < |boundary| ==> LengthOfStep(edges, boundary, i, maximumHops, lengths[i])
    ensures supported <==> forall i :: 0 <= i < |boundary| ==> SupportedStep(edges, boundary, i, maximumHops)
  {
    var adjacent := AdjacencyOf(vertices, edges);
    lengths := [];
    var i := 0;
    while i < |boundary|
      invariant i <= |boundary| && |lengths| == i
      invariant forall j :: 0 <= j < i ==> LengthOfStep(edges, boundary, j, maximumHops, lengths[j])
    {
      assert After(boundary, i) == Next(boundary, i);
      var length := BoundedShortestPathLength(adjacent, edges, boundary[i], After(boundary, i), maximumHops);
      lengths := lengths + [length];
      i := i + 1;
    }
    forall j | 0 <= j < |boundary|
      ensures lengths[j].Some? <==> SupportedStep(edges, boundary, j, maximumHops)
    {
      SomeWhenSupported(edges, boundary, j, maximumHops, lengths[j]);
    }
    supported := forall j :: 0 <= j < |lengths| ==> lengths[j].Some?;
  }

  lemma SomeWhenSupported(edges: Edges, boundary: seq<int>, j: nat, hops: int, length: Option<nat>)
    requires j < |boundary| && LengthOfStep(edges, boundary, j, hops, length)
    ensures length.Some? <==> SupportedStep(edges, boundary, j, hops)
  {
    BoundedLengthExact(edges, boundary[j], Next(boundary, j), hops, length, 0);
  }
}
