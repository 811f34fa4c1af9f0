/** The two-core of a receipt graph, by peeling rows of degree below two from a queue. */
module TwoCore {
  import opened Basics
  import opened Graphs
  import opened GraphReceipts
  import opened CycleRank

  /** Two different neighbours of v lie in the set. */
  ghost predicate InsideTwice(edges: Edges, rows: set<int>, v: int) {
    exists a, b :: a in rows && b in rows && a != b && Adjacent(edges, v, a) && Adjacent(edges, v, b)
  }

  /** Every row of the set has two neighbours in it. */
  ghost predicate Stable(edges: Edges, rows: set<int>) {
    forall v {:trigger InsideTwice(edges, rows, v)} :: v in rows ==> InsideTwice(edges, rows, v)
  }

  function ActiveRows(active: seq<bool>): set<int> { set v | 0 <= v < |active| && active[v] }

  ghost predicate Covers(edges: Edges, active: seq<bool>) {
    forall rows :: Stable(edges, rows) ==> rows <= ActiveRows(active)
  }

  /** The two-core: the largest stable set. */
  ghost predicate IsTwoCore(edges: Edges, active: seq<bool>) {
    Stable(edges, ActiveRows(active)) && Covers(edges, active)
  }

  predicate IsActive(active: seq<bool>, v: int) { 0 <= v < |active| && active[v] }

  function ActiveCount(list: seq<int>, active: seq<bool>): nat {
    if list == [] then 0 else ActiveCount(list[..|list| - 1], active) + Bit(IsActive(active, list[|list| - 1]))
  }

  lemma {:induction false} CountsActive(list: seq<int>, active: seq<bool>, i: nat)
    requires i < |list| && IsActive(active, list[i])
    ensures ActiveCount(list, active) >= 1
  {
    if i >= |list| - 1 {
    } else {
      CountsActive(list[..|list| - 1], active, i);
    }
  }

  lemma {:induction false} CountsTwo(list: seq<int>, active: seq<bool>, i: nat, j: nat)
    requires i < j < |list| && IsActive(active, list[i]) && IsActive(active, list[j])
    ensures ActiveCount(list, active) >= 2
  {
    if j < |list| - 1 {
      CountsTwo(list[..|list| - 1], active, i, j);
    } else {
      CountsActive(list[..|list| - 1], active, i);
    }
  }

  lemma {:induction false} OneCounted(list: seq<int>, active: seq<bool>) returns (i: nat)
    requires ActiveCount(list, active) >= 1
    ensures i < |list| && IsActive(active, list[i])
  {
    var last := |list| - 1;
    if IsActive(active, list[last]) {
      i := last;
    } else {
      i := OneCounted(list[..last], active);
    }
  }

  lemma {:induction false} TwoCounted(list: seq<int>, active: seq<bool>) returns (i: nat, j: nat)
    requires ActiveCount(list, active) >= 2
    ensures i < j < |list| && IsActive(active, list[i]) && IsActive(active, list[j])
  {
    var last := |list| - 1;
    if IsActive(active, list[last]) {
      j := last;
      i := OneCounted(list[..last], active);
    } else {
      i, j := TwoCounted(list[..last], active);
    }
  }

  lemma {:induction false} CountAfterRemoval(list: seq<int>, active: seq<bool>, v: nat)
    requires Distinct(list) && v < |active| && active[v]
    ensures ActiveCount(list, active[v := false]) + Bit(v in list) == ActiveCount(list, active)
  {
    if list == [] {
    } else {
      CountAfterRemoval(list[..|list| - 1], active, v);
    }
  }

  lemma {:induction false} CountAllActive(list: seq<int>, active: seq<bool>)
    requires forall i :: 0 <= i < |list| ==> IsActive(active, list[i])
    ensures ActiveCount(list, active) == |list|
  {
    if list == [] {
    } else {
      CountAllActive(list[..|list| - 1], active);
    }
  }

  /** Degrees of active rows count their active neighbours, except that the given rows still count one more. */
  ghost predicate Counted(adjacent: Adjacency, active: seq<bool>, degree: seq<int>, pending: seq<int>)
    requires |adjacent| == |active| == |degree|
  {
    forall v :: 0 <= v < |active| && active[v] ==> degree[v] == ActiveCount(adjacent[v], active) + Bit(v in pending)
  }

  /** Every active row of degree below two is waiting, and every waiting active row has degree below two. */
  predicate Waiting(active: seq<bool>, degree: seq<int>, waiting: seq<int>)
    requires |active| == |degree|
  {
    && (forall v :: 0 <= v < |active| && active[v] && degree[v] < 2 ==> v in waiting)
    && (forall v :: v in waiting ==> 0 <= v < |active| && (active[v] ==> degree[v] < 2))
  }

  lemma WithoutRow(active: seq<bool>, v: nat)
    requires v < |active| && active[v]
    ensures ActiveRows(active[v := false]) == ActiveRows(active) - {v}
    ensures |ActiveRows(active[v := false])| < |ActiveRows(active)|
  {
    assert ActiveRows(active[v := false]) == ActiveRows(active) - {v};
    assert v in ActiveRows(active);
  }

  /** A row with fewer than two active neighbours is in no stable set. */
  lemma RemovalCovers(adjacent: Adjacency, edges: Edges, active: seq<bool>, v: nat)
    requires Lists(|active|, edges, adjacent) && Covers(edges, active)
    requires v < |active| && active[v] && ActiveCount(adjacent[v], active) < 2
    ensures Covers(edges, active[v := false])
  {
    WithoutRow(active, v);
    forall rows | Stable(edges, rows)
      ensures rows <= ActiveRows(active) - {v}
    {
      assert rows <= ActiveRows(active);
      NotInStable(adjacent, edges, active, v, rows);
    }
  }

  lemma NotInStable(adjacent: Adjacency, edges: Edges, active: seq<bool>, v: nat, rows: set<int>)
    requires Lists(|active|, edges, adjacent) && v < |active| && ActiveCount(adjacent[v], active) < 2
    requires Stable(edges, rows) && rows <= ActiveRows(active)
    ensures v !in rows
  {
    if v in rows && InsideTwice(edges, rows, v) {
      var a, b :| a in rows && b in rows && a != b && Adjacent(edges, v, a) && Adjacent(edges, v, b);
      NotTwoActive(adjacent, edges, active, v, a, b);
    }
  }

  lemma NotTwoActive(adjacent: Adjacency, edges: Edges, active: seq<bool>, v: nat, a: int, b: int)
    requires Lists(|active|, edges, adjacent) && v < |active| && ActiveCount(adjacent[v], active) < 2
    requires a != b && Adjacent(edges, v, a) && Adjacent(edges, v, b)
    ensures !(a in ActiveRows(active) && b in ActiveRows(active))
  {
    assert ListsNeighbours(edges, adjacent[v], v);
    var list := adjacent[v];
    var i :| 0 <= i < |list| && list[i] == a;
    var j :| 0 <= j < |list| && list[j] == b;
    if IsActive(active, a) && IsActive(active, b) {
      CountsTwo(list, active, if i < j then i else j, if i < j then j else i);
    }
  }

  lemma PeeledStable(adjacent: Adjacency, edges: Edges, active: seq<bool>, degree: seq<int>)
    requires |active| == |degree| && Lists(|active|, edges, adjacent)
    requires Counted(adjacent, active, degree, []) && Waiting(active, degree, [])
    ensures Stable(edges, ActiveRows(active))
  {
    forall v | v in ActiveRows(active)
      ensures InsideTwice(edges, ActiveRows(active), v)
    {
      assert ActiveCount(adjacent[v], active) >= 2;
      var i, j := TwoCounted(adjacent[v], active);
      assert ListsNeighbours(edges, adjacent[v], v);
      assert adjacent[v][i] in ActiveRows(active) && adjacent[v][j] in ActiveRows(active);
    }
  }

  /** The mask of the two-core. */
  method Peel(adjacent: Adjacency, ghost edges: Edges) returns (active: array<bool>)
    requires Lists(|adjacent|, edges, adjacent) && Canonical(|adjacent|, edges)
    ensures fresh(active) && active.Length == |adjacent|
    ensures IsTwoCore(edges, active[..])
  {
    var n := |adjacent|;
    active := new bool[n](_ => true);
    var degree := new int[n](v requires 0 <= v < n => |adjacent[v]|);
    AllActive(adjacent, edges, active[..], degree[..]);
    var queue := LowDegree(degree);
    assert Waiting(active[..], degree[..], queue);
    var cursor := 0;
    assert queue[cursor..] == queue;
    while cursor < |queue|
      invariant cursor <= |queue|
      invariant Counted(adjacent, active[..], degree[..], [])
      invariant Waiting(active[..], degree[..], queue[cursor..])
      invariant Covers(edges, active[..])
      decreases |ActiveRows(active[..])|, |queue| - cursor
    {
      var vertex := queue[cursor];
      FrontOfQueue(active[..], degree[..], queue, cursor);
      cursor := cursor + 1;
      if active[vertex] {
        queue := Deactivate(adjacent, edges, active, degree, vertex, queue, cursor);
      }
    }
    assert queue[cursor..] == [];
    PeeledStable(adjacent, edges, active[..], degree[..]);
  }

  /** The rows of degree below two, in order. */
  method LowDegree(degree: array<int>) returns (queue: seq<int>)
    ensures forall v :: v in queue <==> 0 <= v < degree.Length && degree[v] < 2
  {
    queue := [];
    var k := 0;
    while k < degree.Length
      invariant k <= degree.Length
      invariant forall v :: v in queue <==> 0 <= v < k && degree[v] < 2
    {
      if degree[k] < 2 {
        queue := queue + [k];
      }
      k := k + 1;
    }
  }

  lemma FrontOfQueue(active: seq<bool>, degree: seq<int>, queue: seq<int>, cursor: nat)
    requires |active| == |degree| && cursor < |queue| && Waiting(active, degree, queue[cursor..])
    ensures queue[cursor..] == [queue[cursor]] + queue[cursor + 1..]
    ensures 0 <= queue[cursor] < |active|
    ensures !active[queue[cursor]] ==> Waiting(active, degree, queue[cursor + 1..])
  {
    assert queue[cursor..] == [queue[cursor]] + queue[cursor + 1..];
    WaitingRest(active, degree, queue[cursor], queue[cursor + 1..]);
  }

  lemma WaitingRest(active: seq<bool>, degree: seq<int>, head: int, rest: seq<int>)
    requires |active| == |degree| && Waiting(active, degree, [head] + rest)
    ensures 0 <= head < |active|
    ensures Waiting(active[head := false], degree, rest)
    ensures !active[head] ==> Waiting(active, degree, rest)
  {
    assert head in [head] + rest;
    forall v
      ensures v in [head] + rest <==> v == head || v in rest
    {
      InEither([head], rest, v);
    }
  }

  lemma NeighbourInRange(adjacent: Adjacency, edges: Edges, v: nat, i: nat)
    requires Lists(|adjacent|, edges, adjacent) && Canonical(|adjacent|, edges) && v < |adjacent| && i < |adjacent[v]|
    ensures var w := adjacent[v][i]; 0 <= w < |adjacent| && Adjacent(edges, v, w) && v in adjacent[w]
  {
    var w := adjacent[v][i];
    assert ListsNeighbours(edges, adjacent[v], v) && Adjacent(edges, v, w);
    assert ListsNeighbours(edges, adjacent[w], w);
  }

  lemma AllActive(adjacent: Adjacency, edges: Edges, active: seq<bool>, degree: seq<int>)
    requires |active| == |degree| == |adjacent| && Lists(|active|, edges, adjacent) && Canonical(|active|, edges)
    requires forall v :: 0 <= v < |active| ==> active[v] && degree[v] == |adjacent[v]|
    ensures Counted(adjacent, active, degree, []) && Covers(edges, active)
  {
    forall v | 0 <= v < |active|
      ensures ActiveCount(adjacent[v], active) == |adjacent[v]|
    {
      forall i | 0 <= i < |adjacent[v]|
        ensures IsActive(active, adjacent[v][i])
      {
        NeighbourInRange(adjacent, edges, v, i);
      }
      CountAllActive(adjacent[v], active);
    }
    forall rows | Stable(edges, rows)
      ensures rows <= ActiveRows(active)
    {
      StableInRange(|active|, edges, rows);
    }
  }

  lemma StableInRange(n: nat, edges: Edges, rows: set<int>)
    requires Canonical(n, edges) && Stable(edges, rows)
    ensures forall v :: v in rows ==> 0 <= v < n
  {
    forall v | v in rows
      ensures 0 <= v < n
    {
      assert InsideTwice(edges, rows, v);
    }
  }

  /** Removes one row and lowers its active neighbours' degrees, queueing those that reach one. */
  method Deactivate(adjacent: Adjacency, ghost edges: Edges, active: array<bool>, degree: array<int>, vertex: nat,
                    queue: seq<int>, cursor: nat)
    returns (queue': seq<int>)
    requires active.Length == degree.Length == |adjacent| && vertex < |adjacent| && cursor <= |queue|
    requires Lists(|adjacent|, edges, adjacent) && Canonical(|adjacent|, edges) && active[vertex]
    requires Counted(adjacent, active[..], degree[..], [])
    requires Waiting(active[..], degree[..], [vertex] + queue[cursor..])
    requires Covers(edges, active[..])
    modifies active, degree
    ensures cursor <= |queue'| && Counted(adjacent, active[..], degree[..], [])
    ensures Waiting(active[..], degree[..], queue'[cursor..])
    ensures Covers(edges, active[..])
    ensures |ActiveRows(active[..])| < |ActiveRows(old(active[..]))|
  {
    Removal(adjacent, edges, active[..], degree[..], vertex, queue[cursor..]);
    ghost var now := active[..][vertex := false];
    active[vertex] := false;
    assert active[..] == now;
    queue' := LowerDegrees(adjacent, edges, active, degree, vertex, queue, cursor);
  }

  /** What holds once the row is inactive and before its neighbours' degrees are lowered. */
  lemma Removal(adjacent: Adjacency, edges: Edges, active: seq<bool>, degree: seq<int>, vertex: nat, rest: seq<int>)
    requires |active| == |degree| == |adjacent| && vertex < |active| && active[vertex]
      && Lists(|adjacent|, edges, adjacent)
    requires Counted(adjacent, active, degree, []) && Covers(edges, active)
    requires Waiting(active, degree, [vertex] + rest)
    ensures Counted(adjacent, active[vertex := false], degree, adjacent[vertex])
      && Covers(edges, active[vertex := false])
    ensures Waiting(active[vertex := false], degree, rest)
    ensures |ActiveRows(active[vertex := false])| < |ActiveRows(active)|
  {
    assert vertex in [vertex] + rest;
    RemovalCovers(adjacent, edges, active, vertex);
    WithoutRow(active, vertex);
    OneLess(adjacent, edges, active, degree, vertex);
    WaitingRest(active, degree, vertex, rest);
  }

  /** Lowers the degrees of the active neighbours of a removed row. */
  method LowerDegrees(adjacent: Adjacency, ghost edges: Edges, active: array<bool>, degree: array<int>, vertex: nat,
                      queue: seq<int>, cursor: nat)
    returns (queue': seq<int>)
    requires active.Length == degree.Length == |adjacent| && vertex < |adjacent| && cursor <= |queue|
    requires Lists(|adjacent|, edges, adjacent) && Canonical(|adjacent|, edges)
    requires Counted(adjacent, active[..], degree[..], adjacent[vertex])
    requires Waiting(active[..], degree[..], queue[cursor..])
    modifies degree
    ensures cursor <= |queue'| && Counted(adjacent, active[..], degree[..], [])
    ensures Waiting(active[..], degree[..], queue'[cursor..])
  {
    var neighbours := adjacent[vertex];
    queue' := queue;
    var i := 0;
    ghost var now := active[..];
    assert neighbours[0..] == neighbours;
    while i < |neighbours|
      invariant i <= |neighbours| && cursor <= |queue'|
      invariant Counted(adjacent, now, degree[..], neighbours[i..])
      invariant Waiting(now, degree[..], queue'[cursor..])
    {
      var neighbour := neighbours[i];
      NeighbourInRange(adjacent, edges, vertex, i);
      NotAgain(adjacent, edges, vertex, i);
      ghost var before := degree[..];
      LowerOne(adjacent, now, before, neighbour, neighbours[i + 1..], queue'[cursor..]);
      if active[neighbour] {
        degree[neighbour] := degree[neighbour] - 1;
        assert degree[..] == before[neighbour := before[neighbour] - 1];
        if degree[neighbour] == 1 {
          assert (queue' + [neighbour])[cursor..] == queue'[cursor..] + [neighbour];
          queue' := queue' + [neighbour];
        }
      }
      i := i + 1;
    }
    assert neighbours[i..] == [];
  }

  lemma NotAgain(adjacent: Adjacency, edges: Edges, v: nat, i: nat)
    requires Lists(|adjacent|, edges, adjacent) && v < |adjacent| && i < |adjacent[v]|
    ensures adjacent[v][i..] == [adjacent[v][i]] + adjacent[v][i + 1..]
    ensures adjacent[v][i] !in adjacent[v][i + 1..]
  {
    assert ListsNeighbours(edges, adjacent[v], v);
  }

  /** The effect of lowering one neighbour's degree. */
  lemma LowerOne(adjacent: Adjacency, active: seq<bool>, degree: seq<int>, w: nat, rest: seq<int>, waiting: seq<int>)
    requires |adjacent| == |active| == |degree| && w < |active| && w !in rest
    requires Counted(adjacent, active, degree, [w] + rest) && Waiting(active, degree, waiting)
    ensures !active[w] ==> Counted(adjacent, active, degree, rest)
    ensures active[w] ==> var lower := degree[w := degree[w] - 1];
      && Counted(adjacent, active, lower, rest)
      && Waiting(active, lower, if lower[w] == 1 then waiting + [w] else waiting)
  {
    forall v
      ensures v in [w] + rest <==> v == w || v in rest
    {
      InEither([w], rest, v);
    }
    forall v
      ensures v in waiting + [w] <==> v in waiting || v == w
    {
      InEither(waiting, [w], v);
    }
  }

  /** After removing a row its active neighbours count one too many. */
  lemma OneLess(adjacent: Adjacency, edges: Edges, active: seq<bool>, degree: seq<int>, vertex: nat)
    requires |active| == |degree| && Lists(|active|, edges, adjacent) && vertex < |active| && active[vertex]
    requires Counted(adjacent, active, degree, [])
    ensures Counted(adjacent, active[vertex := false], degree, adjacent[vertex])
  {
    forall v | 0 <= v < |active| && active[v] && v != vertex
      ensures degree[v] == ActiveCount(adjacent[v], active[vertex := false]) + Bit(v in adjacent[vertex])
    {
      assert ListsNeighbours(edges, adjacent[v], v) && ListsNeighbours(edges, adjacent[vertex], vertex);
      assert vertex in adjacent[v] <==> v in adjacent[vertex];
      CountAfterRemoval(adjacent[v], active, vertex);
    }
  }

  // ----- The two-core and cycles -----

  function Rows(p: seq<int>): set<int> { set i | 0 <= i < |p| :: p[i] }

  lemma CycleNeighbours(edges: Edges, c: seq<int>, i: nat)
    requires Cycle(edges, c) && i < |c|
    ensures InsideTwice(edges, Rows(c), c[i])
  {
    var before, after := if i > 0 then i - 1 else |c| - 1, if i < |c| - 1 then i + 1 else 0;
    assert i > 0 ==> Hop(edges, c, i - 1);
    assert i < |c| - 1 ==> Hop(edges, c, i);
    assert c[before] in Rows(c) && c[after] in Rows(c);
    assert Adjacent(edges, c[i], c[before]) && Adjacent(edges, c[i], c[after]);
    assert c[before] != c[after];
  }

  /** The rows of a cycle form a stable set. */
  lemma CycleIsStable(edges: Edges, c: seq<int>)
    requires Cycle(edges, c)
    ensures Stable(edges, Rows(c))
  {
    forall v | v in Rows(c)
      ensures InsideTwice(edges, Rows(c), v)
    {
      var i :| 0 <= i < |c| && c[i] == v;
      CycleNeighbours(edges, c, i);
    }
  }

  lemma {:induction false} DistinctFits(p: seq<int>, rows: set<int>)
    requires Distinct(p) && forall i :: 0 <= i < |p| ==> p[i] in rows
    ensures |p| <= |rows|
  {
    if p == [] {
    } else {
      var last := |p| - 1;
      DistinctFits(p[..last], rows - {p[last]});
    }
  }

  /** From a row of a stable set one can always go on to another row than the one just left. */
  lemma OnwardRow(n: nat, edges: Edges, rows: set<int>, v: int, left: int) returns (w: int)
    requires Canonical(n, edges) && Stable(edges, rows) && v in rows
    ensures w in rows && w != left && w != v && Adjacent(edges, v, w)
  {
    assert InsideTwice(edges, rows, v);
    var a, b :| a in rows && b in rows && a != b && Adjacent(edges, v, a) && Adjacent(edges, v, b);
    w := if a != left then a else b;
  }

  /** Walking on inside a stable set must close a cycle. */
  lemma {:induction false} StableClosesCycle(n: nat, edges: Edges, rows: set<int>, p: seq<int>) returns (c: seq<int>)
    requires Canonical(n, edges) && Stable(edges, rows)
    requires Walk(edges, p) && Distinct(p) && forall i :: 0 <= i < |p| ==> p[i] in rows
    ensures Cycle(edges, c)
    decreases |rows| - |p|
  {
    var last := |p| - 1;
    var w := OnwardRow(n, edges, rows, p[last], if last > 0 then p[last - 1] else p[last]);
    if j :| 0 <= j < |p| && p[j] == w {
      PartOfWalk(edges, p, j, |p|);
      c := p[j..|p|];
    } else {
      JoinWalks(edges, p, [w]);
      DistinctFits(p + [w], rows);
      c := StableClosesCycle(n, edges, rows, p + [w]);
    }
  }

  /** The two-core is empty exactly when there is no cycle, that is when the cycle rank is zero. */
  lemma CoreEmptyIffRankZero(n: nat, edges: Edges, active: seq<bool>, labels: seq<int>)
    requires Canonical(n, edges) && IsTwoCore(edges, active) && LabelsComponents(n, edges, labels)
    ensures ActiveRows(active) == {} <==> Acyclic(edges)
    ensures ActiveRows(active) == {} <==> Rank(|edges|, n, |LabelSet(labels)|) == 0
  {
    RankCountsCycles(n, edges, labels);
    if ActiveRows(active) != {} {
      var v :| v in ActiveRows(active);
      var c := StableClosesCycle(n, edges, ActiveRows(active), [v]);
    }
    forall c | Cycle(edges, c)
      ensures ActiveRows(active) != {}
    {
      CycleIsStable(edges, c);
      assert c[0] in Rows(c);
    }
  }
}
