/** Undirected graphs as dictionaries of neighbour sets. */
module NeighbourSets {
  import opened Graphs

  /** Vertex identifiers with the sets of their neighbours. */
  type Adjacency = map<int, set<int>>

  ghost predicate NeighbourSet(edges: Edges, found: set<int>, v: int) {
    forall w :: w in found <==> Adjacent(edges, v, w)
  }

  ghost predicate Represents(adjacent: Adjacency, edges: Edges) {
    && (forall v :: v in adjacent ==> NeighbourSet(edges, adjacent[v], v))
    && (forall e :: e in edges ==> e.0 in adjacent && e.1 in adjacent)
  }

  /** Each end of the edge becomes a neighbour of the other. */
  function WithEdge(adjacent: Adjacency, left: int, right: int): Adjacency
    requires left in adjacent && right in adjacent
  {
    var joined := adjacent[left := adjacent[left] + {right}];
    joined[right := joined[right] + {left}]
  }

  lemma WithEdgeRepresents(adjacent: Adjacency, edges: Edges, left: int, right: int)
    requires Represents(adjacent, edges) && left in adjacent && right in adjacent
    ensures Represents(WithEdge(adjacent, left, right), edges + {(left, right)})
  {
    forall v | v in adjacent
      ensures NeighbourSet(edges + {(left, right)}, WithEdge(adjacent, left, right)[v], v)
    {
      OneMoreEdge(edges, left, right, adjacent[v], v);
    }
  }

  lemma OneMoreEdge(edges: Edges, left: int, right: int, found: set<int>, v: int)
    requires NeighbourSet(edges, found, v)
    ensures var more := found + (if v == left then {right} else {}) + (if v == right then {left} else {});
      NeighbourSet(edges + {(left, right)}, more, v)
  {
  }
}
