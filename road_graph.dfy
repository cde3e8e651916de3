/** The undirected simple graph that construction fills in: one weight per
    unordered node pair, and the set of nodes that edges touch. */
module RoadGraph {
  import opened MapData

  class Graph {
    var vertices: set<NodeId>
    var weights: map<Edge, real>

    /** Every edge joins two vertices of the graph. */
    ghost predicate Valid()
      reads this
    {
      forall e :: e in weights ==> e.lo in vertices && e.hi in vertices
    }

    /** An empty graph. */
    constructor ()
      ensures Valid()
      ensures vertices == {} && weights == map[]
    {
      vertices := {};
      weights := map[];
    }

    /** Adds both ends as vertices and sets the weight of {u, v}, replacing
        the weight an earlier call gave the same pair in either direction. */
    method AddEdge(u: NodeId, v: NodeId, w: real)
      requires Valid()
      modifies this
      ensures Valid()
      ensures vertices == old(vertices) + {u, v}
      ensures weights == old(weights)[Between(u, v) := w]
    {
      vertices := vertices + {u, v};
      weights := weights[Between(u, v) := w];
    }
  }
}
