/** The route: a node path over the built graph (what the shortest-path
    solver returns) and its conversion to the coordinate list the map is
    drawn from. */
module Route {
  import opened MapData
  import opened Builder
  import opened GraphProperties

  /** A path from `source` to `target` in the graph with these vertices and
      edge weights: it starts and ends there, stays on vertices, and each
      step follows an edge. Only this shape of the solver's answer is
      modelled, not its optimality. */
  ghost predicate IsRoute(vertices: set<NodeId>, weights: map<Edge, real>, path: seq<NodeId>, source: NodeId, target: NodeId)
  {
    && |path| > 0
    && path[0] == source
    && path[|path| - 1] == target
    && (forall i :: 0 <= i < |path| ==> path[i] in vertices)
    && (forall i :: 0 <= i < |path| - 1 ==> Between(path[i], path[i + 1]) in weights)
  }

  /** The coordinates of each node of the path, in path order. */
  function TrailCoords(path: seq<NodeId>, t: NodeTable): (trail: seq<Coord>)
    requires forall i :: 0 <= i < |path| ==> path[i] in t.coords
    ensures |trail| == |path|
    ensures forall i :: 0 <= i < |path| ==> trail[i] == t.coords[path[i]]
  {
    seq(|path|, i requires 0 <= i < |path| => t.coords[path[i]])
  }

  /** A route over the graph built from `elements` can always be turned into
      coordinates, and the coordinate list runs from the start
      node's coordinates to the end node's. */
  lemma RouteHasCoordinates(elements: seq<Element>, pathType: Option<string>, dist: Distance,
                            path: seq<NodeId>, source: NodeId, target: NodeId)
    requires IsRoute(Touched(Segments(elements), NodeTableOf(elements)),
                     EdgeWeights(Segments(elements), NodeTableOf(elements), pathType, dist),
                     path, source, target)
    ensures forall i :: 0 <= i < |path| ==> path[i] in NodeTableOf(elements).coords
    ensures TrailCoords(path, NodeTableOf(elements))[0] == NodeTableOf(elements).coords[source]
    ensures TrailCoords(path, NodeTableOf(elements))[|path| - 1] == NodeTableOf(elements).coords[target]
  {
    VerticesInTable(Segments(elements), NodeTableOf(elements));
  }

  /** Each step of a route over the built graph joins two nodes that stand
      next to each other in some highway way of the input. */
  lemma RouteStepsFollowWays(elements: seq<Element>, pathType: Option<string>, dist: Distance,
                             path: seq<NodeId>, source: NodeId, target: NodeId, i: nat)
    requires IsRoute(Touched(Segments(elements), NodeTableOf(elements)),
                     EdgeWeights(Segments(elements), NodeTableOf(elements), pathType, dist),
                     path, source, target)
    requires i < |path| - 1
    ensures exists s :: IsWayPair(elements, s) && Between(s.from, s.to) == Between(path[i], path[i + 1])
  {
    var segs := Segments(elements);
    var t := NodeTableOf(elements);
    EdgeKeys(segs, t, pathType, dist);
    SegmentsAreWayPairs(elements);
    var e := Between(path[i], path[i + 1]);
    assert e in EdgeWeights(segs, t, pathType, dist);
    assert HasResolvingSegment(segs, t, e);
    var j :| 0 <= j < |segs| && Resolves(segs[j], t) && Between(segs[j].from, segs[j].to) == Between(path[i], path[i + 1]);
    assert segs[j] in segs;
  }
}
