/** Graph construction from raw map elements: a first pass fills the node
    table, a second pass turns each consecutive node pair of every highway
    way into a weighted edge. The specification functions below follow the
    same order of visits, element by element and pair by pair, so that the
    method can be proved equal to them and the lemmas state what they mean. */
module Builder {
  import opened MapData
  import opened Weight
  import opened RoadGraph

  /** One consecutive pair (from, to) of a highway way, with the way's tag. */
  datatype Segment = Segment(from: NodeId, to: NodeId, highway: string)

  /** The node table after the first pass over `elems`. */
  function NodeTableOf(elems: seq<Element>): (t: NodeTable)
    ensures t.Valid()
  {
    if elems == [] then EmptyTable
    else
      var t := NodeTableOf(elems[..|elems| - 1]);
      var e := elems[|elems| - 1];
      if e.Node? then t.Put(e.id, Coord(e.lat, e.lon)) else t
  }

  /** The pairs (refs[i], refs[i+1]) for i in 0 .. |refs| - 2, in order; an
      empty or one-node way has none. */
  function WaySegments(refs: seq<NodeId>, highway: string): (s: seq<Segment>)
    ensures |s| == if |refs| == 0 then 0 else |refs| - 1
    ensures forall i :: 0 <= i < |s| ==> s[i] == Segment(refs[i], refs[i + 1], highway)
  {
    if |refs| <= 1 then []
    else seq(|refs| - 1, i requires 0 <= i < |refs| - 1 => Segment(refs[i], refs[i + 1], highway))
  }

  /** The segments one element contributes: only highway ways give any. */
  function ElementSegments(e: Element): seq<Segment>
  {
    if IsHighway(e) then WaySegments(e.refs, e.tags["highway"]) else []
  }

  /** All segments of `elems`, in the order the second pass visits them. */
  function Segments(elems: seq<Element>): seq<Segment>
  {
    if elems == [] then []
    else Segments(elems[..|elems| - 1]) + ElementSegments(elems[|elems| - 1])
  }

  /** Both ends of the segment are known nodes. */
  predicate Resolves(s: Segment, t: NodeTable)
  {
    s.from in t.coords && s.to in t.coords
  }

  /** The weight of a resolving segment: distance from its first to its
      second node, weighted by its tag under the path type. */
  function SegmentWeight(s: Segment, t: NodeTable, pathType: Option<string>, dist: Distance): real
    requires Resolves(s, t)
  {
    EdgeWeight(pathType, s.highway, dist(t.coords[s.from], t.coords[s.to]))
  }

  /** Edge weights after adding every resolving segment of `segs` in order;
      a later segment on the same pair replaces the earlier weight. */
  function EdgeWeights(segs: seq<Segment>, t: NodeTable, pathType: Option<string>, dist: Distance): map<Edge, real>
  {
    if segs == [] then map[]
    else
      var m := EdgeWeights(segs[..|segs| - 1], t, pathType, dist);
      var s := segs[|segs| - 1];
      if Resolves(s, t) then m[Between(s.from, s.to) := SegmentWeight(s, t, pathType, dist)] else m
  }

  /** The vertices after adding every resolving segment of `segs`. */
  function Touched(segs: seq<Segment>, t: NodeTable): set<NodeId>
  {
    if segs == [] then {}
    else
      var s := segs[|segs| - 1];
      Touched(segs[..|segs| - 1], t) + if Resolves(s, t) then {s.from, s.to} else {}
  }

  lemma EdgeWeightsSnoc(segs: seq<Segment>, s: Segment, t: NodeTable, pathType: Option<string>, dist: Distance)
    ensures EdgeWeights(segs + [s], t, pathType, dist)
         == if Resolves(s, t)
            then EdgeWeights(segs, t, pathType, dist)[Between(s.from, s.to) := SegmentWeight(s, t, pathType, dist)]
            else EdgeWeights(segs, t, pathType, dist)
    ensures Touched(segs + [s], t)
         == Touched(segs, t) + if Resolves(s, t) then {s.from, s.to} else {}
  {
  }

  lemma PrefixExtend(done: seq<Segment>, pairs: seq<Segment>, i: nat)
    requires i < |pairs|
    ensures done + pairs[..i + 1] == (done + pairs[..i]) + [pairs[i]]
  {
  }

  lemma SegmentsSnoc(elems: seq<Element>, k: nat)
    requires k < |elems|
    ensures Segments(elems[..k + 1]) == Segments(elems[..k]) + ElementSegments(elems[k])
  {
    assert elems[..k + 1][..k] == elems[..k];
  }

  /** Builds the graph and the node table from the raw elements. */
  method ParseOsmData(elements: seq<Element>, pathType: Option<string>, haversine: Distance)
    returns (g: Graph, nodes: NodeTable)
    ensures fresh(g) && g.Valid()
    ensures nodes == NodeTableOf(elements)
    ensures g.weights == EdgeWeights(Segments(elements), nodes, pathType, haversine)
    ensures g.vertices == Touched(Segments(elements), nodes)
  {
    g := new Graph();
    nodes := EmptyTable;

    // First pass: the node table.
    for k := 0 to |elements|
      invariant nodes == NodeTableOf(elements[..k])
    {
      var element := elements[k];
      if element.Node? {
        nodes := nodes.Put(element.id, Coord(element.lat, element.lon));
      }
      assert elements[..k + 1][..k] == elements[..k];
    }
    assert elements[..|elements|] == elements;

    // Second pass: edges from consecutive pairs of highway ways.
    for k := 0 to |elements|
      invariant g.Valid()
      invariant g.weights == EdgeWeights(Segments(elements[..k]), nodes, pathType, haversine)
      invariant g.vertices == Touched(Segments(elements[..k]), nodes)
    {
      var element := elements[k];
      SegmentsSnoc(elements, k);
      if element.Way? && "highway" in element.tags {
        var highwayType := element.tags["highway"];
        var nodeIds := element.refs;
        AddWayEdges(g, nodes, nodeIds, highwayType, pathType, haversine, Segments(elements[..k]));
      } else {
        assert Segments(elements[..k + 1]) == Segments(elements[..k]);
      }
    }
    assert elements[..|elements|] == elements;
  }

  /** The inner loop of the second pass: one edge per resolving consecutive
      pair of one highway way; pairs with an unknown end are skipped. */
  method AddWayEdges(g: Graph, nodes: NodeTable, nodeIds: seq<NodeId>, highwayType: string,
                     pathType: Option<string>, haversine: Distance, ghost done: seq<Segment>)
    requires g.Valid()
    requires g.weights == EdgeWeights(done, nodes, pathType, haversine)
    requires g.vertices == Touched(done, nodes)
    modifies g
    ensures g.Valid()
    ensures g.weights == EdgeWeights(done + WaySegments(nodeIds, highwayType), nodes, pathType, haversine)
    ensures g.vertices == Touched(done + WaySegments(nodeIds, highwayType), nodes)
  {
    ghost var pairs := WaySegments(nodeIds, highwayType);
    ghost var visited := done;
    var i := 0;
    assert done + pairs[..0] == done;
    while i + 1 < |nodeIds|
      invariant i <= |pairs|
      invariant visited == done + pairs[..i]
      invariant g.Valid()
      invariant g.weights == EdgeWeights(visited, nodes, pathType, haversine)
      invariant g.vertices == Touched(visited, nodes)
    {
      var node0, node1 := nodeIds[i], nodeIds[i + 1];
      ghost var pair := Segment(node0, node1, highwayType);
      assert pairs[i] == pair;
      EdgeWeightsSnoc(visited, pair, nodes, pathType, haversine);
      if node0 in nodes.coords && node1 in nodes.coords {
        var coords0 := nodes.coords[node0];
        var coords1 := nodes.coords[node1];
        var distance := haversine(coords0, coords1);
        var weight := EdgeWeight(pathType, highwayType, distance);
        assert weight == SegmentWeight(pair, nodes, pathType, haversine);
        g.AddEdge(node0, node1, weight);
      }
      PrefixExtend(done, pairs, i);
      visited := visited + [pair];
      i := i + 1;
    }
    assert pairs[..i] == pairs;
  }
}
