/** Small maps and what construction makes of them: two distinct nodes and
    one way over them. */
module Scenarios {
  import opened MapData
  import opened Weight
  import opened Builder

  /** Nodes a and b at ca and cb, then one way with the given references and tags. */
  function TwoNodeMap(a: NodeId, ca: Coord, b: NodeId, cb: Coord, refs: seq<NodeId>, tags: map<string, string>): seq<Element>
  {
    [Node(a, ca.lat, ca.lon), Node(b, cb.lat, cb.lon), Way(refs, tags)]
  }

  /** Both nodes are in the table, whatever the way says. */
  lemma TwoNodeTable(a: NodeId, ca: Coord, b: NodeId, cb: Coord, refs: seq<NodeId>, tags: map<string, string>)
    requires a != b
    ensures NodeTableOf(TwoNodeMap(a, ca, b, cb, refs, tags)).coords == map[a := ca, b := cb]
  {
    var elems := TwoNodeMap(a, ca, b, cb, refs, tags);
    var first := [elems[0]];
    var both := first + [elems[1]];
    assert NodeTableOf(first) == EmptyTable.Put(a, ca) by { assert first[..0] == []; }
    assert NodeTableOf(both) == NodeTableOf(first).Put(b, cb) by { assert both[..1] == first; }
    assert elems[..2] == both;
  }

  /** Only the way gives segments. */
  lemma TwoNodeSegments(a: NodeId, ca: Coord, b: NodeId, cb: Coord, refs: seq<NodeId>, tags: map<string, string>)
    ensures Segments(TwoNodeMap(a, ca, b, cb, refs, tags)) == ElementSegments(Way(refs, tags))
  {
    var elems := TwoNodeMap(a, ca, b, cb, refs, tags);
    var first := [elems[0]];
    var both := first + [elems[1]];
    assert Segments(first) == [] by { assert first[..0] == []; }
    assert Segments(both) == [] by { assert both[..1] == first; }
    assert elems[..2] == both;
  }

  /** A highway way a–b gives the one edge {a, b}, weighted by the rule for
      its tag and the distance from a to b. */
  lemma SinglePair(a: NodeId, ca: Coord, b: NodeId, cb: Coord, highway: string, pathType: Option<string>, dist: Distance)
    requires a != b
    ensures var elems := TwoNodeMap(a, ca, b, cb, [a, b], map["highway" := highway]);
      EdgeWeights(Segments(elems), NodeTableOf(elems), pathType, dist)
        == map[Between(a, b) := EdgeWeight(pathType, highway, dist(ca, cb))]
  {
    var tags := map["highway" := highway];
    var elems := TwoNodeMap(a, ca, b, cb, [a, b], tags);
    var t := NodeTableOf(elems);
    var seg := Segment(a, b, highway);
    assert Segments(elems) == [] + [seg] by {
      TwoNodeSegments(a, ca, b, cb, [a, b], tags);
      assert WaySegments([a, b], highway) == [seg];
    }
    assert t.coords[a] == ca && t.coords[b] == cb by {
      TwoNodeTable(a, ca, b, cb, [a, b], tags);
    }
    EdgeWeightsSnoc([], seg, t, pathType, dist);
  }

  /** A residential way between two nodes weighs the distance in both modes
      (the residential factor is 1). */
  lemma ResidentialPair(a: NodeId, ca: Coord, b: NodeId, cb: Coord, pathType: Option<string>, dist: Distance)
    requires a != b
    ensures var elems := TwoNodeMap(a, ca, b, cb, [a, b], map["highway" := "residential"]);
      EdgeWeights(Segments(elems), NodeTableOf(elems), pathType, dist) == map[Between(a, b) := dist(ca, cb)]
  {
    SinglePair(a, ca, b, cb, "residential", pathType, dist);
    assert QuietnessFactor("residential") == 1.0;
  }

  /** An unlisted tag in quietness mode weighs three times the distance. */
  lemma UnknownTagPair(a: NodeId, ca: Coord, b: NodeId, cb: Coord, dist: Distance)
    requires a != b
    ensures var elems := TwoNodeMap(a, ca, b, cb, [a, b], map["highway" := "unknown_type"]);
      EdgeWeights(Segments(elems), NodeTableOf(elems), Some(QuietnessPathType), dist)
        == map[Between(a, b) := 3.0 * dist(ca, cb)]
  {
    SinglePair(a, ca, b, cb, "unknown_type", Some(QuietnessPathType), dist);
    UnknownTagWeighsThreefold("unknown_type", dist(ca, cb));
  }

  /** A way a–b–c where c is unknown keeps the edge {a, b} and the vertices
      a and b, and drops the dangling pair without failing. */
  lemma DanglingReference(a: NodeId, ca: Coord, b: NodeId, cb: Coord, c: NodeId, pathType: Option<string>, dist: Distance)
    requires a != b && c != a && c != b
    ensures var elems := TwoNodeMap(a, ca, b, cb, [a, b, c], map["highway" := "footway"]);
      && EdgeWeights(Segments(elems), NodeTableOf(elems), pathType, dist).Keys == {Between(a, b)}
      && Touched(Segments(elems), NodeTableOf(elems)) == {a, b}
  {
    var tags := map["highway" := "footway"];
    var elems := TwoNodeMap(a, ca, b, cb, [a, b, c], tags);
    var t := NodeTableOf(elems);
    var s0, s1 := Segment(a, b, "footway"), Segment(b, c, "footway");
    assert Segments(elems) == [] + [s0] + [s1] by {
      TwoNodeSegments(a, ca, b, cb, [a, b, c], tags);
      assert WaySegments([a, b, c], "footway") == [s0, s1];
    }
    assert Resolves(s0, t) && !Resolves(s1, t) by {
      TwoNodeTable(a, ca, b, cb, [a, b, c], tags);
    }
    EdgeWeightsSnoc([], s0, t, pathType, dist);
    EdgeWeightsSnoc([] + [s0], s1, t, pathType, dist);
  }
}
