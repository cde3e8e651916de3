/** What graph construction produces, stated in terms of the raw elements:
    which ids the node table holds and with which coordinates, in which
    order; which segments are visited; which edges and vertices the graph
    ends up with and which weight each edge keeps. */
module GraphProperties {
  import opened MapData
  import opened Weight
  import opened Builder

  /** Some node element of `elems` carries `id`. */
  ghost predicate HasNode(elems: seq<Element>, id: NodeId)
  {
    exists k :: 0 <= k < |elems| && elems[k].Node? && elems[k].id == id
  }

  /** The table holds exactly the ids of the node elements, whether or not
      any way uses them. */
  lemma {:induction false} NodeTableKeys(elems: seq<Element>)
    ensures forall id :: id in NodeTableOf(elems).coords <==> HasNode(elems, id)
  {
    if elems != [] {
      var p := elems[..|elems| - 1];
      NodeTableKeys(p);
      forall id | HasNode(p, id)
        ensures HasNode(elems, id)
      {
        var k :| 0 <= k < |p| && p[k].Node? && p[k].id == id;
        assert elems[k] == p[k];
      }
      forall id | HasNode(elems, id)
        ensures id in NodeTableOf(elems).coords
      {
        var k :| 0 <= k < |elems| && elems[k].Node? && elems[k].id == id;
        if k < |p| {
          assert p[k] == elems[k];
        }
      }
    }
  }

  /** A node id is mapped to the coordinates of its last node element:
      when an id repeats, the later element wins. */
  lemma {:induction false} NodeTableLastWins(elems: seq<Element>, k: nat)
    requires k < |elems| && elems[k].Node?
    requires forall j :: k < j < |elems| && elems[j].Node? ==> elems[j].id != elems[k].id
    ensures elems[k].id in NodeTableOf(elems).coords
    ensures NodeTableOf(elems).coords[elems[k].id] == Coord(elems[k].lat, elems[k].lon)
  {
    var p := elems[..|elems| - 1];
    if k < |elems| - 1 {
      assert p[k] == elems[k];
      forall j | k < j < |p| && p[j].Node?
        ensures p[j].id != p[k].id
      {
        assert p[j] == elems[j];
      }
      NodeTableLastWins(p, k);
    }
  }

  /** Node `a` has an element before any element of node `b`. */
  ghost predicate SeenBefore(elems: seq<Element>, a: NodeId, b: NodeId)
  {
    exists p :: 0 <= p < |elems| && elems[p].Node? && elems[p].id == a &&
      forall q :: 0 <= q <= p ==> !(elems[q].Node? && elems[q].id == b)
  }

  /** The table's key order is the order in which ids first appear; a later
      repeat of an id does not move it. */
  lemma {:induction false} NodeTableOrderFirstSeen(elems: seq<Element>, i: nat, j: nat)
    requires i < j < |NodeTableOf(elems).order|
    ensures SeenBefore(elems, NodeTableOf(elems).order[i], NodeTableOf(elems).order[j])
  {
    var p := elems[..|elems| - 1];
    var t := NodeTableOf(p);
    var order := NodeTableOf(elems).order;
    var a, b := order[i], order[j];
    if j < |t.order| {
      NodeTableOrderFirstSeen(p, i, j);
      assert t.order[i] == a && t.order[j] == b;
      var w :| 0 <= w < |p| && p[w].Node? && p[w].id == a &&
        forall q :: 0 <= q <= w ==> !(p[q].Node? && p[q].id == b);
      assert elems[w] == p[w];
      forall q | 0 <= q <= w
        ensures !(elems[q].Node? && elems[q].id == b)
      {
        assert elems[q] == p[q];
      }
    } else {
      // Only the last element can have appended `b`, so `b` was unseen before it.
      assert b !in t.coords;
      assert a in t.coords by {
        assert t.order[i] == a;
      }
      NodeTableKeys(p);
      var w :| 0 <= w < |p| && p[w].Node? && p[w].id == a;
      assert elems[w] == p[w];
      forall q | 0 <= q <= w
        ensures !(elems[q].Node? && elems[q].id == b)
      {
        assert elems[q] == p[q];
      }
    }
  }

  /** A segment is visited exactly when it is the pair at positions i and
      i + 1 of some highway way, tagged with that way's highway value. */
  ghost predicate IsWayPair(elems: seq<Element>, s: Segment)
  {
    exists k, i :: 0 <= k < |elems| && IsHighway(elems[k]) && 0 <= i < |elems[k].refs| - 1 &&
      s == Segment(elems[k].refs[i], elems[k].refs[i + 1], elems[k].tags["highway"])
  }

  lemma SegmentsAreWayPairs(elems: seq<Element>)
    ensures forall s :: s in Segments(elems) <==> IsWayPair(elems, s)
  {
    SegmentsSound(elems);
    SegmentsComplete(elems);
  }

  /** Every visited segment is a consecutive pair of a highway way. */
  lemma {:induction false} SegmentsSound(elems: seq<Element>)
    ensures forall s :: s in Segments(elems) ==> IsWayPair(elems, s)
  {
    if elems != [] {
      var p := elems[..|elems| - 1];
      var e := elems[|elems| - 1];
      SegmentsSound(p);
      forall s | s in Segments(elems)
        ensures IsWayPair(elems, s)
      {
        if s in Segments(p) {
          var k, i :| 0 <= k < |p| && IsHighway(p[k]) && 0 <= i < |p[k].refs| - 1 &&
            s == Segment(p[k].refs[i], p[k].refs[i + 1], p[k].tags["highway"]);
          assert elems[k] == p[k];
        } else {
          var i := ElementSegmentIndex(e, s);
          assert elems[|elems| - 1] == e;
        }
      }
    }
  }

  /** Where a segment of one element sits in that element's way. */
  lemma ElementSegmentIndex(e: Element, s: Segment) returns (i: nat)
    requires s in ElementSegments(e)
    ensures IsHighway(e) && i < |e.refs| - 1
    ensures s == Segment(e.refs[i], e.refs[i + 1], e.tags["highway"])
  {
    var segs := ElementSegments(e);
    var j :| 0 <= j < |segs| && segs[j] == s;
    i := j;
  }

  /** Every consecutive pair of a highway way is visited. */
  lemma {:induction false} SegmentsComplete(elems: seq<Element>)
    ensures forall s :: IsWayPair(elems, s) ==> s in Segments(elems)
  {
    if elems != [] {
      var p := elems[..|elems| - 1];
      var e := elems[|elems| - 1];
      SegmentsComplete(p);
      forall s | IsWayPair(elems, s)
        ensures s in Segments(elems)
      {
        var k, i :| 0 <= k < |elems| && IsHighway(elems[k]) && 0 <= i < |elems[k].refs| - 1 &&
          s == Segment(elems[k].refs[i], elems[k].refs[i + 1], elems[k].tags["highway"]);
        if k < |p| {
          assert p[k] == elems[k];
          assert IsWayPair(p, s);
        } else {
          assert ElementSegments(e)[i] == s;
        }
      }
    }
  }

  /** Nodes, untagged ways and other elements give no segments. */
  lemma NoHighwayNoSegments(elems: seq<Element>)
    requires forall k :: 0 <= k < |elems| ==> !IsHighway(elems[k])
    ensures Segments(elems) == []
  {
    SegmentsAreWayPairs(elems);
  }

  /** Some resolving segment of `segs` lies on edge `e`. */
  ghost predicate HasResolvingSegment(segs: seq<Segment>, t: NodeTable, e: Edge)
  {
    exists j :: 0 <= j < |segs| && Resolves(segs[j], t) && Between(segs[j].from, segs[j].to) == e
  }

  /** The graph has an edge exactly where some segment has both ends in the
      table: a dangling pair is skipped and costs its way no other edge. */
  lemma {:induction false} EdgeKeys(segs: seq<Segment>, t: NodeTable, pathType: Option<string>, dist: Distance)
    ensures forall e :: e in EdgeWeights(segs, t, pathType, dist) <==> HasResolvingSegment(segs, t, e)
  {
    if segs != [] {
      var p := segs[..|segs| - 1];
      EdgeKeys(p, t, pathType, dist);
      forall e | HasResolvingSegment(p, t, e)
        ensures HasResolvingSegment(segs, t, e)
      {
        var j :| 0 <= j < |p| && Resolves(p[j], t) && Between(p[j].from, p[j].to) == e;
        assert segs[j] == p[j];
      }
      forall e | HasResolvingSegment(segs, t, e)
        ensures e in EdgeWeights(segs, t, pathType, dist)
      {
        var j :| 0 <= j < |segs| && Resolves(segs[j], t) && Between(segs[j].from, segs[j].to) == e;
        if j < |p| {
          assert p[j] == segs[j];
        }
      }
    }
  }

  /** An edge keeps the weight of the last resolving segment on its pair:
      adding a pair again overwrites the earlier weight. */
  lemma {:induction false} EdgeLastWins(segs: seq<Segment>, t: NodeTable, pathType: Option<string>, dist: Distance, j: nat)
    requires j < |segs| && Resolves(segs[j], t)
    requires forall l :: j < l < |segs| && Resolves(segs[l], t) ==>
      Between(segs[l].from, segs[l].to) != Between(segs[j].from, segs[j].to)
    ensures Between(segs[j].from, segs[j].to) in EdgeWeights(segs, t, pathType, dist)
    ensures EdgeWeights(segs, t, pathType, dist)[Between(segs[j].from, segs[j].to)]
         == SegmentWeight(segs[j], t, pathType, dist)
  {
    var p := segs[..|segs| - 1];
    if j < |segs| - 1 {
      assert p[j] == segs[j];
      forall l | j < l < |p| && Resolves(p[l], t)
        ensures Between(p[l].from, p[l].to) != Between(p[j].from, p[j].to)
      {
        assert p[l] == segs[l];
      }
      EdgeLastWins(p, t, pathType, dist, j);
    }
  }

  /** The vertex set is exactly the set of edge endpoints. */
  lemma {:induction false} VerticesAreEndpoints(segs: seq<Segment>, t: NodeTable, pathType: Option<string>, dist: Distance)
    ensures forall n :: n in Touched(segs, t) <==>
      exists e :: e in EdgeWeights(segs, t, pathType, dist) && (e.lo == n || e.hi == n)
  {
    if segs != [] {
      var p := segs[..|segs| - 1];
      var s := segs[|segs| - 1];
      VerticesAreEndpoints(p, t, pathType, dist);
      var m := EdgeWeights(p, t, pathType, dist);
      var m' := EdgeWeights(segs, t, pathType, dist);
      assert m.Keys <= m'.Keys;
      if Resolves(s, t) {
        var e := Between(s.from, s.to);
        forall n | n in Touched(segs, t)
          ensures exists e :: e in m' && (e.lo == n || e.hi == n)
        {
          if n !in Touched(p, t) {
            assert e in m' && (e.lo == n || e.hi == n);
          }
        }
        forall n | exists e :: e in m' && (e.lo == n || e.hi == n)
          ensures n in Touched(segs, t)
        {
          var e' :| e' in m' && (e'.lo == n || e'.hi == n);
          if e' != e {
            assert e' in m;
          }
        }
      }
    }
  }

  /** Every vertex has coordinates in the table. */
  lemma {:induction false} VerticesInTable(segs: seq<Segment>, t: NodeTable)
    ensures Touched(segs, t) <= t.coords.Keys
  {
    if segs != [] {
      VerticesInTable(segs[..|segs| - 1], t);
    }
  }

  /** With a non-negative distance every edge weight is non-negative. */
  lemma {:induction false} WeightsNonNegative(segs: seq<Segment>, t: NodeTable, pathType: Option<string>, dist: Distance)
    requires NonNegative(dist)
    ensures forall e :: e in EdgeWeights(segs, t, pathType, dist) ==> 0.0 <= EdgeWeights(segs, t, pathType, dist)[e]
  {
    if segs != [] {
      var s := segs[|segs| - 1];
      WeightsNonNegative(segs[..|segs| - 1], t, pathType, dist);
      if Resolves(s, t) {
        WeightNonNegative(pathType, s.highway, dist(t.coords[s.from], t.coords[s.to]));
      }
    }
  }
}
