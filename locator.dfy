/** Snapping a query coordinate onto the node table: a linear scan over the
    keys in insertion order that keeps the first key of least distance, and
    fails on an empty table. */
module Locator {
  import opened MapData
  import opened Builder
  import opened GraphProperties

  /** Index of the first least element, found the way a left-to-right scan
      does: the current best is replaced only by a strictly smaller value. */
  function ArgMin(ds: seq<real>): (i: nat)
    requires |ds| > 0
    ensures i < |ds|
    ensures forall j :: 0 <= j < |ds| ==> ds[i] <= ds[j]
    ensures forall j :: 0 <= j < i ==> ds[i] < ds[j]
  {
    if |ds| == 1 then 0
    else
      var best := ArgMin(ds[..|ds| - 1]);
      if ds[|ds| - 1] < ds[best] then |ds| - 1 else best
  }

  /** The two properties of ArgMin pin the index down: there is one first
      least element. */
  lemma ArgMinUnique(ds: seq<real>, i: nat)
    requires i < |ds|
    requires forall j :: 0 <= j < |ds| ==> ds[i] <= ds[j]
    requires forall j :: 0 <= j < i ==> ds[i] < ds[j]
    ensures ArgMin(ds) == i
  {
  }

  /** Distance from `q` to every key of the table, in key order. */
  function Distances(t: NodeTable, q: Coord, dist: Distance): (ds: seq<real>)
    requires t.Valid()
    ensures |ds| == |t.order|
    ensures forall i :: 0 <= i < |ds| ==> ds[i] == dist(q, t.coords[t.order[i]])
  {
    seq(|t.order|, i requires 0 <= i < |t.order| => dist(q, t.coords[t.order[i]]))
  }

  /** The key nearest to `q`; None on an empty table, where Python's `min`
      raises `ValueError`. On ties the key inserted first wins. */
  function Nearest(t: NodeTable, q: Coord, dist: Distance): (r: Option<NodeId>)
    requires t.Valid()
    ensures r.None? <==> t.coords == map[]
    ensures r.Some? ==> r.value in t.coords
    ensures r.Some? ==> forall id :: id in t.coords ==> dist(q, t.coords[r.value]) <= dist(q, t.coords[id])
    ensures r.Some? ==> forall i, j :: 0 <= j < i < |t.order| && t.order[i] == r.value ==>
      dist(q, t.coords[r.value]) < dist(q, t.coords[t.order[j]])
  {
    if |t.order| == 0 then
      assert forall id :: id !in t.coords;
      None
    else
      var ds := Distances(t, q, dist);
      var i := ArgMin(ds);
      assert t.order[i] in t.coords;
      var r := t.order[i];
      assert forall id :: id in t.coords ==> exists j :: 0 <= j < |t.order| && t.order[j] == id;
      Some(r)
  }

  /** The distance unit does not matter: scaling every distance by the same
      positive factor (kilometres against metres) picks the same node. */
  lemma NearestUnitFree(t: NodeTable, q: Coord, dist: Distance, scale: real)
    requires t.Valid() && 0.0 < scale
    ensures Nearest(t, q, dist) == Nearest(t, q, (a, b) => scale * dist(a, b))
  {
    if |t.order| > 0 {
      var scaled: Distance := (a, b) => scale * dist(a, b);
      var ds := Distances(t, q, dist);
      var ds' := Distances(t, q, scaled);
      forall j | 0 <= j < |ds|
        ensures ds'[j] == scale * ds[j]
      {
        assert ds'[j] == scaled(q, t.coords[t.order[j]]);
      }
      ArgMinScaled(ds, ds', scale);
    }
  }

  /** Scaling by a positive factor keeps the scan's choice. */
  lemma {:induction false} ArgMinScaled(ds: seq<real>, ds': seq<real>, scale: real)
    requires 0 < |ds| == |ds'| && 0.0 < scale
    requires forall j :: 0 <= j < |ds| ==> ds'[j] == scale * ds[j]
    ensures ArgMin(ds) == ArgMin(ds')
  {
    if |ds| > 1 {
      var n := |ds| - 1;
      ArgMinScaled(ds[..n], ds'[..n], scale);
      var best := ArgMin(ds[..n]);
      ScalePreservesOrder(scale, ds[n], ds[best]);
    }
  }

  lemma ScalePreservesOrder(scale: real, x: real, y: real)
    requires 0.0 < scale
    ensures scale * x <= scale * y <==> x <= y
    ensures scale * x < scale * y <==> x < y
  {
    assert scale * y - scale * x == scale * (y - x);
  }

  /** The empty-area case: when the map data holds no node element, both
      ends of the route fail to snap. */
  lemma NoNodesNoNearest(elems: seq<Element>, q: Coord, dist: Distance)
    requires forall k :: 0 <= k < |elems| ==> !elems[k].Node?
    ensures Nearest(NodeTableOf(elems), q, dist) == None
  {
    NodeTableKeys(elems);
    assert NodeTableOf(elems).coords == map[];
  }
}
