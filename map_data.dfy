/** Raw map elements as the map-data service returns them, the coordinate
    table that graph construction fills in, and unordered node pairs. */
module MapData {

  /** Map-element identifiers are plain integers. */
  type NodeId = int

  datatype Option<T> = None | Some(value: T)

  /** A (latitude, longitude) pair in degrees. */
  datatype Coord = Coord(lat: real, lon: real)

  /** Great-circle distance between two coordinates. Its trigonometry is not
      modelled: every operation takes the distance function as a parameter. */
  type Distance = (Coord, Coord) -> real

  ghost predicate NonNegative(dist: Distance)
  {
    forall a, b :: 0.0 <= dist(a, b)
  }

  /** One element of the raw map data: a node with its coordinates, a way
      (an ordered list of node references with its tag dictionary), or any
      other element kind, which graph construction ignores. */
  datatype Element =
    | Node(id: NodeId, lat: real, lon: real)
    | Way(refs: seq<NodeId>, tags: map<string, string>)
    | Other(kind: string)

  /** A way that carries a `highway` tag: the only elements that give edges. */
  predicate IsHighway(e: Element)
  {
    e.Way? && "highway" in e.tags
  }

  /** The id -> (lat, lon) dictionary. Like a Python dictionary, it
      remembers the order in which keys were first inserted; `order` lists
      the keys in that order. */
  datatype NodeTable = NodeTable(order: seq<NodeId>, coords: map<NodeId, Coord>)
  {
    ghost predicate Valid()
    {
      && (forall i, j :: 0 <= i < j < |order| ==> order[i] != order[j])
      && (forall i :: 0 <= i < |order| ==> order[i] in coords)
      && (forall id :: id in coords ==> id in order)
    }

    /** Dictionary assignment `table[id] = c`: the value is replaced, a key
        already present keeps its position, a new key goes last. */
    function Put(id: NodeId, c: Coord): (t: NodeTable)
      requires Valid()
      ensures t.Valid()
      ensures t.coords.Keys == coords.Keys + {id} && t.coords[id] == c
      ensures forall k :: k in coords && k != id ==> t.coords[k] == coords[k]
      ensures |t.order| == |order| + (if id in coords then 0 else 1)
      ensures forall i :: 0 <= i < |order| ==> t.order[i] == order[i]
    {
      if id in coords then NodeTable(order, coords[id := c])
      else NodeTable(order + [id], coords[id := c])
    }
  }

  const EmptyTable: NodeTable := NodeTable([], map[])

  /** An unordered pair of node ids, stored with the smaller id first. */
  datatype Edge = Edge(lo: NodeId, hi: NodeId)

  /** The unordered pair {u, v}; u == v gives a self-loop. */
  function Between(u: NodeId, v: NodeId): (e: Edge)
    ensures e.lo <= e.hi
    ensures {e.lo, e.hi} == {u, v}
  {
    if u <= v then Edge(u, v) else Edge(v, u)
  }

  /** Two ordered pairs name the same edge exactly when they are the same
      pair in either direction. */
  lemma BetweenSameEdge(u: NodeId, v: NodeId, x: NodeId, y: NodeId)
    ensures Between(u, v) == Between(x, y) <==> (u == x && v == y) || (u == y && v == x)
  {
  }
}
