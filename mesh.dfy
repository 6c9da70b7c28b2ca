/** Geometry/Mesh.hpp: a polygon mesh made of point positions, a vertex count per polygon,
    the point index of every polygon vertex, the offset of each polygon's first vertex, and
    three registries of named attributes, one per rank. */
module Mesh {
  import opened Types
  import opened MeshAttrib
  import LinearVector

  /** The sum of `counts`, accumulated from the front. */
  function Sum(counts: seq<Index>): int
    decreases |counts|
  {
    if |counts| == 0 then 0 else Sum(counts[..|counts| - 1]) + counts[|counts| - 1]
  }

  /** One more count adds that count to the running total. */
  lemma SumStep(counts: seq<Index>, p: int)
    requires 0 <= p < |counts|
    ensures Sum(counts[..p + 1]) == Sum(counts[..p]) + counts[p]
  {
    assert counts[..p + 1][..p] == counts[..p];
  }

  /** With no negative count, the running total never decreases. */
  lemma {:induction false} SumGrows(counts: seq<Index>, p: int, q: int)
    requires forall i :: 0 <= i < |counts| ==> counts[i] >= 0
    requires 0 <= p <= q <= |counts|
    ensures Sum(counts[..p]) <= Sum(counts[..q])
    decreases q - p
  {
    if p < q {
      SumStep(counts, q - 1);
      SumGrows(counts, p, q - 1);
    }
  }

  /** The offsets the three-argument constructor computes: `offsets_[p]` is the number of
      vertices in the polygons before `p`. */
  ghost predicate PrefixOffsets(counts: seq<Index>, offsets: seq<Index>)
  {
    |offsets| == |counts| && forall p :: 0 <= p < |counts| ==> offsets[p] == Sum(counts[..p])
  }

  /** The loop of the three-argument constructor: one `push_back` of the running offset
      per polygon, then the polygon's count is added to it. The first offset is 0 and
      each next one is the previous offset plus the previous polygon's count. */
  method PolygonOffsets(counts: seq<Index>) returns (offsets: seq<Index>)
    ensures PrefixOffsets(counts, offsets)
    ensures |counts| > 0 ==> offsets[0] == 0
    ensures forall p :: 0 <= p < |counts| - 1 ==> offsets[p + 1] == offsets[p] + counts[p]
  {
    var numPolygons := |counts|;
    offsets := [];
    var poly, off := 0, 0;
    while poly < numPolygons
      invariant 0 <= poly <= numPolygons && |offsets| == poly
      invariant off == Sum(counts[..poly])
      invariant forall p :: 0 <= p < poly ==> offsets[p] == Sum(counts[..p])
    {
      offsets := offsets + [off];
      SumStep(counts, poly);
      off := off + counts[poly];
      poly := poly + 1;
    }
    assert counts[..0] == [];
    forall p | 0 <= p < |counts| - 1
      ensures offsets[p + 1] == offsets[p] + counts[p]
    {
      SumStep(counts, p);
    }
  }

  /** With prefix-sum offsets and no negative count, the vertex slots of the polygons are
      consecutive and disjoint: polygon `p` owns `[offsets[p], offsets[p] + counts[p])`, an
      earlier polygon's slot ends before a later one's starts, and the last slot ends at
      the total number of polygon vertices. */
  lemma PolygonSlotsDisjoint(counts: seq<Index>, offsets: seq<Index>, p: int, q: int)
    requires PrefixOffsets(counts, offsets)
    requires forall i :: 0 <= i < |counts| ==> counts[i] >= 0
    requires 0 <= p < q < |counts|
    ensures offsets[p] + counts[p] <= offsets[q]
    ensures offsets[q] + counts[q] <= Sum(counts)
  {
    SumStep(counts, p);
    SumGrows(counts, p + 1, q);
    SumStep(counts, q);
    SumGrows(counts, q + 1, |counts|);
    assert counts[..|counts|] == counts;
  }

  /** `std::map::emplace(key, value)`: a key already present keeps its value; an absent key
      is added with `value`; no other key changes. The value now under `key` is what
      `emplace` points the caller to. */
  function Emplace<V>(m: map<string, V>, key: string, value: V): (r: map<string, V>)
    ensures key in r && r[key] == (if key in m then m[key] else value)
    ensures forall k :: k != key ==> (k in r <==> k in m)
    ensures forall k :: k != key && k in m ==> r[k] == m[k]
  {
    if key in m then m else m[key := value]
  }

  /** Emplacing again under the same key changes nothing, whatever the new value. */
  lemma EmplaceTwice<V>(m: map<string, V>, key: string, first: V, second: V)
    ensures Emplace(Emplace(m, key, first), key, second) == Emplace(m, key, first)
    ensures Emplace(Emplace(m, key, first), key, second)[key] == Emplace(m, key, first)[key]
  {
  }

  class Mesh
  {
    var positions: seq<LinearVector.Vector3>
    var counts: seq<Index>
    var vertices: seq<Index>
    var offsets: seq<Index>
    var pointAttribs: map<string, MeshAttrib>
    var polygonAttribs: map<string, MeshAttrib>
    var meshAttribs: map<string, MeshAttrib>

    /** `Mesh(positions, counts, indices, offsets)`: the four arrays are taken over as
        given. */
    constructor WithOffsets(positions: seq<LinearVector.Vector3>, counts: seq<Index>, indices: seq<Index>,
                            offsets: seq<Index>)
      ensures this.positions == positions && this.counts == counts && vertices == indices
      ensures this.offsets == offsets
      ensures pointAttribs == map[] && polygonAttribs == map[] && meshAttribs == map[]
    {
      this.positions, this.counts, vertices, this.offsets := positions, counts, indices, offsets;
      pointAttribs, polygonAttribs, meshAttribs := map[], map[], map[];
    }

    /** `Mesh(positions, counts, indices)`: the offsets are the running vertex totals. */
    constructor(positions: seq<LinearVector.Vector3>, counts: seq<Index>, indices: seq<Index>)
      ensures this.positions == positions && this.counts == counts && vertices == indices
      ensures PrefixOffsets(counts, offsets)
      ensures pointAttribs == map[] && polygonAttribs == map[] && meshAttribs == map[]
    {
      var polygonOffsets := PolygonOffsets(counts);
      this.positions, this.counts, vertices, offsets := positions, counts, indices, polygonOffsets;
      pointAttribs, polygonAttribs, meshAttribs := map[], map[], map[];
    }

    function NumPoints(): Index
      reads this
    {
      |positions|
    }

    function NumPolygons(): Index
      reads this
    {
      |counts|
    }

    function NumPolygonVertices(polygon: Index): Index
      reads this
      requires 0 <= polygon < |counts|
    {
      counts[polygon]
    }

    /** `GetVertex(vertex)`: the position of point `vertex`. */
    function GetVertex(vertex: Index): LinearVector.Vector3
      reads this
      requires 0 <= vertex < |positions|
    {
      positions[vertex]
    }

    /** `GetVertex(polygon, vertex)`: reads `positions_` at the polygon's offset plus
        `vertex`, without going through `vertices_`. With prefix-sum offsets that is the
        position just after all vertices of the earlier polygons, `vertex` further on. */
    function GetPolygonVertex(polygon: Index, vertex: Index): (position: LinearVector.Vector3)
      reads this
      requires 0 <= polygon < |offsets| && 0 <= offsets[polygon] + vertex < |positions|
      ensures PrefixOffsets(counts, offsets) ==> position == positions[Sum(counts[..polygon]) + vertex]
    {
      positions[offsets[polygon] + vertex]
    }

    /** The element count an attribute of `rank` gets: one per point, one per polygon, or a
        single one for the whole mesh; `Vertex` is not handled. */
    function AttribSize(rank: MeshAttribRank): Option<Index>
      reads this
    {
      match rank
      case Point => Some(NumPoints())
      case Polygon => Some(NumPolygons())
      case Mesh => Some(1)
      case Vertex => None
    }

    /** `CreateAttribute(name, rank, storage)`: an attribute of rank `Point`, `Polygon` or
        `Mesh` is emplaced into that rank's registry with `AttribSize(rank)` elements, and
        the attribute now registered under `name` is returned: the new one, or the one
        already there, which is kept. The other registries and the geometry do not change.
        Any other rank gives null and changes nothing. */
    method CreateAttribute(name: string, rank: MeshAttribRank, storage: Storage) returns (attrib: Option<MeshAttrib>)
      modifies this
      ensures positions == old(positions) && counts == old(counts)
      ensures vertices == old(vertices) && offsets == old(offsets)
      ensures rank == Point ==>
                && pointAttribs == Emplace(old(pointAttribs), name, MeshAttrib(rank, storage, |positions|))
                && polygonAttribs == old(polygonAttribs) && meshAttribs == old(meshAttribs)
                && attrib == Some(pointAttribs[name])
      ensures rank == Polygon ==>
                && polygonAttribs == Emplace(old(polygonAttribs), name, MeshAttrib(rank, storage, |counts|))
                && pointAttribs == old(pointAttribs) && meshAttribs == old(meshAttribs)
                && attrib == Some(polygonAttribs[name])
      ensures rank == Mesh ==>
                && meshAttribs == Emplace(old(meshAttribs), name, MeshAttrib(rank, storage, 1))
                && pointAttribs == old(pointAttribs) && polygonAttribs == old(polygonAttribs)
                && attrib == Some(meshAttribs[name])
      ensures rank == Vertex ==>
                && attrib.None?
                && pointAttribs == old(pointAttribs) && polygonAttribs == old(polygonAttribs)
                && meshAttribs == old(meshAttribs)
      ensures attrib.Some? <==> AttribSize(rank).Some?
    {
      match rank
      case Point =>
        var newAttrib := MeshAttrib(rank, storage, NumPoints());
        pointAttribs := Emplace(pointAttribs, name, newAttrib);
        return Some(pointAttribs[name]);
      case Polygon =>
        var newAttrib := MeshAttrib(rank, storage, NumPolygons());
        polygonAttribs := Emplace(polygonAttribs, name, newAttrib);
        return Some(polygonAttribs[name]);
      case Mesh =>
        var newAttrib := MeshAttrib(rank, storage, 1);
        meshAttribs := Emplace(meshAttribs, name, newAttrib);
        return Some(meshAttribs[name]);
      case Vertex =>
        return None;
    }
  }
}
