/** `Point3D` of Math/Point3D.hpp and its kd-tree policy: `KdMin<Point3D>`,
    `KdMax<Point3D>` and `KdComparator<Point3D>`. */
module Point3D {
  import opened Types
  import opened StdAlgorithm
  import opened KdCommon
  import opened KdShape
  import opened KdTree

  /** Three coordinates; the default constructor puts the point at the origin. */
  datatype Point3D = Point3D(x: Real, y: Real, z: Real)

  /** `Point3D{}`, the `T{}` the tree seeds `min_` and `max_` with. */
  const ORIGIN := Point3D(0.0, 0.0, 0.0)

  /** `KdMin<Point3D>::value`: the componentwise minimum, by `std::min`. */
  function KdMin(l: Point3D, r: Point3D): (p: Point3D)
    ensures p.x <= l.x && p.x <= r.x && (p.x == l.x || p.x == r.x)
    ensures p.y <= l.y && p.y <= r.y && (p.y == l.y || p.y == r.y)
    ensures p.z <= l.z && p.z <= r.z && (p.z == l.z || p.z == r.z)
  {
    Point3D(StdMin(l.x, r.x), StdMin(l.y, r.y), StdMin(l.z, r.z))
  }

  /** `KdMax<Point3D>::value`: the componentwise maximum, by `std::max`. */
  function KdMax(l: Point3D, r: Point3D): (p: Point3D)
    ensures p.x >= l.x && p.x >= r.x && (p.x == l.x || p.x == r.x)
    ensures p.y >= l.y && p.y >= r.y && (p.y == l.y || p.y == r.y)
    ensures p.z >= l.z && p.z >= r.z && (p.z == l.z || p.z == r.z)
  {
    Point3D(StdMax(l.x, r.x), StdMax(l.y, r.y), StdMax(l.z, r.z))
  }

  /** The coordinate the comparator orders by on `dimension`: `y` on axis 1, `z` on axis 2,
      `x` on axis 0 and on every other axis. */
  function Key(p: Point3D, dimension: int): Real
  {
    if dimension == 1 then p.y else if dimension == 2 then p.z else p.x
  }

  /** `KdComparator<Point3D>{points, dimension}`. */
  datatype KdComparator = KdComparator(points: seq<Point3D>, dimension: Index)
  {
    /** `operator()(l, r)`: the switch on the dimension, `x` in the default case. */
    predicate Less(l: Index, r: Index)
      requires 0 <= l < |points| && 0 <= r < |points|
      ensures Less(l, r) <==> Key(points[l], dimension) < Key(points[r], dimension)
    {
      match dimension
      case 0 => points[l].x < points[r].x
      case 1 => points[l].y < points[r].y
      case 2 => points[l].z < points[r].z
      case _ => points[l].x < points[r].x
    }
  }

  /** The policy the generic tree is instantiated with. */
  function Policy(): (policy: KdPolicy<Point3D>)
    ensures policy.zero == ORIGIN
  {
    KdPolicy(KdMin, KdMax, Key, ORIGIN)
  }

  /** `KdMin` and `KdMax` are componentwise bounds on every axis the comparator uses, so the
      tree's bound lemmas apply to points. */
  lemma PolicyLaws()
    ensures MinLaw(Policy()) && MaxLaw(Policy())
  {
    var policy := Policy();
    forall a, b, d
      ensures Key(KdMax(a, b), d) >= Key(a, d) && Key(KdMax(a, b), d) >= Key(b, d)
    {
    }
    forall a, b, d
      ensures Negated(policy.key)(policy.kmax(a, b), d) <= Negated(policy.key)(a, d)
      ensures Negated(policy.key)(policy.kmax(a, b), d) <= Negated(policy.key)(b, d)
    {
      assert Key(KdMax(a, b), d) >= Key(a, d) && Key(KdMax(a, b), d) >= Key(b, d);
    }
  }

  /** The comparator is a strict order on the keys of its axis: irreflexive and transitive,
      and it is the order `std::nth_element` sees on the key sequence of that axis. */
  lemma ComparatorOrdersKeys(points: seq<Point3D>, dimension: Index, i: Index, j: Index, l: Index)
    requires 0 <= i < |points| && 0 <= j < |points| && 0 <= l < |points|
    ensures !KdComparator(points, dimension).Less(i, i)
    ensures KdComparator(points, dimension).Less(i, j) && KdComparator(points, dimension).Less(j, l) ==>
              KdComparator(points, dimension).Less(i, l)
    ensures KdComparator(points, dimension).Less(i, j) <==>
              KeysOf(points, Key, dimension)[i] < KeysOf(points, Key, dimension)[j]
  {
  }

  /** On every axis `KdMin` and `KdMax` return one of their arguments' coordinates, and
      `KdMin` is below both. */
  lemma PolicySelects()
    ensures Selects(KdMin, Key) && Selects(KdMax, Key) && Lowers(KdMin, Key)
  {
  }

  /** Whatever the leaf threshold, the point at position `n/2 - 1`, just below the root's
      middle, falls in no leaf: when it alone has the largest `x`, and that `x` is
      positive, `max_` ends below it on the x axis. */
  lemma MaxMissesSkippedEntry(entries: seq<Point3D>, k: nat)
    requires 2 <= k < |entries|
    requires entries[|entries| / 2 - 1].x > 0.0
    requires forall i :: 0 <= i < |entries| && i != |entries| / 2 - 1 ==> entries[i].x < entries[|entries| / 2 - 1].x
    ensures LeavesWithin(LeafSpans(Span(0, |entries|), k, 1), |entries|)
    ensures BoundFold(entries, KdMax, ORIGIN, LeafSpans(Span(0, |entries|), k, 1)).x < entries[|entries| / 2 - 1].x
  {
    var n := |entries|;
    var leaves := LeafSpans(Span(0, n), k, 1);
    RootGapUncovered(n, k);
    LeafSpansInside(n, k, 1);
    PolicySelects();
    BoundFoldAttained(entries, KdMax, Key, ORIGIN, leaves, 0);
    var m := BoundFold(entries, KdMax, ORIGIN, leaves);
    if Key(m, 0) != Key(ORIGIN, 0) {
      var j, i :| 0 <= j < |leaves| && leaves[j].lo <= i < leaves[j].hi && 0 <= i < n && Key(m, 0) == Key(entries[i], 0);
      assert i != n / 2 - 1;
    }
  }

  /** Whatever the leaf threshold, when no point has a negative coordinate the seed
      `Point3D{}` wins every comparison, so `min_` is the origin, whether or not the origin is
      one of the points. */
  lemma MinKeepsSeed(entries: seq<Point3D>, k: nat)
    requires k >= 2
    requires forall i :: 0 <= i < |entries| ==> entries[i].x >= 0.0 && entries[i].y >= 0.0 && entries[i].z >= 0.0
    ensures LeavesWithin(LeafSpans(Span(0, |entries|), k, 1), |entries|)
    ensures BoundFold(entries, KdMin, ORIGIN, LeafSpans(Span(0, |entries|), k, 1)) == ORIGIN
  {
    var leaves := LeafSpans(Span(0, |entries|), k, 1);
    LeafSpansInside(|entries|, k, 1);
    PolicySelects();
    var m := BoundFold(entries, KdMin, ORIGIN, leaves);
    assert forall i, d :: 0 <= i < |entries| ==> Key(ORIGIN, d) <= Key(entries[i], d);
    FoldKeepsSeed(entries, KdMin, Key, ORIGIN, leaves);
    assert Key(m, 0) == 0.0 && Key(m, 1) == 0.0 && Key(m, 2) == 0.0;
  }
}
