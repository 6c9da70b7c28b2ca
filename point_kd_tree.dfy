/** `PointKdTree<T, _Dim>` of Acceleration/PointKdTree.hpp: the same construction as
    `KdTree`, for vector types that expose `T::DIM` and `operator[]`. Windows are `Range`s
    split at their center with `Split(0.5)`, so the children tile the parent with no gap;
    the leaf bound is the first entry of the leaf; and every `AppendNode` checks that the
    node store stays within the capacity reserved for it. */
module PointKdTree {
  import opened Types
  import opened Bound
  import opened StdAlgorithm
  import opened KdCommon
  import opened KdShape
  import opened LinearVector
  import KdTree

  /** What the tree needs of `T`: `T::DIM`, the coordinate `operator[]` reads on an axis,
      the free `min` and `max`, and the default-constructed `T{}`. */
  datatype PointTraits<!T> = PointTraits(DIM: Index, coord: (T, int) -> real, min: (T, T) -> T, max: (T, T) -> T, zero: T)

  /** `Vector2` of Linear/Vector.hpp. Axes outside `[0, DIM)` never reach the comparator
      (`SetDimension` rules them out); the coordinate is `0` there only to make it total. */
  function Vector2Traits(): (traits: PointTraits<Vector2>)
    ensures traits.DIM == Vector2.DIM && traits.zero == Vector2.Fill(0.0)
    ensures forall v: Vector2, d :: 0 <= d < Vector2.DIM ==> traits.coord(v, d) == v.At(d)
  {
    PointTraits(Vector2.DIM, (v: Vector2, d: int) => if 0 <= d < Vector2.DIM then v.At(d) else 0.0,
                Min2, Max2, Vector2.Fill(0.0))
  }

  /** `Vector3` of Linear/Vector.hpp, likewise. */
  function Vector3Traits(): (traits: PointTraits<Vector3>)
    ensures traits.DIM == Vector3.DIM && traits.zero == Vector3.Fill(0.0)
    ensures forall v: Vector3, d :: 0 <= d < Vector3.DIM ==> traits.coord(v, d) == v.At(d)
  {
    PointTraits(Vector3.DIM, (v: Vector3, d: int) => if 0 <= d < Vector3.DIM then v.At(d) else 0.0,
                Min3, Max3, Vector3.Fill(0.0))
  }

  /** The free `min` is a componentwise minimum on every axis. */
  ghost predicate MinLaw<T(!new)>(traits: PointTraits<T>)
  {
    Lowers(traits.min, traits.coord)
  }

  /** The free `max` is a componentwise maximum on every axis. */
  ghost predicate MaxLaw<T(!new)>(traits: PointTraits<T>)
  {
    Lowers(traits.max, Negated(traits.coord))
  }

  /** `min` and `max` on `Vector2` and `Vector3` are componentwise bounds, so the tree's
      bound lemmas apply to both. */
  lemma VectorTraitsLaws()
    ensures MinLaw(Vector2Traits()) && MaxLaw(Vector2Traits())
    ensures MinLaw(Vector3Traits()) && MaxLaw(Vector3Traits())
  {
    var t2, t3 := Vector2Traits(), Vector3Traits();
    forall a, b, d
      ensures t2.coord(t2.min(a, b), d) <= t2.coord(a, d) && t2.coord(t2.min(a, b), d) <= t2.coord(b, d)
      ensures Negated(t2.coord)(t2.max(a, b), d) <= Negated(t2.coord)(a, d)
      ensures Negated(t2.coord)(t2.max(a, b), d) <= Negated(t2.coord)(b, d)
    {
    }
    forall a, b, d
      ensures t3.coord(t3.min(a, b), d) <= t3.coord(a, d) && t3.coord(t3.min(a, b), d) <= t3.coord(b, d)
      ensures Negated(t3.coord)(t3.max(a, b), d) <= Negated(t3.coord)(a, d)
      ensures Negated(t3.coord)(t3.max(a, b), d) <= Negated(t3.coord)(b, d)
    {
    }
  }

  /** `IndexedPointKdComparator<T>`: orders entry indices by their coordinate on the current
      dimension, which starts at `Index{}` and is changed with `SetDimension`. */
  class IndexedPointKdComparator<T>
  {
    const entries: seq<T>
    const traits: PointTraits<T>
    var dimension: Index

    constructor(entries: seq<T>, traits: PointTraits<T>)
      ensures this.entries == entries && this.traits == traits && dimension == 0
    {
      this.entries, this.traits := entries, traits;
      dimension := 0;
    }

    /** `SetDimension(d)`, whose assertion demands `d < T::DIM`. */
    method SetDimension(d: Index)
      requires d < traits.DIM
      modifies this
      ensures dimension == d
    {
      dimension := d;
    }

    /** `operator()(l, r)`, whose assertions demand both indices inside the entries: the
        order `std::nth_element` sees is the order of the keys of the current dimension. */
    predicate Less(l: Index, r: Index)
      reads this
      requires 0 <= l < |entries| && 0 <= r < |entries|
      ensures Less(l, r) <==> KeysOf(entries, traits.coord, dimension)[l] < KeysOf(entries, traits.coord, dimension)[r]
    {
      traits.coord(entries[l], dimension) < traits.coord(entries[r], dimension)
    }
  }

  /** The comparator is a strict order: irreflexive and transitive. */
  lemma ComparatorIsStrict<T>(cmp: IndexedPointKdComparator<T>, i: Index, j: Index, l: Index)
    requires 0 <= i < |cmp.entries| && 0 <= j < |cmp.entries| && 0 <= l < |cmp.entries|
    ensures !cmp.Less(i, i)
    ensures cmp.Less(i, j) && cmp.Less(j, l) ==> cmp.Less(i, l)
  {
  }

  /** `PointKdNode`: a range, the entry index it was split at (`-1` until set) and the
      positions of its children in the node store (null until set). */
  datatype PointKdNode = PointKdNode(range: Range, split: Index, lower: Option<nat>, upper: Option<nat>)
  {
    /** `PointKdNode(range)`: no split, no children. */
    static function Of(range: Range): (node: PointKdNode)
      ensures node.range == range && node.split == INDEX_INVALID
      ensures node.lower.None? && node.upper.None?
    {
      PointKdNode(range, -1, None, None)
    }

    /** `IsLeaf` answers `false` for every node, leaves included. */
    function IsLeaf(): (leaf: bool)
      ensures !leaf
    {
      false
    }

    /** The node as the construction invariant sees it. */
    function View(): Shape { Shape(Span(range.Min(), range.Max()), split, lower, upper) }
  }

  ghost function ShapesOf(nodes: seq<PointKdNode>): seq<Shape>
  {
    seq(|nodes|, i requires 0 <= i < |nodes| => nodes[i].View())
  }

  /** `Split(0.5)` of a well-formed range gives exactly the windows the construction
      invariant calls the lower child without a gap and the upper child. */
  lemma HalvesAreChildren(range: Range)
    requires 0 <= range.Size() <= FLOAT_EXACT
    ensures var sp := Span(range.Min(), range.Max());
            && range.Center() == sp.Mid()
            && Span(range.Split(0.5).0.Min(), range.Split(0.5).0.Max()) == sp.Lower(0)
            && Span(range.Split(0.5).1.Min(), range.Split(0.5).1.Max()) == sp.Upper()
  {
    HalfSplitAtCenter(range);
    CenterIsMiddle(range);
  }

  /** What `ComputeBound` returns for a window: `T{}` when it is empty, otherwise the
      window's first entry, because the loop `i < range.Min()` never runs. */
  function FirstBound<T>(entries: seq<T>, sp: Span, zero: T): T
    requires sp.Size() < 1 || 0 <= sp.lo < |entries|
  {
    if sp.Size() < 1 then zero else entries[sp.lo]
  }

  /** `ComputeBound(entries, range, func)`: `func` is never applied. */
  method ComputeBound<T>(entries: seq<T>, range: Range, func: (T, T) -> T, zero: T) returns (bound: T)
    requires range.Size() < 1 || (0 <= range.Min() && range.Max() <= |entries|)
    ensures bound == FirstBound(entries, Span(range.Min(), range.Max()), zero)
  {
    var numEntries := range.Size();
    if numEntries < 1 {
      return zero;
    }
    bound := FoldEntries(entries, func, entries[range.Min()], range.Min() + 1, range.Min());
  }

  /** `min_` (with `min`) or `max_` (with `max`) after folding the bounds of the leaves in
      `leaves`, in order, into `T{}`. */
  function FirstFold<T>(entries: seq<T>, func: (T, T) -> T, zero: T, leaves: seq<Span>): T
    requires LeavesWithin(leaves, |entries|)
    decreases |leaves|
  {
    if |leaves| == 0 then zero
    else
      assert leaves[|leaves| - 1].Within(|entries|);
      func(FirstFold(entries, func, zero, leaves[..|leaves| - 1]), FirstBound(entries, leaves[|leaves| - 1], zero))
  }

  lemma FirstFoldSnoc<T>(entries: seq<T>, func: (T, T) -> T, zero: T, leaves: seq<Span>, leaf: Span)
    requires LeavesWithin(leaves, |entries|) && leaf.Within(|entries|)
    ensures LeavesWithin(leaves + [leaf], |entries|)
    ensures FirstFold(entries, func, zero, leaves + [leaf]) == func(FirstFold(entries, func, zero, leaves), FirstBound(entries, leaf, zero))
  {
    assert (leaves + [leaf])[..|leaves|] == leaves;
  }

  /** On every axis, `m` is on or below `zero` and the first entry of every non-empty leaf. */
  ghost predicate BelowFirsts<T>(key: (T, int) -> real, m: T, zero: T, entries: seq<T>, leaves: seq<Span>)
  {
    && (forall d :: key(m, d) <= key(zero, d))
    && (forall j, d :: 0 <= j < |leaves| && leaves[j].Size() >= 1 && 0 <= leaves[j].lo < |entries| ==>
          key(m, d) <= key(entries[leaves[j].lo], d))
  }

  /** On every axis, `m` is on or above `zero` and the first entry of every non-empty leaf. */
  ghost predicate AboveFirsts<T>(key: (T, int) -> real, m: T, zero: T, entries: seq<T>, leaves: seq<Span>)
  {
    && (forall d :: key(m, d) >= key(zero, d))
    && (forall j, d :: 0 <= j < |leaves| && leaves[j].Size() >= 1 && 0 <= leaves[j].lo < |entries| ==>
          key(m, d) >= key(entries[leaves[j].lo], d))
  }

  /** Folding the leaf bounds with a minimum-like `func` stays below `T{}` and below the
      first entry of every non-empty leaf. */
  lemma {:induction false} FirstFoldBelow<T(!new)>(entries: seq<T>, func: (T, T) -> T, key: (T, int) -> real,
                                                  zero: T, leaves: seq<Span>)
    requires Lowers(func, key)
    requires LeavesWithin(leaves, |entries|)
    ensures BelowFirsts(key, FirstFold(entries, func, zero, leaves), zero, entries, leaves)
    decreases |leaves|
  {
    if |leaves| > 0 {
      var m := |leaves| - 1;
      var prefix := leaves[..m];
      assert forall j :: 0 <= j < m ==> prefix[j] == leaves[j];
      FirstFoldBelow(entries, func, key, zero, prefix);
      var result := FirstFold(entries, func, zero, leaves);
      assert result == func(FirstFold(entries, func, zero, prefix), FirstBound(entries, leaves[m], zero));
    }
  }

  /** The same with a maximum-like `func`, read through the negated key. */
  lemma FirstFoldAbove<T(!new)>(entries: seq<T>, func: (T, T) -> T, key: (T, int) -> real,
                               zero: T, leaves: seq<Span>)
    requires Lowers(func, Negated(key))
    requires LeavesWithin(leaves, |entries|)
    ensures AboveFirsts(key, FirstFold(entries, func, zero, leaves), zero, entries, leaves)
  {
    var neg := Negated(key);
    FirstFoldBelow(entries, func, neg, zero, leaves);
    var m := FirstFold(entries, func, zero, leaves);
    forall d
      ensures key(m, d) >= key(zero, d)
    {
      assert neg(m, d) <= neg(zero, d);
    }
    forall j, d | 0 <= j < |leaves| && leaves[j].Size() >= 1 && 0 <= leaves[j].lo < |entries|
      ensures key(m, d) >= key(entries[leaves[j].lo], d)
    {
      assert neg(m, d) <= neg(entries[leaves[j].lo], d);
    }
  }

  /** Two vectors in one leaf: `ComputeBound` never looks past the first, so `max_` is the
      seed joined with (3, 3) and misses the larger (5, 5). */
  lemma MaxSeesOnlyFirstEntry(entries: seq<Vector2>)
    requires entries == [Vector2(3.0, 3.0), Vector2(5.0, 5.0)]
    ensures LeafSpans(Span(0, |entries|), 2, 0) == [Span(0, 2)]
    ensures FirstFold(entries, Max2, Vector2.Fill(0.0), LeafSpans(Span(0, |entries|), 2, 0)) == Vector2(3.0, 3.0)
  {
    var leaves := LeafSpans(Span(0, |entries|), 2, 0);
    assert leaves == [Span(0, 2)];
    assert leaves[..0] == [];
    assert FirstBound(entries, Span(0, 2), Vector2.Fill(0.0)) == Vector2(3.0, 3.0);
  }

  /** `ComputeBound` as evidently intended: the loop runs to `range.Max()`, so the bound
      folds every entry of the window into the first, as `KdTree`'s does. With a
      minimum-like `func` it is then on or below every entry of the window, and with one
      that selects an argument it equals one of them on axis `d`. */
  method IntendedComputeBound<T(!new)>(entries: seq<T>, range: Range, func: (T, T) -> T, zero: T,
                                       ghost key: (T, int) -> real, ghost d: int) returns (bound: T)
    requires range.Size() < 1 || (0 <= range.Min() && range.Max() <= |entries|)
    ensures bound == KdTree.LeafBound(entries, Span(range.Min(), range.Max()), func, zero)
    ensures range.Size() >= 1 && Lowers(func, key) ==>
              forall i :: range.Min() <= i < range.Max() ==> key(bound, d) <= key(entries[i], d)
    ensures range.Size() >= 1 && Selects(func, key) ==>
              exists i :: range.Min() <= i < range.Max() && key(bound, d) == key(entries[i], d)
  {
    var numEntries := range.Size();
    if numEntries < 1 {
      return zero;
    }
    var lo := range.Min();
    bound := FoldEntries(entries, func, entries[lo], lo + 1, range.Max());
    ghost var rest := if lo + 1 < range.Max() then entries[lo + 1..range.Max()] else [];
    assert rest == entries[lo + 1..range.Max()];
    if Lowers(func, key) {
      FoldLeftLowers(func, key, entries[lo], rest);
      forall i | lo < i < range.Max()
        ensures key(bound, d) <= key(entries[i], d)
      {
        assert entries[i] == rest[i - lo - 1];
      }
    }
    if Selects(func, key) {
      FoldLeftSelects(func, key, entries[lo], rest, d);
    }
  }

  /** `AppendNode(range)`, whose assertion demands a free slot in the reserved capacity:
      the new node goes at the end of the store. */
  method AppendNode(nodes: seq<PointKdNode>, capacity: SizeT, range: Range) returns (nodes': seq<PointKdNode>, node: nat)
    requires |nodes| < capacity
    ensures nodes' == nodes + [PointKdNode.Of(range)] && node == |nodes|
    ensures |nodes'| <= capacity
  {
    nodes' := nodes + [PointKdNode.Of(range)];
    node := |nodes|;
  }

  /** The node store after `SetSplit`, the two `AppendNode` calls and `SetChildren` on node
      `t`, seen as shapes. */
  lemma SplitViews(nodes0: seq<PointKdNode>, nodes: seq<PointKdNode>, t: nat, split: Index)
    requires t < |nodes0| && 0 <= nodes0[t].range.Size() <= FLOAT_EXACT
    requires var halves := nodes0[t].range.Split(0.5);
             var withSplit := nodes0[t := nodes0[t].(split := split)];
             var appended := withSplit + [PointKdNode.Of(halves.0)] + [PointKdNode.Of(halves.1)];
             nodes == appended[t := appended[t].(lower := Some(|nodes0|), upper := Some(|nodes0| + 1))]
    ensures ShapesOf(nodes) == SplitShapes(ShapesOf(nodes0), t, Span(nodes0[t].range.Min(), nodes0[t].range.Max()), split, 0)
  {
    HalvesAreChildren(nodes0[t].range);
    var a, b := ShapesOf(nodes), SplitShapes(ShapesOf(nodes0), t, Span(nodes0[t].range.Min(), nodes0[t].range.Max()), split, 0);
    forall i | 0 <= i < |a|
      ensures a[i] == b[i]
    {
    }
  }

  /** The split step on the node store itself: after `SetSplit`, the two `AppendNode` calls,
      `SetChildren` and the two pushes, the construction invariant holds again. The step's
      precondition arrives as the flag `ready`, so that callers establish it as one fact. */
  lemma SplitLinks<T>(nodes: seq<PointKdNode>, nodes': seq<PointKdNode>, t: nat, split: Index, next: int,
                      stack0: seq<StackEntry>, stack': seq<StackEntry>, axes: seq<int>, axes': seq<int>,
                      pending: seq<Span>, done: seq<Span>, lookup: seq<int>, lookup': seq<int>,
                      entries: seq<T>, key: (T, int) -> real, k: nat, dim: int, ready: bool)
    requires k >= 2 && dim != 0
    requires ready == SplitStepOk(ShapesOf(nodes), axes, stack0, pending, done, lookup, lookup', entries, key, k, 0, dim)
    requires ready
    requires t == stack0[|stack0| - 1].node && t < |nodes|
    requires Span(nodes[t].range.Min(), nodes[t].range.Max()) == pending[|stack0| - 1]
    requires split == lookup'[pending[|stack0| - 1].Mid()] && next == (stack0[|stack0| - 1].dimension + 1) % dim
    requires ShapesOf(nodes') == SplitShapes(ShapesOf(nodes), t, pending[|stack0| - 1], split, 0)
    requires stack' == stack0[..|stack0| - 1] + [StackEntry(|nodes|, next), StackEntry(|nodes| + 1, next)]
    requires axes' == axes + [next, next]
    ensures BuildInv(ShapesOf(nodes'), axes', stack', SplitPending(pending, 0), done, lookup', entries, key, k, 0, dim)
  {
    var shapes := ShapesOf(nodes);
    var sp := pending[|stack0| - 1];
    BuildSplit(shapes, axes, stack0, pending, done, lookup, lookup', entries, key, k, 0, dim);
    InvRewrite(SplitShapes(shapes, t, sp, split, 0), ShapesOf(nodes'), axes + [next, next], axes',
               SplitStack(stack0, |shapes|, next), stack', SplitPending(pending, 0), SplitPending(pending, 0),
               done, lookup', lookup', entries, key, k, 0, dim);
  }

  /** The loop body once the popped node holds at most `k` entries: compute the leaf's
      bounds with `min` and `max` and fold them into `min_` and `max_`. */
  method LeafNode<T>(nodes: seq<PointKdNode>, stack: seq<StackEntry>, entry: StackEntry, entries: seq<T>,
                     traits: PointTraits<T>, k: SizeT, dim: int, mn: T, mx: T, ghost lookup: seq<int>,
                     ghost axes: seq<int>, ghost stack0: seq<StackEntry>, ghost pending: seq<Span>, ghost done: seq<Span>)
    returns (mn': T, mx': T, ghost pending': seq<Span>, ghost done': seq<Span>)
    requires k >= 2 && dim != 0
    requires |stack0| >= 1 && stack == stack0[..|stack0| - 1] && entry == stack0[|stack0| - 1]
    requires BuildInv(ShapesOf(nodes), axes, stack0, pending, done, lookup, entries, traits.coord, k, 0, dim)
    requires entry.node < |nodes| && nodes[entry.node].range.Size() <= k
    requires LeavesWithin(done, |entries|)
    requires mn == FirstFold(entries, traits.min, traits.zero, done)
    requires mx == FirstFold(entries, traits.max, traits.zero, done)
    ensures BuildInv(ShapesOf(nodes), axes, stack, pending', done', lookup, entries, traits.coord, k, 0, dim)
    ensures LeavesWithin(done', |entries|)
    ensures mn' == FirstFold(entries, traits.min, traits.zero, done')
    ensures mx' == FirstFold(entries, traits.max, traits.zero, done')
    ensures done' == done + [pending[|stack0| - 1]] && pending' == pending[..|stack0| - 1]
  {
    ghost var shapes, m := ShapesOf(nodes), |stack0| - 1;
    assert OnStack(shapes, axes, stack0[m], pending[m]);
    assert NodeOk(shapes, axes, entry.node, |entries|, k, 0, dim);
    var range := nodes[entry.node].range;
    assert Span(range.Min(), range.Max()) == pending[m];
    var rangeMin := ComputeBound(entries, range, traits.min, traits.zero);
    mn' := traits.min(mn, rangeMin);
    var rangeMax := ComputeBound(entries, range, traits.max, traits.zero);
    mx' := traits.max(mx, rangeMax);
    BuildLeaf(shapes, axes, stack0, pending, done, lookup, entries, traits.coord, k, 0, dim);
    FirstFoldSnoc(entries, traits.min, traits.zero, done, pending[m]);
    FirstFoldSnoc(entries, traits.max, traits.zero, done, pending[m]);
    done' := done + [pending[m]];
    pending' := pending[..m];
  }

  /** The rest of the loop body once the popped node is larger than the leaf threshold:
      set the comparator's dimension, partially sort the node's window of the lookup array,
      make the entry at the center the node's split, append the two halves of
      `Split(0.5)`, link them and push them on the next axis. */
  method SplitNode<T>(a: array<Index>, cmp: IndexedPointKdComparator<T>, nodes: seq<PointKdNode>, capacity: SizeT,
                      stack: seq<StackEntry>, entry: StackEntry, entries: seq<T>, traits: PointTraits<T>, k: SizeT, dim: int,
                      ghost axes: seq<int>, ghost stack0: seq<StackEntry>, ghost pending: seq<Span>, ghost done: seq<Span>)
    returns (nodes': seq<PointKdNode>, stack': seq<StackEntry>, ghost axes': seq<int>, ghost pending': seq<Span>)
    requires k >= 2 && dim != 0 && (if dim > 0 then dim else -dim) <= traits.DIM
    requires cmp.entries == entries && cmp.traits == traits
    requires |stack0| >= 1 && stack == stack0[..|stack0| - 1] && entry == stack0[|stack0| - 1]
    requires BuildInv(ShapesOf(nodes), axes, stack0, pending, done, a[..], entries, traits.coord, k, 0, dim)
    requires NodeCount(|entries|, k, 0) <= capacity && |entries| <= FLOAT_EXACT
    requires entry.node < |nodes| && nodes[entry.node].range.Size() > k
    modifies a, cmp
    ensures |nodes'| == |nodes| + 2
    ensures BuildInv(ShapesOf(nodes'), axes', stack', pending', done, a[..], entries, traits.coord, k, 0, dim)
  {
    ghost var shapes0, lookup0 := ShapesOf(nodes), a[..];
    ghost var m := |stack0| - 1;
    ghost var sp := pending[m];
    TopEntry(shapes0, axes, stack0, pending, done, lookup0, entries, traits.coord, k, 0, dim);
    var node := nodes[entry.node];
    var range := node.range;
    assert shapes0[entry.node] == node.View();
    CenterIsMiddle(range);

    // partial sort on the node's axis around the center
    cmp.SetDimension(entry.dimension);
    var rangeMiddle := range.Center();
    assert sp == Span(range.Min(), range.Max()) && rangeMiddle == sp.Mid();
    var keys := KeysOf(cmp.entries, cmp.traits.coord, cmp.dimension);
    NthElement(a, range.Min(), rangeMiddle, range.Max(), keys);
    ghost var lookup' := a[..];
    NthPartitions(lookup', range.Min(), rangeMiddle, range.Max(), entries, traits.coord, entry.dimension, keys);
    var split := a[rangeMiddle];
    ghost var ready := SplitStepOk(shapes0, axes, stack0, pending, done, lookup0, lookup', entries, traits.coord, k, 0, dim);
    assert ready;

    nodes', stack', axes', pending' := LinkHalves(nodes, capacity, stack, entry, split, entries, traits.coord, k, dim,
                                                  axes, stack0, pending, done, lookup0, lookup', ready);
  }

  /** `SetSplit` on node `t`, `AppendNode` for the two halves of `Split(0.5)` and
      `SetChildren` linking them to `t`: as shapes, exactly the split the construction
      invariant expects. */
  method StoreHalves(nodes: seq<PointKdNode>, capacity: SizeT, t: nat, split: Index)
    returns (nodes': seq<PointKdNode>, lowerNode: nat, upperNode: nat)
    requires t < |nodes| && |nodes| + 2 <= capacity && 0 <= nodes[t].range.Size() <= FLOAT_EXACT
    ensures ShapesOf(nodes') == SplitShapes(ShapesOf(nodes), t, Span(nodes[t].range.Min(), nodes[t].range.Max()), split, 0)
    ensures |nodes'| == |nodes| + 2 && lowerNode == |nodes| && upperNode == |nodes| + 1
  {
    var node := nodes[t];
    nodes' := nodes[t := node.(split := split)];
    var splitRange := node.range.Split(0.5);
    nodes', lowerNode := AppendNode(nodes', capacity, splitRange.0);
    nodes', upperNode := AppendNode(nodes', capacity, splitRange.1);
    nodes' := nodes'[t := nodes'[t].(lower := Some(lowerNode), upper := Some(upperNode))];
    SplitViews(nodes, nodes', t, split);
  }

  /** The end of the split step: `SetSplit` on the popped node, `AppendNode` for the two
      halves of `Split(0.5)`, `SetChildren`, and the halves pushed on the next axis. The
      step's precondition arrives as the flag `ready`. */
  method LinkHalves<T>(nodes: seq<PointKdNode>, capacity: SizeT, stack: seq<StackEntry>, entry: StackEntry, split: Index,
                       entries: seq<T>, key: (T, int) -> real, k: SizeT, dim: int,
                       ghost axes: seq<int>, ghost stack0: seq<StackEntry>, ghost pending: seq<Span>, ghost done: seq<Span>,
                       ghost lookup: seq<int>, ghost lookup': seq<int>, ghost ready: bool)
    returns (nodes': seq<PointKdNode>, stack': seq<StackEntry>, ghost axes': seq<int>, ghost pending': seq<Span>)
    requires k >= 2 && dim != 0
    requires ready == SplitStepOk(ShapesOf(nodes), axes, stack0, pending, done, lookup, lookup', entries, key, k, 0, dim)
    requires ready
    requires |stack0| >= 1 && stack == stack0[..|stack0| - 1] && entry == stack0[|stack0| - 1] && entry.dimension >= 0
    requires entry.node < |nodes| && Span(nodes[entry.node].range.Min(), nodes[entry.node].range.Max()) == pending[|stack0| - 1]
    requires 0 <= nodes[entry.node].range.Size() <= FLOAT_EXACT
    requires split == lookup'[pending[|stack0| - 1].Mid()]
    requires |nodes| + 2 <= capacity
    ensures |nodes'| == |nodes| + 2
    ensures BuildInv(ShapesOf(nodes'), axes', stack', pending', done, lookup', entries, key, k, 0, dim)
  {
    var lowerNode, upperNode;
    nodes', lowerNode, upperNode := StoreHalves(nodes, capacity, entry.node, split);
    var nextDimension := entry.NextDimension(dim);
    stack' := stack + [StackEntry(lowerNode, nextDimension), StackEntry(upperNode, nextDimension)];
    axes' := axes + [nextDimension, nextDimension];
    pending' := SplitPending(pending, 0);
    SplitLinks(nodes, nodes', entry.node, split, nextDimension, stack0, stack', axes, axes', pending, done,
               lookup, lookup', entries, key, k, dim, ready);
  }

  /** The constructor's work: clamp the leaf threshold, give up below it, otherwise reserve
      `MaxNumNodes` nodes, create the root, fill the lookup array with `0..n-1` and run the
      stack loop. The results are the node store, the lookup array, `min_`, `max_` and the
      reserved capacity; `axes` is the axis each node was (or would have been) split on. */
  method Build<T>(entries: seq<T>, maxNodeEntries: SizeT, dim: int, traits: PointTraits<T>)
    returns (nodes: seq<PointKdNode>, lookup: seq<Index>, mn: T, mx: T, capacity: SizeT, ghost axes: seq<int>)
    requires dim != 0 && (if dim > 0 then dim else -dim) <= traits.DIM
    requires |entries| <= FLOAT_EXACT
    ensures var k := LeafThreshold(maxNodeEntries);
            |entries| < k ==> nodes == [] && lookup == [] && mn == traits.zero && mx == traits.zero && capacity == 0
    ensures var k := LeafThreshold(maxNodeEntries);
            k <= |entries| ==>
              && Built(ShapesOf(nodes), axes, lookup, entries, traits.coord, k, 0, dim)
              && |nodes| <= capacity
              && LeavesWithin(LeafSpans(Span(0, |entries|), k, 0), |entries|)
              && mn == FirstFold(entries, traits.min, traits.zero, LeafSpans(Span(0, |entries|), k, 0))
              && mx == FirstFold(entries, traits.max, traits.zero, LeafSpans(Span(0, |entries|), k, 0))
  {
    var k := LeafThreshold(maxNodeEntries);
    var numEntries := |entries|;
    nodes, lookup, mn, mx, capacity, axes := [], [], traits.zero, traits.zero, 0, [];
    if numEntries < k {
      return;
    }
    var roundPower := RoundToPower2(numEntries);
    capacity := MaxNumNodes(numEntries, roundPower);
    NodeCountBelowHalves(numEntries, k, 0);
    NodeCountWithinCapacity(numEntries, k, roundPower);
    var root;
    nodes, root := AppendNode(nodes, capacity, BoundT(0, numEntries));
    var stack := [StackEntry(root, 0)];
    var a := new Index[numEntries];
    FillIota(a);
    var cmp := new IndexedPointKdComparator(entries, traits);
    axes := [0];
    ghost var pending := [Span(0, numEntries)];
    ghost var done: seq<Span> := [];
    BuildInit(entries, traits.coord, k, 0, dim);
    assert ShapesOf(nodes) == [Shape(Span(0, numEntries), -1, None, None)];
    InvRewrite([Shape(Span(0, numEntries), -1, None, None)], ShapesOf(nodes), [0], axes, [StackEntry(0, 0)], stack,
               [Span(0, numEntries)], pending, done, Iota(numEntries), a[..], entries, traits.coord, k, 0, dim);
    while |stack| > 0
      invariant a.Length == numEntries && fresh(cmp)
      invariant cmp.entries == entries && cmp.traits == traits
      invariant NodeCount(numEntries, k, 0) <= capacity
      invariant BuildInv(ShapesOf(nodes), axes, stack, pending, done, a[..], entries, traits.coord, k, 0, dim)
      invariant LeavesWithin(done, |entries|)
      invariant mn == FirstFold(entries, traits.min, traits.zero, done)
      invariant mx == FirstFold(entries, traits.max, traits.zero, done)
      decreases NodeCount(numEntries, k, 0) - |nodes|, |stack|
    {
      ghost var stack0 := stack;
      var entry := stack[|stack| - 1];
      stack := stack[..|stack| - 1];
      assert OnStack(ShapesOf(nodes), axes, stack0[|stack0| - 1], pending[|stack0| - 1]);
      var node := nodes[entry.node];
      var range := node.range;
      if range.Size() <= k {
        mn, mx, pending, done := LeafNode(nodes, stack, entry, entries, traits, k, dim, mn, mx, a[..], axes, stack0, pending, done);
        continue;
      }
      nodes, stack, axes, pending := SplitNode(a, cmp, nodes, capacity, stack, entry, entries, traits, k, dim, axes, stack0, pending, done);
    }
    lookup := a[..];
    BuildDone(ShapesOf(nodes), axes, stack, pending, done, lookup, entries, traits.coord, k, 0, dim);
    LeafSpansInside(numEntries, k, 0);
  }

  /** A constructed `PointKdTree<T, _Dim>`: the node store `nodes_`, the lookup array
      `index_lookup_`, `min_`, `max_` and the capacity reserved for the nodes. The entries,
      the traits, the clamped leaf threshold, `_Dim` and the axis of every node are ghost. */
  class PointKdTree<T(!new)>
  {
    var nodes: seq<PointKdNode>
    var indexLookup: seq<Index>
    var min: T
    var max: T
    var capacity: SizeT
    ghost const entries: seq<T>
    ghost const traits: PointTraits<T>
    ghost const leafSize: nat
    ghost const dim: int
    ghost var axes: seq<int>

    /** The leaf windows, from the last pushed leaf to the first; they tile `[0, n)`. */
    ghost function Leaves(): seq<Span>
      reads this
      requires leafSize >= 2
    {
      LeafSpans(Span(0, |entries|), leafSize, 0)
    }

    /** Below the leaf threshold nothing was built; otherwise the node store is the finished
        tree over `index_lookup_`, within the reserved capacity, and `min_` and `max_` fold the
        first entries of the leaves in the order the leaves were popped. */
    ghost predicate Valid()
      reads this
    {
      && leafSize >= 2 && dim != 0
      && (|entries| < leafSize ==>
            nodes == [] && indexLookup == [] && min == traits.zero && max == traits.zero && capacity == 0)
      && (leafSize <= |entries| ==>
            && Built(ShapesOf(nodes), axes, indexLookup, entries, traits.coord, leafSize, 0, dim)
            && |nodes| <= capacity
            && LeavesWithin(Leaves(), |entries|)
            && min == FirstFold(entries, traits.min, traits.zero, Leaves())
            && max == FirstFold(entries, traits.max, traits.zero, Leaves()))
    }

    /** `PointKdTree(entries, max_node_entries)` with `_Dim == dim`. */
    constructor(entries: seq<T>, maxNodeEntries: SizeT, dim: int, traits: PointTraits<T>)
      requires dim != 0 && (if dim > 0 then dim else -dim) <= traits.DIM
      requires |entries| <= FLOAT_EXACT
      ensures this.entries == entries && this.traits == traits && this.dim == dim
      ensures leafSize == LeafThreshold(maxNodeEntries)
      ensures Valid()
    {
      var builtNodes, lookup, mn, mx, cap;
      ghost var builtAxes;
      builtNodes, lookup, mn, mx, cap, builtAxes := Build(entries, maxNodeEntries, dim, traits);
      this.entries, this.traits, this.dim := entries, traits, dim;
      leafSize := LeafThreshold(maxNodeEntries);
      nodes, indexLookup, min, max, capacity, axes := builtNodes, lookup, mn, mx, cap, builtAxes;
    }

    /** `Root()`: null when nothing was built, otherwise the first node, which covers every
        entry and is split exactly when there are more entries than the leaf threshold. */
    function Root(): (root: Option<PointKdNode>)
      reads this
      requires Valid()
      ensures root.None? <==> |entries| < leafSize
      ensures root.Some? ==> root.value.range == BoundT(0, |entries|)
      ensures root.Some? ==> (root.value.lower.Some? <==> |entries| > leafSize)
      ensures root.Some? ==> (root.value.split == INDEX_INVALID <==> |entries| <= leafSize)
    {
      if |nodes| == 0 then None
      else
        assert ShapesOf(nodes)[0] == nodes[0].View();
        assert NodeOk(ShapesOf(nodes), axes, 0, |entries|, leafSize, 0, dim);
        assert nodes[0].lower.Some? ==> MedianSplit(ShapesOf(nodes)[0], axes[0], indexLookup, entries, traits.coord);
        Some(nodes[0])
    }

    /** Every entry position lies in exactly one leaf. */
    lemma LeavesPartition(p: int)
      requires Valid() && leafSize <= |entries| && 0 <= p < |entries|
      ensures exists j :: 0 <= j < |Leaves()| && Leaves()[j].lo <= p < Leaves()[j].hi
      ensures forall j1, j2 ::
                (&& 0 <= j1 < |Leaves()| && 0 <= j2 < |Leaves()|
                 && Leaves()[j1].lo <= p < Leaves()[j1].hi && Leaves()[j2].lo <= p < Leaves()[j2].hi) ==> j1 == j2
    {
      LeafSpansPartition(Span(0, |entries|), leafSize, p);
    }

    /** `GetMin()`. With a componentwise `min` it lies on or below `T{}` and the first entry
        of every non-empty leaf; below the leaf threshold it is `T{}`. */
    function GetMin(): (m: T)
      reads this
      requires Valid()
      ensures |entries| < leafSize ==> m == traits.zero
      ensures leafSize <= |entries| && MinLaw(traits) ==> BelowFirsts(traits.coord, m, traits.zero, entries, Leaves())
    {
      assert leafSize <= |entries| && MinLaw(traits) ==> BelowFirsts(traits.coord, min, traits.zero, entries, Leaves()) by {
        if leafSize <= |entries| && MinLaw(traits) {
          FirstFoldBelow(entries, traits.min, traits.coord, traits.zero, Leaves());
        }
      }
      min
    }

    /** `GetMax()`. With a componentwise `max` it lies on or above `T{}` and the first entry
        of every non-empty leaf; below the leaf threshold it is `T{}`. */
    function GetMax(): (m: T)
      reads this
      requires Valid()
      ensures |entries| < leafSize ==> m == traits.zero
      ensures leafSize <= |entries| && MaxLaw(traits) ==> AboveFirsts(traits.coord, m, traits.zero, entries, Leaves())
    {
      assert leafSize <= |entries| && MaxLaw(traits) ==> AboveFirsts(traits.coord, max, traits.zero, entries, Leaves()) by {
        if leafSize <= |entries| && MaxLaw(traits) {
          FirstFoldAbove(entries, traits.max, traits.coord, traits.zero, Leaves());
        }
      }
      max
    }
  }
}
