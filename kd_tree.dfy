/** `KdTree<T, _Dim>` of Acceleration/KdTree.hpp: a kd-tree built over an index permutation
    of the entries, whose entry type is plugged in through a policy (`KdMin`, `KdMax`,
    `KdComparator`). Nodes live in one store and refer to their children by position; the
    construction loop is the one `KdShape` describes, with the lower child ending one
    position short of the middle. */
module KdTree {
  import opened Types
  import opened StdAlgorithm
  import opened KdCommon
  import opened KdShape

  /** `KdRange`: the half-open window `[beg, end)` of the lookup array. */
  datatype KdRange = KdRange(beg: Index, end: Index)
  {
    /** `KdRange(v)`: the whole of a vector. */
    static function Of<E>(v: seq<E>): (r: KdRange)
      ensures r.beg == 0 && r.Size() == |v|
    {
      KdRange(0, |v|)
    }

    function Size(): Index { end - beg }

    /** `beg + Size() / 2`, the division truncating toward zero. */
    function Middle(): Index { beg + TruncDiv(Size(), 2) }

    function GetLower(): KdRange { KdRange(beg, Middle() - 1) }

    function GetUpper(): KdRange { KdRange(Middle(), end) }

    /** The window as the construction invariant sees it. */
    function AsSpan(): Span { Span(beg, end) }

    /** Position `p` lies in the window. */
    predicate Contains(p: int) { beg <= p < end }
  }

  /** `Size` is the number of positions and, for a non-empty range, `Middle` lies inside it at
      `beg + Size() / 2`. */
  lemma MiddleInside(r: KdRange)
    ensures r.Size() == r.end - r.beg
    ensures r.Size() >= 0 ==> r.Middle() == r.beg + r.Size() / 2 && r.Middle() == r.AsSpan().Mid()
    ensures r.Size() > 0 ==> r.beg <= r.Middle() < r.end
  {
  }

  /** `GetUpper` is exactly `[Middle, end)`, while `GetLower` stops at `Middle - 1`: the position
      `Middle - 1` is in the range but in neither child, and a range of three entries gets an
      empty lower child. */
  lemma ChildrenLeaveGap(r: KdRange)
    requires r.Size() >= 2
    ensures r.GetUpper().AsSpan() == r.AsSpan().Upper() && r.GetLower().AsSpan() == r.AsSpan().Lower(1)
    ensures r.GetUpper().beg == r.Middle() && r.GetUpper().end == r.end
    ensures var g := r.Middle() - 1;
            && r.beg <= g < r.end
            && !(r.GetLower().beg <= g < r.GetLower().end)
            && !(r.GetUpper().beg <= g < r.GetUpper().end)
    ensures r.Size() == 3 ==> r.GetLower().Size() == 0
  {
    MiddleInside(r);
  }

  /** `KdNode`: a range, the entry index it was split at (`-1` until set) and the positions of
      its children in the node store (null until set). */
  datatype KdNode = KdNode(range: KdRange, split: Index, lower: Option<nat>, upper: Option<nat>)
  {
    /** `KdNode(range)`: no split, no children. */
    static function Of(range: KdRange): (node: KdNode)
      ensures node.range == range && node.split == INDEX_INVALID
      ensures node.lower.None? && node.upper.None?
    {
      KdNode(range, -1, None, None)
    }

    /** `IsLeaf` answers `false` for every node, leaves included. */
    function IsLeaf(): (leaf: bool)
      ensures !leaf
    {
      false
    }

    /** The node as the construction invariant sees it. */
    function View(): Shape { Shape(range.AsSpan(), split, lower, upper) }
  }

  ghost function ShapesOf(nodes: seq<KdNode>): (shapes: seq<Shape>)
  {
    seq(|nodes|, i requires 0 <= i < |nodes| => nodes[i].View())
  }

  /** The specialisations `KdMin<T>::value`, `KdMax<T>::value`, the key `KdComparator<T>`
      compares on each axis (`cmp(l, r)` is `key(entries[l], d) < key(entries[r], d)`), and the
      default-constructed `T{}`. */
  datatype KdPolicy<!T> = KdPolicy(kmin: (T, T) -> T, kmax: (T, T) -> T, key: (T, int) -> real, zero: T)

  /** `KdMin` never rises above either argument on any axis. */
  ghost predicate MinLaw<T(!new)>(policy: KdPolicy<T>)
  {
    Lowers(policy.kmin, policy.key)
  }

  /** `KdMax` never falls below either argument on any axis. */
  ghost predicate MaxLaw<T(!new)>(policy: KdPolicy<T>)
  {
    Lowers(policy.kmax, Negated(policy.key))
  }

  /** What `ComputeBound` returns for a window: `T{}` when it is empty, otherwise `func`
      folded over `entries[lo..hi)` by position, starting from `entries[lo]`. */
  function LeafBound<T>(entries: seq<T>, sp: Span, func: (T, T) -> T, zero: T): T
    requires sp.Size() < 1 || (0 <= sp.lo && sp.hi <= |entries|)
  {
    if sp.Size() < 1 then zero else FoldLeft(func, entries[sp.lo], entries[sp.lo + 1..sp.hi])
  }

  /** `ComputeBound(entries, range, func)`. */
  method ComputeBound<T>(entries: seq<T>, range: KdRange, func: (T, T) -> T, zero: T) returns (bound: T)
    requires range.Size() < 1 || (0 <= range.beg && range.end <= |entries|)
    ensures bound == LeafBound(entries, range.AsSpan(), func, zero)
  {
    var numEntries := range.Size();
    if numEntries < 1 {
      return zero;
    }
    bound := FoldEntries(entries, func, entries[range.beg], range.beg + 1, range.end);
  }

  /** `min_` (with `kmin`) or `max_` (with `kmax`) after folding the bounds of the leaves in
      `leaves`, in order, into `T{}`. */
  function BoundFold<T>(entries: seq<T>, func: (T, T) -> T, zero: T, leaves: seq<Span>): T
    requires forall j :: 0 <= j < |leaves| ==> leaves[j].Within(|entries|)
    decreases |leaves|
  {
    if |leaves| == 0 then zero
    else
      assert leaves[|leaves| - 1].Within(|entries|);
      func(BoundFold(entries, func, zero, leaves[..|leaves| - 1]), LeafBound(entries, leaves[|leaves| - 1], func, zero))
  }

  lemma BoundFoldSnoc<T>(entries: seq<T>, func: (T, T) -> T, zero: T, leaves: seq<Span>, leaf: Span)
    requires forall j :: 0 <= j < |leaves| ==> leaves[j].Within(|entries|)
    requires leaf.Within(|entries|)
    ensures BoundFold(entries, func, zero, leaves + [leaf]) == func(BoundFold(entries, func, zero, leaves), LeafBound(entries, leaf, func, zero))
  {
    assert (leaves + [leaf])[..|leaves|] == leaves;
  }

  /** The node store after `SetSplit`, the two `AppendNode` calls and `SetChildren` on node `t`,
      seen as shapes. */
  lemma SplitViews(nodes0: seq<KdNode>, nodes: seq<KdNode>, t: nat, split: Index)
    requires t < |nodes0| && nodes0[t].range.Size() >= 0
    requires var withSplit := nodes0[t := nodes0[t].(split := split)];
             var appended := withSplit + [KdNode.Of(nodes0[t].range.GetLower())] + [KdNode.Of(nodes0[t].range.GetUpper())];
             nodes == appended[t := appended[t].(lower := Some(|nodes0|), upper := Some(|nodes0| + 1))]
    ensures ShapesOf(nodes) == SplitShapes(ShapesOf(nodes0), t, nodes0[t].range.AsSpan(), split, 1)
  {
    MiddleInside(nodes0[t].range);
    var a, b := ShapesOf(nodes), SplitShapes(ShapesOf(nodes0), t, nodes0[t].range.AsSpan(), split, 1);
    forall i | 0 <= i < |a|
      ensures a[i] == b[i]
    {
    }
  }

  /** Folding the leaf bounds with a minimum-like `func` stays below the seed `T{}` and below
      every entry the leaves hold by position. */
  lemma {:induction false} BoundFoldBelow<T(!new)>(entries: seq<T>, func: (T, T) -> T, key: (T, int) -> real,
                                                  zero: T, leaves: seq<Span>)
    requires Lowers(func, key)
    requires LeavesWithin(leaves, |entries|)
    ensures BelowLeaves(key, BoundFold(entries, func, zero, leaves), zero, entries, leaves)
    decreases |leaves|
  {
    if |leaves| > 0 {
      var m := |leaves| - 1;
      var prefix, last := leaves[..m], leaves[m];
      assert forall j :: 0 <= j < m ==> prefix[j] == leaves[j];
      BoundFoldBelow(entries, func, key, zero, prefix);
      var before := BoundFold(entries, func, zero, prefix);
      var bound := LeafBound(entries, last, func, zero);
      var result := BoundFold(entries, func, zero, leaves);
      assert result == func(before, bound);
      if last.Size() >= 1 {
        var rest := entries[last.lo + 1..last.hi];
        FoldLeftLowers(func, key, entries[last.lo], rest);
        forall i, d | last.lo < i < last.hi
          ensures key(bound, d) <= key(entries[i], d)
        {
          assert entries[i] == rest[i - last.lo - 1];
        }
      }
      forall j, i, d | 0 <= j < |leaves| && leaves[j].lo <= i < leaves[j].hi && 0 <= i < |entries|
        ensures key(result, d) <= key(entries[i], d)
      {
        if j < m {
          assert leaves[j] == prefix[j];
        }
      }
    }
  }

  /** The same with a maximum-like `func`, read through the negated key. */
  lemma BoundFoldAbove<T(!new)>(entries: seq<T>, func: (T, T) -> T, key: (T, int) -> real,
                               zero: T, leaves: seq<Span>)
    requires Lowers(func, Negated(key))
    requires LeavesWithin(leaves, |entries|)
    ensures AboveLeaves(key, BoundFold(entries, func, zero, leaves), zero, entries, leaves)
  {
    var neg := Negated(key);
    BoundFoldBelow(entries, func, neg, zero, leaves);
    var m := BoundFold(entries, func, zero, leaves);
    forall d
      ensures key(m, d) >= key(zero, d)
    {
      assert neg(m, d) <= neg(zero, d);
    }
    forall j, i, d | 0 <= j < |leaves| && leaves[j].lo <= i < leaves[j].hi && 0 <= i < |entries|
      ensures key(m, d) >= key(entries[i], d)
    {
      assert neg(m, d) <= neg(entries[i], d);
    }
  }

  /** Folding the leaf bounds with a `func` that picks one of its arguments on every axis
      gives, on each axis, the seed or an entry the leaves hold: nothing outside the leaves
      reaches `min_` or `max_`. */
  lemma {:induction false} BoundFoldAttained<T(!new)>(entries: seq<T>, func: (T, T) -> T, key: (T, int) -> real,
                                                     zero: T, leaves: seq<Span>, d: int)
    requires Selects(func, key)
    requires LeavesWithin(leaves, |entries|)
    ensures AttainedIn(key, BoundFold(entries, func, zero, leaves), zero, entries, leaves, d)
    decreases |leaves|
  {
    if |leaves| > 0 {
      var m := |leaves| - 1;
      var prefix, last := leaves[..m], leaves[m];
      assert forall j :: 0 <= j < m ==> prefix[j] == leaves[j];
      BoundFoldAttained(entries, func, key, zero, prefix, d);
      var before := BoundFold(entries, func, zero, prefix);
      var bound := LeafBound(entries, last, func, zero);
      var result := BoundFold(entries, func, zero, leaves);
      assert result == func(before, bound);
      if key(result, d) == key(before, d) {
        if key(before, d) != key(zero, d) {
          var j, i :| 0 <= j < |prefix| && prefix[j].lo <= i < prefix[j].hi && 0 <= i < |entries| &&
                      key(before, d) == key(entries[i], d);
          assert leaves[j] == prefix[j];
        }
      } else if last.Size() >= 1 {
        var rest := entries[last.lo + 1..last.hi];
        FoldLeftSelects(func, key, entries[last.lo], rest, d);
        if key(bound, d) != key(entries[last.lo], d) {
          var i :| 0 <= i < |rest| && key(bound, d) == key(rest[i], d);
          assert rest[i] == entries[last.lo + 1 + i];
        }
      }
    }
  }

  /** When no entry lies below the seed `T{}` on any axis, a minimum-like fold ends at the
      seed's value on every axis. */
  lemma FoldKeepsSeed<T(!new)>(entries: seq<T>, func: (T, T) -> T, key: (T, int) -> real,
                               zero: T, leaves: seq<Span>)
    requires Lowers(func, key) && Selects(func, key)
    requires LeavesWithin(leaves, |entries|)
    requires forall i, d :: 0 <= i < |entries| ==> key(zero, d) <= key(entries[i], d)
    ensures forall d :: key(BoundFold(entries, func, zero, leaves), d) == key(zero, d)
  {
    BoundFoldBelow(entries, func, key, zero, leaves);
    forall d
      ensures key(BoundFold(entries, func, zero, leaves), d) == key(zero, d)
    {
      BoundFoldAttained(entries, func, key, zero, leaves, d);
    }
  }

  /** With a gap, the position just below the root's middle lies in no leaf, so neither
      `min_` nor `max_` sees the entry stored there. */
  lemma RootGapUncovered(n: nat, k: nat)
    requires k >= 2 && n > k
    ensures var g := Span(0, n).Mid() - 1;
            && 0 <= g < n
            && forall j :: 0 <= j < |LeafSpans(Span(0, n), k, 1)| ==>
                 !(LeafSpans(Span(0, n), k, 1)[j].lo <= g < LeafSpans(Span(0, n), k, 1)[j].hi)
  {
    var sp := Span(0, n);
    LeafSpansTile(sp.Upper(), k, 1);
    LeafSpansTile(sp.Lower(1), k, 1);
    var a, b := LeafSpans(sp.Upper(), k, 1), LeafSpans(sp.Lower(1), k, 1);
    var leaves := a + b;
    assert LeafSpans(sp, k, 1) == leaves;
    forall j | 0 <= j < |leaves|
      ensures !(leaves[j].lo <= sp.Mid() - 1 < leaves[j].hi)
    {
      if j < |a| {
        assert leaves[j] == a[j];
      } else {
        assert leaves[j] == b[j - |a|];
      }
    }
  }

  // ---------------------------------------------------------------------------------
  // The evident intent: children that tile their parent and bounds seeded from an entry

  /** The lower child `GetLower` evidently means, `[beg, Middle)`, ending where `GetUpper`
      starts. */
  function IntendedLower(r: KdRange): KdRange { KdRange(r.beg, r.Middle()) }

  /** With `IntendedLower`, the two children of a range of two or more positions tile it:
      they are the gap-free windows of the construction invariant, meet at `Middle`, every
      position of the range lies in exactly one of them, and both are strictly smaller. */
  lemma IntendedChildrenTile(r: KdRange)
    requires r.Size() >= 2
    ensures IntendedLower(r).AsSpan() == r.AsSpan().Lower(0) && r.GetUpper().AsSpan() == r.AsSpan().Upper()
    ensures IntendedLower(r).beg == r.beg && IntendedLower(r).end == r.GetUpper().beg && r.GetUpper().end == r.end
    ensures forall p :: r.Contains(p) ==> (IntendedLower(r).Contains(p) <==> !r.GetUpper().Contains(p))
    ensures 0 < IntendedLower(r).Size() < r.Size() && 0 < r.GetUpper().Size() < r.Size()
  {
    MiddleInside(r);
  }

  /** Seeded from the first entry instead of `T{}`, and over the gap-free leaves of
      `IntendedLower`, folding the leaf bounds with a minimum-like `func` gives on every
      axis exactly the smallest coordinate of all entries: on or below each entry, and
      equal to one of them. Read through `Negated(key)`, the same holds for a maximum. */
  lemma IntendedBoundExact<T(!new)>(entries: seq<T>, func: (T, T) -> T, key: (T, int) -> real, k: nat, d: int)
    requires k >= 2 && |entries| >= 1
    requires Lowers(func, key) && Selects(func, key)
    ensures LeavesWithin(LeafSpans(Span(0, |entries|), k, 0), |entries|)
    ensures var m := BoundFold(entries, func, entries[0], LeafSpans(Span(0, |entries|), k, 0));
            && (forall i :: 0 <= i < |entries| ==> key(m, d) <= key(entries[i], d))
            && (exists i :: 0 <= i < |entries| && key(m, d) == key(entries[i], d))
  {
    var n := |entries|;
    var leaves := LeafSpans(Span(0, n), k, 0);
    LeafSpansInside(n, k, 0);
    var m := BoundFold(entries, func, entries[0], leaves);
    BoundFoldBelow(entries, func, key, entries[0], leaves);
    forall i | 0 <= i < n
      ensures key(m, d) <= key(entries[i], d)
    {
      LeafSpansPartition(Span(0, n), k, i);
      var j :| 0 <= j < |leaves| && leaves[j].lo <= i < leaves[j].hi;
    }
    BoundFoldAttained(entries, func, key, entries[0], leaves, d);
  }

  /** Both corrections together give the bounds the tree promises: `min_` and `max_`, seeded
      from the first entry over the gap-free leaves, are on every axis the smallest and the
      largest coordinate of all entries. */
  lemma IntendedBoundsExact<T(!new)>(entries: seq<T>, kmin: (T, T) -> T, kmax: (T, T) -> T,
                                     key: (T, int) -> real, k: nat, d: int)
    requires k >= 2 && |entries| >= 1
    requires Lowers(kmin, key) && Selects(kmin, key)
    requires Lowers(kmax, Negated(key)) && Selects(kmax, key)
    ensures LeavesWithin(LeafSpans(Span(0, |entries|), k, 0), |entries|)
    ensures var mn := BoundFold(entries, kmin, entries[0], LeafSpans(Span(0, |entries|), k, 0));
            && (forall i :: 0 <= i < |entries| ==> key(mn, d) <= key(entries[i], d))
            && (exists i :: 0 <= i < |entries| && key(mn, d) == key(entries[i], d))
    ensures var mx := BoundFold(entries, kmax, entries[0], LeafSpans(Span(0, |entries|), k, 0));
            && (forall i :: 0 <= i < |entries| ==> key(mx, d) >= key(entries[i], d))
            && (exists i :: 0 <= i < |entries| && key(mx, d) == key(entries[i], d))
  {
    IntendedBoundExact(entries, kmin, key, k, d);
    var neg := Negated(key);
    assert Selects(kmax, neg) by {
      forall a, b, e
        ensures neg(kmax(a, b), e) == neg(a, e) || neg(kmax(a, b), e) == neg(b, e)
      {
        assert key(kmax(a, b), e) == key(a, e) || key(kmax(a, b), e) == key(b, e);
      }
    }
    IntendedBoundExact(entries, kmax, neg, k, d);
    var mx := BoundFold(entries, kmax, entries[0], LeafSpans(Span(0, |entries|), k, 0));
    forall i | 0 <= i < |entries|
      ensures key(mx, d) >= key(entries[i], d)
    {
      assert neg(mx, d) <= neg(entries[i], d);
    }
    var i :| 0 <= i < |entries| && neg(mx, d) == neg(entries[i], d);
    assert key(mx, d) == key(entries[i], d);
  }

  /** The split step on the node store itself: after `SetSplit`, the two `AppendNode` calls,
      `SetChildren` and the two pushes, the construction invariant holds again. The step's
      precondition arrives as the flag `ready`, so that callers establish it as one fact. */
  lemma SplitLinks<T>(nodes: seq<KdNode>, nodes': seq<KdNode>, t: nat, split: Index, next: int,
                      stack0: seq<StackEntry>, stack': seq<StackEntry>, axes: seq<int>, axes': seq<int>,
                      pending: seq<Span>, done: seq<Span>, lookup: seq<int>, lookup': seq<int>,
                      entries: seq<T>, key: (T, int) -> real, k: nat, dim: int, ready: bool)
    requires k >= 2 && dim != 0
    requires ready == SplitStepOk(ShapesOf(nodes), axes, stack0, pending, done, lookup, lookup', entries, key, k, 1, dim)
    requires ready
    requires t == stack0[|stack0| - 1].node && t < |nodes| && nodes[t].range.AsSpan() == pending[|stack0| - 1]
    requires split == lookup'[pending[|stack0| - 1].Mid()] && next == (stack0[|stack0| - 1].dimension + 1) % dim
    requires var withSplit := nodes[t := nodes[t].(split := split)];
             var appended := withSplit + [KdNode.Of(nodes[t].range.GetLower())] + [KdNode.Of(nodes[t].range.GetUpper())];
             nodes' == appended[t := appended[t].(lower := Some(|nodes|), upper := Some(|nodes| + 1))]
    requires stack' == stack0[..|stack0| - 1] + [StackEntry(|nodes|, next), StackEntry(|nodes| + 1, next)]
    requires axes' == axes + [next, next]
    ensures BuildInv(ShapesOf(nodes'), axes', stack', SplitPending(pending, 1), done, lookup', entries, key, k, 1, dim)
  {
    var shapes := ShapesOf(nodes);
    var sp := pending[|stack0| - 1];
    BuildSplit(shapes, axes, stack0, pending, done, lookup, lookup', entries, key, k, 1, dim);
    SplitViews(nodes, nodes', t, split);
    InvRewrite(SplitShapes(shapes, t, sp, split, 1), ShapesOf(nodes'), axes + [next, next], axes',
               SplitStack(stack0, |shapes|, next), stack', SplitPending(pending, 1), SplitPending(pending, 1),
               done, lookup', lookup', entries, key, k, 1, dim);
  }

  /** The loop body once the popped node holds at most `k` entries: compute the leaf's
      bounds with `KdMin` and `KdMax` and fold them into `min_` and `max_`. */
  method LeafNode<T>(nodes: seq<KdNode>, stack: seq<StackEntry>, entry: StackEntry, entries: seq<T>,
                     policy: KdPolicy<T>, k: SizeT, dim: int, mn: T, mx: T, ghost lookup: seq<int>,
                     ghost axes: seq<int>, ghost stack0: seq<StackEntry>, ghost pending: seq<Span>, ghost done: seq<Span>)
    returns (mn': T, mx': T, ghost pending': seq<Span>, ghost done': seq<Span>)
    requires k >= 2 && dim != 0
    requires |stack0| >= 1 && stack == stack0[..|stack0| - 1] && entry == stack0[|stack0| - 1]
    requires BuildInv(ShapesOf(nodes), axes, stack0, pending, done, lookup, entries, policy.key, k, 1, dim)
    requires entry.node < |nodes| && nodes[entry.node].range.Size() <= k
    requires mn == BoundFold(entries, policy.kmin, policy.zero, done)
    requires mx == BoundFold(entries, policy.kmax, policy.zero, done)
    ensures BuildInv(ShapesOf(nodes), axes, stack, pending', done', lookup, entries, policy.key, k, 1, dim)
    ensures LeavesWithin(done', |entries|)
    ensures mn' == BoundFold(entries, policy.kmin, policy.zero, done')
    ensures mx' == BoundFold(entries, policy.kmax, policy.zero, done')
    ensures done' == done + [pending[|stack0| - 1]] && pending' == pending[..|stack0| - 1]
  {
    ghost var shapes, m := ShapesOf(nodes), |stack0| - 1;
    assert OnStack(shapes, axes, stack0[m], pending[m]);
    assert NodeOk(shapes, axes, entry.node, |entries|, k, 1, dim);
    var range := nodes[entry.node].range;
    assert range.AsSpan() == pending[m];
    var rangeMin := ComputeBound(entries, range, policy.kmin, policy.zero);
    mn' := policy.kmin(mn, rangeMin);
    var rangeMax := ComputeBound(entries, range, policy.kmax, policy.zero);
    mx' := policy.kmax(mx, rangeMax);
    BuildLeaf(shapes, axes, stack0, pending, done, lookup, entries, policy.key, k, 1, dim);
    BoundFoldSnoc(entries, policy.kmin, policy.zero, done, pending[m]);
    BoundFoldSnoc(entries, policy.kmax, policy.zero, done, pending[m]);
    done' := done + [pending[m]];
    pending' := pending[..m];
  }

  /** The rest of the loop body once the popped node is larger than the leaf threshold:
      partially sort the node's window of the lookup array on the node's axis, make the entry
      at the middle the node's split, append the lower and upper children, link them and
      push them on the next axis. */
  method SplitNode<T>(a: array<Index>, nodes: seq<KdNode>, stack: seq<StackEntry>, entry: StackEntry,
                      entries: seq<T>, key: (T, int) -> real, k: SizeT, dim: int,
                      ghost axes: seq<int>, ghost stack0: seq<StackEntry>, ghost pending: seq<Span>, ghost done: seq<Span>)
    returns (nodes': seq<KdNode>, stack': seq<StackEntry>, ghost axes': seq<int>, ghost pending': seq<Span>)
    requires k >= 2 && dim != 0
    requires |stack0| >= 1 && stack == stack0[..|stack0| - 1] && entry == stack0[|stack0| - 1]
    requires BuildInv(ShapesOf(nodes), axes, stack0, pending, done, a[..], entries, key, k, 1, dim)
    requires entry.node < |nodes| && nodes[entry.node].range.Size() > k
    modifies a
    ensures |nodes'| == |nodes| + 2
    ensures BuildInv(ShapesOf(nodes'), axes', stack', pending', done, a[..], entries, key, k, 1, dim)
  {
    ghost var shapes0, lookup0 := ShapesOf(nodes), a[..];
    ghost var m := |stack0| - 1;
    ghost var sp := pending[m];
    TopEntry(shapes0, axes, stack0, pending, done, lookup0, entries, key, k, 1, dim);
    var node := nodes[entry.node];
    var range := node.range;
    assert shapes0[entry.node] == node.View();
    MiddleInside(range);

    // partial sort on the node's axis around the middle
    var keys := KeysOf(entries, key, entry.dimension);
    var middle := range.Middle();
    assert sp == range.AsSpan() && middle == sp.Mid();
    NthElement(a, range.beg, middle, range.end, keys);
    ghost var lookup' := a[..];
    NthPartitions(lookup', range.beg, middle, range.end, entries, key, entry.dimension, keys);
    var split := a[middle];
    ghost var ready := SplitStepOk(shapes0, axes, stack0, pending, done, lookup0, lookup', entries, key, k, 1, dim);
    assert ready;

    nodes', stack', axes', pending' := LinkHalves(nodes, stack, entry, split, entries, key, k, dim,
                                                  axes, stack0, pending, done, lookup0, lookup', ready);
  }

  /** The end of the split step: `SetSplit` on the popped node, `AppendNode` for its lower
      and upper ranges, `SetChildren`, and the children pushed on the next axis. The step's
      precondition arrives as the flag `ready`. */
  method LinkHalves<T>(nodes: seq<KdNode>, stack: seq<StackEntry>, entry: StackEntry, split: Index,
                       entries: seq<T>, key: (T, int) -> real, k: SizeT, dim: int,
                       ghost axes: seq<int>, ghost stack0: seq<StackEntry>, ghost pending: seq<Span>, ghost done: seq<Span>,
                       ghost lookup: seq<int>, ghost lookup': seq<int>, ghost ready: bool)
    returns (nodes': seq<KdNode>, stack': seq<StackEntry>, ghost axes': seq<int>, ghost pending': seq<Span>)
    requires k >= 2 && dim != 0
    requires ready == SplitStepOk(ShapesOf(nodes), axes, stack0, pending, done, lookup, lookup', entries, key, k, 1, dim)
    requires ready
    requires |stack0| >= 1 && stack == stack0[..|stack0| - 1] && entry == stack0[|stack0| - 1] && entry.dimension >= 0
    requires entry.node < |nodes| && nodes[entry.node].range.AsSpan() == pending[|stack0| - 1]
    requires split == lookup'[pending[|stack0| - 1].Mid()]
    ensures |nodes'| == |nodes| + 2
    ensures BuildInv(ShapesOf(nodes'), axes', stack', pending', done, lookup', entries, key, k, 1, dim)
  {
    var node := nodes[entry.node];
    var range := node.range;
    nodes' := nodes[entry.node := node.(split := split)];
    nodes' := nodes' + [KdNode.Of(range.GetLower())];
    nodes' := nodes' + [KdNode.Of(range.GetUpper())];
    var lowerNode, upperNode := |nodes|, |nodes| + 1;
    nodes' := nodes'[entry.node := nodes'[entry.node].(lower := Some(lowerNode), upper := Some(upperNode))];
    var nextDimension := entry.NextDimension(dim);
    stack' := stack + [StackEntry(lowerNode, nextDimension), StackEntry(upperNode, nextDimension)];
    axes' := axes + [nextDimension, nextDimension];
    pending' := SplitPending(pending, 1);
    SplitLinks(nodes, nodes', entry.node, split, nextDimension, stack0, stack', axes, axes', pending, done,
               lookup, lookup', entries, key, k, dim, ready);
  }

  /** The constructor's work: clamp the leaf threshold, give up below it, otherwise reserve
      `MaxNumNodes` nodes, create the root, fill the lookup array with `0..n-1` and run the
      stack loop. The results are the node store, the lookup array, `min_`, `max_` and the
      reserved capacity; `axes` is the axis each node was (or would have been) split on. */
  method Build<T>(entries: seq<T>, maxNodeEntries: SizeT, dim: int, policy: KdPolicy<T>)
    returns (nodes: seq<KdNode>, lookup: seq<Index>, mn: T, mx: T, capacity: SizeT, ghost axes: seq<int>)
    requires dim != 0 && |entries| < 0x8000_0000_0000_0000
    ensures var k := LeafThreshold(maxNodeEntries);
            |entries| < k ==> nodes == [] && lookup == [] && mn == policy.zero && mx == policy.zero && capacity == 0
    ensures var k := LeafThreshold(maxNodeEntries);
            k <= |entries| ==>
              && Built(ShapesOf(nodes), axes, lookup, entries, policy.key, k, 1, dim)
              && |nodes| <= capacity
              && LeavesWithin(LeafSpans(Span(0, |entries|), k, 1), |entries|)
              && mn == BoundFold(entries, policy.kmin, policy.zero, LeafSpans(Span(0, |entries|), k, 1))
              && mx == BoundFold(entries, policy.kmax, policy.zero, LeafSpans(Span(0, |entries|), k, 1))
  {
    var k := LeafThreshold(maxNodeEntries);
    var numEntries := |entries|;
    nodes, lookup, mn, mx, capacity, axes := [], [], policy.zero, policy.zero, 0, [];
    if numEntries < k {
      return;
    }
    var roundPower := RoundToPower2(numEntries);
    capacity := MaxNumNodes(numEntries, roundPower);
    NodeCountBelowHalves(numEntries, k, 1);
    NodeCountWithinCapacity(numEntries, k, roundPower);
    nodes := [KdNode.Of(KdRange.Of(entries))];
    var stack := [StackEntry(0, 0)];
    var a := new Index[numEntries];
    FillIota(a);
    axes := [0];
    ghost var pending := [Span(0, numEntries)];
    ghost var done: seq<Span> := [];
    BuildInit(entries, policy.key, k, 1, dim);
    assert ShapesOf(nodes) == [Shape(Span(0, numEntries), -1, None, None)];
    InvRewrite([Shape(Span(0, numEntries), -1, None, None)], ShapesOf(nodes), [0], axes, [StackEntry(0, 0)], stack,
               [Span(0, numEntries)], pending, done, Iota(numEntries), a[..], entries, policy.key, k, 1, dim);
    while |stack| > 0
      invariant a.Length == numEntries
      invariant NodeCount(numEntries, k, 1) <= capacity
      invariant BuildInv(ShapesOf(nodes), axes, stack, pending, done, a[..], entries, policy.key, k, 1, dim)
      invariant LeavesWithin(done, |entries|)
      invariant mn == BoundFold(entries, policy.kmin, policy.zero, done)
      invariant mx == BoundFold(entries, policy.kmax, policy.zero, done)
      decreases NodeCount(numEntries, k, 1) - |nodes|, |stack|
    {
      ghost var stack0 := stack;
      var entry := stack[|stack| - 1];
      stack := stack[..|stack| - 1];
      assert OnStack(ShapesOf(nodes), axes, stack0[|stack0| - 1], pending[|stack0| - 1]);
      var node := nodes[entry.node];
      var range := node.range;
      if range.Size() <= k {
        mn, mx, pending, done := LeafNode(nodes, stack, entry, entries, policy, k, dim, mn, mx, a[..], axes, stack0, pending, done);
        continue;
      }
      nodes, stack, axes, pending := SplitNode(a, nodes, stack, entry, entries, policy.key, k, dim, axes, stack0, pending, done);
    }
    lookup := a[..];
    BuildDone(ShapesOf(nodes), axes, stack, pending, done, lookup, entries, policy.key, k, 1, dim);
    LeafSpansInside(numEntries, k, 1);
  }

  /** A constructed `KdTree<T, _Dim>`: the node store `nodes_`, the lookup array
      `index_lookup_`, `min_`, `max_` and the capacity reserved for the nodes. The entries, the
      policy, the clamped leaf threshold, `_Dim` and the axis of every node are ghost. */
  class KdTree<T(!new)>
  {
    var nodes: seq<KdNode>
    var indexLookup: seq<Index>
    var min: T
    var max: T
    var capacity: SizeT
    ghost const entries: seq<T>
    ghost const policy: KdPolicy<T>
    ghost const leafSize: nat
    ghost const dim: int
    ghost var axes: seq<int>

    /** The leaf windows, from the last pushed leaf to the first. */
    ghost function Leaves(): seq<Span>
      reads this
      requires leafSize >= 2
    {
      LeafSpans(Span(0, |entries|), leafSize, 1)
    }

    /** Below the leaf threshold nothing was built; otherwise the node store is the finished
        tree over `index_lookup_`, within the reserved capacity, and `min_` and `max_` fold the
        leaf bounds in the order the leaves were popped. */
    ghost predicate Valid()
      reads this
    {
      && leafSize >= 2 && dim != 0
      && (|entries| < leafSize ==>
            nodes == [] && indexLookup == [] && min == policy.zero && max == policy.zero && capacity == 0)
      && (leafSize <= |entries| ==>
            && Built(ShapesOf(nodes), axes, indexLookup, entries, policy.key, leafSize, 1, dim)
            && |nodes| <= capacity
            && LeavesWithin(Leaves(), |entries|)
            && min == BoundFold(entries, policy.kmin, policy.zero, Leaves())
            && max == BoundFold(entries, policy.kmax, policy.zero, Leaves()))
    }

    /** `KdTree(entries, max_node_entries)` with `_Dim == dim`. */
    constructor(entries: seq<T>, maxNodeEntries: SizeT, dim: int, policy: KdPolicy<T>)
      requires dim != 0 && |entries| < 0x8000_0000_0000_0000
      ensures this.entries == entries && this.policy == policy && this.dim == dim
      ensures leafSize == LeafThreshold(maxNodeEntries)
      ensures Valid()
    {
      var builtNodes, lookup, mn, mx, cap;
      ghost var builtAxes;
      builtNodes, lookup, mn, mx, cap, builtAxes := Build(entries, maxNodeEntries, dim, policy);
      this.entries, this.policy, this.dim := entries, policy, dim;
      leafSize := LeafThreshold(maxNodeEntries);
      nodes, indexLookup, min, max, capacity, axes := builtNodes, lookup, mn, mx, cap, builtAxes;
    }

    /** `Root()`: null when nothing was built, otherwise the first node, which covers every
        entry. */
    function Root(): (root: Option<KdNode>)
      reads this
      requires Valid()
      ensures root.None? <==> |entries| < leafSize
      ensures root.Some? ==> root.value.range == KdRange(0, |entries|)
      ensures root.Some? ==> (root.value.lower.Some? <==> |entries| > leafSize)
      ensures root.Some? ==> (root.value.split == INDEX_INVALID <==> |entries| <= leafSize)
    {
      if |nodes| == 0 then None
      else
        assert ShapesOf(nodes)[0] == nodes[0].View();
        assert NodeOk(ShapesOf(nodes), axes, 0, |entries|, leafSize, 1, dim);
        assert nodes[0].lower.Some? ==> MedianSplit(ShapesOf(nodes)[0], axes[0], indexLookup, entries, policy.key);
        Some(nodes[0])
    }

    /** `GetMin()`. With a `KdMin` that is a componentwise minimum it lies on or below `T{}`
        and every entry at a leaf position; below the leaf threshold it is `T{}`. */
    function GetMin(): (m: T)
      reads this
      requires Valid()
      ensures |entries| < leafSize ==> m == policy.zero
      ensures leafSize <= |entries| && MinLaw(policy) ==> BelowLeaves(policy.key, m, policy.zero, entries, Leaves())
    {
      assert leafSize <= |entries| && MinLaw(policy) ==> BelowLeaves(policy.key, min, policy.zero, entries, Leaves()) by {
        if leafSize <= |entries| && MinLaw(policy) {
          BoundFoldBelow(entries, policy.kmin, policy.key, policy.zero, Leaves());
        }
      }
      min
    }

    /** `GetMax()`. With a `KdMax` that is a componentwise maximum it lies on or above `T{}`
        and every entry at a leaf position; below the leaf threshold it is `T{}`. */
    function GetMax(): (m: T)
      reads this
      requires Valid()
      ensures |entries| < leafSize ==> m == policy.zero
      ensures leafSize <= |entries| && MaxLaw(policy) ==> AboveLeaves(policy.key, m, policy.zero, entries, Leaves())
    {
      assert leafSize <= |entries| && MaxLaw(policy) ==> AboveLeaves(policy.key, max, policy.zero, entries, Leaves()) by {
        if leafSize <= |entries| && MaxLaw(policy) {
          BoundFoldAbove(entries, policy.kmax, policy.key, policy.zero, Leaves());
        }
      }
      max
    }
  }
}
