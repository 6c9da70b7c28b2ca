/** The construction loop shared by `KdTree` and `PointKdTree`, seen through a ghost view of
    the node store. Both constructors pop a (node, axis) entry from a LIFO stack, and either
    fold a leaf's bound into `min_`/`max_` or partition the node's window of the lookup
    array around its middle, record the split, append a lower and an upper child and push
    them. They differ in where the lower child ends: `KdTree` leaves a gap of one position
    below the middle (`gap = 1`), `PointKdTree` none (`gap = 0`). This module states the
    invariant of that loop once, with the lemmas that carry it across the two kinds of step. */
module KdShape {
  import opened Types
  import opened StdAlgorithm
  import opened KdCommon

  /** The window `[lo, hi)` of the lookup array a node covers. */
  datatype Span = Span(lo: int, hi: int)
  {
    function Size(): int { hi - lo }

    /** The middle position, `lo + Size() / 2`. */
    function Mid(): int { lo + (hi - lo) / 2 }

    /** The lower child's window, `gap` positions short of the middle. */
    function Lower(gap: nat): Span { Span(lo, Mid() - gap) }

    /** The upper child's window, from the middle to the end. */
    function Upper(): Span { Span(Mid(), hi) }

    predicate Within(n: int) { 0 <= lo <= hi <= n }
  }

  /** Both children of a window of two or more positions are strictly smaller, so the
      splitting terminates; they lie inside it, the lower one before the upper one. */
  lemma ChildSpansSmaller(sp: Span, gap: nat)
    requires sp.Size() >= 2 && gap <= 1
    ensures 0 <= sp.Lower(gap).Size() < sp.Size() && 0 < sp.Upper().Size() < sp.Size()
    ensures sp.Lower(gap).Size() == sp.Size() / 2 - gap && sp.Upper().Size() == sp.Size() - sp.Size() / 2
    ensures sp.lo == sp.Lower(gap).lo && sp.Lower(gap).hi + gap == sp.Upper().lo && sp.Upper().hi == sp.hi
  {
  }

  /** Number of nodes the construction creates for a window of `s` positions: a leaf when
      `s <= k`, otherwise the node and its two subtrees. */
  function NodeCount(s: int, k: nat, gap: nat): (c: nat)
    requires k >= 2 && gap <= 1
    ensures c >= 1
    decreases s
  {
    if s <= k then 1 else 1 + NodeCount(s / 2 - gap, k, gap) + NodeCount(s - s / 2, k, gap)
  }

  /** The gap never adds nodes: the count is at most that of the halving tree, and equal to
      it without a gap. */
  lemma {:induction false} NodeCountBelowHalves(s: nat, k: nat, gap: nat)
    requires k >= 2 && gap <= 1
    ensures NodeCount(s, k, gap) <= NodeCountHalves(s, k)
    ensures gap == 0 ==> NodeCount(s, k, gap) == NodeCountHalves(s, k)
    decreases s
  {
    if s > k {
      var a: nat, b: nat := s / 2 - gap, s - s / 2;
      NodeCountBelowHalves(a, k, gap);
      NodeCountBelowHalves(b, k, gap);
      NodeCountMonoInSize(a, s / 2, k);
      UnfoldHalves(s, k);
      UnfoldCount(s, k, gap);
    }
  }

  lemma UnfoldCount(s: int, k: nat, gap: nat)
    requires k >= 2 && gap <= 1 && s > k
    ensures NodeCount(s, k, gap) == 1 + NodeCount(s / 2 - gap, k, gap) + NodeCount(s - s / 2, k, gap)
  {
  }

  /** Depth of the tree the construction builds over a window of `s` positions: zero for a
      leaf, otherwise one more than the deeper of the two subtrees. */
  function Height(s: int, k: nat, gap: nat): nat
    requires k >= 2 && gap <= 1
    decreases s
  {
    if s <= k then 0
    else
      var lower, upper := Height(s / 2 - gap, k, gap), Height(s - s / 2, k, gap);
      1 + (if lower < upper then upper else lower)
  }

  /** Each split halves the window, rounding up at worst, so a window of at most `k * 2^h`
      positions is split at most `h` levels deep: every leaf lies at depth at most
      `ceil(log2(s / k))`, with or without the gap. */
  lemma {:induction false} HeightBound(s: int, k: nat, gap: nat, h: nat)
    requires k >= 2 && gap <= 1 && s <= k * Pow2(h)
    ensures Height(s, k, gap) <= h
    decreases h
  {
    if s > k {
      assert h >= 1;
      assert k * Pow2(h) == 2 * (k * Pow2(h - 1));
      HeightBound(s / 2 - gap, k, gap, h - 1);
      HeightBound(s - s / 2, k, gap, h - 1);
    }
  }

  /** The bound is tight: the upper child always keeps at least half of the window, so a
      window of more than `k * 2^h` positions is split more than `h` levels deep. */
  lemma {:induction false} HeightAbove(s: int, k: nat, gap: nat, h: nat)
    requires k >= 2 && gap <= 1 && s > k * Pow2(h)
    ensures Height(s, k, gap) > h
    decreases h
  {
    if h > 0 {
      assert k * Pow2(h) == 2 * (k * Pow2(h - 1));
      HeightAbove(s - s / 2, k, gap, h - 1);
    }
  }

  /** The leaves under a window, in the order the construction pops them: the upper
      subtree's leaves before the lower subtree's. */
  function LeafSpans(sp: Span, k: nat, gap: nat): (leaves: seq<Span>)
    requires k >= 2 && gap <= 1
    ensures |leaves| >= 1
    decreases sp.Size()
  {
    if sp.Size() <= k then [sp] else LeafSpans(sp.Upper(), k, gap) + LeafSpans(sp.Lower(gap), k, gap)
  }

  /** The leaves of a well-formed window lie inside it, hold at most `k` positions, and run
      from its top down to its bottom, each ending where the next one starts or, with a
      gap, one position before. Without a gap they therefore partition the window. */
  lemma {:induction false} LeafSpansTile(sp: Span, k: nat, gap: nat)
    requires k >= 2 && gap <= 1 && sp.Size() >= 0
    ensures var leaves := LeafSpans(sp, k, gap);
            && leaves[0].hi == sp.hi && leaves[|leaves| - 1].lo == sp.lo
            && (forall j :: 0 <= j < |leaves| ==> 0 <= leaves[j].Size() <= k && sp.lo <= leaves[j].lo && leaves[j].hi <= sp.hi)
            && (forall j :: 0 <= j < |leaves| - 1 ==> leaves[j].lo - gap == leaves[j + 1].hi)
    decreases sp.Size()
  {
    if sp.Size() > k {
      var up, low := sp.Upper(), sp.Lower(gap);
      LeafSpansTile(up, k, gap);
      LeafSpansTile(low, k, gap);
      var a, b := LeafSpans(up, k, gap), LeafSpans(low, k, gap);
      var leaves := a + b;
      assert LeafSpans(sp, k, gap) == leaves;
      forall j | 0 <= j < |leaves| - 1
        ensures leaves[j].lo - gap == leaves[j + 1].hi
      {
        if j == |a| - 1 {
          assert leaves[j] == a[|a| - 1] && leaves[j + 1] == b[0];
        } else if j < |a| - 1 {
          assert leaves[j] == a[j] && leaves[j + 1] == a[j + 1];
        } else {
          assert leaves[j] == b[j - |a|] && leaves[j + 1] == b[j + 1 - |a|];
        }
      }
    }
  }

  /** Without a gap every position of the window lies in exactly one leaf. */
  lemma LeafSpansPartition(sp: Span, k: nat, p: int)
    requires k >= 2 && sp.lo <= p < sp.hi
    ensures exists j :: 0 <= j < |LeafSpans(sp, k, 0)| && LeafSpans(sp, k, 0)[j].lo <= p < LeafSpans(sp, k, 0)[j].hi
    ensures forall j1, j2 ::
              (&& 0 <= j1 < |LeafSpans(sp, k, 0)| && 0 <= j2 < |LeafSpans(sp, k, 0)|
               && LeafSpans(sp, k, 0)[j1].lo <= p < LeafSpans(sp, k, 0)[j1].hi
               && LeafSpans(sp, k, 0)[j2].lo <= p < LeafSpans(sp, k, 0)[j2].hi) ==> j1 == j2
  {
    var leaves := LeafSpans(sp, k, 0);
    LeafSpansTile(sp, k, 0);
    LeavesDescend(leaves, sp.lo);
    var j := FindLeaf(leaves, sp.lo, p);
  }

  /** In a tiling that runs downward, a later leaf lies wholly below an earlier one. */
  lemma {:induction false} LeavesDescend(leaves: seq<Span>, bottom: int)
    requires |leaves| >= 1 && leaves[|leaves| - 1].lo == bottom
    requires forall j :: 0 <= j < |leaves| ==> 0 <= leaves[j].Size()
    requires forall j :: 0 <= j < |leaves| - 1 ==> leaves[j].lo == leaves[j + 1].hi
    ensures forall j1, j2 :: 0 <= j1 < j2 < |leaves| ==> leaves[j2].hi <= leaves[j1].lo
    ensures forall j :: 0 <= j < |leaves| ==> bottom <= leaves[j].lo
    decreases |leaves|
  {
    if |leaves| > 1 {
      var rest := leaves[1..];
      LeavesDescend(rest, bottom);
      forall j2 | 0 < j2 < |leaves|
        ensures leaves[j2].hi <= leaves[0].lo
      {
        assert leaves[j2] == rest[j2 - 1];
        if j2 > 1 {
          assert rest[j2 - 1].hi <= rest[0].lo;
        }
      }
      forall j1, j2 | 1 <= j1 < j2 < |leaves|
        ensures leaves[j2].hi <= leaves[j1].lo
      {
        assert leaves[j1] == rest[j1 - 1] && leaves[j2] == rest[j2 - 1];
      }
    }
  }

  /** The leaf of a downward tiling that holds position `p`. */
  lemma {:induction false} FindLeaf(leaves: seq<Span>, bottom: int, p: int) returns (j: int)
    requires |leaves| >= 1 && leaves[|leaves| - 1].lo == bottom <= p < leaves[0].hi
    requires forall j :: 0 <= j < |leaves| - 1 ==> leaves[j].lo == leaves[j + 1].hi
    ensures 0 <= j < |leaves| && leaves[j].lo <= p < leaves[j].hi
    decreases |leaves|
  {
    if leaves[0].lo <= p {
      j := 0;
    } else {
      var rest := leaves[1..];
      assert rest[0].hi == leaves[0].lo;
      var i := FindLeaf(rest, bottom, p);
      j := i + 1;
    }
  }

  /** A ghost view of a node: its window, its split (`-1` while unset) and the positions
      of its children in the node store. */
  datatype Shape = Shape(span: Span, split: int, lower: Option<nat>, upper: Option<nat>)

  /** Node `i` has been split: its children sit next to each other after it, cover its
      lower and upper windows, get the next axis, and its split is an entry index. */
  ghost predicate Expanded(shapes: seq<Shape>, axes: seq<int>, i: int, n: int, gap: nat, dim: int)
    requires 0 <= i < |shapes| == |axes| && dim != 0
  {
    var sh := shapes[i];
    && sh.lower.Some? && sh.upper == Some(sh.lower.value + 1)
    && i < sh.lower.value && sh.lower.value + 1 < |shapes|
    && shapes[sh.lower.value].span == sh.span.Lower(gap)
    && shapes[sh.lower.value + 1].span == sh.span.Upper()
    && axes[sh.lower.value] == (axes[i] + 1) % dim
    && axes[sh.lower.value + 1] == (axes[i] + 1) % dim
    && 0 <= sh.split < n
  }

  /** Node `i` of the store: its window lies in `[0, n)` and its axis in `[0, |dim|)`; without
      children it has no split; with children it is larger than `k` and split as `Expanded`
      says. */
  ghost predicate NodeOk(shapes: seq<Shape>, axes: seq<int>, i: int, n: int, k: nat, gap: nat, dim: int)
    requires 0 <= i < |shapes| == |axes| && dim != 0
  {
    && shapes[i].span.Within(n) && 0 <= axes[i] < (if dim > 0 then dim else -dim)
    && (shapes[i].lower.None? ==> shapes[i].upper.None? && shapes[i].split == -1)
    && (shapes[i].lower.Some? ==> shapes[i].span.Size() > k && Expanded(shapes, axes, i, n, gap, dim))
  }

  /** The node store: the root covers `[0, n)` on axis 0 and every node is as `NodeOk`
      says. */
  ghost predicate NodesOk(shapes: seq<Shape>, axes: seq<int>, n: int, k: nat, gap: nat, dim: int)
    requires dim != 0
  {
    && |shapes| == |axes| >= 1
    && shapes[0].span == Span(0, n) && axes[0] == 0
    && (forall i :: 0 <= i < |shapes| ==> NodeOk(shapes, axes, i, n, k, gap, dim))
  }

  /** A stack entry names an unsplit node whose window is `sp`, with that node's axis. */
  ghost predicate OnStack(shapes: seq<Shape>, axes: seq<int>, e: StackEntry, sp: Span)
    requires |shapes| == |axes|
  {
    e.node < |shapes| && shapes[e.node].span == sp && shapes[e.node].lower.None? && e.dimension == axes[e.node]
  }

  /** The stack, with `pending` the windows of its nodes: entries name distinct unsplit
      nodes in increasing order; every unsplit node larger than `k` is on it; its windows
      run left to right from bottom to top; and each of them lies on one side of every
      split already made. */
  ghost predicate StackOk(shapes: seq<Shape>, axes: seq<int>, stack: seq<StackEntry>, pending: seq<Span>, k: nat)
    requires |shapes| == |axes|
  {
    && |pending| == |stack|
    && (forall j :: 0 <= j < |stack| ==> OnStack(shapes, axes, stack[j], pending[j]))
    && (forall j1, j2 :: 0 <= j1 < j2 < |stack| ==> stack[j1].node < stack[j2].node)
    && (forall i :: 0 <= i < |shapes| && shapes[i].lower.None? && shapes[i].span.Size() > k ==>
          exists j :: 0 <= j < |stack| && stack[j].node == i)
    && (forall j1, j2 :: 0 <= j1 < j2 < |pending| ==> pending[j1].hi <= pending[j2].lo)
    && (forall j, i :: 0 <= j < |pending| && 0 <= i < |shapes| && shapes[i].lower.Some? ==>
          WithinOneSide(pending[j].lo, pending[j].hi, shapes[i].span.lo, shapes[i].span.Mid(), shapes[i].span.hi))
  }

  /** The median property of a split node: on its axis, every entry the lookup array holds
      in the lower half of its window has a key no greater than the split entry's, every
      one in the upper half a key no smaller, and the split entry is in the upper half. */
  ghost predicate MedianSplit<T>(sh: Shape, axis: int, lookup: seq<int>, entries: seq<T>, key: (T, int) -> real)
  {
    && 0 <= sh.span.lo <= sh.span.hi <= |lookup|
    && 0 <= sh.split < |entries|
    && Partitioned(lookup, sh.span.lo, sh.span.Mid(), sh.span.hi, KeysOf(entries, key, axis), key(entries[sh.split], axis))
    && sh.split in lookup[sh.span.Mid()..sh.span.hi]
  }

  ghost predicate SplitsOk<T>(shapes: seq<Shape>, axes: seq<int>, lookup: seq<int>, entries: seq<T>, key: (T, int) -> real)
    requires |shapes| == |axes|
  {
    forall i :: 0 <= i < |shapes| && shapes[i].lower.Some? ==> MedianSplit(shapes[i], axes[i], lookup, entries, key)
  }

  /** Nodes still to be created under the pending windows, beyond the pending nodes
      themselves. */
  function PendingExtra(pending: seq<Span>, k: nat, gap: nat): (extra: int)
    requires k >= 2 && gap <= 1
    ensures extra >= 0
    decreases |pending|
  {
    if |pending| == 0 then 0
    else PendingExtra(pending[..|pending| - 1], k, gap) + NodeCount(pending[|pending| - 1].Size(), k, gap) - 1
  }

  /** Leaves still to be reached under the pending windows, in popping order. */
  function PendingLeaves(pending: seq<Span>, k: nat, gap: nat): seq<Span>
    requires k >= 2 && gap <= 1
    decreases |pending|
  {
    if |pending| == 0 then []
    else LeafSpans(pending[|pending| - 1], k, gap) + PendingLeaves(pending[..|pending| - 1], k, gap)
  }

  /** The invariant of the construction loop over `n = |entries|` entries; `done` lists
      the leaf windows already folded into the bounds. */
  ghost predicate BuildInv<T>(shapes: seq<Shape>, axes: seq<int>, stack: seq<StackEntry>, pending: seq<Span>,
                              done: seq<Span>, lookup: seq<int>, entries: seq<T>, key: (T, int) -> real,
                              k: nat, gap: nat, dim: int)
    requires k >= 2 && gap <= 1 && dim != 0
  {
    && NodesOk(shapes, axes, |entries|, k, gap, dim)
    && StackOk(shapes, axes, stack, pending, k)
    && SplitsOk(shapes, axes, lookup, entries, key)
    && IsPermutation(lookup, |entries|)
    && |shapes| + PendingExtra(pending, k, gap) == NodeCount(|entries|, k, gap)
    && LeafSpans(Span(0, |entries|), k, gap) == done + PendingLeaves(pending, k, gap)
    && (forall j :: 0 <= j < |done| ==> done[j].Within(|entries|))
  }

  /** The finished tree: the node store is well formed, a node has children exactly when it
      holds more than `k` entries, every split has the median property, the lookup array
      is a permutation of `0..n-1`, and there are `NodeCount(n)` nodes. */
  ghost predicate Built<T>(shapes: seq<Shape>, axes: seq<int>, lookup: seq<int>, entries: seq<T>,
                           key: (T, int) -> real, k: nat, gap: nat, dim: int)
    requires k >= 2 && gap <= 1 && dim != 0
  {
    && NodesOk(shapes, axes, |entries|, k, gap, dim)
    && (forall i :: 0 <= i < |shapes| ==> (shapes[i].lower.Some? <==> shapes[i].span.Size() > k))
    && SplitsOk(shapes, axes, lookup, entries, key)
    && IsPermutation(lookup, |entries|)
    && |shapes| == NodeCount(|entries|, k, gap)
  }

  /** The state after creating the root and filling the lookup array with `0..n-1`. */
  lemma BuildInit<T>(entries: seq<T>, key: (T, int) -> real, k: nat, gap: nat, dim: int)
    requires k >= 2 && gap <= 1 && dim != 0
    ensures BuildInv([Shape(Span(0, |entries|), -1, None, None)], [0], [StackEntry(0, 0)], [Span(0, |entries|)],
                     [], Iota(|entries|), entries, key, k, gap, dim)
  {
    var pending := [Span(0, |entries|)];
    assert pending[..0] == [];
    assert PendingLeaves(pending, k, gap) == LeafSpans(Span(0, |entries|), k, gap);
  }

  /** Popping a leaf: its window moves from the stack to the folded leaves. */
  lemma BuildLeaf<T>(shapes: seq<Shape>, axes: seq<int>, stack: seq<StackEntry>, pending: seq<Span>,
                     done: seq<Span>, lookup: seq<int>, entries: seq<T>, key: (T, int) -> real,
                     k: nat, gap: nat, dim: int)
    requires k >= 2 && gap <= 1 && dim != 0
    requires BuildInv(shapes, axes, stack, pending, done, lookup, entries, key, k, gap, dim)
    requires |stack| >= 1 && pending[|stack| - 1].Size() <= k
    ensures BuildInv(shapes, axes, stack[..|stack| - 1], pending[..|stack| - 1], done + [pending[|stack| - 1]],
                     lookup, entries, key, k, gap, dim)
  {
    var m := |stack| - 1;
    assert OnStack(shapes, axes, stack[m], pending[m]);
    assert NodeOk(shapes, axes, stack[m].node, |entries|, k, gap, dim);
    LeafKeepsStack(shapes, axes, stack, pending, k);
    assert PendingLeaves(pending, k, gap) == [pending[m]] + PendingLeaves(pending[..m], k, gap);
  }

  lemma LeafKeepsStack(shapes: seq<Shape>, axes: seq<int>, stack: seq<StackEntry>, pending: seq<Span>, k: nat)
    requires |shapes| == |axes| && StackOk(shapes, axes, stack, pending, k)
    requires |stack| >= 1 && pending[|stack| - 1].Size() <= k
    ensures StackOk(shapes, axes, stack[..|stack| - 1], pending[..|stack| - 1], k)
  {
    var m := |stack| - 1;
    var stack', pending' := stack[..m], pending[..m];
    assert OnStack(shapes, axes, stack[m], pending[m]);
    forall i | 0 <= i < |shapes| && shapes[i].lower.None? && shapes[i].span.Size() > k
      ensures exists j :: 0 <= j < |stack'| && stack'[j].node == i
    {
      var j :| 0 <= j < |stack| && stack[j].node == i;
      assert j != m;
      assert stack'[j].node == i;
    }
  }

  /** What the invariant says about the entry on top of the stack: it names an unsplit node
      whose window lies in `[0, n)`, on an axis in `[0, |dim|)`; the lookup array holds entry
      indices; and a window larger than `k` leaves room for two more nodes. */
  lemma TopEntry<T>(shapes: seq<Shape>, axes: seq<int>, stack: seq<StackEntry>, pending: seq<Span>,
                    done: seq<Span>, lookup: seq<int>, entries: seq<T>, key: (T, int) -> real,
                    k: nat, gap: nat, dim: int)
    requires k >= 2 && gap <= 1 && dim != 0
    requires BuildInv(shapes, axes, stack, pending, done, lookup, entries, key, k, gap, dim)
    requires |stack| >= 1
    ensures var m := |stack| - 1;
            && |pending| == |stack| && stack[m].node < |shapes| == |axes|
            && shapes[stack[m].node].span == pending[m] && shapes[stack[m].node].lower.None?
            && pending[m].Within(|entries|)
            && 0 <= stack[m].dimension < (if dim > 0 then dim else -dim)
            && |lookup| == |entries| && (forall p :: 0 <= p < |lookup| ==> 0 <= lookup[p] < |entries|)
            && (pending[m].Size() > k ==> |shapes| + 2 <= NodeCount(|entries|, k, gap))
  {
    var m := |stack| - 1;
    assert OnStack(shapes, axes, stack[m], pending[m]);
    assert NodeOk(shapes, axes, stack[m].node, |entries|, k, gap, dim);
    PermutationValues(lookup, |entries|);
    if pending[m].Size() > k {
      SplitRoom(pending, |shapes|, k, gap, NodeCount(|entries|, k, gap));
    }
  }

  /** Everything the split step needs about its inputs, gathered in one place: `t` is the
      node on top of the stack, `sp` its window, `split` the entry now at its middle, and the
      lookup array was reordered within `sp` only, partitioned on the node's axis. */
  ghost predicate SplitStepOk<T>(shapes: seq<Shape>, axes: seq<int>, stack: seq<StackEntry>, pending: seq<Span>,
                                 done: seq<Span>, lookup: seq<int>, lookup': seq<int>, entries: seq<T>,
                                 key: (T, int) -> real, k: nat, gap: nat, dim: int)
    requires k >= 2 && gap <= 1 && dim != 0
  {
    && BuildInv(shapes, axes, stack, pending, done, lookup, entries, key, k, gap, dim)
    && |stack| >= 1
    && var sp := pending[|stack| - 1];
       var axis := stack[|stack| - 1].dimension;
       && sp.Size() > k
       && PermutedWithin(lookup, lookup', sp.lo, sp.hi)
       && 0 <= sp.Mid() < |lookup'| && 0 <= lookup'[sp.Mid()] < |entries|
       && Partitioned(lookup', sp.lo, sp.Mid(), sp.hi, KeysOf(entries, key, axis),
                      key(entries[lookup'[sp.Mid()]], axis))
  }

  /** The node store after splitting the top node `t`: its split and children are set and
      the two children appended. */
  function SplitShapes(shapes: seq<Shape>, t: nat, sp: Span, split: int, gap: nat): (r: seq<Shape>)
    requires t < |shapes|
    ensures |r| == |shapes| + 2
    ensures forall i :: 0 <= i < |shapes| && i != t ==> r[i] == shapes[i]
    ensures r[t] == Shape(sp, split, Some(|shapes|), Some(|shapes| + 1))
    ensures r[|shapes|] == Shape(sp.Lower(gap), -1, None, None)
    ensures r[|shapes| + 1] == Shape(sp.Upper(), -1, None, None)
  {
    shapes[t := Shape(sp, split, Some(|shapes|), Some(|shapes| + 1))]
      + [Shape(sp.Lower(gap), -1, None, None), Shape(sp.Upper(), -1, None, None)]
  }

  /** The stack after the split step: the top replaced by the lower, then the upper
      child, both on the next axis. */
  function SplitStack(stack: seq<StackEntry>, lowerNode: nat, next: int): seq<StackEntry>
    requires |stack| >= 1
  {
    stack[..|stack| - 1] + [StackEntry(lowerNode, next), StackEntry(lowerNode + 1, next)]
  }

  function SplitPending(pending: seq<Span>, gap: nat): seq<Span>
    requires |pending| >= 1
  {
    pending[..|pending| - 1] + [pending[|pending| - 1].Lower(gap), pending[|pending| - 1].Upper()]
  }

  /** A window larger than `k` on top of the stack leaves room for its two children:
      the node store still has at least two nodes to go. */
  lemma SplitRoom(pending: seq<Span>, count: int, k: nat, gap: nat, total: int)
    requires k >= 2 && gap <= 1
    requires |pending| >= 1 && pending[|pending| - 1].Size() > k
    requires count + PendingExtra(pending, k, gap) == total
    ensures count + 2 <= total
  {
    var sp := pending[|pending| - 1];
    ChildSpansSmaller(sp, gap);
    assert NodeCount(sp.Size(), k, gap) >= 3;
  }

  /** The split step keeps the loop invariant. */
  lemma BuildSplit<T>(shapes: seq<Shape>, axes: seq<int>, stack: seq<StackEntry>, pending: seq<Span>,
                      done: seq<Span>, lookup: seq<int>, lookup': seq<int>, entries: seq<T>,
                      key: (T, int) -> real, k: nat, gap: nat, dim: int)
    requires k >= 2 && gap <= 1 && dim != 0
    requires SplitStepOk(shapes, axes, stack, pending, done, lookup, lookup', entries, key, k, gap, dim)
    ensures var m := |stack| - 1;
            var next := (stack[m].dimension + 1) % dim;
            && stack[m].node < |shapes|
            && BuildInv(SplitShapes(shapes, stack[m].node, pending[m], lookup'[pending[m].Mid()], gap),
                        axes + [next, next], SplitStack(stack, |shapes|, next), SplitPending(pending, gap),
                        done, lookup', entries, key, k, gap, dim)
  {
    var m := |stack| - 1;
    var t := stack[m].node;
    var sp := pending[m];
    var axis := stack[m].dimension;
    var next := (axis + 1) % dim;
    var L := |shapes|;
    var split := lookup'[sp.Mid()];
    var shapes' := SplitShapes(shapes, t, sp, split, gap);
    var axes' := axes + [next, next];
    var stack' := SplitStack(stack, L, next);
    var pending' := SplitPending(pending, gap);
    var n := |entries|;
    ChildSpansSmaller(sp, gap);
    PermutedWithinWhole(lookup, lookup', sp.lo, sp.hi);
    PermutationValues(lookup', n);
    SplitKeepsNodes(shapes, axes, t, sp, split, n, k, gap, dim, next);
    assert OnStack(shapes, axes, stack[m], pending[m]);
    SplitKeepsStack(shapes, axes, stack, pending, split, k, gap, next);
    SplitKeepsSplits(shapes, axes, stack, pending, lookup, lookup', entries, key, k, gap, next);
    SplitKeepsCount(pending, k, gap);
    SplitKeepsLeaves(pending, k, gap);
  }

  lemma NextAxisInRange(a: int, dim: int)
    requires dim != 0
    ensures 0 <= (a + 1) % dim < (if dim > 0 then dim else -dim)
  {
  }

  /** A split node stays split as long as the windows and axes of the nodes before the end of
      the old store stay put. */
  lemma ExpandedKept(shapes: seq<Shape>, axes: seq<int>, shapes': seq<Shape>, axes': seq<int>,
                     i: int, n: int, gap: nat, dim: int)
    requires 0 <= i < |shapes| == |axes| <= |shapes'| == |axes'| && dim != 0
    requires Expanded(shapes, axes, i, n, gap, dim) && shapes'[i] == shapes[i]
    requires forall j :: 0 <= j < |shapes| ==> shapes'[j].span == shapes[j].span && axes'[j] == axes[j]
    ensures Expanded(shapes', axes', i, n, gap, dim)
  {
  }

  lemma SplitKeepsNodes(shapes: seq<Shape>, axes: seq<int>, t: nat, sp: Span, split: int, n: int,
                        k: nat, gap: nat, dim: int, next: int)
    requires k >= 2 && gap <= 1 && dim != 0
    requires NodesOk(shapes, axes, n, k, gap, dim)
    requires t < |shapes| && shapes[t].span == sp && shapes[t].lower.None? && sp.Size() > k
    requires next == (axes[t] + 1) % dim && 0 <= split < n
    ensures NodesOk(SplitShapes(shapes, t, sp, split, gap), axes + [next, next], n, k, gap, dim)
  {
    var shapes' := SplitShapes(shapes, t, sp, split, gap);
    var axes' := axes + [next, next];
    var L := |shapes|;
    ChildSpansSmaller(sp, gap);
    NextAxisInRange(axes[t], dim);
    assert NodeOk(shapes, axes, t, n, k, gap, dim);
    assert shapes'[0].span == Span(0, n);
    forall j | 0 <= j < L
      ensures shapes'[j].span == shapes[j].span && axes'[j] == axes[j]
    {
    }
    forall i | 0 <= i < |shapes'|
      ensures NodeOk(shapes', axes', i, n, k, gap, dim)
    {
      if i < L && i != t {
        assert shapes'[i] == shapes[i] && axes'[i] == axes[i];
        assert NodeOk(shapes, axes, i, n, k, gap, dim);
        if shapes[i].lower.Some? {
          ExpandedKept(shapes, axes, shapes', axes', i, n, gap, dim);
        }
      }
    }
  }

  lemma SplitKeepsStack(shapes: seq<Shape>, axes: seq<int>, stack: seq<StackEntry>, pending: seq<Span>,
                        split: int, k: nat, gap: nat, next: int)
    requires k >= 2 && gap <= 1 && |shapes| == |axes|
    requires StackOk(shapes, axes, stack, pending, k) && |stack| >= 1
    requires pending[|stack| - 1].Size() > k
    ensures var m := |stack| - 1;
            StackOk(SplitShapes(shapes, stack[m].node, pending[m], split, gap), axes + [next, next],
                    SplitStack(stack, |shapes|, next), SplitPending(pending, gap), k)
  {
    SplitStackEntries(shapes, axes, stack, pending, split, k, gap, next);
    SplitStackCovers(shapes, axes, stack, pending, split, k, gap, next);
    SplitStackOrdered(shapes, axes, stack, pending, split, k, gap, next);
    SplitStackLaminar(shapes, axes, stack, pending, split, k, gap, next);
  }

  lemma SplitStackEntries(shapes: seq<Shape>, axes: seq<int>, stack: seq<StackEntry>, pending: seq<Span>,
                        split: int, k: nat, gap: nat, next: int)
    requires k >= 2 && gap <= 1 && |shapes| == |axes|
    requires StackOk(shapes, axes, stack, pending, k) && |stack| >= 1
    requires pending[|stack| - 1].Size() > k
    ensures var m := |stack| - 1;
            var shapes' := SplitShapes(shapes, stack[m].node, pending[m], split, gap);
            var stack' := SplitStack(stack, |shapes|, next);
            var pending' := SplitPending(pending, gap);
            && |pending'| == |stack'|
            && (forall j :: 0 <= j < |stack'| ==> OnStack(shapes', axes + [next, next], stack'[j], pending'[j]))
            && (forall j1, j2 :: 0 <= j1 < j2 < |stack'| ==> stack'[j1].node < stack'[j2].node)
  {
    var m := |stack| - 1;
    var t := stack[m].node;
    var sp := pending[m];
    var L := |shapes|;
    var shapes' := SplitShapes(shapes, t, sp, split, gap);
    var axes' := axes + [next, next];
    var stack' := SplitStack(stack, L, next);
    var pending' := SplitPending(pending, gap);
    ChildSpansSmaller(sp, gap);
    assert OnStack(shapes, axes, stack[m], pending[m]);
    forall j | 0 <= j < |stack'|
      ensures OnStack(shapes', axes', stack'[j], pending'[j])
    {
      if j < m {
        assert stack'[j] == stack[j] && pending'[j] == pending[j];
        assert OnStack(shapes, axes, stack[j], pending[j]);
        assert stack[j].node < t;
      }
    }
    forall j1, j2 | 0 <= j1 < j2 < |stack'|
      ensures stack'[j1].node < stack'[j2].node
    {
      if j1 < m {
        assert stack'[j1] == stack[j1] && stack[j1].node < t;
        if j2 < m {
          assert stack'[j2] == stack[j2];
        }
      }
    }
  }

  lemma SplitStackCovers(shapes: seq<Shape>, axes: seq<int>, stack: seq<StackEntry>, pending: seq<Span>,
                        split: int, k: nat, gap: nat, next: int)
    requires k >= 2 && gap <= 1 && |shapes| == |axes|
    requires StackOk(shapes, axes, stack, pending, k) && |stack| >= 1
    requires pending[|stack| - 1].Size() > k
    ensures var m := |stack| - 1;
            var shapes' := SplitShapes(shapes, stack[m].node, pending[m], split, gap);
            var stack' := SplitStack(stack, |shapes|, next);
            forall i :: 0 <= i < |shapes'| && shapes'[i].lower.None? && shapes'[i].span.Size() > k ==>
              exists j :: 0 <= j < |stack'| && stack'[j].node == i
  {
    var m := |stack| - 1;
    var t := stack[m].node;
    var sp := pending[m];
    var L := |shapes|;
    var shapes' := SplitShapes(shapes, t, sp, split, gap);
    var axes' := axes + [next, next];
    var stack' := SplitStack(stack, L, next);
    var pending' := SplitPending(pending, gap);
    ChildSpansSmaller(sp, gap);
    assert OnStack(shapes, axes, stack[m], pending[m]);
    forall i | 0 <= i < |shapes'| && shapes'[i].lower.None? && shapes'[i].span.Size() > k
      ensures exists j :: 0 <= j < |stack'| && stack'[j].node == i
    {
      if i == L {
        assert stack'[m].node == i;
      } else if i == L + 1 {
        assert stack'[m + 1].node == i;
      } else {
        assert i != t && shapes'[i] == shapes[i];
        var j :| 0 <= j < |stack| && stack[j].node == i;
        assert j != m;
        assert stack'[j].node == i;
      }
    }
  }

  lemma SplitStackOrdered(shapes: seq<Shape>, axes: seq<int>, stack: seq<StackEntry>, pending: seq<Span>,
                        split: int, k: nat, gap: nat, next: int)
    requires k >= 2 && gap <= 1 && |shapes| == |axes|
    requires StackOk(shapes, axes, stack, pending, k) && |stack| >= 1
    requires pending[|stack| - 1].Size() > k
    ensures var pending' := SplitPending(pending, gap);
            forall j1, j2 :: 0 <= j1 < j2 < |pending'| ==> pending'[j1].hi <= pending'[j2].lo
  {
    var m := |stack| - 1;
    var t := stack[m].node;
    var sp := pending[m];
    var L := |shapes|;
    var shapes' := SplitShapes(shapes, t, sp, split, gap);
    var axes' := axes + [next, next];
    var stack' := SplitStack(stack, L, next);
    var pending' := SplitPending(pending, gap);
    ChildSpansSmaller(sp, gap);
    assert OnStack(shapes, axes, stack[m], pending[m]);
    forall j1, j2 | 0 <= j1 < j2 < |pending'|
      ensures pending'[j1].hi <= pending'[j2].lo
    {
      if j1 < m {
        assert pending'[j1] == pending[j1] && pending[j1].hi <= sp.lo;
        if j2 < m {
          assert pending'[j2] == pending[j2];
        }
      }
    }
  }

  lemma SplitStackLaminar(shapes: seq<Shape>, axes: seq<int>, stack: seq<StackEntry>, pending: seq<Span>,
                        split: int, k: nat, gap: nat, next: int)
    requires k >= 2 && gap <= 1 && |shapes| == |axes|
    requires StackOk(shapes, axes, stack, pending, k) && |stack| >= 1
    requires pending[|stack| - 1].Size() > k
    ensures var m := |stack| - 1;
            var shapes' := SplitShapes(shapes, stack[m].node, pending[m], split, gap);
            var pending' := SplitPending(pending, gap);
            forall j, i :: 0 <= j < |pending'| && 0 <= i < |shapes'| && shapes'[i].lower.Some? ==>
              WithinOneSide(pending'[j].lo, pending'[j].hi, shapes'[i].span.lo, shapes'[i].span.Mid(), shapes'[i].span.hi)
  {
    var m := |stack| - 1;
    var t := stack[m].node;
    var sp := pending[m];
    var L := |shapes|;
    var shapes' := SplitShapes(shapes, t, sp, split, gap);
    var axes' := axes + [next, next];
    var stack' := SplitStack(stack, L, next);
    var pending' := SplitPending(pending, gap);
    ChildSpansSmaller(sp, gap);
    assert OnStack(shapes, axes, stack[m], pending[m]);
    forall j, i | 0 <= j < |pending'| && 0 <= i < |shapes'| && shapes'[i].lower.Some?
      ensures WithinOneSide(pending'[j].lo, pending'[j].hi, shapes'[i].span.lo, shapes'[i].span.Mid(), shapes'[i].span.hi)
    {
      if j < m {
        assert pending'[j] == pending[j];
        if i == t {
          assert pending[j].hi <= sp.lo;
        } else {
          assert shapes'[i] == shapes[i];
        }
      } else if i != t {
        assert shapes'[i] == shapes[i];
        assert WithinOneSide(sp.lo, sp.hi, shapes[i].span.lo, shapes[i].span.Mid(), shapes[i].span.hi);
      }
    }
  }

  lemma SplitKeepsSplits<T>(shapes: seq<Shape>, axes: seq<int>, stack: seq<StackEntry>, pending: seq<Span>,
                            lookup: seq<int>, lookup': seq<int>, entries: seq<T>, key: (T, int) -> real,
                            k: nat, gap: nat, next: int)
    requires k >= 2 && gap <= 1 && |shapes| == |axes|
    requires StackOk(shapes, axes, stack, pending, k) && SplitsOk(shapes, axes, lookup, entries, key)
    requires |stack| >= 1 && |lookup| == |entries|
    requires var sp := pending[|stack| - 1];
             var axis := stack[|stack| - 1].dimension;
             && sp.Within(|entries|) && sp.Size() > k
             && PermutedWithin(lookup, lookup', sp.lo, sp.hi)
             && 0 <= sp.Mid() < |lookup'| && 0 <= lookup'[sp.Mid()] < |entries|
             && Partitioned(lookup', sp.lo, sp.Mid(), sp.hi, KeysOf(entries, key, axis),
                            key(entries[lookup'[sp.Mid()]], axis))
    ensures var m := |stack| - 1;
            var sp := pending[m];
            SplitsOk(SplitShapes(shapes, stack[m].node, sp, lookup'[sp.Mid()], gap), axes + [next, next],
                     lookup', entries, key)
  {
    var m := |stack| - 1;
    var t := stack[m].node;
    var sp := pending[m];
    var split := lookup'[sp.Mid()];
    var shapes' := SplitShapes(shapes, t, sp, split, gap);
    var axes' := axes + [next, next];
    assert OnStack(shapes, axes, stack[m], pending[m]);
    forall i | 0 <= i < |shapes'| && shapes'[i].lower.Some?
      ensures MedianSplit(shapes'[i], axes'[i], lookup', entries, key)
    {
      if i == t {
        assert lookup'[sp.Mid()..sp.hi][0] == split;
      } else {
        assert i < |shapes| && shapes'[i] == shapes[i] && axes'[i] == axes[i];
        var sh := shapes[i];
        assert MedianSplit(sh, axes[i], lookup, entries, key);
        assert WithinOneSide(sp.lo, sp.hi, sh.span.lo, sh.span.Mid(), sh.span.hi);
        PartitionedKept(lookup, lookup', sp.lo, sp.hi, sh.span.lo, sh.span.Mid(), sh.span.hi,
                        KeysOf(entries, key, axes[i]), key(entries[sh.split], axes[i]));
        UpperKept(lookup, lookup', sp.lo, sp.hi, sh.span.lo, sh.span.Mid(), sh.span.hi, sh.split);
      }
    }
  }

  /** Replacing the top window by its two children uses up two of the nodes still to go. */
  lemma SplitKeepsCount(pending: seq<Span>, k: nat, gap: nat)
    requires k >= 2 && gap <= 1
    requires |pending| >= 1 && pending[|pending| - 1].Size() > k
    ensures PendingExtra(SplitPending(pending, gap), k, gap) + 2 == PendingExtra(pending, k, gap)
  {
    var m := |pending| - 1;
    var sp := pending[m];
    var pre := pending[..m];
    var p' := SplitPending(pending, gap);
    ChildSpansSmaller(sp, gap);
    assert p'[..m + 1] == pre + [sp.Lower(gap)];
    assert (pre + [sp.Lower(gap)])[..m] == pre;
  }

  /** Replacing the top window by its two children leaves the leaves still to come. */
  lemma SplitKeepsLeaves(pending: seq<Span>, k: nat, gap: nat)
    requires k >= 2 && gap <= 1
    requires |pending| >= 1 && pending[|pending| - 1].Size() > k
    ensures PendingLeaves(SplitPending(pending, gap), k, gap) == PendingLeaves(pending, k, gap)
  {
    var m := |pending| - 1;
    var sp := pending[m];
    var pre := pending[..m];
    var p' := SplitPending(pending, gap);
    ChildSpansSmaller(sp, gap);
    assert p'[..m + 1] == pre + [sp.Lower(gap)];
    assert (pre + [sp.Lower(gap)])[..m] == pre;
  }

  /** With the stack empty the loop has built the tree, and folded exactly its leaves. */
  lemma BuildDone<T>(shapes: seq<Shape>, axes: seq<int>, stack: seq<StackEntry>, pending: seq<Span>,
                     done: seq<Span>, lookup: seq<int>, entries: seq<T>, key: (T, int) -> real,
                     k: nat, gap: nat, dim: int)
    requires k >= 2 && gap <= 1 && dim != 0
    requires BuildInv(shapes, axes, stack, pending, done, lookup, entries, key, k, gap, dim)
    requires |stack| == 0
    ensures Built(shapes, axes, lookup, entries, key, k, gap, dim)
    ensures done == LeafSpans(Span(0, |entries|), k, gap)
  {
    assert done + [] == done;
    forall i | 0 <= i < |shapes|
      ensures shapes[i].lower.Some? <==> shapes[i].span.Size() > k
    {
      assert NodeOk(shapes, axes, i, |entries|, k, gap, dim);
    }
  }

  // ---------------------------------------------------------------------------------
  // Rewriting, partitions and statements about the leaves

  /** `BuildInv` holds of equal arguments alike. */
  lemma InvRewrite<T>(shapes: seq<Shape>, shapes': seq<Shape>, axes: seq<int>, axes': seq<int>,
                      stack: seq<StackEntry>, stack': seq<StackEntry>, pending: seq<Span>, pending': seq<Span>,
                      done: seq<Span>, lookup: seq<int>, lookup': seq<int>, entries: seq<T>, key: (T, int) -> real,
                      k: nat, gap: nat, dim: int)
    requires k >= 2 && gap <= 1 && dim != 0
    requires BuildInv(shapes, axes, stack, pending, done, lookup, entries, key, k, gap, dim)
    requires shapes' == shapes && axes' == axes && stack' == stack && pending' == pending && lookup' == lookup
    ensures BuildInv(shapes', axes', stack', pending', done, lookup', entries, key, k, gap, dim)
  {
  }

  /** What `std::nth_element` leaves behind is a partition of the window, on the keys of
      `axis`, around the entry at the middle. */
  lemma NthPartitions<T>(s: seq<int>, lo: int, mid: int, hi: int, entries: seq<T>, key: (T, int) -> real, axis: int,
                         keys: seq<real>)
    requires keys == KeysOf(entries, key, axis)
    requires 0 <= lo <= mid < hi <= |s|
    requires forall p :: lo <= p < hi ==> 0 <= s[p] < |keys|
    requires forall p :: lo <= p < mid ==> keys[s[p]] <= keys[s[mid]]
    requires forall p :: mid < p < hi ==> keys[s[mid]] <= keys[s[p]]
    ensures 0 <= s[mid] < |entries|
    ensures Partitioned(s, lo, mid, hi, keys, key(entries[s[mid]], axis))
  {
  }

  /** Every window of `leaves` lies in `[0, n)`. */
  ghost predicate LeavesWithin(leaves: seq<Span>, n: int)
  {
    forall j :: 0 <= j < |leaves| ==> leaves[j].Within(n)
  }

  lemma LeafSpansInside(n: nat, k: nat, gap: nat)
    requires k >= 2 && gap <= 1
    ensures LeavesWithin(LeafSpans(Span(0, n), k, gap), n)
  {
    LeafSpansTile(Span(0, n), k, gap);
  }

  /** The key read upside down, so that "never below" becomes "never above". */
  function Negated<T>(key: (T, int) -> real): (T, int) -> real
  {
    (t, d) => -key(t, d)
  }

  /** On every axis, `m` is on or below `zero` and every entry at a position of `leaves`. */
  ghost predicate BelowLeaves<T>(key: (T, int) -> real, m: T, zero: T, entries: seq<T>, leaves: seq<Span>)
  {
    && (forall d :: key(m, d) <= key(zero, d))
    && (forall j, i, d :: 0 <= j < |leaves| && leaves[j].lo <= i < leaves[j].hi && 0 <= i < |entries| ==>
          key(m, d) <= key(entries[i], d))
  }

  /** On every axis, `m` is on or above `zero` and every entry at a position of `leaves`. */
  ghost predicate AboveLeaves<T>(key: (T, int) -> real, m: T, zero: T, entries: seq<T>, leaves: seq<Span>)
  {
    && (forall d :: key(m, d) >= key(zero, d))
    && (forall j, i, d :: 0 <= j < |leaves| && leaves[j].lo <= i < leaves[j].hi && 0 <= i < |entries| ==>
          key(m, d) >= key(entries[i], d))
  }

  /** On axis `d`, the folded bound is the seed `T{}` or an entry at a position of `leaves`. */
  ghost predicate AttainedIn<T>(key: (T, int) -> real, m: T, zero: T, entries: seq<T>, leaves: seq<Span>, d: int)
  {
    key(m, d) == key(zero, d) ||
    exists j, i :: 0 <= j < |leaves| && leaves[j].lo <= i < leaves[j].hi && 0 <= i < |entries| &&
                   key(m, d) == key(entries[i], d)
  }
}
