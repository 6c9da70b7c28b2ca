# kd-tree construction, bounds and mesh bookkeeping in Dafny

This project models the core of a small C++ geometry library and proves properties about it. It covers:

- the two kd-tree builders `KdTree<T, _Dim>` and `PointKdTree<T, _Dim>`;
- the `BoundT<T>` interval and the integer helpers they depend on;
- the point and vector types the trees are written for (`Point2D`, `Point3D`, `Linear::Vector2` and `Linear::Vector3`, and the `Math` vectors);
- the bookkeeping parts of `Mesh`, `MeshAttrib` and `MeshOpGroup`.

Both builders share the same steps:

- clamp the leaf threshold to at least 2;
- give up when there are fewer entries than the threshold;
- reserve a node store;
- fill a lookup array with `0..n-1`;
- run an explicit LIFO stack of (node, axis) entries.

Each entry popped off the stack is either:

- a **leaf**: its bound is folded into `min_` and `max_`;
- a **split**: `std::nth_element` partitions the node's window of the lookup array on its axis. The entry at the middle becomes the node's split, and two children are appended and pushed on the next axis.

The model keeps that shape:

- The construction loop is a `while` loop over a stack (`KdTree.Build`, `PointKdTree.Build`).
- The lookup array is a Dafny `array` that a verified selection routine (`StdAlgorithm.NthElement`) reorders in place.
- The node store is a sequence of nodes that name their children by position.
- The tree objects are classes whose constructor runs the builder.

The loop invariant is stated once, in `KdShape`, over a ghost view of the node store. It says:

- every node's window lies in `[0, n)` and its axis in `[0, |_Dim|)`;
- a node has children exactly when it holds more than `k` entries;
- the children sit next to each other, cover the lower and upper windows, and carry the next axis;
- every split has the median property on its axis;
- the lookup array is a permutation of `0..n-1`;
- the node count matches a closed recursive count;
- `min_` and `max_` are the fold of the leaves popped so far.

The same invariant carries both builders. They differ by one parameter, the gap below the middle.

The model reproduces three places where the code does not do what the design evidently wants, and proves what follows from them:

- **`KdRange::GetLower` stops at `Middle() - 1`.** The entry just below the median lies in no child, so no leaf folds it into `min_` or `max_` (`KdTree.ChildrenLeaveGap`, `KdTree.RootGapUncovered`, `Point2D.MaxMissesSkippedEntry`).
- **`PointKdTree::ComputeBound` loops while `i < range.Min()`, which is never true.** A leaf's bound is its first entry only (`PointKdTree.ComputeBound`, `PointKdTree.MaxSeesOnlyFirstEntry`).
- **Both trees seed `min_` and `max_` with a default-constructed `T`.** The origin is therefore always folded in (`Point2D.MinKeepsSeed`).

`ComputeBound` folds entries by their position in the entry vector, not through the lookup array. The model does the same.

Each of the three is also modelled as evidently intended, with the intended property proved (see "## Findings"). The construction invariant is stated for both values of the gap, so the gapless lower child (`KdTree.IntendedChildrenTile`) is its gap-0 instance, the one the point tree already uses.

`BoundT` mixes floating point into integer bounds. `Center()` converts the size to `double`, and `Split` multiplies the size by a `float` ratio. The model rounds the integer to the nearest value with 53 or 24 significant bits, ties to even (`Types.RoundToBits`), and then truncates toward zero. Up to `2^24` the `float` cut at one half is exactly the center (`Bound.HalfSplitAtCenter`). Beyond that the two part (`Bound.FloatSplitOffCenter`).

Further facts the code fixes and the model keeps:

- `IsLeaf` answers `false` for every node.
- The assertion guarding `BoundT::Split` holds for every real ratio.
- `Mesh::GetVertex(polygon, vertex)` reads `positions_` at the polygon's offset and never reads `vertices_`.

`Range` is taken to be `BoundT<Index>`. Primitive/Range.hpp is not part of this model.

## Model

| member | source | states |
|---|---|---|
| Types.IndexLiteral | include/Primitive/Types.hpp:29 | the `_i` literal turns a non-negative literal into an `Index` of the same value |
| Types.Min | include/Primitive/Types.hpp:34 | the result is at most both arguments and is one of them; on a tie it is the first argument |
| Types.Max | include/Primitive/Types.hpp:35 | the result is at least both arguments and is one of them; on a tie it is the first argument |
| Types.MinReal | include/Primitive/Types.hpp:37 | the real `min` is at most both arguments and is one of them |
| Types.MaxReal | include/Primitive/Types.hpp:38 | the real `max` is at least both arguments and is one of them |
| Types.TruncDiv | include/Acceleration/KdTree.hpp:48 | C++ signed division: the remainder `a - q*b` takes the sign of `a` and is smaller in magnitude than `b` |
| Types.TruncReal | include/Primitive/Bound.hpp:25 | `static_cast` of a real to an integer truncates toward zero: the result is within one of `x`, on the side of zero |
| Types.RoundToBitsExact | include/Primitive/Bound.hpp:25 | every integer from 0 to `2^p` converts to a `p`-bit floating value unchanged; for `double` and `float` that is up to `2^53` and `2^24` |
| Types.RoundToBitsBinade | include/Primitive/Bound.hpp:45 | between `2^p` and `2^(p+1)` the representable values are the even integers: an even integer converts unchanged, and an odd one goes to the neighbour that is a multiple of four (ties to even) |
| Types.RoundToBitsBelowTwice | include/Primitive/Bound.hpp:45 | converting a non-negative integer gives a non-negative value, and below twice the integer when it is positive |
| Bound.BoundT.UnionPoint | include/Primitive/Bound.hpp:30-33 | the grown bound contains the old bound and the point, and each end is either the old end or the point |
| Bound.BoundT.Union | include/Primitive/Bound.hpp:35-38 | the grown bound contains both bounds, and each end is one of the two matching ends |
| Bound.BoundT.Split | include/Primitive/Bound.hpp:40-50 | the halves start at `Min()`, end at `Max()` and share the cut. For a non-negative ratio the cut is at or after `Min()`. For a ratio up to one half it is at or before `Max()` at every size. For a ratio up to one that holds only while the size converts to `float` exactly (up to `2^24`) |
| Bound.CutInside | include/Primitive/Bound.hpp:44-45 | the cut offset, the length rounded to `float` times the ratio and truncated, is never negative for a non-negative ratio. It is at most the length for ratios up to one half, and for ratios up to one while the length is at most `2^24` |
| Bound.CenterIsMiddle | include/Primitive/Bound.hpp:24-25 | for a well-formed bound the center lies in `[Min, Max]`, strictly below `Max` when the bound is non-empty. While the size converts to `double` exactly (up to `2^53`) it is `Min() + Size()/2` |
| Bound.HalfSplitAtCenter | include/Primitive/Bound.hpp:40-50 | while the size converts to `float` exactly (up to `2^24`): `Split(0.5)` cuts at `Center()`; the halves have sizes `Size()/2` and `Size() - Size()/2`, so they cover the bound with no gap or overlap; for sizes of two or more both are non-empty and strictly smaller |
| Bound.FloatSplitOffCenter | include/Primitive/Bound.hpp:45 | for the bound `[0, 16777219)`, `Center()` is 8388609 but `Split(0.5)` cuts at 8388610, and `Split(1.0)` cuts at 16777220, past `Max()` |
| Bound.DoubleCenterOffMiddle | include/Primitive/Bound.hpp:25 | for a size of `2^53 + 3` the `double` conversion puts `Center()` one above `Min() + Size()/2` |
| Bound.SplitGuardAcceptsAll | include/Primitive/Bound.hpp:42 | the assertion `ratio >= 0 \|\| ratio <= 1` holds for every real ratio |
| LinearVector.Vector2.Fill | include/Linear/Vector.hpp:14-17 | every component read through `operator[]` is `vv` |
| LinearVector.Vector2.LessEq | include/Linear/Vector.hpp:69-73 | the early-exit comparison holds exactly when every component is at most the matching one |
| LinearVector.Vector3.Fill | include/Linear/Vector.hpp:87-90 | every component read through `operator[]` is `vv` |
| LinearVector.Vector3.LessEq | include/Linear/Vector.hpp:141-146 | the early-exit comparison holds exactly when every component is at most the matching one |
| LinearVector.Min2 | include/Linear/Vector.hpp:156 | on each axis the result is at most both components and equals one of them |
| LinearVector.Max2 | include/Linear/Vector.hpp:158 | on each axis the result is at least both components and equals one of them |
| LinearVector.Min3 | include/Linear/Vector.hpp:160-163 | on each axis the result is at most both components and equals one of them |
| LinearVector.Max3 | include/Linear/Vector.hpp:165-168 | on each axis the result is at least both components and equals one of them |
| LinearVector.MinMaxAreBounds2 | include/Linear/Vector.hpp:156-158 | under `operator<=`, `min(a, b)` is the greatest lower bound and `max(a, b)` the least upper bound of `a` and `b` |
| LinearVector.MinMaxAreBounds3 | include/Linear/Vector.hpp:160-168 | the same lattice facts for `Vector3` |
| MathVector2.Fill | include/Math/Vector2.hpp:9-12 | both components are `vv` |
| MathVector2.AtAliasesComponents | include/Math/Vector2.hpp:57-64 | `operator[](0)` is `x()` and `operator[](1)` is `y()` |
| MathVector2.Min | include/Math/Vector2.hpp:80-83 | on each axis the result is at most both components and equals one of them |
| MathVector2.Max | include/Math/Vector2.hpp:85-88 | on each axis the result is at least both components and equals one of them |
| MathVector3.Fill | include/Math/Vector3.hpp:12-15 | all three components are `vv` |
| MathVector3.AtAliasesComponents | include/Math/Vector3.hpp:60-69 | `operator[]` at 0, 1 and 2 is `x()`, `y()` and `z()` |
| MathVector3.Min | include/Math/Vector3.hpp:75-78 | on each axis the result is at most both components and equals one of them |
| MathVector3.Max | include/Math/Vector3.hpp:80-83 | on each axis the result is at least both components and equals one of them |
| StdAlgorithm.StdMin | include/Math/Point2D.hpp:27 | `std::min` is at most both arguments and is one of them |
| StdAlgorithm.StdMax | include/Math/Point2D.hpp:32 | `std::max` is at least both arguments and is one of them |
| StdAlgorithm.Iota | include/Acceleration/KdTree.hpp:136-137 | the sequence `0, 1, ..., n-1` |
| StdAlgorithm.FillIota | include/Acceleration/KdTree.hpp:136-137 | after `std::iota` the lookup array holds `0..n-1` in order |
| StdAlgorithm.PermutationValues | include/Acceleration/KdTree.hpp:162-167 | a permutation of `0..n-1` has length `n` and holds only valid entry indices, so the split read from it names an entry |
| StdAlgorithm.PermutedWithinWhole | include/Acceleration/KdTree.hpp:162-164 | reordering inside one window keeps the whole lookup array a permutation of what it was |
| StdAlgorithm.NthElement | include/Acceleration/KdTree.hpp:162-164 | `std::nth_element`: the window is a reordering of what it held, nothing outside it moves, nothing before `mid` compares greater than the element at `mid`, and nothing after it compares less |
| KdCommon.RoundToPower2 | include/Acceleration/KdTree.hpp:187-200 | for `1 <= n <= 2^63` the result is a power of two `r` with `r/2 < n <= r`; for `0` and for values above `2^63` the `size_t` wrap-arounds give `0` |
| KdCommon.SmearRight | include/Acceleration/KdTree.hpp:195-198 | once the top set bit of `n` is bit `b-1`, the `n \|= n >> i` loop sets every bit below it, giving `2^b - 1` |
| KdCommon.RoundToPower2IsLeast | include/Acceleration/PointKdTree.hpp:179-191 | no smaller power of two is at least `n`, so the result of `RoundToPower2` is the least such power |
| KdCommon.LeafThreshold | include/Acceleration/KdTree.hpp:101 | the clamped threshold is at least 2 and at least the request, and equals the request unless the request is below 2 |
| KdCommon.MaxNumNodes | include/Acceleration/KdTree.hpp:111 | the reserved capacity, computed modulo `2^64`, is never above `max(round_power - 1, 1)` |
| KdCommon.MaxNumNodesNoWrap | include/Acceleration/PointKdTree.hpp:100 | for fewer than `2^63` entries nothing wraps, and the capacity is `min(P - 1, 2n - P/2 - 1)` |
| KdCommon.NodeCountPairBound | include/Acceleration/PointKdTree.hpp:99-101 | a halving tree over `n` entries with leaves of at most two entries has at most `P - 1` and at most `2n - P/2 - 1` nodes, for the power of two `P` with `P/2 < n <= P` |
| KdCommon.NodeCountMonoInK | include/Acceleration/PointKdTree.hpp:140 | a larger leaf threshold never gives more nodes |
| KdCommon.NodeCountMonoInSize | include/Acceleration/PointKdTree.hpp:161-163 | more entries never give fewer nodes |
| KdCommon.NodeCountWithinCapacity | include/Acceleration/PointKdTree.hpp:99-101 | for every entry count below `2^63` and every leaf threshold of at least 2, the capacity reserved before the loop holds every node of the halving tree |
| KdCommon.FoldEntries | include/Acceleration/KdTree.hpp:211-215 | the `ComputeBound` loop returns `func` folded left over `entries[from..to)`, starting from `init`, and `init` itself when `from >= to` |
| KdCommon.FoldLeftLowers | include/Acceleration/KdTree.hpp:211-215 | folding a minimum-like `func` gives a value on or below the start and every folded element, on every axis |
| KdCommon.FoldLeftSelects | include/Acceleration/KdTree.hpp:211-215 | folding a `func` that picks an argument's coordinate gives, on each axis, the start's value or some folded element's value |
| KdCommon.StackEntry.NextDimension | include/Acceleration/KdTree.hpp:126 | `(dimension + 1) % _Dim` lies in `[0, \|_Dim\|)` and is `dimension + 1` when that is still in range |
| KdCommon.PartitionedKept | include/Acceleration/KdTree.hpp:162-164 | a later `nth_element` on a window that stays on one side of an earlier split keeps that earlier split's partition |
| KdCommon.UpperKept | include/Acceleration/KdTree.hpp:162-167 | such a later reordering also keeps the earlier split entry in the upper half of its window |
| KdShape.ChildSpansSmaller | include/Acceleration/KdTree.hpp:170-171 | both children of a window of two or more entries are strictly smaller and inside it; the lower one ends `gap` positions before the upper one starts |
| KdShape.NodeCountBelowHalves | include/Acceleration/KdTree.hpp:170-171 | the gap never adds nodes: the node count is at most that of the halving tree, and equal to it without a gap |
| KdShape.LeafSpansTile | include/Acceleration/PointKdTree.hpp:161-169 | the leaves lie inside the window and hold at most `k` entries each; they run from its top down to its bottom, each ending where the next starts, or one position before it with a gap |
| KdShape.LeafSpansPartition | include/Acceleration/PointKdTree.hpp:161-164 | without a gap every entry position lies in exactly one leaf |
| KdShape.HeightBound | include/Acceleration/KdTree.hpp:139-177 | a window of at most `k * 2^h` positions is split at most `h` levels deep, with or without the gap: the depth is at most `ceil(log2(n/k))` |
| KdShape.HeightAbove | include/Acceleration/KdTree.hpp:170-171 | the bound is tight: a window of more than `k * 2^h` positions is split more than `h` levels deep |
| KdShape.BuildInit | include/Acceleration/KdTree.hpp:115-137 | after creating the root, pushing it on axis 0 and filling the lookup array, the loop invariant holds |
| KdShape.BuildLeaf | include/Acceleration/KdTree.hpp:149-156 | popping a leaf moves its window from the stack to the folded leaves and keeps the invariant |
| KdShape.TopEntry | include/Acceleration/KdTree.hpp:142-146 | the popped entry names an unsplit node whose window lies in `[0, n)` on an axis in `[0, \|_Dim\|)`; a node larger than `k` leaves room for two more nodes |
| KdShape.BuildSplit | include/Acceleration/KdTree.hpp:160-177 | a split step keeps the invariant: node count, stack order, the median property of every split, and the permutation |
| KdShape.BuildDone | include/Acceleration/KdTree.hpp:139-178 | with the stack empty the tree is built, and the folded leaves are exactly the leaves of the tree |
| KdShape.NthPartitions | include/Acceleration/KdTree.hpp:160-167 | after `nth_element` the window is partitioned on the node's axis around the entry at the middle, which is the recorded split |
| KdTree.KdRange.Of | include/Acceleration/KdTree.hpp:34-39 | `KdRange(v)` starts at 0 and has `v.size()` positions |
| KdTree.MiddleInside | include/Acceleration/KdTree.hpp:47-48 | `Size() == end - beg`; for a non-empty range, `Middle() == beg + Size()/2` lies in `[beg, end)` |
| KdTree.ChildrenLeaveGap | include/Acceleration/KdTree.hpp:50-51 | `GetUpper()` is exactly `[Middle, end)` and `GetLower()` is `[beg, Middle-1)`; position `Middle-1` is in the range but in neither child, and a range of three entries gets an empty lower child |
| KdTree.IntendedChildrenTile | include/Acceleration/KdTree.hpp:50-51 | with `GetLower()` ending at `Middle()`, the children are the gapless lower and upper windows: they meet at `Middle()`, every position of the range lies in exactly one of them, and both are non-empty and strictly smaller |
| KdTree.KdNode.Of | include/Acceleration/KdTree.hpp:63-67 | a new node has its range, the split `INDEX_INVALID` and no children |
| KdTree.KdNode.IsLeaf | include/Acceleration/KdTree.hpp:81 | `IsLeaf` is false for every node |
| KdTree.ComputeBound | include/Acceleration/KdTree.hpp:202-218 | `T{}` for an empty range; otherwise `func` folded over the entries at positions `[beg, end)`, starting from `entries[beg]` |
| KdTree.BoundFoldBelow | include/Acceleration/KdTree.hpp:151-152 | with a minimum-like `KdMin`, `min_` lies on or below `T{}` and below every entry at a leaf position, on every axis |
| KdTree.BoundFoldAbove | include/Acceleration/KdTree.hpp:154-155 | with a maximum-like `KdMax`, `max_` lies on or above `T{}` and above every entry at a leaf position, on every axis |
| KdTree.BoundFoldAttained | include/Acceleration/KdTree.hpp:151-155 | on each axis, `min_` or `max_` is the seed's value or the value of an entry at a leaf position; nothing outside the leaves reaches it |
| KdTree.FoldKeepsSeed | include/Acceleration/KdTree.hpp:227-228 | when no entry lies below the seed `T{}`, `min_` ends at the seed's value on every axis |
| KdTree.IntendedBoundExact | include/Acceleration/KdTree.hpp:227-228 | seeding the fold with the first entry instead of `T{}`, over the gapless leaves: for a minimum-like `func` that selects an argument, the bound is at or below every entry on the axis and equal to one of them |
| KdTree.IntendedBoundsExact | include/Acceleration/PointKdTree.hpp:218-219 | with that seed, `min_` is the least and `max_` the greatest value of the entries on the axis, each attained by an entry |
| KdTree.RootGapUncovered | include/Acceleration/KdTree.hpp:50 | the position just below the root's middle lies in no leaf, so neither `min_` nor `max_` sees the entry there |
| KdTree.SplitLinks | include/Acceleration/KdTree.hpp:167-177 | `SetSplit`, the two `AppendNode` calls, `SetChildren` and the two pushes, applied to the node store, restore the loop invariant |
| KdTree.LeafNode | include/Acceleration/KdTree.hpp:149-157 | the leaf step pops the window off the pending stack, appends it to the folded leaves, folds this leaf's `ComputeBound` results into `min_` and `max_`, and keeps the invariant |
| KdTree.SplitNode | include/Acceleration/KdTree.hpp:159-177 | the split step appends exactly two nodes and keeps the invariant |
| KdTree.LinkHalves | include/Acceleration/KdTree.hpp:167-177 | linking and pushing the two halves appends exactly two nodes and keeps the invariant |
| KdTree.Build | include/Acceleration/KdTree.hpp:99-179 | below the clamped threshold nothing is built and the bounds stay `T{}`; otherwise the node store is the finished tree over a permutation lookup array, within the reserved capacity for every entry count below `2^63`, and `min_`/`max_` fold the leaf bounds in popping order |
| KdTree.KdTree.constructor | include/Acceleration/KdTree.hpp:99-179 | the constructed tree satisfies `Valid()` (the state `Build` describes) with the clamped threshold |
| KdTree.KdTree.Root | include/Acceleration/KdTree.hpp:181 | null exactly when there are fewer entries than the threshold; otherwise a node covering every entry, split exactly when there are more entries than the threshold |
| KdTree.KdTree.GetMin | include/Acceleration/KdTree.hpp:183 | `T{}` below the threshold; with a componentwise `KdMin`, on or below `T{}` and every entry at a leaf position |
| KdTree.KdTree.GetMax | include/Acceleration/KdTree.hpp:184 | `T{}` below the threshold; with a componentwise `KdMax`, on or above `T{}` and every entry at a leaf position |
| Point2D.KdMin | include/Math/Point2D.hpp:25-28 | each coordinate is at most both matching coordinates and is one of them |
| Point2D.KdMax | include/Math/Point2D.hpp:30-33 | each coordinate is at least both matching coordinates and is one of them |
| Point2D.KdComparator.Less | include/Math/Point2D.hpp:43-54 | compares `y` on dimension 1 and `x` on dimension 0 and on every other dimension |
| Point2D.Policy | include/Math/Point2D.hpp:10-14 | the `T{}` the tree seeds its bounds with is the default point, the origin |
| Point2D.PolicyLaws | include/Math/Point2D.hpp:25-33 | `KdMin` never rises above and `KdMax` never falls below either argument on any comparator axis |
| Point2D.ComparatorOrdersKeys | include/Math/Point2D.hpp:43-54 | the comparator is irreflexive and transitive, and it is the order of the keys of its dimension |
| Point2D.PolicySelects | include/Math/Point2D.hpp:25-33 | on every axis `KdMin` and `KdMax` return one of their arguments' coordinates |
| Point2D.MaxMissesSkippedEntry | include/Acceleration/KdTree.hpp:50 | for every leaf threshold below `n`: when the point at position `n/2 - 1` alone has the largest positive `x`, the tree's `max_` ends strictly below it on `x` |
| Point2D.MinKeepsSeed | include/Acceleration/KdTree.hpp:227-228 | for every leaf threshold: when no point has a negative coordinate, `min_` is the origin |
| Point3D.KdMin | include/Math/Point3D.hpp:25-31 | each coordinate is at most both matching coordinates and is one of them |
| Point3D.KdMax | include/Math/Point3D.hpp:33-39 | each coordinate is at least both matching coordinates and is one of them |
| Point3D.KdComparator.Less | include/Math/Point3D.hpp:49-62 | compares `y` on dimension 1, `z` on dimension 2, and `x` on dimension 0 and every other dimension |
| Point3D.Policy | include/Math/Point3D.hpp:9-14 | the `T{}` the tree seeds its bounds with is the default point, the origin |
| Point3D.PolicyLaws | include/Math/Point3D.hpp:25-39 | `KdMin` never rises above and `KdMax` never falls below either argument on any comparator axis |
| Point3D.ComparatorOrdersKeys | include/Math/Point3D.hpp:49-62 | the comparator is irreflexive and transitive, and it is the order of the keys of its dimension |
| Point3D.PolicySelects | include/Math/Point3D.hpp:25-39 | on every axis `KdMin` and `KdMax` return one of their arguments' coordinates |
| Point3D.MaxMissesSkippedEntry | include/Acceleration/KdTree.hpp:50 | for every leaf threshold below `n`: when the point at position `n/2 - 1` alone has the largest positive `x`, `max_` ends strictly below it on `x` |
| Point3D.MinKeepsSeed | include/Acceleration/KdTree.hpp:227-228 | for every leaf threshold: when no point has a negative coordinate, `min_` is the origin |
| PointKdTree.Vector2Traits | include/Linear/Vector.hpp:12-17 | `DIM` is 2, `T{}` is the zero vector, and the comparator's coordinate is `operator[]` |
| PointKdTree.Vector3Traits | include/Linear/Vector.hpp:85-90 | `DIM` is 3, `T{}` is the zero vector, and the comparator's coordinate is `operator[]` |
| PointKdTree.VectorTraitsLaws | include/Linear/Vector.hpp:156-168 | the free `min` and `max` on both vector types are componentwise lower and upper bounds on every axis |
| PointKdTree.IndexedPointKdComparator.constructor | include/Acceleration/PointKdTree.hpp:17-21 | the comparator holds the entries and starts on dimension `Index{}`, 0 |
| PointKdTree.IndexedPointKdComparator.SetDimension | include/Acceleration/PointKdTree.hpp:23-28 | requires `d < T::DIM`, as the assertion does, and switches the dimension to `d` |
| PointKdTree.IndexedPointKdComparator.Less | include/Acceleration/PointKdTree.hpp:30-36 | for indices inside the entries, the comparator is the order of the keys of the current dimension |
| PointKdTree.ComparatorIsStrict | include/Acceleration/PointKdTree.hpp:30-36 | the comparator is irreflexive and transitive |
| PointKdTree.PointKdNode.Of | include/Acceleration/PointKdTree.hpp:51-55 | a new node has its range, the split `INDEX_INVALID` and no children |
| PointKdTree.PointKdNode.IsLeaf | include/Acceleration/PointKdTree.hpp:69 | `IsLeaf` is false for every node |
| PointKdTree.HalvesAreChildren | include/Acceleration/PointKdTree.hpp:153-164 | while the window converts to `float` exactly (up to `2^24` positions), `Center()` is the window's middle and the halves of `Split(0.5)` are the gapless lower and upper children |
| PointKdTree.ComputeBound | include/Acceleration/PointKdTree.hpp:193-208 | `T{}` for an empty range; otherwise exactly `entries[range.Min()]`, since the loop never runs |
| PointKdTree.FirstFoldBelow | include/Acceleration/PointKdTree.hpp:142-143 | with a minimum-like `min`, `min_` lies on or below `T{}` and the first entry of every non-empty leaf |
| PointKdTree.FirstFoldAbove | include/Acceleration/PointKdTree.hpp:145-146 | with a maximum-like `max`, `max_` lies on or above `T{}` and the first entry of every non-empty leaf |
| PointKdTree.MaxSeesOnlyFirstEntry | include/Acceleration/PointKdTree.hpp:202 | for the entries (3, 3) and (5, 5) in one leaf, `max_` is (3, 3): the larger entry is never looked at |
| PointKdTree.IntendedComputeBound | include/Acceleration/PointKdTree.hpp:202 | with the loop running to `range.Max()`, the bound is `func` folded over the whole window from its first entry: for a minimum-like `func` at or below every entry of the window, and for one that selects an argument equal to one of them |
| PointKdTree.AppendNode | include/Acceleration/PointKdTree.hpp:210-216 | requires a free slot, as the assertion does; the new node goes at the end, at position `size()` |
| PointKdTree.StoreHalves | include/Acceleration/PointKdTree.hpp:158-164 | setting the split, appending the two halves of `Split(0.5)` and setting the children extends the store's shape by exactly the two gapless children of the node |
| PointKdTree.SplitLinks | include/Acceleration/PointKdTree.hpp:158-169 | `SetSplit`, appending both halves, `SetChildren` and the two pushes, applied to the node store, restore the loop invariant |
| PointKdTree.LeafNode | include/Acceleration/PointKdTree.hpp:140-148 | the leaf step pops the window off the pending stack, appends it to the folded leaves, folds this leaf's first entry into `min_` and `max_`, and keeps the invariant |
| PointKdTree.SplitNode | include/Acceleration/PointKdTree.hpp:150-169 | the split step sets the comparator's dimension, appends exactly two nodes and keeps the invariant |
| PointKdTree.LinkHalves | include/Acceleration/PointKdTree.hpp:158-169 | linking and pushing the two halves appends exactly two nodes within the capacity and keeps the invariant |
| PointKdTree.Build | include/Acceleration/PointKdTree.hpp:88-171 | for up to `2^24` entries: below the clamped threshold nothing is built and the bounds stay `T{}`; otherwise the node store is the finished tree over a permutation lookup array, every append fits the reserved capacity, and `min_`/`max_` fold the first entries of the leaves |
| PointKdTree.PointKdTree.constructor | include/Acceleration/PointKdTree.hpp:88-171 | for up to `2^24` entries the constructed tree satisfies `Valid()` (the state `Build` describes) with the clamped threshold |
| PointKdTree.PointKdTree.Root | include/Acceleration/PointKdTree.hpp:173 | null exactly when there are fewer entries than the threshold; otherwise a node covering every entry, split exactly when there are more entries than the threshold |
| PointKdTree.PointKdTree.LeavesPartition | include/Acceleration/PointKdTree.hpp:161-164 | in a built tree every entry position lies in exactly one leaf |
| PointKdTree.PointKdTree.GetMin | include/Acceleration/PointKdTree.hpp:175 | `T{}` below the threshold; with a componentwise `min`, on or below `T{}` and the first entry of every non-empty leaf |
| PointKdTree.PointKdTree.GetMax | include/Acceleration/PointKdTree.hpp:176 | `T{}` below the threshold; with a componentwise `max`, on or above `T{}` and the first entry of every non-empty leaf |
| Mesh.PolygonOffsets | include/Geometry/Mesh.hpp:108-113 | the offsets are the prefix sums of the counts: the first is 0, and each next one is the previous offset plus the previous polygon's count |
| Mesh.PolygonSlotsDisjoint | include/Geometry/Mesh.hpp:108-113 | with no negative count, the polygons' vertex slots are consecutive and disjoint and end within the total vertex count |
| Mesh.Emplace | include/Geometry/Mesh.hpp:43-44 | `std::map::emplace`: a present key keeps its value, an absent key gets the new one, and no other key changes |
| Mesh.EmplaceTwice | include/Geometry/Mesh.hpp:43-44 | emplacing again under the same name changes nothing, whatever the new value |
| Mesh.Mesh.WithOffsets | include/Geometry/Mesh.hpp:94-101 | the four arrays are stored as given, and there are no attributes yet |
| Mesh.Mesh.constructor | include/Geometry/Mesh.hpp:103-115 | positions, counts and indices are stored, and the offsets are the prefix sums of the counts |
| Mesh.Mesh.GetPolygonVertex | include/Geometry/Mesh.hpp:27 | with prefix-sum offsets, it returns the position just after all vertices of the earlier polygons, `vertex` further on, and never reads `vertices_` |
| Mesh.Mesh.CreateAttribute | include/Geometry/Mesh.hpp:35-63 | for rank `Point`, `Polygon` or `Mesh`, emplaces into that rank's registry with `NumPoints()`, `NumPolygons()` or 1 elements and returns what the name now holds; other registries and the geometry do not change; any other rank returns null and changes nothing |
| MeshAttrib.StorageConversionBijective | include/Geometry/MeshAttrib.hpp:72-94 | `TypeToStorageConverter` is a bijection between the four specialised types and the four storage tags |
| MeshAttrib.MeshNumericAttrib.Sized | include/Geometry/MeshAttrib.hpp:111-115 | `size` value-initialised elements, the given rank, and the storage tag of `element`, the element type the caller names for `T` |
| MeshAttrib.MeshNumericAttrib.FromData | include/Geometry/MeshAttrib.hpp:117-121 | the data is the given vector and the size is its length, with the storage tag of `element`, the element type the caller names for `T` |
| MeshAttrib.MeshNumericAttrib.Header | include/Geometry/MeshAttrib.hpp:41-52 | `GetRank()`, `GetStorage()` and `GetSize()` are the constructor's rank, the tag of `T` and the number of elements |
| MeshAttrib.MeshNumericAttrib.Set | include/Geometry/MeshAttrib.hpp:124 | writing through the non-const `Get(i)` changes element `i` only, and the header stays consistent |
| MeshOp.RunWithoutError | include/Geometry/MeshOp.hpp:38-47 | with no operation failing, every operation runs in append order, `Warning`s included, and the group reports `Success` |
| MeshOp.RunStopsAtFirstError | include/Geometry/MeshOp.hpp:40-43 | at the first `Error` the group reports `Error` with the mesh that operation left, and no later operation runs |
| MeshOp.RunReportsError | include/Geometry/MeshOp.hpp:38-47 | the group never reports `Warning`; it reports `Error` exactly when some operation fails on the mesh it is handed |
| MeshOp.MeshOpGroup.constructor | include/Geometry/MeshOp.hpp:50 | a new group has no operations |
| MeshOp.MeshOpGroup.Append | include/Geometry/MeshOp.hpp:31-36 | the new operation goes at the end, earlier ones stay in place, and it is handed back |
| MeshOp.MeshOpGroup.Run | include/Geometry/MeshOp.hpp:38-47 | the loop with its early return computes the run that `RunFrom` defines; an empty group reports `Success` |

## Left out

- Floating point in coordinates: `Real` is `float` in the source and exact `real` here. Coordinates are only compared and passed through `min`/`max`, so rounding does not arise there. NaN coordinates are not modelled.
- Bound.BoundT.Split: the length is rounded to `float`, but its product with the ratio is taken exactly before truncation. In the source that product is a `float` product at every length. A ratio that is not a power of two can round it once more: length 31 and the `float` 0.12903225 give 3.99999988, which rounds to 4. The model then cuts one below the source. A power-of-two ratio such as the one half the trees pass never rounds again. The bounds the ensures state still hold for the source's cut: rounding is monotone, and the values the product is compared with (half the rounded length, the length up to `2^24`) are `float` values.
- Bound.SplitGuardAcceptsAll: NaN ratios, for which the assertion fails, are not modelled.
- Bound.HalfSplitAtCenter: stated only up to `2^24`. Beyond that the cut parts from the center, as `Bound.FloatSplitOffCenter` shows.
- `Index` (`long long`) is unbounded here. Offsets, sizes and node positions all stay far below `2^63` for the inputs the trees accept.
- Mesh.PolygonOffsets: the running offset is not wrapped at `2^63`, so a mesh whose counts sum past `Index` range is not modelled.
- Pointers: nodes name their children, and stack entries name their nodes, by position in the node store. Pointer stability across reallocation is not modelled.
- `std::vector` capacity: the reserved capacity is exactly `max_num_nodes`. An implementation may reserve more, which only makes the `AppendNode` assertion easier to meet.
- KdTree.Build: entry counts of `2^63` or more are not accepted, since they are not `KdIndex` values.
- PointKdTree.Build: only up to `2^24` entries. Above that, the `float` cut of `Split(0.5)` can fall one past the `double` center that `nth_element` partitions around (`Bound.FloatSplitOffCenter`). The children then no longer meet at the median position, and the construction invariant is not stated for that case.
- PointKdTree.PointKdTree.constructor: the same `2^24` limit as `PointKdTree.Build`.
- PointKdTree.Vector3Traits: the traits take `min` and `max` as functions of two `const Vector3&`, the function-pointer type `ComputeBound` expects. As written, `min` on `Linear::Vector3` (and on `Math::Vector3`) takes its second argument by value, so `PointKdTree<Vector3>` does not compile.
- KdShape.HeightBound: the depth is stated for `Height`, which is defined by the same child windows as the construction invariant, and not read off the finished node store.
- PointKdTree.Build: `|_Dim| <= T::DIM` is required, because `SetDimension` asserts `d < T::DIM` for every axis the loop reaches. `_Dim == 0` is excluded in both trees, because `% _Dim` is undefined there.
- `std::nth_element` is a verified selection routine with the same postcondition. Its complexity and the exact order it leaves behind are not modelled; only the partition is relied on.
- The comparators are modelled by the keys they compare, one real per entry and axis.
- `KdMin`, `KdMax` and `KdComparator` are given to `KdTree` as a policy value. Template specialisation is replaced by passing the functions. `T{}` is the policy's `zero`.
- A coordinate read through `operator[]` outside `[0, DIM)` is undefined behaviour in the source. `SetDimension` keeps the point tree away from it, and the model gives such an axis the value 0 only to stay total.
- `Mesh::ComputeBBox` and `bbox_` are not modelled. They involve floating-point bounds seeded with `REAL_MAX`/`REAL_MIN`, and the loop unions into `bbox_` rather than into its local.
- `Mesh::NumPoints`, `NumPolygons`, `NumPolygonVertices` and `GetVertex(vertex)` are plain reads of the stored sequences, with no contract beyond their bodies.
- `CreateAttribute` does not compile as written: `MeshAttrib::Rank` does not exist, and the constructor arity does not match `MeshNumericAttrib`. The registries store the `MeshAttrib` header (rank, storage, size) that the evident intent creates.
- The `Mesh&` back-reference of `MeshAttrib` is not modelled.
- MeshAttrib.MeshNumericAttrib.Sized: requires `size >= 0`. A negative size would make `resize` throw, and exceptions are not modelled.
- A `MeshOp` is a function from a mesh to a status and the mesh it leaves, instead of a virtual `Run(Mesh&)`. A group appended as an operation of another group is not modelled.
- Excluded as I/O, randomness or outside the core: random point generation, the `operator<<` printers, vector arithmetic (`+ - * /`, compound assignment, `dot`, `corss`, `normalize`, `Dot`, `Magnitude2`), MeshLinearOps, Sampling, the AABBox aliases and PointCloud.

## Findings

| source | as written | input that shows it | evidently intended | confidence | as-written member | corrected member |
|---|---|---|---|---|---|---|
| include/Acceleration/KdTree.hpp:50 | `GetLower()` is `[beg, Middle() - 1)`, so position `Middle() - 1` lies in neither child | a tree over 4 points with leaf threshold 2: the point at position 1 is in no leaf, so a largest `x` there is missing from `max_` | `GetLower()` is `[beg, Middle())`, so the children tile the range | high, not executed | KdTree.RootGapUncovered | KdTree.IntendedChildrenTile |
| include/Acceleration/PointKdTree.hpp:202 | the `ComputeBound` loop runs while `i < range.Min()` from `range.Min() + 1`, which is never true | the entries (3, 3) and (5, 5) in one leaf give a `max_` of (3, 3) | the loop runs while `i < range.Max()`, folding every entry of the leaf | high, not executed | PointKdTree.MaxSeesOnlyFirstEntry | PointKdTree.IntendedComputeBound |
| include/Acceleration/KdTree.hpp:227-228 | `min_` and `max_` start as `T{}`, the origin, and the origin is folded into both | points that all have positive coordinates give a `min_` of the origin, which no point has | start from the first leaf's bound, so `min_` and `max_` are attained by entries | medium, not executed | Point2D.MinKeepsSeed | KdTree.IntendedBoundsExact |
