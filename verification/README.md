# Index-aggregation structures in Dafny

This project models three fixed-size index-aggregation structures from a small C++
header library:
- a segment tree with lazy range addition (`SegmentTree<T>`);
- a Fenwick tree, also called a binary indexed tree (`BinaryIndexTree<T>`);
- a disjoint-set forest with path compression and union by rank (`DisjointSet<T>`).

Each model is a pure functional one. The C++ arrays are Dafny sequences, passed to and
returned by functions; the Fenwick tree's `Query`, `Update` and `Change` are methods that
keep the source's loops. Each structure has a ghost abstraction of what it represents:
- the element sequence `a[0..n-1]` for the segment tree;
- the 1-based elements `a[1..n]` for the Fenwick tree;
- the representative `Root(x)` of every element for the disjoint set.

Every operation is proved to keep the representation invariant and to have the promised
effect on the abstraction.

Files and modules:
- `seq_sum.dfy` (`SeqSum`): sums over integer sequences.
  - `Sum` is the plain total.
  - `SumIn(a, off, lo, hi)` is the sum of the elements whose position lies in `[lo, hi]`.
  - `AddIn(a, off, lo, hi, x)` adds `x` to exactly those elements.
  - `Times(k, x)` is `k * x` as repeated addition.
- `tree_layout.dfy` (`TreeLayout`): the heap numbering of a segment tree.
  - `Left(v) = 2v+1` and `Right(v) = 2v+2`.
  - `CeilLog2`, and `NodeCount(n) = 2 * 2^ceil(log2 n) - 1`.
  - `Below(u, v)`: `u` lies in the subtree of `v`.
- `segment_tree.dfy` (`SegmentTree`): the state is `Tree(n, tree, lazy)`.
  - The abstraction is `Elements(t)`; `Elems` reads the elements below one node.
  - The lazy invariant is `Inv`/`Valid`. Every inner node holds the sum of its children's
    aggregates `tree[c] + len(c) * lazy[c]`.
  - The operations are `Flush`, `Push`, `QueryNode`, `UpdatePointNode`,
    `UpdateRangeNode`, `ConstructNode` and `Reset`.
  - The entry points are `Empty`, `Build`, `Query`, `UpdatePoint` and `UpdateRange`.
- `binary_index_tree.dfy` (`BinaryIndexTree`): the state is `Fenwick(n, tree)` with
  `n + 1` slots.
  - `LowBit` is defined arithmetically.
  - `Represents(f, a)`: slot `k` holds `a[k-LowBit(k)+1] + ... + a[k]`.
  - `Query`, `Update` and `Change` are methods with the source's loops.
- `disjoint_set.dfy` (`DisjointSet`): the state is `Forest(parent, rnk)`.
  - The rank invariant is `Wf`.
  - `Root` is the representative of an element. It terminates on the measure
    `MaxRank(rnk) - rnk[x]`, because ranks rise strictly along parent paths.
  - The operations are `Find` (with path compression), `Merge`/`Link` (union by rank),
    `Init` and `Reset`.

Each structure's `Size` returns its fixed element count, as `size()` of
`data_structure.h` does. Every operation keeps it (`Size(...) == Size(t)` in the
correctness lemmas).

The segment tree's `query` and point `update` walk the tree breadth-first with a queue.
The model walks it by recursion instead: the left subtree first, then the right. Each
node is flushed before it is read or split, and a flush touches only the node and its
two children. The frame lemmas (`...Frame`) state this: an operation on the subtree of
`v` changes no slot outside it. So the two orders visit the same nodes with the same
effect.

## Model

| member | source | states |
|---|---|---|
| TreeLayout.CeilLog2Smallest | segment_tree.h:39 | `ceil(log2 n)` is the exponent of the smallest power of two that is at least `n`, the integer form of the array sizing |
| SegmentTree.ChildNodes | segment_tree.h:39 | the children `2v+1`, `2v+2` of an inner node are nodes one level down, over `[s, mid]` and `[mid+1, e]`, and lie below `2 * 2^ceil(log2 n) - 1` |
| SegmentTree.ChildInRange | segment_tree.h:95-99 | the child slots a flush of a non-leaf node touches exist in both arrays |
| TreeLayout.ChildSubtrees | segment_tree.h:179-180 | the subtrees of the two children are disjoint, lie in the subtree of `v` and do not contain `v` |
| SeqSum.TimesIsProduct | segment_tree.h:94 | the repeated addition used for `(e - s + 1) * lazy[v]` equals the product |
| SegmentTree.Empty | segment_tree.h:34-42 | the size-only constructor has `n` elements and two arrays of `2 * 2^ceil(log2 n) - 1` slots, all zero; what they represent is `EmptyCorrect` |
| SegmentTree.Build | segment_tree.h:53-62 | construction from `arr` has `len(arr)` elements, correctly sized arrays, and leaves `lazy` as freshly allocated; what it represents is `BuildCorrect` |
| SegmentTree.Flush | segment_tree.h:92-101 | applying the pending addition of `v` leaves `lazy[v]` zero and the array sizes kept; `FlushPreserves` shows that no element changes |
| SegmentTree.Push | segment_tree.h:168-176 | the covered-node step keeps the array sizes and `lazy[v]`; `PushCorrect` gives its effect on the elements |
| SegmentTree.QueryNode | segment_tree.h:81-112 | the query below `v` (flush, then covered, overlapping or disjoint) keeps the array sizes; its result is `QueryNodeSum` |
| SegmentTree.QuerySplit | segment_tree.h:104-109 | the overlapping case queries the left half, then the right, and adds; keeps the array sizes |
| SegmentTree.UpdatePointNode | segment_tree.h:114-145 | the point update below `v` keeps the array sizes; its effect is `UpdatePointNodeElems` |
| SegmentTree.UpdatePointSplit | segment_tree.h:114-145 | a node holding `i` visits both children, and only the one holding `i` takes `x`; keeps the array sizes |
| SegmentTree.UpdateRangeNode | segment_tree.h:153-182 | the range update below `v` keeps the array sizes; its effect is `UpdateRangeNodeElems` |
| SegmentTree.UpdateRangeSplit | segment_tree.h:153-182 | a partly covered node updates both halves and recomputes `tree[v]` from them; keeps the array sizes |
| SegmentTree.Query | segment_tree.h:81-112 | the entry point queries from the root over `[0, n-1]` and keeps the array sizes; its result is `QueryCorrect` |
| SegmentTree.UpdatePoint | segment_tree.h:114-145 | the entry point updates from the root and keeps the array sizes; its effect is `UpdatePointCorrect` |
| SegmentTree.UpdateRange | segment_tree.h:147-151 | the entry point updates from the root and keeps the array sizes; its effect is `UpdateRangeCorrect` |
| SegmentTree.PushCorrect | segment_tree.h:168-176 | adding `x` to `tree[v]` once per element and to both children's `lazy` adds `x` to every element below `v` and keeps the invariant |
| SegmentTree.FlushPreserves | segment_tree.h:92-101 | flushing the pending addition of `v` changes no element and keeps the invariant |
| SegmentTree.AggIsSum | segment_tree.h:102-103 | under the invariant, `tree[v] + len * lazy[v]` is the sum of the elements below `v` |
| SegmentTree.QueryNodeFrame | segment_tree.h:88-110 | a query below `v` changes no slot outside the subtree of `v` and leaves `lazy[v]` zero |
| SegmentTree.QueryNodeElems | segment_tree.h:92-101 | a query below `v` changes none of the elements below `v` |
| SegmentTree.QueryNodeValid | segment_tree.h:81-112 | a query below `v` keeps the invariant below `v` |
| SegmentTree.QueryNodeSum | segment_tree.h:102-109 | a query below `v` returns the sum of the elements at positions in `[s, e]` that lie in `[qs, qe]`: all of them when covered, split when overlapping, none when disjoint |
| SegmentTree.UpdatePointNodeFrame | segment_tree.h:120-144 | a point update below `v` changes no slot outside the subtree of `v` |
| SegmentTree.UpdatePointNodeElems | segment_tree.h:134-143 | a point update below `v` adds `x` to the element at `i` when `i` is in `[s, e]` and changes no other element |
| SegmentTree.UpdatePointNodeAgg | segment_tree.h:136 | adding `x` to every node on the path keeps each node's aggregate equal to its old one plus `x` exactly when `i` lies in its range |
| SegmentTree.UpdatePointNodeValid | segment_tree.h:134-143 | a point update below `v` keeps the invariant below `v` |
| SegmentTree.RangeMid | segment_tree.h:178 | the range update's midpoint `(s + e) / 2` is the same point as the `s + (e - s) / 2` of the other operations, so all of them split a node's range identically |
| SegmentTree.UpdateRangeNodeFrame | segment_tree.h:154-182 | a range update below `v` changes no slot outside the subtree of `v` and leaves `lazy[v]` zero |
| SegmentTree.UpdateRangeNodeElems | segment_tree.h:166-180 | a range update below `v` adds `x` to each element at a position in `[l, r]` and changes no other element |
| SegmentTree.UpdateRangeNodeValid | segment_tree.h:178-181 | a range update below `v` keeps the invariant; a partly covered node is recomputed from its flushed children |
| SegmentTree.ConstructNode | segment_tree.h:185-196 | construction below `v` stores its return value at `v`, leaves `lazy` alone and keeps the array sizes |
| SegmentTree.ConstructNodeSum | segment_tree.h:185-196 | the value construction stores and returns at `v` is the sum of `arr[s..e]` |
| SegmentTree.ConstructNodeFrame | segment_tree.h:185-196 | construction below `v` writes only slots in the subtree of `v` |
| SegmentTree.ConstructNodeElems | segment_tree.h:185-196 | with nothing pending, construction below `v` makes the elements below `v` exactly `arr[s..e]` |
| SegmentTree.ConstructNodeValid | segment_tree.h:194 | with nothing pending, construction below `v` establishes the invariant below `v` |
| SegmentTree.EmptyCorrect | segment_tree.h:34-42 | the size-only constructor represents `n` zero elements and satisfies the invariant |
| SegmentTree.BuildCorrect | segment_tree.h:53-62 | construction from `arr` represents exactly `arr`, has as many elements as `arr` and satisfies the invariant |
| SegmentTree.Reset | segment_tree.h:74-79 | after a reset every slot of both arrays is zero and the sizes are kept |
| SegmentTree.ResetCorrect | segment_tree.h:74-79 | a reset gives the freshly constructed zero tree of the same size; every element is zero, the invariant holds, and every query afterwards returns 0 |
| SegmentTree.QueryCorrect | segment_tree.h:81-112 | a query returns the sum of the elements at positions in `[qs, qe]`, keeps the invariant and changes no element |
| SegmentTree.QueryRange | segment_tree.h:102-104 | a query over `qs <= qe < n` returns the sum of the slice `a[qs..qe]`; a query with `qe < qs` returns 0 |
| SegmentTree.QueryTwice | segment_tree.h:92-101 | asking the same query twice gives the same answer although the first one flushed pending additions |
| SegmentTree.UpdatePointCorrect | segment_tree.h:114-145 | a point update adds `x` to element `i` only, or to none when `i >= n`, and keeps the invariant |
| SegmentTree.UpdatePointThenQuery | segment_tree.h:114-145 | after a point update, a query rises by `x` exactly when its interval holds `i` and `i < n` |
| SegmentTree.UpdateOutside | segment_tree.h:134 | a point update at `i >= n` and a range update with `r < l` or `l >= n` change no element |
| SegmentTree.UpdateRangeCorrect | segment_tree.h:147-182 | a range update adds `x` to each element at a position in `[l, r]`, leaves the others, and keeps the invariant |
| SegmentTree.UpdatePointAsRange | segment_tree.h:114-151 | a point update at `i` and a range update over `[i, i]` leave the same elements |
| SegmentTree.WorkedExample | segment_tree.h:147-151 | built from `[1, 2, 3, 4, 5]`, the queries over `[0, 4]` and `[1, 3]` give 15 and 9; after adding 10 over `[1, 3]`, the queries over `[0, 4]` and `[1, 1]` give 45 and 12 |
| BinaryIndexTree.LowBit | binary_index_tree.h:47 | the lowest set bit of `k`: between 1 and `k` for `k > 0`, and 0 for 0; `LowBitIsLargestPowerOfTwo` ties it to `k & -k` |
| BinaryIndexTree.Create | binary_index_tree.h:25-29 | the size-only constructor has `n` elements over `n + 1` zero slots (the corrected allocation); what it represents is `CreateCorrect` |
| BinaryIndexTree.CreateAsWritten | binary_index_tree.h:28 | the allocation as written has only `n` slots, so slot `n` is missing |
| BinaryIndexTree.Reset | binary_index_tree.h:37-41 | a reset keeps the element count and the slot count and zeroes every slot |
| BinaryIndexTree.LowBitIsLargestPowerOfTwo | binary_index_tree.h:47 | `LowBit(k)` is a power of two and `k` is an odd multiple of it, which is what `k & -k` computes |
| BinaryIndexTree.ChainCovers | binary_index_tree.h:55-56 | the update loop from `i` visits slot `k` if and only if slot `k` sums an interval that contains element `i` (`k - LowBit(k) < i <= k`) |
| BinaryIndexTree.ChainStep | binary_index_tree.h:55 | from a visited slot the loop goes to `k + LowBit(k)` and skips no slot of the chain |
| BinaryIndexTree.Query | binary_index_tree.h:43-50 | the prefix query returns `a[1] + ... + a[index]` |
| BinaryIndexTree.Update | binary_index_tree.h:52-57 | the update represents the elements with `x` added at `index` (to none when `index > n`) and keeps the element count |
| BinaryIndexTree.SlotAfterAdd | binary_index_tree.h:56 | adding `x` to element `index` adds `x` to slot `k`'s sum exactly when the loop from `index` visits `k` |
| BinaryIndexTree.UpdateThenQuery | binary_index_tree.h:52-57 | after an update at `i`, the query at `j` rises by `x` for `j >= i` and is unchanged for `j < i` |
| BinaryIndexTree.Change | binary_index_tree.h:59-63 | the change sets element `index` to `val` and leaves every other element, by adding the difference of two prefix queries |
| BinaryIndexTree.ChangeThenQuery | binary_index_tree.h:59-63 | after a change at `i`, `query(i) - query(i - 1) == val` |
| BinaryIndexTree.CreateCorrect | binary_index_tree.h:25-29 | the size-only constructor represents `n` zero elements, so every query returns 0 |
| BinaryIndexTree.ResetCorrect | binary_index_tree.h:37-41 | a reset gives the freshly constructed zero tree, so every query returns 0 |
| BinaryIndexTree.AsWrittenUpdateOverruns | binary_index_tree.h:28 | with only `n` slots, an update at element `n` visits slot `n`, past the end; for `n = 4` an update at 1 visits 1, 2, 4 |
| BinaryIndexTree.CreateUpdateInBounds | binary_index_tree.h:55-56 | with `n + 1` slots every slot an update loop visits exists |
| DisjointSet.Root | disjoint_set.h:40 | following parents from `x` ends at a root, `parent[r] == r`, with ranks rising strictly on the way |
| DisjointSet.RootRank | disjoint_set.h:40 | a non-root has strictly lower rank than its root |
| DisjointSet.Find | disjoint_set.h:37-42 | `find` returns the root of `x`, keeps the rank invariant and the ranks, and keeps the root of every element |
| DisjointSet.FindCompresses | disjoint_set.h:40 | after `find(x)` every element on the former path from `x` points at the root, and every other element keeps its parent |
| DisjointSet.FindTwice | disjoint_set.h:37-42 | `find` is idempotent: finding again gives the same root, and `x` now points straight at it |
| DisjointSet.Link | disjoint_set.h:48-50 | linking two roots by rank keeps the rank invariant |
| DisjointSet.LinkRoots | disjoint_set.h:48-49 | after linking, the elements of the attached root's set have the other root and no other representative changes |
| DisjointSet.Merge | disjoint_set.h:44-51 | `merge` keeps the rank invariant and the element count |
| DisjointSet.MergeCorrect | disjoint_set.h:44-51 | after `merge(a, b)` `a` and `b` are in one set; two elements are in one set exactly when they were before or one was with `a` and the other with `b` |
| DisjointSet.MergeRanks | disjoint_set.h:48-50 | the root of strictly higher rank becomes the parent with no rank change; otherwise `a`'s root goes under `b`'s, and on equal ranks only `b`'s root rises, by exactly one |
| DisjointSet.MergeSameSet | disjoint_set.h:47-50 | merging two elements of one set keeps every representative but raises their root's rank by one |
| DisjointSet.MergeAgainRaisesRank | disjoint_set.h:50 | repeating a merge changes the ranks again, so `merge` is not idempotent |
| DisjointSet.Init | disjoint_set.h:22-27 | construction gives `n` elements, each its own parent with rank 0 |
| DisjointSet.Reset | disjoint_set.h:29-35 | a reset keeps the element count and makes every element its own parent with rank 0 |
| DisjointSet.InitCorrect | disjoint_set.h:22-35 | after construction every element is its own root, rank 0, and is found at once; the sets are the singletons |
| DisjointSet.ResetCorrect | disjoint_set.h:29-35 | a reset gives the freshly constructed forest of the same size |

## Left out

- Array sizing: `2 * pow(2, ceil(log2 n)) - 1` is computed in floating point. The model uses the integer `NodeCount(n)`, with `CeilLog2` defined by halving. The floating-point evaluation itself is not modelled.
- Custom combiners (the constructors taking a `std::function`, segment_tree.h:44-51 and 64-72): the combiner is fixed to `+`. The lazy formula `(e - s + 1) * lazy[v]` and the zero start of the query accumulator only mean anything for addition.
- Breadth-first queue traversal in `query` and point `update`: it is modelled by recursion. The equivalence is argued above, from the frame lemmas. It is not proved against a queue model.
- Machine integers: every value is an unbounded `int` or `nat`. Not modelled:
  - overflow of the element type `T`;
  - the mixed unsigned product at segment_tree.h:94;
  - the wrap-around of `index & -index` and of `index - 1` in `change` for `index = 0`;
  - `numElements - 1` for `n = 0` (segment_tree.h:61, 86).
- SegmentTree: every operation requires `n >= 1` (`Shaped`), because the source computes `numElements - 1`.
- BinaryIndexTree.LowBit: defined by halving instead of as the bit operation `index & -index`. `LowBitIsLargestPowerOfTwo` proves the characterisation that the bit trick computes. The bit-vector identity itself is not proved.
- BinaryIndexTree.Query requires `index <= n`: a larger index reads past the array, which is undefined behaviour in the source.
- BinaryIndexTree.Update requires `index >= 1`: index 0 never advances, because its lowest set bit is 0.
- BinaryIndexTree.Change requires `1 <= index <= n`: index 0 underflows `index - 1`, and an index above `n` reads past the array.
- The Fenwick fill constructor (binary_index_tree.h:31-35): it is a raw fill with no Fenwick meaning.
- DisjointSet: element arguments are required to be below `n`, and the operations require the rank invariant `Wf`. The source checks neither. Every operation keeps `Wf`, and `Init`/`Reset` establish it.
- SegmentTree.ConstructNodeElems and SegmentTree.ConstructNodeValid require that nothing is pending (`NoPending`). The source only calls `construct` on freshly zeroed arrays, which `BuildCorrect` discharges.
- `data_structure.h` beyond `size()`: the virtual `reset()` is modelled per structure, and `size()` is each module's `Size`.
- Merging two elements already in one set is not a no-op: disjoint_set.h:50 still raises the root's rank. The model follows the code (`MergeSameSet`, `MergeAgainRaisesRank`).

## Findings

| source | as written | input that shows it | evidently intended | confidence | as-written member | corrected member |
|---|---|---|---|---|---|---|
| binary_index_tree.h:28 | `tree.resize(numElements)` allocates slots `0 .. n-1`, but `update` writes `tree[index]` for every `index <= n` (line 55-56) | `n = 4`, `update(1, x)` visits slots 1, 2, 4 and slot 4 does not exist; for every `n >= 1`, `update(n, x)` writes slot `n`, and `query(n)` (line 47-48) reads it | allocate `n + 1` slots, so that the 1-based slots `1 .. n` all exist | high; not executed | BinaryIndexTree.AsWrittenUpdateOverruns | BinaryIndexTree.CreateUpdateInBounds |
