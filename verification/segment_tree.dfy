/**
 Segment tree with lazy range addition over `n >= 1` elements at positions `0 .. n-1`.

 The state is two parallel arrays in heap numbering: node 0 covers `[0, n-1]`, and a node
 `v` covering `[s, e]` with `s < e` has children `Left(v)` over `[s, mid]` and `Right(v)`
 over `[mid+1, e]`, `mid = s + (e - s) / 2`. `tree[v]` is the sum of the subtree of `v`
 as it was before the additions still pending in `lazy[v]`; `lazy[v]` is an amount to be
 added to every element under `v` that has not yet been pushed down.

 The combining operator is fixed to `+`: the lazy formula `(e - s + 1) * lazy[v]` and the
 zero start of the query accumulator only mean anything for addition.

 Every node-level operation takes the node's ghost depth `d`; `Node` records that the
 node index and its range are consistent with the array size `2 * 2^ceil(log2 n) - 1`.
 */
module SegmentTree {
  import opened SeqSum
  import opened TreeLayout

  datatype Tree = Tree(n: nat, tree: seq<int>, lazy: seq<int>)

  /** The number of elements the tree was built for (the shared `size()` of the source). */
  function Size(t: Tree): nat
  {
    t.n
  }

  predicate Shaped(t: Tree)
  {
    t.n >= 1 && |t.tree| == NodeCount(t.n) && |t.lazy| == NodeCount(t.n)
  }

  predicate SameShape(t: Tree, t': Tree)
  {
    t'.n == t.n && |t'.tree| == |t.tree| && |t'.lazy| == |t.lazy|
  }

  function Mid(s: nat, e: nat): nat
    requires s <= e
  {
    s + (e - s) / 2
  }

  /**
   In a tree over `n` elements, node `v` at depth `d` covers `[s, e]`: its index lies in
   level `d` of the heap numbering and its range fits the `2^(m-d)` leaves below a node
   of that level, `m = ceil(log2 n)`.
   */
  ghost predicate NodeAt(n: nat, v: nat, s: nat, e: nat, d: nat)
    requires n >= 1
  {
    && s <= e
    && d <= CeilLog2(n)
    && FitsIn(e - s + 1, CeilLog2(n) - d)
    && AtDepth(v, d)
    && v < NodeCount(n)
  }

  ghost predicate Node(t: Tree, v: nat, s: nat, e: nat, d: nat)
  {
    Shaped(t) && NodeAt(t.n, v, s, e, d)
  }

  lemma RootNode(t: Tree)
    requires Shaped(t)
    ensures Node(t, 0, 0, t.n - 1, 0)
  {
    AllFitBelowRoot(t.n);
  }

  /**
   Index bounds: the children `2v+1` and `2v+2` of an inner node are nodes again, one
   level down, covering the two halves, and so lie below `2 * 2^ceil(log2 n) - 1`.
   */
  lemma ChildNodes(t: Tree, v: nat, s: nat, e: nat, d: nat)
    requires Node(t, v, s, e, d) && s < e
    ensures Node(t, Left(v), s, Mid(s, e), d + 1)
    ensures Node(t, Right(v), Mid(s, e) + 1, e, d + 1)
  {
    var m := CeilLog2(t.n);
    if m == d {
      assert false;
    }
    FitsInSmaller((e - s + 2) / 2, e - Mid(s, e), m - (d + 1));
    AtDepthChildren(v, d);
    AtDepthRange(Right(v), d + 1);
    Pow2Monotone(d + 2, m + 1);
  }

  /** Slot `v` of an array, or 0 past its end; keeps the abstraction below total. */
  function At(a: seq<int>, v: nat): int
  {
    if v < |a| then a[v] else 0
  }

  /** The children of an inner node are slots of the arrays. */
  lemma ChildInRange(t: Tree, v: nat, s: nat, e: nat, d: nat)
    requires Node(t, v, s, e, d) && s < e
    ensures Left(v) < Right(v) < |t.tree| && Right(v) < |t.lazy|
  {
    ChildNodes(t, v, s, e, d);
  }

  /** The elements at positions `s .. e` under node `v`, given the additions `acc` pending above it. */
  ghost function Elems(t: Tree, v: nat, s: nat, e: nat, acc: int): (r: seq<int>)
    requires s <= e
    ensures |r| == e - s + 1
    decreases e - s, 1
  {
    var p := acc + At(t.lazy, v);
    if s == e then [At(t.tree, v) + p] else ElemsSplit(t, v, s, e, p)
  }

  ghost function ElemsSplit(t: Tree, v: nat, s: nat, e: nat, p: int): (r: seq<int>)
    requires s < e
    ensures |r| == e - s + 1
    decreases e - s, 0
  {
    Elems(t, Left(v), s, Mid(s, e), p) + Elems(t, Right(v), Mid(s, e) + 1, e, p)
  }

  /** The true sum of the subtree of `v` once its own pending addition is applied. */
  ghost function Agg(t: Tree, v: nat, s: nat, e: nat): int
    requires s <= e
  {
    At(t.tree, v) + Times(e - s + 1, At(t.lazy, v))
  }

  /**
   The lazy structural invariant: every inner node holds the sum of its children's
   aggregates, each child counting its own pending addition.
   */
  ghost predicate Valid(t: Tree, v: nat, s: nat, e: nat)
    requires s <= e
    decreases e - s, 1
  {
    s == e || ValidSplit(t, v, s, e)
  }

  ghost predicate ValidSplit(t: Tree, v: nat, s: nat, e: nat)
    requires s < e
    decreases e - s, 0
  {
    && At(t.tree, v) == Agg(t, Left(v), s, Mid(s, e)) + Agg(t, Right(v), Mid(s, e) + 1, e)
    && Valid(t, Left(v), s, Mid(s, e))
    && Valid(t, Right(v), Mid(s, e) + 1, e)
  }

  /** The representation invariant of a whole tree. */
  ghost predicate Inv(t: Tree)
  {
    Shaped(t) && Valid(t, 0, 0, t.n - 1)
  }

  /** The abstract element sequence `a[0 .. n-1]` that the arrays represent. */
  ghost function Elements(t: Tree): (a: seq<int>)
    requires t.n >= 1
    ensures |a| == t.n
  {
    Elems(t, 0, 0, t.n - 1, 0)
  }

  /**
   Adds `x` to every element below `v` in one step: `tree[v]` takes `x` once per element
   of its range and, when `v` is not a leaf, both children take `x` as pending.
   */
  function Push(t: Tree, v: nat, s: nat, e: nat, d: nat, x: int): (t': Tree)
    requires Node(t, v, s, e, d)
    ensures SameShape(t, t')
    ensures t'.lazy[v] == t.lazy[v]
  {
    var t1 := t.(tree := t.tree[v := Times(e - s + 1, x) + t.tree[v]]);
    if s != e then
      ChildInRange(t, v, s, e, d);
      t1.(lazy := t1.lazy[Left(v) := t1.lazy[Left(v)] + x][Right(v) := t1.lazy[Right(v)] + x])
    else t1
  }

  /** Applies the pending addition of `v` (a `Push` of `lazy[v]`) and clears it. */
  function Flush(t: Tree, v: nat, s: nat, e: nat, d: nat): (t': Tree)
    requires Node(t, v, s, e, d)
    ensures SameShape(t, t')
    ensures t'.lazy[v] == 0
  {
    if t.lazy[v] != 0 then
      var t1 := Push(t, v, s, e, d, t.lazy[v]);
      t1.(lazy := t1.lazy[v := 0])
    else t
  }

  /**
   Query below `v`: flush `v`; a node inside `[qs, qe]` contributes its value, a node
   partly inside is split into its children, a node outside contributes 0.
   */
  function QueryNode(t: Tree, v: nat, s: nat, e: nat, d: nat, qs: nat, qe: nat): (res: (Tree, int))
    requires Node(t, v, s, e, d)
    ensures SameShape(t, res.0)
    decreases e - s, 1
  {
    var t1 := Flush(t, v, s, e, d);
    if qs <= s && qe >= e then (t1, t1.tree[v])
    else if s <= qe && e >= qs then QuerySplit(t1, v, s, e, d, qs, qe)
    else (t1, 0)
  }

  /** The split case of a query: query the left half, then the right half, and add. */
  function QuerySplit(t: Tree, v: nat, s: nat, e: nat, d: nat, qs: nat, qe: nat): (res: (Tree, int))
    requires Node(t, v, s, e, d) && s < e
    ensures SameShape(t, res.0)
    decreases e - s, 0
  {
    ChildNodes(t, v, s, e, d);
    var mid := Mid(s, e);
    var left := QueryNode(t, Left(v), s, mid, d + 1, qs, qe);
    var right := QueryNode(left.0, Right(v), mid + 1, e, d + 1, qs, qe);
    (right.0, left.1 + right.1)
  }

  /** Point update below `v`: every node whose range holds `i` gets `x` added to it. */
  function UpdatePointNode(t: Tree, v: nat, s: nat, e: nat, d: nat, i: nat, x: int): (t': Tree)
    requires Node(t, v, s, e, d)
    ensures SameShape(t, t')
    decreases e - s, 1
  {
    var t1 := Flush(t, v, s, e, d);
    if i >= s && i <= e then
      var t2 := t1.(tree := t1.tree[v := x + t1.tree[v]]);
      if s != e then UpdatePointSplit(t2, v, s, e, d, i, x) else t2
    else t1
  }

  /** Both children of `v` are visited; only the one whose range holds `i` takes `x`. */
  function UpdatePointSplit(t: Tree, v: nat, s: nat, e: nat, d: nat, i: nat, x: int): (t': Tree)
    requires Node(t, v, s, e, d) && s < e
    ensures SameShape(t, t')
    decreases e - s, 0
  {
    ChildNodes(t, v, s, e, d);
    var mid := Mid(s, e);
    var t3 := UpdatePointNode(t, Left(v), s, mid, d + 1, i, x);
    UpdatePointNode(t3, Right(v), mid + 1, e, d + 1, i, x)
  }

  /**
   Range update below `v`: a node inside `[l, r]` takes the whole addition and defers it
   to its children's `lazy`; a node partly inside is split and then recomputed from its
   flushed children.
   */
  function UpdateRangeNode(t: Tree, v: nat, s: nat, e: nat, d: nat, l: nat, r: nat, x: int): (t': Tree)
    requires Node(t, v, s, e, d)
    ensures SameShape(t, t')
    decreases e - s, 1
  {
    var t1 := Flush(t, v, s, e, d);
    if s > e || s > r || e < l then t1
    else if s >= l && e <= r then Push(t1, v, s, e, d, x)
    else UpdateRangeSplit(t1, v, s, e, d, l, r, x)
  }

  /** The split case of a range update: update both halves, then recompute `tree[v]` from them. */
  function UpdateRangeSplit(t: Tree, v: nat, s: nat, e: nat, d: nat, l: nat, r: nat, x: int): (t': Tree)
    requires Node(t, v, s, e, d) && s < e
    ensures SameShape(t, t')
    decreases e - s, 0
  {
    ChildNodes(t, v, s, e, d);
    var mid := RangeMid(s, e);
    var t2 := UpdateRangeNode(t, Left(v), s, mid, d + 1, l, r, x);
    var t3 := UpdateRangeNode(t2, Right(v), mid + 1, e, d + 1, l, r, x);
    t3.(tree := t3.tree[v := t3.tree[Left(v)] + t3.tree[Right(v)]])
  }

  /** The range update computes its midpoint as `(s + e) / 2`; on naturals that is the same point as `Mid`. */
  function RangeMid(s: nat, e: nat): (m: nat)
    requires s <= e
    ensures m == Mid(s, e)
  {
    (s + e) / 2
  }

  lemma SumHalves(arr: seq<int>, s: nat, mid: nat, e: nat, a: int, b: int)
    requires s <= mid < e < |arr|
    requires a == Sum(arr[s..mid + 1]) && b == Sum(arr[mid + 1..e + 1])
    ensures a + b == Sum(arr[s..e + 1])
  {
    SumSplit(arr, s, mid + 1, e + 1);
  }

  /**
   Bottom-up construction below `v` from `arr[s..e]`; returns the tree and the value
   stored at `v`, which is the sum of `arr[s..e]`.
   */
  function ConstructNode(t: Tree, arr: seq<int>, s: nat, e: nat, v: nat, d: nat): (res: (Tree, int))
    requires Node(t, v, s, e, d) && e < |arr|
    ensures SameShape(t, res.0)
    ensures res.0.lazy == t.lazy
    ensures res.0.tree[v] == res.1
    decreases e - s
  {
    if s == e then
      assert arr[s..e + 1] == [arr[s]];
      (t.(tree := t.tree[v := arr[s]]), arr[s])
    else
      ChildNodes(t, v, s, e, d);
      var mid := Mid(s, e);
      var left := ConstructNode(t, arr, s, mid, Left(v), d + 1);
      var right := ConstructNode(left.0, arr, mid + 1, e, Right(v), d + 1);
      var value := left.1 + right.1;
      (right.0.(tree := right.0.tree[v := value]), value)
  }

  /** The value construction stores and returns at `v` is the sum of `arr[s..e]`. */
  lemma {:induction false} ConstructNodeSum(t: Tree, arr: seq<int>, s: nat, e: nat, v: nat, d: nat)
    requires Node(t, v, s, e, d) && e < |arr|
    ensures ConstructNode(t, arr, s, e, v, d).1 == Sum(arr[s..e + 1])
    ensures ConstructNode(t, arr, s, e, v, d).0.tree[v] == Sum(arr[s..e + 1])
    decreases e - s
  {
    if s == e {
      assert arr[s..e + 1] == [arr[s]];
    } else {
      ChildNodes(t, v, s, e, d);
      var m := Mid(s, e);
      var left := ConstructNode(t, arr, s, m, Left(v), d + 1);
      ConstructNodeSum(t, arr, s, m, Left(v), d + 1);
      ConstructNodeSum(left.0, arr, m + 1, e, Right(v), d + 1);
      SumHalves(arr, s, m, e, left.1, ConstructNode(left.0, arr, m + 1, e, Right(v), d + 1).1);
    }
  }

  // ---------------------------------------------------------------------------
  // The operations of the structure

  /** A zero-initialised tree of `n` elements (the size-only constructor). */
  function Empty(n: nat): (t: Tree)
    requires n >= 1
    ensures Size(t) == n && Shaped(t)
    ensures forall u: nat :: At(t.tree, u) == 0 && At(t.lazy, u) == 0
  {
    Tree(n, Zeros(NodeCount(n)), Zeros(NodeCount(n)))
  }

  /** Construction from an initial array. */
  function Build(arr: seq<int>): (t: Tree)
    requires |arr| >= 1
    ensures Size(t) == |arr| && Shaped(t)
    ensures t.lazy == Empty(|arr|).lazy
  {
    var t0 := Empty(|arr|);
    RootNode(t0);
    ConstructNode(t0, arr, 0, |arr| - 1, 0, 0).0
  }

  /** Zero-fills both arrays; the element count is kept. */
  function Reset(t: Tree): (t': Tree)
    ensures SameShape(t, t')
    ensures forall u: nat :: At(t'.tree, u) == 0 && At(t'.lazy, u) == 0
  {
    t.(tree := Zeros(|t.tree|), lazy := Zeros(|t.lazy|))
  }

  function Query(t: Tree, qs: nat, qe: nat): (res: (Tree, int))
    requires Shaped(t)
    ensures SameShape(t, res.0)
  {
    RootNode(t);
    QueryNode(t, 0, 0, t.n - 1, 0, qs, qe)
  }

  function UpdatePoint(t: Tree, i: nat, x: int): (t': Tree)
    requires Shaped(t)
    ensures SameShape(t, t')
  {
    RootNode(t);
    UpdatePointNode(t, 0, 0, t.n - 1, 0, i, x)
  }

  function UpdateRange(t: Tree, l: nat, r: nat, x: int): (t': Tree)
    requires Shaped(t)
    ensures SameShape(t, t')
  {
    RootNode(t);
    UpdateRangeNode(t, 0, 0, t.n - 1, 0, l, r, x)
  }

  // ---------------------------------------------------------------------------
  // Frames: which slots an operation on the subtree of `v` may change

  /** `t` and `t'` agree on every slot of the subtree of `v`. */
  ghost predicate SameSubtree(t: Tree, t': Tree, v: nat)
  {
    forall u: nat {:trigger Below(u, v)} :: Below(u, v) ==> At(t'.tree, u) == At(t.tree, u) && At(t'.lazy, u) == At(t.lazy, u)
  }

  /** `t'` has the shape of `t` and agrees with it on every slot outside the subtree of `v`. */
  ghost predicate UnchangedOutside(t: Tree, t': Tree, v: nat)
  {
    && SameShape(t, t')
    && forall u: nat {:trigger Below(u, v)} :: !Below(u, v) ==> At(t'.tree, u) == At(t.tree, u) && At(t'.lazy, u) == At(t.lazy, u)
  }

  lemma UnchangedTrans(t: Tree, t1: Tree, t2: Tree, v: nat)
    requires UnchangedOutside(t, t1, v) && UnchangedOutside(t1, t2, v)
    ensures UnchangedOutside(t, t2, v)
  {
  }

  /** Changes confined to the two child subtrees are confined to the subtree of `v` and miss `v`. */
  lemma UnchangedChildren(t: Tree, t1: Tree, t2: Tree, v: nat)
    requires UnchangedOutside(t, t1, Left(v)) && UnchangedOutside(t1, t2, Right(v))
    ensures UnchangedOutside(t, t2, v)
    ensures At(t2.tree, v) == At(t.tree, v) && At(t2.lazy, v) == At(t.lazy, v)
  {
    forall u: nat | !Below(u, v)
      ensures !Below(u, Left(v)) && !Below(u, Right(v))
    {
      if Below(u, Left(v)) {
        BelowLeftChild(u, v);
      }
      if Below(u, Right(v)) {
        BelowRightChild(u, v);
      }
    }
    ChildSubtrees(v);
  }

  /** Changes confined to the subtree of `v`, followed by a write of `tree[v]`, stay there. */
  lemma UnchangedSetRoot(t: Tree, t1: Tree, v: nat, value: int)
    requires UnchangedOutside(t, t1, v) && v < |t1.tree|
    ensures UnchangedOutside(t, t1.(tree := t1.tree[v := value]), v)
  {
  }

  /** A change confined to the subtree of `c` leaves a subtree disjoint from it alone. */
  lemma OutsideSame(t: Tree, t': Tree, c: nat, w: nat)
    requires UnchangedOutside(t, t', c)
    requires forall u: nat {:trigger Below(u, w)} :: Below(u, w) ==> !Below(u, c)
    ensures SameSubtree(t, t', w)
  {
  }

  /** Agreement on the subtree of `v` is agreement at `v` and on both child subtrees. */
  lemma SameSubtreeChildren(t: Tree, t': Tree, v: nat)
    requires SameSubtree(t, t', v)
    ensures At(t'.tree, v) == At(t.tree, v) && At(t'.lazy, v) == At(t.lazy, v)
    ensures SameSubtree(t, t', Left(v)) && SameSubtree(t, t', Right(v))
  {
    assert Below(v, v);
    ChildSubtrees(v);
  }

  lemma PushFrame(t: Tree, v: nat, s: nat, e: nat, d: nat, x: int)
    requires Node(t, v, s, e, d)
    ensures UnchangedOutside(t, Push(t, v, s, e, d, x), v)
  {
    if s < e {
      ChildInRange(t, v, s, e, d);
      ChildSubtrees(v);
    }
  }

  lemma FlushFrame(t: Tree, v: nat, s: nat, e: nat, d: nat)
    requires Node(t, v, s, e, d)
    ensures UnchangedOutside(t, Flush(t, v, s, e, d), v)
  {
    if t.lazy[v] != 0 {
      PushFrame(t, v, s, e, d, t.lazy[v]);
    }
  }

  lemma {:induction false} QueryNodeFrame(t: Tree, v: nat, s: nat, e: nat, d: nat, qs: nat, qe: nat)
    requires Node(t, v, s, e, d)
    ensures UnchangedOutside(t, QueryNode(t, v, s, e, d, qs, qe).0, v)
    ensures QueryNode(t, v, s, e, d, qs, qe).0.lazy[v] == 0
    decreases e - s, 1
  {
    var t1 := Flush(t, v, s, e, d);
    FlushFrame(t, v, s, e, d);
    if !(qs <= s && qe >= e) && s <= qe && e >= qs {
      QuerySplitFrame(t1, v, s, e, d, qs, qe);
      UnchangedTrans(t, t1, QuerySplit(t1, v, s, e, d, qs, qe).0, v);
    }
  }

  lemma {:induction false} QuerySplitFrame(t: Tree, v: nat, s: nat, e: nat, d: nat, qs: nat, qe: nat)
    requires Node(t, v, s, e, d) && s < e
    ensures UnchangedOutside(t, QuerySplit(t, v, s, e, d, qs, qe).0, v)
    ensures QuerySplit(t, v, s, e, d, qs, qe).0.lazy[v] == t.lazy[v]
    decreases e - s, 0
  {
    ChildNodes(t, v, s, e, d);
    var mid := Mid(s, e);
    var left := QueryNode(t, Left(v), s, mid, d + 1, qs, qe);
    QueryNodeFrame(t, Left(v), s, mid, d + 1, qs, qe);
    QueryNodeFrame(left.0, Right(v), mid + 1, e, d + 1, qs, qe);
    UnchangedChildren(t, left.0, QueryNode(left.0, Right(v), mid + 1, e, d + 1, qs, qe).0, v);
  }

  lemma {:induction false} UpdatePointNodeFrame(t: Tree, v: nat, s: nat, e: nat, d: nat, i: nat, x: int)
    requires Node(t, v, s, e, d)
    ensures UnchangedOutside(t, UpdatePointNode(t, v, s, e, d, i, x), v)
    ensures UpdatePointNode(t, v, s, e, d, i, x).lazy[v] == 0
    decreases e - s, 1
  {
    var t1 := Flush(t, v, s, e, d);
    FlushFrame(t, v, s, e, d);
    if i >= s && i <= e {
      var t2 := t1.(tree := t1.tree[v := x + t1.tree[v]]);
      UnchangedSetRoot(t, t1, v, x + t1.tree[v]);
      if s != e {
        UpdatePointSplitFrame(t2, v, s, e, d, i, x);
        UnchangedTrans(t, t2, UpdatePointSplit(t2, v, s, e, d, i, x), v);
      }
    }
  }

  lemma {:induction false} UpdatePointSplitFrame(t: Tree, v: nat, s: nat, e: nat, d: nat, i: nat, x: int)
    requires Node(t, v, s, e, d) && s < e
    ensures UnchangedOutside(t, UpdatePointSplit(t, v, s, e, d, i, x), v)
    ensures UpdatePointSplit(t, v, s, e, d, i, x).lazy[v] == t.lazy[v]
    decreases e - s, 0
  {
    ChildNodes(t, v, s, e, d);
    var mid := Mid(s, e);
    var t3 := UpdatePointNode(t, Left(v), s, mid, d + 1, i, x);
    UpdatePointNodeFrame(t, Left(v), s, mid, d + 1, i, x);
    UpdatePointNodeFrame(t3, Right(v), mid + 1, e, d + 1, i, x);
    UnchangedChildren(t, t3, UpdatePointNode(t3, Right(v), mid + 1, e, d + 1, i, x), v);
  }

  lemma {:induction false} UpdateRangeNodeFrame(t: Tree, v: nat, s: nat, e: nat, d: nat, l: nat, r: nat, x: int)
    requires Node(t, v, s, e, d)
    ensures UnchangedOutside(t, UpdateRangeNode(t, v, s, e, d, l, r, x), v)
    ensures UpdateRangeNode(t, v, s, e, d, l, r, x).lazy[v] == 0
    decreases e - s, 1
  {
    var t1 := Flush(t, v, s, e, d);
    FlushFrame(t, v, s, e, d);
    if s > e || s > r || e < l {
    } else if s >= l && e <= r {
      PushFrame(t1, v, s, e, d, x);
      UnchangedTrans(t, t1, Push(t1, v, s, e, d, x), v);
    } else {
      UpdateRangeSplitFrame(t1, v, s, e, d, l, r, x);
      UnchangedTrans(t, t1, UpdateRangeSplit(t1, v, s, e, d, l, r, x), v);
    }
  }

  lemma {:induction false} UpdateRangeSplitFrame(t: Tree, v: nat, s: nat, e: nat, d: nat, l: nat, r: nat, x: int)
    requires Node(t, v, s, e, d) && s < e
    ensures UnchangedOutside(t, UpdateRangeSplit(t, v, s, e, d, l, r, x), v)
    ensures UpdateRangeSplit(t, v, s, e, d, l, r, x).lazy[v] == t.lazy[v]
    decreases e - s, 0
  {
    var m, t2, t3, t4 := UpdateRangeSplitUnfold(t, v, s, e, d, l, r, x);
    UpdateRangeNodeFrame(t, Left(v), s, m, d + 1, l, r, x);
    UpdateRangeNodeFrame(t2, Right(v), m + 1, e, d + 1, l, r, x);
    UnchangedChildren(t, t2, t3, v);
    UnchangedSetRoot(t, t3, v, t3.tree[Left(v)] + t3.tree[Right(v)]);
  }

  lemma {:induction false} ConstructNodeFrame(t: Tree, arr: seq<int>, s: nat, e: nat, v: nat, d: nat)
    requires Node(t, v, s, e, d) && e < |arr|
    ensures UnchangedOutside(t, ConstructNode(t, arr, s, e, v, d).0, v)
    decreases e - s
  {
    if s < e {
      ChildNodes(t, v, s, e, d);
      var mid := Mid(s, e);
      var left := ConstructNode(t, arr, s, mid, Left(v), d + 1);
      var right := ConstructNode(left.0, arr, mid + 1, e, Right(v), d + 1);
      ConstructNodeFrame(t, arr, s, mid, Left(v), d + 1);
      ConstructNodeFrame(left.0, arr, mid + 1, e, Right(v), d + 1);
      UnchangedChildren(t, left.0, right.0, v);
      UnchangedSetRoot(t, right.0, v, left.1 + right.1);
    }
  }

  // ---------------------------------------------------------------------------
  // The abstraction depends only on the slots of a subtree

  /** Frame: the elements below `v` depend only on the slots of the subtree of `v`. */
  lemma {:induction false} FrameElems(t: Tree, t': Tree, v: nat, s: nat, e: nat, acc: int)
    requires s <= e && SameSubtree(t, t', v)
    ensures Elems(t', v, s, e, acc) == Elems(t, v, s, e, acc)
    decreases e - s
  {
    SameSubtreeChildren(t, t', v);
    if s < e {
      var p := acc + At(t.lazy, v);
      FrameElems(t, t', Left(v), s, Mid(s, e), p);
      FrameElems(t, t', Right(v), Mid(s, e) + 1, e, p);
    }
  }

  /** Frame: the invariant below `v` depends only on the slots of the subtree of `v`. */
  lemma {:induction false} FrameValid(t: Tree, t': Tree, v: nat, s: nat, e: nat)
    requires s <= e && SameSubtree(t, t', v)
    ensures Valid(t', v, s, e) == Valid(t, v, s, e)
    decreases e - s
  {
    if s < e {
      SameSubtreeChildren(t, t', v);
      SameSubtreeChildren(t, t', Left(v));
      SameSubtreeChildren(t, t', Right(v));
      FrameValid(t, t', Left(v), s, Mid(s, e));
      FrameValid(t, t', Right(v), Mid(s, e) + 1, e);
    }
  }

  lemma SameSubtreeSame(t: Tree, t': Tree, v: nat, s: nat, e: nat, acc: int)
    requires s <= e && SameSubtree(t, t', v)
    ensures Elems(t', v, s, e, acc) == Elems(t, v, s, e, acc)
    ensures Valid(t', v, s, e) == Valid(t, v, s, e)
    ensures Agg(t', v, s, e) == Agg(t, v, s, e)
  {
    assert Below(v, v);
    FrameElems(t, t', v, s, e, acc);
    FrameValid(t, t', v, s, e);
  }

  /**
   A subtree whose slots are unchanged except for `x` more pending at its root has the
   elements of the old subtree with `x` more pending above it, and the same invariant.
   */
  lemma RootLazyShift(t: Tree, t': Tree, v: nat, s: nat, e: nat, acc: int, x: int)
    requires s <= e
    requires At(t'.tree, v) == At(t.tree, v) && At(t'.lazy, v) == At(t.lazy, v) + x
    requires forall u: nat :: Below(u, v) && u != v ==> At(t'.tree, u) == At(t.tree, u) && At(t'.lazy, u) == At(t.lazy, u)
    ensures Elems(t', v, s, e, acc) == Elems(t, v, s, e, acc + x)
    ensures Valid(t', v, s, e) == Valid(t, v, s, e)
  {
    var p := acc + At(t'.lazy, v);
    assert p == (acc + x) + At(t.lazy, v);
    if s < e {
      ChildSubtrees(v);
      assert SameSubtree(t, t', Left(v)) && SameSubtree(t, t', Right(v));
      SameSubtreeSame(t, t', Left(v), s, Mid(s, e), p);
      SameSubtreeSame(t, t', Right(v), Mid(s, e) + 1, e, p);
    }
  }

  /** Writing slot `v` of `tree` alone leaves both child subtrees as they were. */
  lemma SetRootKeepsChildren(t: Tree, v: nat, value: int)
    requires v < |t.tree|
    ensures SameSubtree(t, t.(tree := t.tree[v := value]), Left(v))
    ensures SameSubtree(t, t.(tree := t.tree[v := value]), Right(v))
  {
    ChildSubtrees(v);
  }

  /**
   After an operation on the left child's subtree and then one on the right child's, each
   child's elements are as the operation on it left them.
   */
  lemma ChildOpsElems(t1: Tree, t2: Tree, t3: Tree, v: nat, s: nat, m: nat, e: nat)
    requires s <= m < e && m == Mid(s, e)
    requires UnchangedOutside(t1, t2, Left(v)) && UnchangedOutside(t2, t3, Right(v))
    ensures Elems(t3, Left(v), s, m, 0) == Elems(t2, Left(v), s, m, 0)
    ensures Elems(t2, Right(v), m + 1, e, 0) == Elems(t1, Right(v), m + 1, e, 0)
  {
    ChildSubtrees(v);
    OutsideSame(t2, t3, Right(v), Left(v));
    OutsideSame(t1, t2, Left(v), Right(v));
    FrameElems(t2, t3, Left(v), s, m, 0);
    FrameElems(t1, t2, Right(v), m + 1, e, 0);
  }

  /** The same two operations: each child's invariant and aggregate are as the operation on it left them. */
  lemma ChildOpsValid(t1: Tree, t2: Tree, t3: Tree, v: nat, s: nat, m: nat, e: nat)
    requires s <= m < e && m == Mid(s, e)
    requires UnchangedOutside(t1, t2, Left(v)) && UnchangedOutside(t2, t3, Right(v))
    ensures Valid(t3, Left(v), s, m) == Valid(t2, Left(v), s, m)
    ensures Agg(t3, Left(v), s, m) == Agg(t2, Left(v), s, m)
    ensures Valid(t2, Right(v), m + 1, e) == Valid(t1, Right(v), m + 1, e)
    ensures Agg(t2, Right(v), m + 1, e) == Agg(t1, Right(v), m + 1, e)
  {
    ChildSubtrees(v);
    OutsideSame(t2, t3, Right(v), Left(v));
    OutsideSame(t1, t2, Left(v), Right(v));
    SameSubtreeChildren(t2, t3, Left(v));
    SameSubtreeChildren(t1, t2, Right(v));
    FrameValid(t2, t3, Left(v), s, m);
    FrameValid(t1, t2, Right(v), m + 1, e);
  }

  /** Adding `x` to every element below `v` is the same as `x` more pending above it. */
  lemma {:induction false} ElemsShift(t: Tree, v: nat, s: nat, e: nat, acc: int, x: int)
    requires s <= e
    ensures Elems(t, v, s, e, acc + x) == AddIn(Elems(t, v, s, e, acc), s, s, e, x)
    decreases e - s, 1
  {
    if s == e {
      ElemsShiftLeaf(t, v, s, acc, x);
    } else {
      var p := acc + At(t.lazy, v);
      assert (acc + x) + At(t.lazy, v) == p + x;
      ElemsSplitShift(t, v, s, e, p, x);
    }
  }

  lemma {:induction false} ElemsSplitShift(t: Tree, v: nat, s: nat, e: nat, p: int, x: int)
    requires s < e
    ensures ElemsSplit(t, v, s, e, p + x) == AddIn(ElemsSplit(t, v, s, e, p), s, s, e, x)
    decreases e - s, 0
  {
    var m := Mid(s, e);
    var a := Elems(t, Left(v), s, m, p);
    var b := Elems(t, Right(v), m + 1, e, p);
    ElemsShift(t, Left(v), s, m, p, x);
    ElemsShift(t, Right(v), m + 1, e, p, x);
    AddInCovered(a, s, s, m, s, e, x);
    AddInCovered(b, m + 1, m + 1, e, s, e, x);
    AddInConcat(a, b, s, s, e, x);
  }

  lemma ElemsShiftLeaf(t: Tree, v: nat, s: nat, acc: int, x: int)
    ensures Elems(t, v, s, s, acc + x) == AddIn(Elems(t, v, s, s, acc), s, s, s, x)
  {
    var r := Elems(t, v, s, s, acc);
    assert r == [At(t.tree, v) + acc + At(t.lazy, v)];
    assert AddIn(r, s, s, s, x)[0] == r[0] + x;
  }

  /** Under the invariant, a node's aggregate is the sum of the elements below it. */
  lemma {:induction false} AggIsSum(t: Tree, v: nat, s: nat, e: nat, acc: int)
    requires s <= e && Valid(t, v, s, e)
    ensures Sum(Elems(t, v, s, e, acc)) == Agg(t, v, s, e) + Times(e - s + 1, acc)
    decreases e - s, 1
  {
    var p := acc + At(t.lazy, v);
    if s == e {
      assert Sum(Elems(t, v, s, e, acc)) == At(t.tree, v) + p + Sum([]);
      assert Times(1, acc) == acc && Times(1, At(t.lazy, v)) == At(t.lazy, v);
    } else {
      SplitSum(t, v, s, e, p);
      TimesAddValue(e - s + 1, At(t.lazy, v), acc);
    }
  }

  /** Under the invariant, the elements below an inner node `v` sum to `tree[v]` plus `p` for each. */
  lemma {:induction false} SplitSum(t: Tree, v: nat, s: nat, e: nat, p: int)
    requires s < e && ValidSplit(t, v, s, e)
    ensures Sum(ElemsSplit(t, v, s, e, p)) == At(t.tree, v) + Times(e - s + 1, p)
    decreases e - s, 0
  {
    var m := Mid(s, e);
    AggIsSum(t, Left(v), s, m, p);
    AggIsSum(t, Right(v), m + 1, e, p);
    SumConcat(Elems(t, Left(v), s, m, p), Elems(t, Right(v), m + 1, e, p));
    TimesAddCount(m - s + 1, e - m, p);
  }

  /** A child whose `tree` slot is kept and whose `lazy` slot grew by `x`: its aggregate grew by its length times `x`. */
  lemma ChildAggShift(t: Tree, t': Tree, c: nat, s: nat, e: nat, x: int)
    requires At(t'.tree, c) == At(t.tree, c) && At(t'.lazy, c) == At(t.lazy, c) + x
    requires s <= e
    ensures Agg(t', c, s, e) == Agg(t, c, s, e) + Times(e - s + 1, x)
  {
    TimesAddValue(e - s + 1, At(t.lazy, c), x);
  }

  // ---------------------------------------------------------------------------
  // Lazy propagation

  /** `Push` adds `x` to every element below `v` and keeps the invariant. */
  lemma PushCorrect(t: Tree, v: nat, s: nat, e: nat, d: nat, x: int, acc: int)
    requires Node(t, v, s, e, d)
    ensures Elems(Push(t, v, s, e, d, x), v, s, e, acc) == Elems(t, v, s, e, acc + x)
    ensures Valid(t, v, s, e) ==> Valid(Push(t, v, s, e, d, x), v, s, e)
  {
    if s < e {
      PushElems(t, v, s, e, d, x, acc);
      if Valid(t, v, s, e) {
        PushValid(t, v, s, e, d, x);
      }
    }
  }

  lemma PushElems(t: Tree, v: nat, s: nat, e: nat, d: nat, x: int, acc: int)
    requires Node(t, v, s, e, d) && s < e
    ensures Elems(Push(t, v, s, e, d, x), v, s, e, acc) == Elems(t, v, s, e, acc + x)
  {
    var m := Mid(s, e);
    var p := acc + At(t.lazy, v);
    PushChildElems(t, v, Left(v), s, e, s, m, d, x, p);
    PushChildElems(t, v, Right(v), s, e, m + 1, e, d, x, p);
    assert (acc + x) + At(t.lazy, v) == p + x;
  }

  lemma PushValid(t: Tree, v: nat, s: nat, e: nat, d: nat, x: int)
    requires Node(t, v, s, e, d) && s < e && Valid(t, v, s, e)
    ensures Valid(Push(t, v, s, e, d, x), v, s, e)
  {
    var t' := Push(t, v, s, e, d, x);
    var m := Mid(s, e);
    PushChildValid(t, v, Left(v), s, e, s, m, d, x);
    PushChildValid(t, v, Right(v), s, e, m + 1, e, d, x);
    TimesAddCount(m - s + 1, e - (m + 1) + 1, x);
    assert At(t'.tree, v) == Agg(t', Left(v), s, m) + Agg(t', Right(v), m + 1, e);
  }

  /** The slots of `Push` at and below a child `c` of `v`: `x` more pending at `c`, nothing else. */
  lemma PushChildSlots(t: Tree, v: nat, c: nat, s: nat, e: nat, d: nat, x: int)
    requires Node(t, v, s, e, d) && s < e && (c == Left(v) || c == Right(v))
    ensures var t' := Push(t, v, s, e, d, x);
      && At(t'.tree, c) == At(t.tree, c) && At(t'.lazy, c) == At(t.lazy, c) + x
      && forall u: nat :: Below(u, c) && u != c ==> At(t'.tree, u) == At(t.tree, u) && At(t'.lazy, u) == At(t.lazy, u)
  {
    ChildNodes(t, v, s, e, d);
    ChildSubtrees(v);
  }

  /** One child `c` of a node that `Push` handled holds `x` more pending: its elements. */
  lemma PushChildElems(t: Tree, v: nat, c: nat, s: nat, e: nat, cs: nat, ce: nat, d: nat, x: int, acc: int)
    requires Node(t, v, s, e, d) && s < e && (c == Left(v) || c == Right(v)) && cs <= ce
    ensures Elems(Push(t, v, s, e, d, x), c, cs, ce, acc) == Elems(t, c, cs, ce, acc + x)
  {
    PushChildSlots(t, v, c, s, e, d, x);
    RootLazyShift(t, Push(t, v, s, e, d, x), c, cs, ce, acc, x);
  }

  /** One child `c` of a node that `Push` handled holds `x` more pending: its invariant and aggregate. */
  lemma PushChildValid(t: Tree, v: nat, c: nat, s: nat, e: nat, cs: nat, ce: nat, d: nat, x: int)
    requires Node(t, v, s, e, d) && s < e && (c == Left(v) || c == Right(v)) && cs <= ce
    ensures Valid(Push(t, v, s, e, d, x), c, cs, ce) == Valid(t, c, cs, ce)
    ensures Agg(Push(t, v, s, e, d, x), c, cs, ce) == Agg(t, c, cs, ce) + Times(ce - cs + 1, x)
  {
    PushChildSlots(t, v, c, s, e, d, x);
    RootLazyShift(t, Push(t, v, s, e, d, x), c, cs, ce, 0, x);
    ChildAggShift(t, Push(t, v, s, e, d, x), c, cs, ce, x);
  }

  /** Flushing `v` changes neither the elements below it nor the invariant. */
  lemma FlushPreserves(t: Tree, v: nat, s: nat, e: nat, d: nat, acc: int)
    requires Node(t, v, s, e, d)
    ensures Elems(Flush(t, v, s, e, d), v, s, e, acc) == Elems(t, v, s, e, acc)
    ensures Valid(t, v, s, e) ==> Valid(Flush(t, v, s, e, d), v, s, e)
  {
    var z := t.lazy[v];
    if z != 0 {
      var t1 := Push(t, v, s, e, d, z);
      PushCorrect(t, v, s, e, d, z, acc - z);
      ChildSubtrees(v);
      RootLazyShift(t1, t1.(lazy := t1.lazy[v := 0]), v, s, e, acc, -z);
      assert acc - z + z == acc;
    }
  }

  // ---------------------------------------------------------------------------
  // Correctness of the operations below one node

  /** Equal elements under the invariant mean equal aggregates. */
  lemma AggFromElems(t: Tree, t': Tree, v: nat, s: nat, e: nat)
    requires s <= e && Valid(t, v, s, e) && Valid(t', v, s, e)
    requires Elems(t', v, s, e, 0) == Elems(t, v, s, e, 0)
    ensures Agg(t', v, s, e) == Agg(t, v, s, e)
  {
    AggIsSum(t, v, s, e, 0);
    AggIsSum(t', v, s, e, 0);
  }

  /** An operation confined to the left child's subtree leaves the right child's elements and invariant alone. */
  lemma KeepOtherChild(t: Tree, t': Tree, v: nat, s: nat, e: nat)
    requires s < e && UnchangedOutside(t, t', Left(v))
    ensures Elems(t', Right(v), Mid(s, e) + 1, e, 0) == Elems(t, Right(v), Mid(s, e) + 1, e, 0)
    ensures Valid(t', Right(v), Mid(s, e) + 1, e) == Valid(t, Right(v), Mid(s, e) + 1, e)
  {
    ChildSubtrees(v);
    OutsideSame(t, t', Left(v), Right(v));
    SameSubtreeSame(t, t', Right(v), Mid(s, e) + 1, e, 0);
  }

  /**
   Two operations, one confined to each child's subtree, that each keep their child's
   elements and invariant, keep the invariant of the split node `v`.
   */
  lemma ChildrenKeep(t: Tree, t2: Tree, t3: Tree, v: nat, s: nat, e: nat)
    requires s < e && ValidSplit(t, v, s, e)
    requires UnchangedOutside(t, t2, Left(v)) && UnchangedOutside(t2, t3, Right(v))
    requires Elems(t2, Left(v), s, Mid(s, e), 0) == Elems(t, Left(v), s, Mid(s, e), 0)
    requires Valid(t2, Left(v), s, Mid(s, e))
    requires Elems(t3, Right(v), Mid(s, e) + 1, e, 0) == Elems(t2, Right(v), Mid(s, e) + 1, e, 0)
    requires Valid(t3, Right(v), Mid(s, e) + 1, e)
    ensures ValidSplit(t3, v, s, e)
  {
    var m := Mid(s, e);
    ChildOpsValid(t, t2, t3, v, s, m, e);
    UnchangedChildren(t, t2, t3, v);
    AggFromElems(t, t2, Left(v), s, m);
    AggFromElems(t2, t3, Right(v), m + 1, e);
  }

  /** A query below `v` leaves the elements below `v` as they were. */
  lemma {:induction false} QueryNodeElems(t: Tree, v: nat, s: nat, e: nat, d: nat, qs: nat, qe: nat)
    requires Node(t, v, s, e, d)
    ensures Elems(QueryNode(t, v, s, e, d, qs, qe).0, v, s, e, 0) == Elems(t, v, s, e, 0)
    decreases e - s, 1
  {
    var t1 := Flush(t, v, s, e, d);
    FlushPreserves(t, v, s, e, d, 0);
    if !(qs <= s && qe >= e) && s <= qe && e >= qs {
      QuerySplitElems(t1, v, s, e, d, qs, qe);
      QuerySplitFrame(t1, v, s, e, d, qs, qe);
    }
  }

  /**
   The split case of a query, unfolded: the left half is queried first, then the right
   half, each changing only its own subtree.
   */
  lemma QuerySplitUnfold(t: Tree, v: nat, s: nat, e: nat, d: nat, qs: nat, qe: nat)
      returns (m: nat, left: (Tree, int), right: (Tree, int))
    requires Node(t, v, s, e, d) && s < e
    ensures m == Mid(s, e) && Node(t, Left(v), s, m, d + 1) && Node(left.0, Right(v), m + 1, e, d + 1)
    ensures left == QueryNode(t, Left(v), s, m, d + 1, qs, qe)
    ensures right == QueryNode(left.0, Right(v), m + 1, e, d + 1, qs, qe)
    ensures QuerySplit(t, v, s, e, d, qs, qe) == (right.0, left.1 + right.1)
    ensures UnchangedOutside(t, left.0, Left(v)) && UnchangedOutside(left.0, right.0, Right(v))
  {
    ChildNodes(t, v, s, e, d);
    m := Mid(s, e);
    left := QueryNode(t, Left(v), s, m, d + 1, qs, qe);
    right := QueryNode(left.0, Right(v), m + 1, e, d + 1, qs, qe);
    QueryNodeFrame(t, Left(v), s, m, d + 1, qs, qe);
    QueryNodeFrame(left.0, Right(v), m + 1, e, d + 1, qs, qe);
  }

  lemma {:induction false} QuerySplitElems(t: Tree, v: nat, s: nat, e: nat, d: nat, qs: nat, qe: nat)
    requires Node(t, v, s, e, d) && s < e
    ensures ElemsSplit(QuerySplit(t, v, s, e, d, qs, qe).0, v, s, e, 0) == ElemsSplit(t, v, s, e, 0)
    decreases e - s, 0
  {
    var m, left, right := QuerySplitUnfold(t, v, s, e, d, qs, qe);
    ChildOpsElems(t, left.0, right.0, v, s, m, e);
    QueryNodeElems(t, Left(v), s, m, d + 1, qs, qe);
    QueryNodeElems(left.0, Right(v), m + 1, e, d + 1, qs, qe);
  }

  /** A query below `v` keeps the invariant below `v`. */
  lemma {:induction false} QueryNodeValid(t: Tree, v: nat, s: nat, e: nat, d: nat, qs: nat, qe: nat)
    requires Node(t, v, s, e, d) && Valid(t, v, s, e)
    ensures Valid(QueryNode(t, v, s, e, d, qs, qe).0, v, s, e)
    decreases e - s, 1
  {
    var t1 := Flush(t, v, s, e, d);
    FlushPreserves(t, v, s, e, d, 0);
    if !(qs <= s && qe >= e) && s <= qe && e >= qs {
      QuerySplitValid(t1, v, s, e, d, qs, qe);
    }
  }

  lemma {:induction false} QuerySplitValid(t: Tree, v: nat, s: nat, e: nat, d: nat, qs: nat, qe: nat)
    requires Node(t, v, s, e, d) && s < e && ValidSplit(t, v, s, e)
    ensures ValidSplit(QuerySplit(t, v, s, e, d, qs, qe).0, v, s, e)
    decreases e - s, 0
  {
    var m, left, right := QuerySplitUnfold(t, v, s, e, d, qs, qe);
    assert Elems(left.0, Left(v), s, m, 0) == Elems(t, Left(v), s, m, 0)
        && Valid(left.0, Left(v), s, m) && Valid(left.0, Right(v), m + 1, e) by {
      QueryNodeElems(t, Left(v), s, m, d + 1, qs, qe);
      QueryNodeValid(t, Left(v), s, m, d + 1, qs, qe);
      KeepOtherValid(t, left.0, v, s, m, e);
    }
    QueryNodeElems(left.0, Right(v), m + 1, e, d + 1, qs, qe);
    QueryNodeValid(left.0, Right(v), m + 1, e, d + 1, qs, qe);
    ChildrenKeep(t, left.0, right.0, v, s, e);
  }

  /** Under the invariant, a query below `v` returns the sum of the elements below `v` whose position lies in `[qs, qe]`. */
  lemma {:induction false} QueryNodeSum(t: Tree, v: nat, s: nat, e: nat, d: nat, qs: nat, qe: nat)
    requires Node(t, v, s, e, d) && Valid(t, v, s, e)
    ensures QueryNode(t, v, s, e, d, qs, qe).1 == SumIn(Elems(t, v, s, e, 0), s, qs, qe)
    decreases e - s, 1
  {
    var t1 := Flush(t, v, s, e, d);
    FlushPreserves(t, v, s, e, d, 0);
    if qs <= s && qe >= e {
      SumInAll(Elems(t, v, s, e, 0), s, qs, qe);
      AggIsSum(t1, v, s, e, 0);
      TimesZero(e - s + 1);
    } else if s <= qe && e >= qs {
      QuerySplitSum(t1, v, s, e, d, qs, qe);
    } else {
      SumInNone(Elems(t, v, s, e, 0), s, qs, qe);
    }
  }

  lemma {:induction false} QuerySplitSum(t: Tree, v: nat, s: nat, e: nat, d: nat, qs: nat, qe: nat)
    requires Node(t, v, s, e, d) && s < e && ValidSplit(t, v, s, e)
    ensures QuerySplit(t, v, s, e, d, qs, qe).1 == SumIn(ElemsSplit(t, v, s, e, 0), s, qs, qe)
    decreases e - s, 0
  {
    var m, left, right := QuerySplitUnfold(t, v, s, e, d, qs, qe);
    QueryNodeSum(t, Left(v), s, m, d + 1, qs, qe);
    KeepOtherChild(t, left.0, v, s, e);
    QueryNodeSum(left.0, Right(v), m + 1, e, d + 1, qs, qe);
    SumInConcat(Elems(t, Left(v), s, m, 0), Elems(t, Right(v), m + 1, e, 0), s, qs, qe);
  }

  /** Under the invariant, with nothing pending above, a node's aggregate is the sum of its elements. */
  lemma AggIsElemsSum(t: Tree, v: nat, s: nat, e: nat)
    requires s <= e && Valid(t, v, s, e)
    ensures Agg(t, v, s, e) == Sum(Elems(t, v, s, e, 0))
  {
    AggIsSum(t, v, s, e, 0);
    TimesZero(e - s + 1);
  }

  /** Writing slot `v` of `tree` leaves the elements of an inner node `v` and both children's invariants and aggregates alone. */
  lemma SetRootChildren(t: Tree, v: nat, s: nat, e: nat, value: int, p: int)
    requires s < e && v < |t.tree|
    ensures var t' := t.(tree := t.tree[v := value]);
      && ElemsSplit(t', v, s, e, p) == ElemsSplit(t, v, s, e, p)
      && Valid(t', Left(v), s, Mid(s, e)) == Valid(t, Left(v), s, Mid(s, e))
      && Valid(t', Right(v), Mid(s, e) + 1, e) == Valid(t, Right(v), Mid(s, e) + 1, e)
      && Agg(t', Left(v), s, Mid(s, e)) == Agg(t, Left(v), s, Mid(s, e))
      && Agg(t', Right(v), Mid(s, e) + 1, e) == Agg(t, Right(v), Mid(s, e) + 1, e)
  {
    var t' := t.(tree := t.tree[v := value]);
    SetRootKeepsChildren(t, v, value);
    SameSubtreeSame(t, t', Left(v), s, Mid(s, e), p);
    SameSubtreeSame(t, t', Right(v), Mid(s, e) + 1, e, p);
  }

  /**
   Two operations, one confined to each child's subtree, that add `x` to the elements of
   their child whose position lies in `[l, r]`, add `x` to exactly those elements below `v`.
   */
  lemma SplitAddIn(t: Tree, t2: Tree, t3: Tree, v: nat, s: nat, m: nat, e: nat, l: int, r: int, x: int)
    requires s <= m < e && m == Mid(s, e)
    requires UnchangedOutside(t, t2, Left(v)) && UnchangedOutside(t2, t3, Right(v))
    requires Elems(t2, Left(v), s, m, 0) == AddIn(Elems(t, Left(v), s, m, 0), s, l, r, x)
    requires Elems(t3, Right(v), m + 1, e, 0) == AddIn(Elems(t2, Right(v), m + 1, e, 0), m + 1, l, r, x)
    ensures ElemsSplit(t3, v, s, e, 0) == AddIn(ElemsSplit(t, v, s, e, 0), s, l, r, x)
  {
    ChildOpsElems(t, t2, t3, v, s, m, e);
    AddInConcat(Elems(t, Left(v), s, m, 0), Elems(t, Right(v), m + 1, e, 0), s, l, r, x);
  }

  /** An operation confined to the left child's subtree leaves the right child's invariant and aggregate alone. */
  lemma KeepOtherValid(t: Tree, t': Tree, v: nat, s: nat, m: nat, e: nat)
    requires s <= m < e && m == Mid(s, e) && UnchangedOutside(t, t', Left(v))
    ensures Valid(t', Right(v), m + 1, e) == Valid(t, Right(v), m + 1, e)
    ensures Agg(t', Right(v), m + 1, e) == Agg(t, Right(v), m + 1, e)
  {
    ChildSubtrees(v);
    OutsideSame(t, t', Left(v), Right(v));
    SameSubtreeChildren(t, t', Right(v));
    FrameValid(t, t', Right(v), m + 1, e);
  }

  /**
   A point update's split case, stated over the child results: `tree[v]` already counts
   `x`, and the child that covers `i` has its aggregate raised by `x`, the other not.
   */
  lemma PointSplitValid(t: Tree, t3: Tree, t4: Tree, v: nat, s: nat, m: nat, e: nat, i: int, x: int)
    requires s <= m < e && m == Mid(s, e) && s <= i <= e
    requires At(t.tree, v) == Agg(t, Left(v), s, m) + Agg(t, Right(v), m + 1, e) + x
    requires UnchangedOutside(t, t3, Left(v)) && UnchangedOutside(t3, t4, Right(v))
    requires Valid(t3, Left(v), s, m) && Valid(t4, Right(v), m + 1, e)
    requires Agg(t3, Left(v), s, m) == Agg(t, Left(v), s, m) + (if s <= i <= m then x else 0)
    requires Agg(t4, Right(v), m + 1, e) == Agg(t3, Right(v), m + 1, e) + (if m + 1 <= i <= e then x else 0)
    ensures ValidSplit(t4, v, s, e)
  {
    ChildOpsValid(t, t3, t4, v, s, m, e);
    UnchangedChildren(t, t3, t4, v);
  }

  // ---------------------------------------------------------------------------
  // Point update

  /** The split case of a point update, unfolded: the left half first, then the right half. */
  lemma UpdatePointSplitUnfold(t: Tree, v: nat, s: nat, e: nat, d: nat, i: nat, x: int)
      returns (m: nat, t3: Tree, t4: Tree)
    requires Node(t, v, s, e, d) && s < e
    ensures m == Mid(s, e) && Node(t, Left(v), s, m, d + 1) && Node(t3, Right(v), m + 1, e, d + 1)
    ensures t3 == UpdatePointNode(t, Left(v), s, m, d + 1, i, x)
    ensures t4 == UpdatePointNode(t3, Right(v), m + 1, e, d + 1, i, x)
    ensures UpdatePointSplit(t, v, s, e, d, i, x) == t4
    ensures UnchangedOutside(t, t3, Left(v)) && UnchangedOutside(t3, t4, Right(v))
  {
    ChildNodes(t, v, s, e, d);
    m := Mid(s, e);
    t3 := UpdatePointNode(t, Left(v), s, m, d + 1, i, x);
    t4 := UpdatePointNode(t3, Right(v), m + 1, e, d + 1, i, x);
    UpdatePointNodeFrame(t, Left(v), s, m, d + 1, i, x);
    UpdatePointNodeFrame(t3, Right(v), m + 1, e, d + 1, i, x);
  }

  /** A point update below `v` adds `x` to the element at position `i`, if `v` covers it, and to no other. */
  lemma {:induction false} UpdatePointNodeElems(t: Tree, v: nat, s: nat, e: nat, d: nat, i: nat, x: int)
    requires Node(t, v, s, e, d)
    ensures Elems(UpdatePointNode(t, v, s, e, d, i, x), v, s, e, 0) == AddIn(Elems(t, v, s, e, 0), s, i, i, x)
    decreases e - s, 1
  {
    var t1 := Flush(t, v, s, e, d);
    FlushPreserves(t, v, s, e, d, 0);
    var a := Elems(t, v, s, e, 0);
    if i >= s && i <= e {
      var t2 := t1.(tree := t1.tree[v := x + t1.tree[v]]);
      if s != e {
        SetRootChildren(t1, v, s, e, x + t1.tree[v], 0);
        UpdatePointSplitElems(t2, v, s, e, d, i, x);
        UpdatePointSplitFrame(t2, v, s, e, d, i, x);
      } else {
        assert AddIn(a, s, i, i, x)[0] == a[0] + x;
      }
    } else {
      AddInOutside(a, s, i, i, x);
    }
  }

  lemma {:induction false} UpdatePointSplitElems(t: Tree, v: nat, s: nat, e: nat, d: nat, i: nat, x: int)
    requires Node(t, v, s, e, d) && s < e
    ensures ElemsSplit(UpdatePointSplit(t, v, s, e, d, i, x), v, s, e, 0) == AddIn(ElemsSplit(t, v, s, e, 0), s, i, i, x)
    decreases e - s, 0
  {
    var m, t3, t4 := UpdatePointSplitUnfold(t, v, s, e, d, i, x);
    UpdatePointNodeElems(t, Left(v), s, m, d + 1, i, x);
    UpdatePointNodeElems(t3, Right(v), m + 1, e, d + 1, i, x);
    SplitAddIn(t, t3, t4, v, s, m, e, i, i, x);
  }

  /** Under the invariant, a point update below `v` keeps the invariant and raises the aggregate of `v` by `x` exactly when `v` covers `i`. */
  lemma UpdatePointNodeAgg(t: Tree, v: nat, s: nat, e: nat, d: nat, i: nat, x: int)
    requires Node(t, v, s, e, d) && Valid(t, v, s, e)
    ensures Valid(UpdatePointNode(t, v, s, e, d, i, x), v, s, e)
    ensures Agg(UpdatePointNode(t, v, s, e, d, i, x), v, s, e) == Agg(t, v, s, e) + (if s <= i <= e then x else 0)
    decreases e - s, 3
  {
    var t' := UpdatePointNode(t, v, s, e, d, i, x);
    UpdatePointNodeValid(t, v, s, e, d, i, x);
    UpdatePointNodeElems(t, v, s, e, d, i, x);
    AggIsElemsSum(t, v, s, e);
    AggIsElemsSum(t', v, s, e);
    SumAddInPoint(Elems(t, v, s, e, 0), s, i, x);
  }

  /** A point update below `v` keeps the invariant below `v`. */
  lemma {:induction false} UpdatePointNodeValid(t: Tree, v: nat, s: nat, e: nat, d: nat, i: nat, x: int)
    requires Node(t, v, s, e, d) && Valid(t, v, s, e)
    ensures Valid(UpdatePointNode(t, v, s, e, d, i, x), v, s, e)
    decreases e - s, 2
  {
    var t1 := Flush(t, v, s, e, d);
    FlushPreserves(t, v, s, e, d, 0);
    if i >= s && i <= e && s != e {
      var t2 := t1.(tree := t1.tree[v := x + t1.tree[v]]);
      SetRootChildren(t1, v, s, e, x + t1.tree[v], 0);
      UpdatePointSplitValid(t2, v, s, e, d, i, x);
    }
  }

  /**
   The split case of a point update keeps the invariant when `tree[v]` already counts the
   `x` that one of the children is about to take.
   */
  lemma {:induction false} UpdatePointSplitValid(t: Tree, v: nat, s: nat, e: nat, d: nat, i: nat, x: int)
    requires Node(t, v, s, e, d) && s < e && s <= i <= e
    requires At(t.tree, v) == Agg(t, Left(v), s, Mid(s, e)) + Agg(t, Right(v), Mid(s, e) + 1, e) + x
    requires Valid(t, Left(v), s, Mid(s, e)) && Valid(t, Right(v), Mid(s, e) + 1, e)
    ensures ValidSplit(UpdatePointSplit(t, v, s, e, d, i, x), v, s, e)
    decreases e - s, 1
  {
    var m, t3, t4 := UpdatePointSplitUnfold(t, v, s, e, d, i, x);
    UpdatePointChildrenValid(t, t3, t4, v, s, m, e, d, i, x);
  }

  /** The split case of a point update, stated over the unfolded child updates. */
  lemma {:induction false} UpdatePointChildrenValid(t: Tree, t3: Tree, t4: Tree, v: nat, s: nat, m: nat, e: nat, d: nat, i: nat, x: int)
    requires s <= m < e && m == Mid(s, e) && s <= i <= e
    requires Node(t, Left(v), s, m, d + 1) && Node(t3, Right(v), m + 1, e, d + 1)
    requires t3 == UpdatePointNode(t, Left(v), s, m, d + 1, i, x)
    requires t4 == UpdatePointNode(t3, Right(v), m + 1, e, d + 1, i, x)
    requires UnchangedOutside(t, t3, Left(v)) && UnchangedOutside(t3, t4, Right(v))
    requires At(t.tree, v) == Agg(t, Left(v), s, m) + Agg(t, Right(v), m + 1, e) + x
    requires Valid(t, Left(v), s, m) && Valid(t, Right(v), m + 1, e)
    ensures ValidSplit(t4, v, s, e)
    decreases e - s, 0
  {
    assert Valid(t3, Left(v), s, m) && Valid(t3, Right(v), m + 1, e)
        && Agg(t3, Left(v), s, m) == Agg(t, Left(v), s, m) + (if s <= i <= m then x else 0) by {
      UpdatePointNodeAgg(t, Left(v), s, m, d + 1, i, x);
      KeepOtherValid(t, t3, v, s, m, e);
    }
    UpdatePointNodeAgg(t3, Right(v), m + 1, e, d + 1, i, x);
    PointSplitValid(t, t3, t4, v, s, m, e, i, x);
  }

  // ---------------------------------------------------------------------------
  // Range update

  /** The split case of a range update, unfolded: both halves, then `tree[v]` recomputed. */
  lemma UpdateRangeSplitUnfold(t: Tree, v: nat, s: nat, e: nat, d: nat, l: nat, r: nat, x: int)
      returns (m: nat, t2: Tree, t3: Tree, t4: Tree)
    requires Node(t, v, s, e, d) && s < e
    ensures m == Mid(s, e) && Node(t, Left(v), s, m, d + 1) && Node(t2, Right(v), m + 1, e, d + 1)
    ensures t2 == UpdateRangeNode(t, Left(v), s, m, d + 1, l, r, x)
    ensures t3 == UpdateRangeNode(t2, Right(v), m + 1, e, d + 1, l, r, x)
    ensures t4 == t3.(tree := t3.tree[v := t3.tree[Left(v)] + t3.tree[Right(v)]])
    ensures UpdateRangeSplit(t, v, s, e, d, l, r, x) == t4
  {
    ChildNodes(t, v, s, e, d);
    m := Mid(s, e);
    t2 := UpdateRangeNode(t, Left(v), s, m, d + 1, l, r, x);
    t3 := UpdateRangeNode(t2, Right(v), m + 1, e, d + 1, l, r, x);
    t4 := t3.(tree := t3.tree[v := t3.tree[Left(v)] + t3.tree[Right(v)]]);
  }

  /** What the unfolded split case leaves where: each half changes only its own subtree, and `tree[v]` is their sum. */
  lemma UpdateRangeSplitFrames(t: Tree, v: nat, s: nat, m: nat, e: nat, d: nat, l: nat, r: nat, x: int,
                               t2: Tree, t3: Tree, t4: Tree)
    requires s <= m < e && Node(t, Left(v), s, m, d + 1) && Node(t2, Right(v), m + 1, e, d + 1)
    requires t2 == UpdateRangeNode(t, Left(v), s, m, d + 1, l, r, x)
    requires t3 == UpdateRangeNode(t2, Right(v), m + 1, e, d + 1, l, r, x)
    requires t4 == t3.(tree := t3.tree[v := t3.tree[Left(v)] + t3.tree[Right(v)]])
    ensures UnchangedOutside(t, t2, Left(v)) && UnchangedOutside(t2, t3, Right(v))
    ensures SameSubtree(t3, t4, Left(v)) && SameSubtree(t3, t4, Right(v))
    ensures At(t3.lazy, Left(v)) == 0 && At(t3.lazy, Right(v)) == 0
    ensures At(t4.tree, v) == At(t3.tree, Left(v)) + At(t3.tree, Right(v))
  {
    UpdateRangeNodeFrame(t, Left(v), s, m, d + 1, l, r, x);
    UpdateRangeNodeFrame(t2, Right(v), m + 1, e, d + 1, l, r, x);
    SetRootKeepsChildren(t3, v, t3.tree[Left(v)] + t3.tree[Right(v)]);
    ChildSubtrees(v);
  }

  /** Two trees that agree on both child subtrees of `v` agree on the elements below `v`. */
  lemma SameChildrenElems(t: Tree, t': Tree, v: nat, s: nat, e: nat)
    requires s < e && SameSubtree(t, t', Left(v)) && SameSubtree(t, t', Right(v))
    ensures ElemsSplit(t', v, s, e, 0) == ElemsSplit(t, v, s, e, 0)
  {
    FrameElems(t, t', Left(v), s, Mid(s, e), 0);
    FrameElems(t, t', Right(v), Mid(s, e) + 1, e, 0);
  }

  /** Two trees that agree on both child subtrees of `v` agree on each child's invariant and aggregate. */
  lemma SameChildrenValid(t: Tree, t': Tree, v: nat, s: nat, e: nat)
    requires s < e && SameSubtree(t, t', Left(v)) && SameSubtree(t, t', Right(v))
    ensures Valid(t', Left(v), s, Mid(s, e)) == Valid(t, Left(v), s, Mid(s, e))
    ensures Valid(t', Right(v), Mid(s, e) + 1, e) == Valid(t, Right(v), Mid(s, e) + 1, e)
    ensures Agg(t', Left(v), s, Mid(s, e)) == Agg(t, Left(v), s, Mid(s, e))
    ensures Agg(t', Right(v), Mid(s, e) + 1, e) == Agg(t, Right(v), Mid(s, e) + 1, e)
  {
    SameSubtreeChildren(t, t', Left(v));
    SameSubtreeChildren(t, t', Right(v));
    FrameValid(t, t', Left(v), s, Mid(s, e));
    FrameValid(t, t', Right(v), Mid(s, e) + 1, e);
  }

  /** A range update below `v` adds `x` to exactly those elements below `v` whose position lies in `[l, r]`. */
  lemma {:induction false} UpdateRangeNodeElems(t: Tree, v: nat, s: nat, e: nat, d: nat, l: nat, r: nat, x: int)
    requires Node(t, v, s, e, d)
    ensures Elems(UpdateRangeNode(t, v, s, e, d, l, r, x), v, s, e, 0) == AddIn(Elems(t, v, s, e, 0), s, l, r, x)
    decreases e - s, 1
  {
    var t1 := Flush(t, v, s, e, d);
    FlushPreserves(t, v, s, e, d, 0);
    var a := Elems(t, v, s, e, 0);
    if s > e || s > r || e < l {
      AddInOutside(a, s, l, r, x);
    } else if s >= l && e <= r {
      PushCorrect(t1, v, s, e, d, x, 0);
      ElemsShift(t1, v, s, e, 0, x);
      AddInCovered(a, s, s, e, l, r, x);
    } else {
      UpdateRangeSplitElems(t1, v, s, e, d, l, r, x);
      UpdateRangeSplitFrame(t1, v, s, e, d, l, r, x);
    }
  }

  lemma {:induction false} UpdateRangeSplitElems(t: Tree, v: nat, s: nat, e: nat, d: nat, l: nat, r: nat, x: int)
    requires Node(t, v, s, e, d) && s < e
    ensures ElemsSplit(UpdateRangeSplit(t, v, s, e, d, l, r, x), v, s, e, 0) == AddIn(ElemsSplit(t, v, s, e, 0), s, l, r, x)
    decreases e - s, 0
  {
    var m, t2, t3, t4 := UpdateRangeSplitUnfold(t, v, s, e, d, l, r, x);
    UpdateRangeSplitFrames(t, v, s, m, e, d, l, r, x, t2, t3, t4);
    UpdateRangeNodeElems(t, Left(v), s, m, d + 1, l, r, x);
    UpdateRangeNodeElems(t2, Right(v), m + 1, e, d + 1, l, r, x);
    SplitAddIn(t, t2, t3, v, s, m, e, l, r, x);
    SameChildrenElems(t3, t4, v, s, e);
  }

  /** A range update below `v` keeps the invariant below `v`. */
  lemma {:induction false} UpdateRangeNodeValid(t: Tree, v: nat, s: nat, e: nat, d: nat, l: nat, r: nat, x: int)
    requires Node(t, v, s, e, d) && Valid(t, v, s, e)
    ensures Valid(UpdateRangeNode(t, v, s, e, d, l, r, x), v, s, e)
    decreases e - s, 1
  {
    var t1 := Flush(t, v, s, e, d);
    FlushPreserves(t, v, s, e, d, 0);
    if s > e || s > r || e < l {
    } else if s >= l && e <= r {
      PushCorrect(t1, v, s, e, d, x, 0);
    } else {
      UpdateRangeSplitValid(t1, v, s, e, d, l, r, x);
    }
  }

  /**
   A node whose `tree` slot is recomputed as the sum of its children's `tree` slots, with
   nothing pending at either child, is valid when its children are.
   */
  lemma RecomputedValid(t: Tree, t': Tree, v: nat, s: nat, e: nat)
    requires s < e && SameSubtree(t, t', Left(v)) && SameSubtree(t, t', Right(v))
    requires At(t.lazy, Left(v)) == 0 && At(t.lazy, Right(v)) == 0
    requires At(t'.tree, v) == At(t.tree, Left(v)) + At(t.tree, Right(v))
    requires Valid(t, Left(v), s, Mid(s, e)) && Valid(t, Right(v), Mid(s, e) + 1, e)
    ensures ValidSplit(t', v, s, e)
  {
    SameChildrenValid(t, t', v, s, e);
    TimesZero(Mid(s, e) - s + 1);
    TimesZero(e - Mid(s, e));
  }

  /**
   The split case of a range update keeps the invariant whatever `tree[v]` held before:
   `tree[v]` is recomputed from the two children, whose pending amounts are both 0.
   */
  lemma {:induction false} UpdateRangeSplitValid(t: Tree, v: nat, s: nat, e: nat, d: nat, l: nat, r: nat, x: int)
    requires Node(t, v, s, e, d) && s < e
    requires Valid(t, Left(v), s, Mid(s, e)) && Valid(t, Right(v), Mid(s, e) + 1, e)
    ensures ValidSplit(UpdateRangeSplit(t, v, s, e, d, l, r, x), v, s, e)
    decreases e - s, 0
  {
    var m, t2, t3, t4 := UpdateRangeSplitUnfold(t, v, s, e, d, l, r, x);
    UpdateRangeSplitFrames(t, v, s, m, e, d, l, r, x, t2, t3, t4);
    ChildOpsValid(t, t2, t3, v, s, m, e);
    UpdateRangeNodeValid(t, Left(v), s, m, d + 1, l, r, x);
    UpdateRangeNodeValid(t2, Right(v), m + 1, e, d + 1, l, r, x);
    RecomputedValid(t3, t4, v, s, e);
  }

  // ---------------------------------------------------------------------------
  // Construction

  /** No addition is pending anywhere, as in freshly allocated arrays. */
  ghost predicate NoPending(t: Tree)
  {
    forall u: nat :: At(t.lazy, u) == 0
  }

  /** The split case of a construction, unfolded: the left half first, then the right half, then `tree[v]`. */
  lemma ConstructSplitUnfold(t: Tree, arr: seq<int>, s: nat, e: nat, v: nat, d: nat)
      returns (m: nat, left: (Tree, int), right: (Tree, int), t4: Tree)
    requires Node(t, v, s, e, d) && e < |arr| && s < e
    ensures m == Mid(s, e) && Node(t, Left(v), s, m, d + 1) && Node(left.0, Right(v), m + 1, e, d + 1)
    ensures left == ConstructNode(t, arr, s, m, Left(v), d + 1)
    ensures right == ConstructNode(left.0, arr, m + 1, e, Right(v), d + 1)
    ensures t4 == right.0.(tree := right.0.tree[v := left.1 + right.1])
    ensures ConstructNode(t, arr, s, e, v, d).0 == t4
  {
    ChildNodes(t, v, s, e, d);
    m := Mid(s, e);
    left := ConstructNode(t, arr, s, m, Left(v), d + 1);
    right := ConstructNode(left.0, arr, m + 1, e, Right(v), d + 1);
    t4 := right.0.(tree := right.0.tree[v := left.1 + right.1]);
  }

  /** What the unfolded split case leaves where: each half changes only its own subtree, and `tree[v]` is their sum. */
  lemma ConstructSplitFrames(t: Tree, arr: seq<int>, s: nat, m: nat, e: nat, v: nat, d: nat,
                             left: (Tree, int), right: (Tree, int), t4: Tree)
    requires s <= m < e < |arr| && Node(t, Left(v), s, m, d + 1) && Node(left.0, Right(v), m + 1, e, d + 1)
    requires left == ConstructNode(t, arr, s, m, Left(v), d + 1)
    requires right == ConstructNode(left.0, arr, m + 1, e, Right(v), d + 1)
    requires t4 == right.0.(tree := right.0.tree[v := left.1 + right.1])
    ensures UnchangedOutside(t, left.0, Left(v)) && UnchangedOutside(left.0, right.0, Right(v))
    ensures SameSubtree(right.0, t4, Left(v)) && SameSubtree(right.0, t4, Right(v))
    ensures t4.lazy == t.lazy && right.0.lazy == t.lazy && left.0.lazy == t.lazy
    ensures At(t4.tree, v) == At(right.0.tree, Left(v)) + At(right.0.tree, Right(v))
  {
    ConstructNodeFrame(t, arr, s, m, Left(v), d + 1);
    ConstructNodeFrame(left.0, arr, m + 1, e, Right(v), d + 1);
    assert At(right.0.tree, Left(v)) == At(left.0.tree, Left(v)) by {
      ChildSubtrees(v);
    }
    SetRootKeepsChildren(right.0, v, left.1 + right.1);
  }

  /**
   The split case of a construction, stated over the child results: children holding
   `arr[s..mid]` and `arr[mid+1..e]` make the elements below `v` exactly `arr[s..e]`.
   */
  lemma ConstructCombineElems(t: Tree, t2: Tree, t3: Tree, t4: Tree, arr: seq<int>, v: nat, s: nat, m: nat, e: nat)
    requires s < e < |arr| && m == Mid(s, e)
    requires UnchangedOutside(t, t2, Left(v)) && UnchangedOutside(t2, t3, Right(v))
    requires SameSubtree(t3, t4, Left(v)) && SameSubtree(t3, t4, Right(v)) && At(t4.lazy, v) == 0
    requires Elems(t2, Left(v), s, m, 0) == arr[s..m + 1]
    requires Elems(t3, Right(v), m + 1, e, 0) == arr[m + 1..e + 1]
    ensures Elems(t4, v, s, e, 0) == arr[s..e + 1]
  {
    ChildOpsElems(t, t2, t3, v, s, m, e);
    SameChildrenElems(t3, t4, v, s, e);
    SliceConcat(arr, s, m + 1, e + 1);
  }

  /** With nothing pending, construction below `v` makes the elements below `v` exactly `arr[s..e]`. */
  lemma {:induction false} ConstructNodeElems(t: Tree, arr: seq<int>, s: nat, e: nat, v: nat, d: nat)
    requires Node(t, v, s, e, d) && e < |arr| && NoPending(t)
    ensures Elems(ConstructNode(t, arr, s, e, v, d).0, v, s, e, 0) == arr[s..e + 1]
    decreases e - s, 1
  {
    if s == e {
      assert arr[s..e + 1] == [arr[s]];
    } else {
      ConstructSplitElems(t, arr, s, e, v, d);
    }
  }

  lemma {:induction false} ConstructSplitElems(t: Tree, arr: seq<int>, s: nat, e: nat, v: nat, d: nat)
    requires Node(t, v, s, e, d) && e < |arr| && NoPending(t) && s < e
    ensures Elems(ConstructNode(t, arr, s, e, v, d).0, v, s, e, 0) == arr[s..e + 1]
    decreases e - s, 0
  {
    var m, left, right, t4 := ConstructSplitUnfold(t, arr, s, e, v, d);
    ConstructSplitFrames(t, arr, s, m, e, v, d, left, right, t4);
    ConstructNodeElems(t, arr, s, m, Left(v), d + 1);
    ConstructNodeElems(left.0, arr, m + 1, e, Right(v), d + 1);
    ConstructCombineElems(t, left.0, right.0, t4, arr, v, s, m, e);
  }

  /** With nothing pending, construction below `v` establishes the invariant below `v`. */
  lemma {:induction false} ConstructNodeValid(t: Tree, arr: seq<int>, s: nat, e: nat, v: nat, d: nat)
    requires Node(t, v, s, e, d) && e < |arr| && NoPending(t)
    ensures Valid(ConstructNode(t, arr, s, e, v, d).0, v, s, e)
    decreases e - s, 1
  {
    if s < e {
      ConstructSplitValid(t, arr, s, e, v, d);
    }
  }

  lemma {:induction false} ConstructSplitValid(t: Tree, arr: seq<int>, s: nat, e: nat, v: nat, d: nat)
    requires Node(t, v, s, e, d) && e < |arr| && NoPending(t) && s < e
    ensures ValidSplit(ConstructNode(t, arr, s, e, v, d).0, v, s, e)
    decreases e - s, 0
  {
    var m, left, right, t4 := ConstructSplitUnfold(t, arr, s, e, v, d);
    ConstructSplitFrames(t, arr, s, m, e, v, d, left, right, t4);
    assert Valid(right.0, Left(v), s, m) by {
      ConstructNodeValid(t, arr, s, m, Left(v), d + 1);
      ChildOpsValid(t, left.0, right.0, v, s, m, e);
    }
    ConstructNodeValid(left.0, arr, m + 1, e, Right(v), d + 1);
    RecomputedValid(right.0, t4, v, s, e);
  }

  /** All-zero arrays represent all-zero elements and satisfy the invariant. */
  lemma {:induction false} ZeroElems(t: Tree, v: nat, s: nat, e: nat)
    requires s <= e
    requires forall u: nat :: At(t.tree, u) == 0 && At(t.lazy, u) == 0
    ensures Elems(t, v, s, e, 0) == Zeros(e - s + 1)
    ensures Valid(t, v, s, e)
    decreases e - s
  {
    if s < e {
      var m := Mid(s, e);
      ZeroElems(t, Left(v), s, m);
      ZeroElems(t, Right(v), m + 1, e);
      assert Zeros(e - s + 1) == Zeros(m - s + 1) + Zeros(e - m);
      TimesZero(m - s + 1);
      TimesZero(e - m);
    }
  }

  // ---------------------------------------------------------------------------
  // Correctness of the operations on a whole tree

  /** The size-only constructor represents `n` zero elements and satisfies the invariant. */
  lemma EmptyCorrect(n: nat)
    requires n >= 1
    ensures Size(Empty(n)) == n && Inv(Empty(n))
    ensures Elements(Empty(n)) == Zeros(n)
  {
    var t := Empty(n);
    forall u: nat
      ensures At(t.tree, u) == 0 && At(t.lazy, u) == 0
    {
    }
    ZeroElems(t, 0, 0, t.n - 1);
    assert Valid(t, 0, 0, t.n - 1);
  }

  /** Construction from `arr` represents exactly `arr` and satisfies the invariant. */
  lemma BuildCorrect(arr: seq<int>)
    requires |arr| >= 1
    ensures Size(Build(arr)) == |arr| && Inv(Build(arr))
    ensures Elements(Build(arr)) == arr
  {
    var t0 := Empty(|arr|);
    RootNode(t0);
    forall u: nat
      ensures At(t0.lazy, u) == 0
    {
    }
    ConstructNodeElems(t0, arr, 0, |arr| - 1, 0, 0);
    ConstructNodeValid(t0, arr, 0, |arr| - 1, 0, 0);
    assert arr[0..|arr|] == arr;
  }

  /** Resetting a tree gives back the freshly constructed all-zero tree of the same size. */
  lemma ResetCorrect(t: Tree)
    requires Shaped(t)
    ensures Reset(t) == Empty(t.n)
    ensures Size(Reset(t)) == Size(t) && Inv(Reset(t))
    ensures Elements(Reset(t)) == Zeros(t.n)
    ensures forall qs: nat, qe: nat :: Query(Reset(t), qs, qe).1 == 0
  {
    EmptyCorrect(t.n);
    forall qs: nat, qe: nat
      ensures Query(Reset(t), qs, qe).1 == 0
    {
      QueryCorrect(Reset(t), qs, qe);
      SumInZeros(t.n, 0, qs, qe);
    }
  }

  /**
   A query returns the sum of the elements at positions in `[qs, qe]`; the flushes it
   performs keep the invariant and do not change any element.
   */
  lemma QueryCorrect(t: Tree, qs: nat, qe: nat)
    requires Inv(t)
    ensures Size(Query(t, qs, qe).0) == Size(t) && Inv(Query(t, qs, qe).0)
    ensures Elements(Query(t, qs, qe).0) == Elements(t)
    ensures Query(t, qs, qe).1 == SumIn(Elements(t), 0, qs, qe)
  {
    RootNode(t);
    QueryNodeElems(t, 0, 0, t.n - 1, 0, qs, qe);
    QueryNodeValid(t, 0, 0, t.n - 1, 0, qs, qe);
    QueryNodeSum(t, 0, 0, t.n - 1, 0, qs, qe);
  }

  /** A query over an interval inside the tree sums the slice; an empty interval gives 0. */
  lemma QueryRange(t: Tree, qs: nat, qe: nat)
    requires Inv(t)
    ensures qs <= qe < t.n ==> Query(t, qs, qe).1 == Sum(Elements(t)[qs..qe + 1])
    ensures qe < qs ==> Query(t, qs, qe).1 == 0
  {
    QueryCorrect(t, qs, qe);
    if qs <= qe < t.n {
      SumInSlice(Elements(t), qs, qe);
    }
    if qe < qs {
      SumInEmpty(Elements(t), 0, qs, qe);
    }
  }

  /** Asking the same query twice gives the same answer, although the first one changed the arrays. */
  lemma QueryTwice(t: Tree, qs: nat, qe: nat)
    requires Inv(t)
    ensures Query(Query(t, qs, qe).0, qs, qe).1 == Query(t, qs, qe).1
  {
    QueryCorrect(t, qs, qe);
    QueryCorrect(Query(t, qs, qe).0, qs, qe);
  }

  /** A point update adds `x` to element `i` (nothing when `i >= n`) and keeps the invariant. */
  lemma UpdatePointCorrect(t: Tree, i: nat, x: int)
    requires Inv(t)
    ensures Size(UpdatePoint(t, i, x)) == Size(t) && Inv(UpdatePoint(t, i, x))
    ensures Elements(UpdatePoint(t, i, x)) == AddIn(Elements(t), 0, i, i, x)
  {
    RootNode(t);
    var t' := UpdatePointNode(t, 0, 0, t.n - 1, 0, i, x);
    assert UpdatePoint(t, i, x) == t';
    UpdatePointNodeElems(t, 0, 0, t.n - 1, 0, i, x);
    UpdatePointNodeValid(t, 0, 0, t.n - 1, 0, i, x);
    assert Shaped(t') && Elements(t') == Elems(t', 0, 0, t.n - 1, 0);
  }

  /** A range update adds `x` to every element at a position in `[l, r]` and keeps the invariant. */
  lemma UpdateRangeCorrect(t: Tree, l: nat, r: nat, x: int)
    requires Inv(t)
    ensures Size(UpdateRange(t, l, r, x)) == Size(t) && Inv(UpdateRange(t, l, r, x))
    ensures Elements(UpdateRange(t, l, r, x)) == AddIn(Elements(t), 0, l, r, x)
  {
    RootNode(t);
    var t' := UpdateRangeNode(t, 0, 0, t.n - 1, 0, l, r, x);
    assert UpdateRange(t, l, r, x) == t';
    UpdateRangeNodeElems(t, 0, 0, t.n - 1, 0, l, r, x);
    UpdateRangeNodeValid(t, 0, 0, t.n - 1, 0, l, r, x);
    assert Shaped(t') && Elements(t') == Elems(t', 0, 0, t.n - 1, 0);
  }

  /**
   The two update entry points agree: a point update at `i` represents the same elements
   as a range update over `[i, i]`, even though the two leave different arrays behind.
   */
  lemma UpdatePointAsRange(t: Tree, i: nat, x: int)
    requires Inv(t)
    ensures Elements(UpdatePoint(t, i, x)) == Elements(UpdateRange(t, i, i, x))
  {
    UpdatePointCorrect(t, i, x);
    UpdateRangeCorrect(t, i, i, x);
  }

  /** After a point update, a query changes by `x` exactly when its interval holds `i` and `i < n`. */
  lemma UpdatePointThenQuery(t: Tree, i: nat, x: int, qs: nat, qe: nat)
    requires Inv(t)
    ensures Query(UpdatePoint(t, i, x), qs, qe).1
         == Query(t, qs, qe).1 + (if qs <= i <= qe && i < t.n then x else 0)
  {
    UpdatePointCorrect(t, i, x);
    QueryCorrect(t, qs, qe);
    QueryCorrect(UpdatePoint(t, i, x), qs, qe);
    SumInAddInPoint(Elements(t), 0, qs, qe, i, x);
  }

  /** An update outside the elements, or over an empty range, changes no element. */
  lemma UpdateOutside(t: Tree, i: nat, l: nat, r: nat, x: int)
    requires Inv(t)
    ensures i >= t.n ==> Elements(UpdatePoint(t, i, x)) == Elements(t)
    ensures (r < l || l >= t.n) ==> Elements(UpdateRange(t, l, r, x)) == Elements(t)
  {
    UpdatePointCorrect(t, i, x);
    UpdateRangeCorrect(t, l, r, x);
    if i >= t.n {
      AddInOutside(Elements(t), 0, i, i, x);
    }
    if r < l || l >= t.n {
      AddInOutside(Elements(t), 0, l, r, x);
    }
  }

  /** The sums of the worked example, on the element sequences alone. */
  lemma WorkedExampleSums(arr: seq<int>, a': seq<int>)
    requires arr == [1, 2, 3, 4, 5] && a' == AddIn(arr, 0, 1, 3, 10)
    ensures Sum(arr[0..5]) == 15 && Sum(arr[1..4]) == 9
    ensures Sum(a'[0..5]) == 45 && Sum(a'[1..2]) == 12
  {
    assert arr[0..5] == [1] + arr[1..4] + [5];
    assert arr[1..4] == [2] + [3] + [4];
    assert a' == [1, 12, 13, 14, 5];
    assert a'[0..5] == [1] + [12] + [13] + [14] + [5];
    assert a'[1..2] == [12];
    SumConcat([1] + arr[1..4], [5]);
    SumConcat([1], arr[1..4]);
    SumConcat([2] + [3], [4]);
    SumConcat([2], [3]);
    SumConcat([1] + [12] + [13] + [14], [5]);
    SumConcat([1] + [12] + [13], [14]);
    SumConcat([1] + [12], [13]);
    SumConcat([1], [12]);
  }

  /**
   The worked example: built from `[1, 2, 3, 4, 5]`, the sums over `[0, 4]` and `[1, 3]`
   are 15 and 9; after adding 10 over `[1, 3]` they are 45 over `[0, 4]` and 12 over `[1, 1]`.
   */
  lemma WorkedExample(arr: seq<int>)
    requires arr == [1, 2, 3, 4, 5]
    ensures Query(Build(arr), 0, 4).1 == 15
    ensures Query(Build(arr), 1, 3).1 == 9
    ensures Query(UpdateRange(Build(arr), 1, 3, 10), 0, 4).1 == 45
    ensures Query(UpdateRange(Build(arr), 1, 3, 10), 1, 1).1 == 12
  {
    var t := Build(arr);
    BuildCorrect(arr);
    var t' := UpdateRange(t, 1, 3, 10);
    UpdateRangeCorrect(t, 1, 3, 10);
    WorkedExampleSums(Elements(t), Elements(t'));
    QueryRange(t, 0, 4);
    QueryRange(t, 1, 3);
    QueryRange(t', 0, 4);
    QueryRange(t', 1, 1);
  }
}
