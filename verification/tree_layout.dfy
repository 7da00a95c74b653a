/**
 The implicit (heap-numbered) layout of a segment tree: node 0 is the root and node
 `v` has children `2v+1` and `2v+2`. This module gives the integer replacement for the
 floating-point array sizing `2 * 2^ceil(log2 n) - 1`, and the "u lies in the subtree
 rooted at v" relation that the segment-tree operations use to say what they leave alone.
 */
module TreeLayout {

  function Pow2(k: nat): (r: nat)
    ensures r >= 1
  {
    if k == 0 then 1 else 2 * Pow2(k - 1)
  }

  lemma {:induction false} Pow2Monotone(a: nat, b: nat)
    requires a <= b
    ensures Pow2(a) <= Pow2(b)
    decreases b - a
  {
    if a < b {
      Pow2Monotone(a, b - 1);
    }
  }

  /** ceil(log2 n): the exponent of the smallest power of two that is at least `n`. */
  function CeilLog2(n: nat): nat
    requires n >= 1
    decreases n
  {
    if n == 1 then 0 else 1 + CeilLog2((n + 1) / 2)
  }

  lemma {:induction false} CeilLog2Smallest(n: nat)
    requires n >= 1
    ensures Pow2(CeilLog2(n)) >= n
    ensures CeilLog2(n) == 0 || Pow2(CeilLog2(n) - 1) < n
    decreases n
  {
    if n > 1 {
      CeilLog2Smallest((n + 1) / 2);
    }
  }

  /** Number of slots in `tree` and `lazy` for `n` elements: 2 * 2^ceil(log2 n) - 1. */
  function NodeCount(n: nat): nat
    requires n >= 1
  {
    2 * Pow2(CeilLog2(n)) - 1
  }

  /** `len <= 2^k`, stated by halving so that it unfolds without arithmetic on powers. */
  ghost predicate FitsIn(len: nat, k: nat)
    decreases k
  {
    if k == 0 then len <= 1 else FitsIn((len + 1) / 2, k - 1)
  }

  lemma {:induction false} FitsInMeansAtMost(len: nat, k: nat)
    requires FitsIn(len, k)
    ensures len <= Pow2(k)
    decreases k
  {
    if k > 0 {
      FitsInMeansAtMost((len + 1) / 2, k - 1);
    }
  }

  lemma {:induction false} FitsInSmaller(a: nat, b: nat, k: nat)
    requires FitsIn(a, k) && b <= a
    ensures FitsIn(b, k)
    decreases k
  {
    if k > 0 {
      FitsInSmaller((a + 1) / 2, (b + 1) / 2, k - 1);
    }
  }

  /** The `n` elements fit below the root: `n <= 2^ceil(log2 n)`. */
  lemma {:induction false} AllFitBelowRoot(n: nat)
    requires n >= 1
    ensures FitsIn(n, CeilLog2(n))
    decreases n
  {
    if n > 1 {
      AllFitBelowRoot((n + 1) / 2);
    }
  }

  /** Heap numbering of the children of node `v`. */
  function Left(v: nat): nat { 2 * v + 1 }
  function Right(v: nat): nat { 2 * v + 2 }

  /** `u` is `v` or a descendant of `v`; the parent of `u > 0` is `(u - 1) / 2`. */
  ghost predicate Below(u: nat, v: nat)
    decreases u
  {
    u == v || (u > v && Below((u - 1) / 2, v))
  }

  /** `v` lies at depth `d`: following parents from `v` reaches the root in `d` steps. */
  ghost predicate AtDepth(v: nat, d: nat)
    decreases d
  {
    if d == 0 then v == 0 else v > 0 && AtDepth((v - 1) / 2, d - 1)
  }

  /** Level `d` of the heap numbering holds the nodes `2^d - 1 .. 2^(d+1) - 2`. */
  lemma {:induction false} AtDepthRange(v: nat, d: nat)
    requires AtDepth(v, d)
    ensures Pow2(d) - 1 <= v < Pow2(d + 1) - 1
    decreases d
  {
    if d > 0 {
      AtDepthRange((v - 1) / 2, d - 1);
    }
  }

  lemma AtDepthChildren(v: nat, d: nat)
    requires AtDepth(v, d)
    ensures AtDepth(Left(v), d + 1) && AtDepth(Right(v), d + 1)
  {
    assert (Left(v) - 1) / 2 == v && (Right(v) - 1) / 2 == v;
  }

  lemma {:induction false} BelowLeftChild(u: nat, v: nat)
    requires Below(u, Left(v))
    ensures Below(u, v) && u != v
    ensures !Below(u, Right(v))
    decreases u
  {
    if u != Left(v) {
      BelowLeftChild((u - 1) / 2, v);
    }
  }

  lemma {:induction false} BelowRightChild(u: nat, v: nat)
    requires Below(u, Right(v))
    ensures Below(u, v) && u != v
    ensures !Below(u, Left(v))
    decreases u
  {
    if u != Right(v) {
      BelowRightChild((u - 1) / 2, v);
    }
  }

  /**
   The subtrees of the two children of `v` lie inside the subtree of `v`, are disjoint,
   and do not contain `v` itself.
   */
  lemma ChildSubtrees(v: nat)
    ensures forall u: nat :: Below(u, Left(v)) ==> Below(u, v) && u != v && !Below(u, Right(v))
    ensures forall u: nat :: Below(u, Right(v)) ==> Below(u, v) && u != v && !Below(u, Left(v))
    ensures !Below(v, Left(v)) && !Below(v, Right(v))
    ensures Below(Left(v), v) && Below(Right(v), v)
  {
    forall u: nat | Below(u, Left(v)) {
      BelowLeftChild(u, v);
    }
    forall u: nat | Below(u, Right(v)) {
      BelowRightChild(u, v);
    }
    assert Below((Left(v) - 1) / 2, v);
    assert Below((Right(v) - 1) / 2, v);
  }
}
