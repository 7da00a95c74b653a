/**
 Disjoint-set forest (union-find) over the elements `0 .. n-1`, with path compression in
 `Find` and union by rank in `Merge`.

 `parent[x] == x` marks a root; every other element points to a parent of strictly higher
 rank. That rank invariant makes the forest acyclic and is the termination measure of
 `Find`: ranks strictly rise along every path and never exceed the largest rank.
 */
module DisjointSet {

  datatype Forest = Forest(parent: seq<nat>, rnk: seq<nat>)

  /** The number of elements (the shared `size()` of the source). */
  function Size(f: Forest): nat
  {
    |f.parent|
  }

  /** The largest rank, an upper bound for every rank. */
  function MaxRank(r: seq<nat>): (m: nat)
    ensures forall i :: 0 <= i < |r| ==> r[i] <= m
    decreases |r|
  {
    if |r| == 0 then 0
    else
      var rest := MaxRank(r[1..]);
      assert forall i :: 1 <= i < |r| ==> r[i] == r[1..][i - 1];
      if r[0] > rest then r[0] else rest
  }

  /** Parents are elements, and every non-root has a parent of strictly higher rank. */
  predicate Wf(f: Forest)
  {
    && |f.rnk| == |f.parent|
    && forall x :: 0 <= x < |f.parent| ==>
         f.parent[x] < |f.parent| && (f.parent[x] != x ==> f.rnk[x] < f.rnk[f.parent[x]])
  }

  /** The representative of `x`: the root reached by following parents. */
  ghost function Root(f: Forest, x: nat): (r: nat)
    requires Wf(f) && x < |f.parent|
    ensures r < |f.parent| && f.parent[r] == r
    decreases MaxRank(f.rnk) - f.rnk[x]
  {
    if f.parent[x] == x then x else Root(f, f.parent[x])
  }

  /** `x` and `y` are in the same set. */
  ghost predicate Same(f: Forest, x: nat, y: nat)
    requires Wf(f) && x < |f.parent| && y < |f.parent|
  {
    Root(f, x) == Root(f, y)
  }

  /** `y` lies on the path from `x` to its root (both ends included). */
  ghost predicate OnPath(f: Forest, x: nat, y: nat)
    requires Wf(f) && x < |f.parent|
    decreases MaxRank(f.rnk) - f.rnk[x]
  {
    y == x || (f.parent[x] != x && OnPath(f, f.parent[x], y))
  }

  /** A non-root has lower rank than its root. */
  lemma {:induction false} RootRank(f: Forest, x: nat)
    requires Wf(f) && x < |f.parent| && f.parent[x] != x
    ensures f.rnk[x] < f.rnk[Root(f, x)]
    decreases MaxRank(f.rnk) - f.rnk[x]
  {
    var p := f.parent[x];
    if f.parent[p] != p {
      RootRank(f, p);
    }
  }

  // ---------------------------------------------------------------------------
  // Find

  /** Pointing `x` straight at its own root keeps the forest well formed and every root. */
  lemma PointAtRoot(f: Forest, x: nat)
    requires Wf(f) && x < |f.parent|
    ensures Wf(f.(parent := f.parent[x := Root(f, x)]))
    ensures forall y :: 0 <= y < |f.parent| ==>
              Root(f.(parent := f.parent[x := Root(f, x)]), y) == Root(f, y)
  {
    if f.parent[x] != x {
      RootRank(f, x);
    }
    var f' := f.(parent := f.parent[x := Root(f, x)]);
    forall y | 0 <= y < |f.parent|
      ensures Root(f', y) == Root(f, y)
    {
      PointAtRootOne(f, x, y);
    }
  }

  lemma {:induction false} PointAtRootOne(f: Forest, x: nat, y: nat)
    requires Wf(f) && x < |f.parent| && y < |f.parent|
    requires Wf(f.(parent := f.parent[x := Root(f, x)]))
    ensures Root(f.(parent := f.parent[x := Root(f, x)]), y) == Root(f, y)
    decreases MaxRank(f.rnk) - f.rnk[y]
  {
    var f' := f.(parent := f.parent[x := Root(f, x)]);
    if y != x && f.parent[y] != y {
      PointAtRootOne(f, x, f.parent[y]);
    }
  }

  /**
   Finds the representative of `x` and points every element on the way straight at it.
   The rank invariant and the representative of every element are kept.
   */
  function Find(f: Forest, x: nat): (res: (Forest, nat))
    requires Wf(f) && x < |f.parent|
    ensures Wf(res.0) && |res.0.parent| == |f.parent| && res.0.rnk == f.rnk
    ensures res.1 == Root(f, x)
    ensures forall y :: 0 <= y < |f.parent| ==> Root(res.0, y) == Root(f, y)
    decreases MaxRank(f.rnk) - f.rnk[x]
  {
    if x != f.parent[x] then
      var up := Find(f, f.parent[x]);
      PointAtRoot(up.0, x);
      (up.0.(parent := up.0.parent[x := up.1]), up.1)
    else (f, x)
  }

  /**
   Path compression exactly: after `Find(f, x)` every element on the former path from `x`
   points at the root, and every other element keeps its parent.
   */
  lemma {:induction false} FindCompresses(f: Forest, x: nat)
    requires Wf(f) && x < |f.parent|
    ensures forall y :: 0 <= y < |f.parent| ==>
              Find(f, x).0.parent[y] == (if OnPath(f, x, y) then Root(f, x) else f.parent[y])
    decreases MaxRank(f.rnk) - f.rnk[x]
  {
    if x != f.parent[x] {
      FindCompresses(f, f.parent[x]);
    }
  }

  /** Finding twice gives the same representative, and afterwards `x` points straight at it. */
  lemma FindTwice(f: Forest, x: nat)
    requires Wf(f) && x < |f.parent|
    ensures Find(f, x).0.parent[x] == Find(f, x).1
    ensures Find(Find(f, x).0, x).1 == Find(f, x).1
  {
    FindCompresses(f, x);
  }

  // ---------------------------------------------------------------------------
  // Merge

  /**
   Union by rank of two roots: the root of strictly higher rank becomes the parent;
   otherwise `ra` goes under `rb`, and on equal ranks `rb` rises by one.
   */
  function Link(f: Forest, ra: nat, rb: nat): (f': Forest)
    requires Wf(f) && ra < |f.parent| && rb < |f.parent|
    requires f.parent[ra] == ra && f.parent[rb] == rb
    ensures Wf(f') && |f'.parent| == |f.parent|
  {
    var parent := if f.rnk[ra] > f.rnk[rb] then f.parent[rb := ra] else f.parent[ra := rb];
    var rnk := if f.rnk[ra] == f.rnk[rb] then f.rnk[rb := f.rnk[rb] + 1] else f.rnk;
    Forest(parent, rnk)
  }

  function Merge(f: Forest, a: nat, b: nat): (f': Forest)
    requires Wf(f) && a < |f.parent| && b < |f.parent|
    ensures Wf(f') && |f'.parent| == |f.parent|
  {
    var first := Find(f, a);
    var second := Find(first.0, b);
    Link(second.0, first.1, second.1)
  }

  /** The root that `Link` puts below the other one. */
  function Child(f: Forest, ra: nat, rb: nat): nat
    requires ra < |f.rnk| && rb < |f.rnk|
  {
    if f.rnk[ra] > f.rnk[rb] then rb else ra
  }

  /** After linking, the elements of the child root's set have the other root; no other representative changes. */
  lemma LinkRoots(f: Forest, ra: nat, rb: nat)
    requires Wf(f) && ra < |f.parent| && rb < |f.parent|
    requires f.parent[ra] == ra && f.parent[rb] == rb
    ensures forall y :: 0 <= y < |f.parent| ==>
              Root(Link(f, ra, rb), y)
              == (if Root(f, y) == Child(f, ra, rb) then ra + rb - Child(f, ra, rb) else Root(f, y))
  {
    forall y | 0 <= y < |f.parent|
      ensures Root(Link(f, ra, rb), y)
              == (if Root(f, y) == Child(f, ra, rb) then ra + rb - Child(f, ra, rb) else Root(f, y))
    {
      LinkRootsOne(f, ra, rb, y);
    }
  }

  lemma {:induction false} LinkRootsOne(f: Forest, ra: nat, rb: nat, y: nat)
    requires Wf(f) && ra < |f.parent| && rb < |f.parent| && y < |f.parent|
    requires f.parent[ra] == ra && f.parent[rb] == rb
    ensures Root(Link(f, ra, rb), y)
            == (if Root(f, y) == Child(f, ra, rb) then ra + rb - Child(f, ra, rb) else Root(f, y))
    decreases MaxRank(Link(f, ra, rb).rnk) - Link(f, ra, rb).rnk[y]
  {
    var f' := Link(f, ra, rb);
    if f.parent[y] != y {
      LinkRootsOne(f, ra, rb, f.parent[y]);
    } else if y == Child(f, ra, rb) && ra != rb {
      assert f'.parent[y] == ra + rb - y;
    }
  }

  /**
   After `Merge(f, a, b)`, `a` and `b` are in one set, and two elements are in one set
   exactly when they were before or one was with `a` and the other with `b`.
   */
  lemma MergeCorrect(f: Forest, a: nat, b: nat)
    requires Wf(f) && a < |f.parent| && b < |f.parent|
    ensures Same(Merge(f, a, b), a, b)
    ensures forall x, y :: 0 <= x < |f.parent| && 0 <= y < |f.parent| ==>
              (Same(Merge(f, a, b), x, y) <==>
                 Same(f, x, y) || (Same(f, x, a) && Same(f, y, b)) || (Same(f, x, b) && Same(f, y, a)))
  {
    var first := Find(f, a);
    var second := Find(first.0, b);
    LinkRoots(second.0, first.1, second.1);
  }

  /**
   Union by rank, stated over the representatives `ra` and `rb` of `a` and `b` before the
   merge: the root of strictly higher rank becomes the parent and no rank changes;
   otherwise `ra` goes under `rb`, and on equal ranks (also when `ra == rb`) the rank of
   `rb` rises by exactly one and no other rank changes.
   */
  lemma MergeRanks(f: Forest, a: nat, b: nat)
    requires Wf(f) && a < |f.parent| && b < |f.parent|
    ensures var ra, rb, f' := Root(f, a), Root(f, b), Merge(f, a, b);
      && (f.rnk[ra] > f.rnk[rb] ==> f'.parent[rb] == ra && f'.rnk == f.rnk)
      && (f.rnk[ra] < f.rnk[rb] ==> f'.parent[ra] == rb && f'.rnk == f.rnk)
      && (f.rnk[ra] == f.rnk[rb] ==> f'.parent[ra] == rb && f'.rnk == f.rnk[rb := f.rnk[rb] + 1])
  {
  }

  /**
   Merging two elements already in one set keeps every representative but still raises
   the rank of their root by one: merging the same pair again is not idempotent.
   */
  lemma MergeSameSet(f: Forest, a: nat, b: nat)
    requires Wf(f) && a < |f.parent| && b < |f.parent| && Same(f, a, b)
    ensures forall y :: 0 <= y < |f.parent| ==> Root(Merge(f, a, b), y) == Root(f, y)
    ensures Merge(f, a, b).rnk == f.rnk[Root(f, a) := f.rnk[Root(f, a)] + 1]
  {
    var first := Find(f, a);
    var second := Find(first.0, b);
    LinkRoots(second.0, first.1, second.1);
  }

  /** Merging a pair a second time changes the ranks again. */
  lemma MergeAgainRaisesRank(f: Forest, a: nat, b: nat)
    requires Wf(f) && a < |f.parent| && b < |f.parent|
    ensures Merge(Merge(f, a, b), a, b).rnk != Merge(f, a, b).rnk
  {
    var f' := Merge(f, a, b);
    MergeCorrect(f, a, b);
    MergeSameSet(f', a, b);
  }

  // ---------------------------------------------------------------------------
  // Construction and reset

  /** `n` singleton sets of rank 0. */
  function Init(n: nat): (f: Forest)
    ensures Size(f) == n && |f.rnk| == n
    ensures forall x :: 0 <= x < n ==> f.parent[x] == x && f.rnk[x] == 0
  {
    Forest(seq(n, i => i), seq(n, _ => 0))
  }

  /** Every element its own parent again, every rank 0; the element count is kept. */
  function Reset(f: Forest): (f': Forest)
    ensures Size(f') == Size(f) && |f'.rnk| == |f.parent|
    ensures forall x :: 0 <= x < Size(f) ==> f'.parent[x] == x && f'.rnk[x] == 0
  {
    Init(|f.parent|)
  }

  /** After construction every element is its own representative and is found at once. */
  lemma InitCorrect(n: nat)
    ensures Wf(Init(n)) && Size(Init(n)) == n
    ensures forall x :: 0 <= x < n ==> Root(Init(n), x) == x && Find(Init(n), x).1 == x
    ensures forall x, y :: 0 <= x < n && 0 <= y < n ==> (Same(Init(n), x, y) <==> x == y)
  {
  }

  /** A reset gives back the freshly constructed forest of the same size. */
  lemma ResetCorrect(f: Forest)
    ensures Reset(f) == Init(Size(f))
    ensures Wf(Reset(f)) && forall x :: 0 <= x < Size(f) ==> Root(Reset(f), x) == x
  {
    InitCorrect(Size(f));
  }
}
