/**
 Fenwick tree (binary indexed tree) over the elements `a[1] .. a[n]`, 1-based.

 Slot `k` of `tree` (for `1 <= k <= n`) holds the sum of the `LowBit(k)` elements ending
 at element `k`: `a[k - LowBit(k) + 1] + ... + a[k]`. A prefix query walks down from `i`
 by stripping the lowest set bit; an update walks up from `i` by adding it.

 The ghost element sequence is a Dafny `seq` of length `n` in which element `i` (1-based)
 is at index `i - 1`, so `a[..i]` holds the elements `1 .. i`. The array has `n + 1` slots
 (slot 0 unused): see `CreateAsWritten` for the allocation of only `n` slots.
 */
module BinaryIndexTree {
  import opened SeqSum
  import opened TreeLayout

  datatype Fenwick = Fenwick(n: nat, tree: seq<int>)

  /** The number of elements (the shared `size()` of the source). */
  function Size(f: Fenwick): nat
  {
    f.n
  }

  predicate Shaped(f: Fenwick)
  {
    |f.tree| == f.n + 1
  }

  // ---------------------------------------------------------------------------
  // The lowest set bit

  /** `k & -k`: the lowest set bit of `k`, computed by halving; 0 for 0. */
  function LowBit(k: nat): (r: nat)
    ensures k > 0 ==> 1 <= r <= k
    ensures k == 0 ==> r == 0
    decreases k
  {
    if k == 0 then 0 else if k % 2 == 1 then 1 else 2 * LowBit(k / 2)
  }

  /** `k > 0` with its trailing zero bits removed. */
  function OddPart(k: nat): nat
    requires k > 0
    decreases k
  {
    if k % 2 == 1 then k else OddPart(k / 2)
  }

  /** `LowBit(k)` is the largest power of two dividing `k`: `k` is an odd multiple of it. */
  lemma {:induction false} LowBitIsLargestPowerOfTwo(k: nat)
    requires k > 0
    ensures exists j: nat :: LowBit(k) == Pow2(j)
    ensures k == LowBit(k) * OddPart(k) && OddPart(k) % 2 == 1
    decreases k
  {
    if k % 2 == 0 {
      var h := k / 2;
      LowBitIsLargestPowerOfTwo(h);
      var j: nat :| LowBit(h) == Pow2(j);
      assert LowBit(k) == Pow2(j + 1);
      assert k == 2 * (LowBit(h) * OddPart(h));
    } else {
      assert LowBit(k) == Pow2(0);
    }
  }

  lemma LowBitDouble(m: nat)
    requires m >= 1
    ensures LowBit(2 * m) == 2 * LowBit(m)
  {
  }

  // ---------------------------------------------------------------------------
  // The update chain `i, i + LowBit(i), ...` and the slots that cover an element

  /** The next slot an update from `i` visits. */
  function Next(i: nat): (r: nat)
    requires i >= 1
    ensures r > i
  {
    i + LowBit(i)
  }

  /** Slot `k` is visited by an update loop that starts at element `i`. */
  ghost predicate InChain(i: nat, k: nat)
    requires i >= 1
    decreases k - i
  {
    i == k || (i < k && InChain(Next(i), k))
  }

  /** Slot `k` holds a sum that includes element `i`. */
  ghost predicate Covers(k: nat, i: nat)
  {
    k - LowBit(k) < i <= k
  }

  lemma ChainStarts(i: nat, k: nat)
    requires i >= 1 && InChain(i, k)
    ensures i <= k
  {
  }

  /** The chain from an even start is the chain from its half, doubled. */
  lemma {:induction false} ChainDouble(m: nat, k: nat)
    requires m >= 1
    ensures InChain(2 * m, k) <==> k % 2 == 0 && InChain(m, k / 2)
    decreases k - 2 * m
  {
    LowBitDouble(m);
    assert Next(2 * m) == 2 * Next(m);
    if 2 * m < k {
      ChainDouble(Next(m), k);
    }
  }

  /** The chain from an odd start visits the start, then the doubled chain from half of the next even number. */
  lemma {:induction false} ChainOdd(m: nat, k: nat)
    ensures InChain(2 * m + 1, k) <==> k == 2 * m + 1 || (k % 2 == 0 && InChain(m + 1, k / 2))
  {
    assert Next(2 * m + 1) == 2 * (m + 1);
    ChainDouble(m + 1, k);
    if k % 2 == 0 && InChain(m + 1, k / 2) {
      ChainStarts(m + 1, k / 2);
    }
  }

  /**
   The update loop from `i` visits exactly the slots whose sums include element `i`:
   slot `k` is in the chain from `i` if and only if `k - LowBit(k) < i <= k`.
   */
  lemma {:induction false} ChainCovers(i: nat, k: nat)
    requires i >= 1
    ensures InChain(i, k) <==> Covers(k, i)
    decreases k
  {
    if k % 2 == 1 {
      if i % 2 == 0 {
        ChainDouble(i / 2, k);
      } else {
        ChainOdd(i / 2, k);
      }
    } else if k > 0 {
      LowBitDouble(k / 2);
      if i % 2 == 0 {
        ChainDouble(i / 2, k);
        ChainCovers(i / 2, k / 2);
      } else {
        ChainOdd(i / 2, k);
        ChainCovers(i / 2 + 1, k / 2);
      }
    }
  }

  /** From a visited slot the chain goes on to `Next(j)` and visits nothing in between. */
  lemma {:induction false} ChainStep(i: nat, j: nat)
    requires i >= 1 && InChain(i, j)
    ensures InChain(i, Next(j))
    ensures forall k :: j < k < Next(j) ==> !InChain(i, k)
    decreases j - i
  {
    if i == j {
      assert InChain(Next(j), Next(j));
      forall k | j < k < Next(j)
        ensures !InChain(i, k)
      {
      }
    } else {
      ChainStep(Next(i), j);
      ChainStarts(i, j);
    }
  }

  // ---------------------------------------------------------------------------
  // Abstraction

  /** The sum of the elements `1 .. i`. */
  function Prefix(a: seq<int>, i: nat): int
    requires i <= |a|
  {
    Sum(a[..i])
  }

  /** `f` represents the elements `a`: slot `k` holds `a[k - LowBit(k) + 1] + ... + a[k]`. */
  ghost predicate Represents(f: Fenwick, a: seq<int>)
  {
    && Shaped(f)
    && |a| == f.n
    && forall k :: 1 <= k <= f.n ==> f.tree[k] == Sum(a[k - LowBit(k)..k])
  }

  lemma PrefixSplit(a: seq<int>, j: nat, i: nat)
    requires j <= i <= |a|
    ensures Prefix(a, i) == Prefix(a, j) + Sum(a[j..i])
  {
    assert a[..i] == a[..j] + a[j..i];
    SumConcat(a[..j], a[j..i]);
  }

  /** Consecutive prefix sums differ by one element. */
  lemma PrefixDifference(a: seq<int>, i: nat)
    requires 1 <= i <= |a|
    ensures Prefix(a, i) - Prefix(a, i - 1) == a[i - 1]
  {
    PrefixSplit(a, i - 1, i);
    assert a[i - 1..i] == [a[i - 1]];
  }

  /** Adding `x` to element `i` raises every prefix sum that includes it, and only those. */
  lemma PrefixAfterAdd(a: seq<int>, i: nat, x: int, j: nat)
    requires j <= |a|
    ensures Prefix(AddIn(a, 1, i, i, x), j) == Prefix(a, j) + (if 1 <= i <= j then x else 0)
  {
    AddInSlice(a, 1, i, i, x, 0, j);
    assert AddIn(a, 1, i, i, x)[..j] == AddIn(a, 1, i, i, x)[0..j];
    assert a[..j] == a[0..j];
    SumAddInPoint(a[..j], 1, i, x);
  }

  // ---------------------------------------------------------------------------
  // Operations

  /** The size-only constructor: `n + 1` zero slots. */
  function Create(n: nat): (f: Fenwick)
    ensures Size(f) == n && Shaped(f)
    ensures forall k :: 0 <= k < |f.tree| ==> f.tree[k] == 0
  {
    Fenwick(n, Zeros(n + 1))
  }

  /** The allocation as the source writes it: `n` slots, one short of slot `n`. */
  function CreateAsWritten(n: nat): (f: Fenwick)
    ensures Size(f) == n && |f.tree| == n
    ensures !Shaped(f)
  {
    Fenwick(n, Zeros(n))
  }

  /** Zero-fills the array; the element count is kept. */
  function Reset(f: Fenwick): (f': Fenwick)
    ensures Size(f') == Size(f) && |f'.tree| == |f.tree|
    ensures forall k :: 0 <= k < |f'.tree| ==> f'.tree[k] == 0
  {
    Fenwick(f.n, Zeros(|f.tree|))
  }

  /** The sum of the elements `1 .. index`: add `tree[i]` and strip the lowest set bit of `i` until 0. */
  method Query(f: Fenwick, ghost a: seq<int>, index: nat) returns (sum: int)
    requires Represents(f, a) && index <= f.n
    ensures sum == Prefix(a, index)
  {
    sum := 0;
    var i: nat := index;
    while i > 0
      invariant i <= index
      invariant sum + Prefix(a, i) == Prefix(a, index)
      decreases i
    {
      PrefixSplit(a, i - LowBit(i), i);
      sum := sum + f.tree[i];
      i := i - LowBit(i);
    }
  }

  /**
   Adds `x` to element `index`: add `x` to `tree[i]` and add the lowest set bit to `i`
   while `i <= n`. An index above `n` changes nothing; index 0 would never advance.
   */
  method Update(f: Fenwick, ghost a: seq<int>, index: nat, x: int) returns (f': Fenwick)
    requires Represents(f, a) && index >= 1
    ensures Size(f') == Size(f)
    ensures Represents(f', AddIn(a, 1, index, index, x))
  {
    var tree := f.tree;
    var i := index;
    while i <= f.n
      invariant |tree| == |f.tree|
      invariant index <= i && InChain(index, i)
      invariant forall k :: 0 <= k < |tree| ==> tree[k] == f.tree[k] + (if k < i && InChain(index, k) then x else 0)
      decreases f.n + 1 - i
    {
      ChainStep(index, i);
      tree := tree[i := tree[i] + x];
      i := Next(i);
    }
    f' := Fenwick(f.n, tree);
    UpdateRepresents(f, f', a, index, x);
  }

  /** Slots changed by `x` exactly along the chain from `index` represent `a` with `x` added at `index`. */
  lemma UpdateRepresents(f: Fenwick, f': Fenwick, a: seq<int>, index: nat, x: int)
    requires Represents(f, a) && index >= 1 && f'.n == f.n && |f'.tree| == |f.tree|
    requires forall k :: 1 <= k <= f.n ==> f'.tree[k] == f.tree[k] + (if InChain(index, k) then x else 0)
    ensures Represents(f', AddIn(a, 1, index, index, x))
  {
    forall k | 1 <= k <= f.n
      ensures f'.tree[k] == Sum(AddIn(a, 1, index, index, x)[k - LowBit(k)..k])
    {
      SlotAfterAdd(a, index, x, k);
    }
  }

  /** Adding `x` to element `index` adds `x` to the sum held by slot `k` exactly when `k` is in the chain from `index`. */
  lemma SlotAfterAdd(a: seq<int>, index: nat, x: int, k: nat)
    requires index >= 1 && 1 <= k <= |a|
    ensures Sum(AddIn(a, 1, index, index, x)[k - LowBit(k)..k])
         == Sum(a[k - LowBit(k)..k]) + (if InChain(index, k) then x else 0)
  {
    ChainCovers(index, k);
    AddInSlice(a, 1, index, index, x, k - LowBit(k), k);
    SumAddInPoint(a[k - LowBit(k)..k], 1 + k - LowBit(k), index, x);
  }

  /** Sets element `index` to `val` by adding the difference to its current value. */
  method Change(f: Fenwick, ghost a: seq<int>, index: nat, val: int) returns (f': Fenwick)
    requires Represents(f, a) && 1 <= index <= f.n
    ensures Size(f') == Size(f)
    ensures Represents(f', a[index - 1 := val])
  {
    var upTo := Query(f, a, index);
    var before := Query(f, a, index - 1);
    PrefixDifference(a, index);
    f' := Update(f, a, index, val - upTo + before);
    assert AddIn(a, 1, index, index, val - upTo + before) == a[index - 1 := val];
  }

  // ---------------------------------------------------------------------------
  // Properties of the whole structure

  /** A zero array represents all-zero elements. */
  lemma ZeroRepresents(f: Fenwick)
    requires Shaped(f) && forall k :: 0 <= k < |f.tree| ==> f.tree[k] == 0
    ensures Represents(f, Zeros(f.n))
  {
    SumZeros(f.n);
    forall k | 1 <= k <= f.n
      ensures f.tree[k] == Sum(Zeros(f.n)[k - LowBit(k)..k])
    {
      SumZeros(LowBit(k));
    }
  }

  /** The size-only constructor represents `n` zero elements, so every query returns 0. */
  lemma CreateCorrect(n: nat)
    ensures Size(Create(n)) == n && Represents(Create(n), Zeros(n))
    ensures forall i :: 0 <= i <= n ==> Prefix(Zeros(n), i) == 0
  {
    ZeroRepresents(Create(n));
    forall i | 0 <= i <= n
      ensures Prefix(Zeros(n), i) == 0
    {
      SumZeros(n);
      SumZeros(i);
      assert Zeros(n)[..i] == Zeros(n)[0..i];
    }
  }

  /** After a reset every element is zero, so every query returns 0. */
  lemma ResetCorrect(f: Fenwick)
    requires Shaped(f)
    ensures Reset(f) == Create(f.n)
    ensures Represents(Reset(f), Zeros(f.n))
  {
    CreateCorrect(f.n);
  }

  /** After adding `x` at `i`, a query up to `j` rises by `x` when `j >= i` and is unchanged when `j < i`. */
  lemma UpdateThenQuery(a: seq<int>, i: nat, x: int, j: nat)
    requires 1 <= i && j <= |a|
    ensures j >= i ==> Prefix(AddIn(a, 1, i, i, x), j) == Prefix(a, j) + x
    ensures j < i ==> Prefix(AddIn(a, 1, i, i, x), j) == Prefix(a, j)
  {
    PrefixAfterAdd(a, i, x, j);
  }

  /** After setting element `i` to `val`, the difference of the queries at `i` and `i - 1` is `val`. */
  lemma ChangeThenQuery(a: seq<int>, i: nat, val: int)
    requires 1 <= i <= |a|
    ensures Prefix(a[i - 1 := val], i) - Prefix(a[i - 1 := val], i - 1) == val
  {
    PrefixDifference(a[i - 1 := val], i);
  }

  /**
   The allocation as written is one slot short: for every `n >= 1`, an update at element
   `n` visits slot `n`, which lies past the end of the `n` slots; for `n = 4` an update at
   element 1 visits slots 1, 2 and 4.
   */
  lemma AsWrittenUpdateOverruns(n: nat)
    requires n >= 1
    ensures InChain(n, n) && n <= Size(CreateAsWritten(n)) && n >= |CreateAsWritten(n).tree|
    ensures InChain(1, 4) && 4 >= |CreateAsWritten(4).tree|
  {
    assert Next(1) == 2 && Next(2) == 4;
    assert InChain(4, 4);
    assert InChain(2, 4);
  }

  /** With `n + 1` slots every slot an update visits, from any element, exists. */
  lemma CreateUpdateInBounds(n: nat, index: nat, k: nat)
    requires index >= 1 && InChain(index, k) && k <= n
    ensures 1 <= k < |Create(n).tree|
  {
    ChainStarts(index, k);
  }
}
