/**
 Sums over integer sequences, shared by the segment tree and the Fenwick tree.

 `Sum(a)` is the plain total; `SumIn(a, off, lo, hi)` reads `a` as the elements at
 positions `off, off+1, ...` and adds up only those whose position lies in the closed
 interval `[lo, hi]`; `AddIn(a, off, lo, hi, x)` adds `x` to exactly those elements.
 */
module SeqSum {

  function Sum(a: seq<int>): int
    decreases |a|
  {
    if |a| == 0 then 0 else a[0] + Sum(a[1..])
  }

  function SumIn(a: seq<int>, off: int, lo: int, hi: int): int
    decreases |a|
  {
    if |a| == 0 then 0
    else (if lo <= off <= hi then a[0] else 0) + SumIn(a[1..], off + 1, lo, hi)
  }

  /** The sequence `a` (elements at positions off..) with `x` added at each position in [lo, hi]. */
  function AddIn(a: seq<int>, off: int, lo: int, hi: int, x: int): (r: seq<int>)
    ensures |r| == |a|
    ensures forall k {:trigger r[k]} :: 0 <= k < |a| && lo <= off + k <= hi ==> r[k] == a[k] + x
    ensures forall k {:trigger r[k]} :: 0 <= k < |a| && !(lo <= off + k <= hi) ==> r[k] == a[k]
  {
    seq(|a|, k requires 0 <= k < |a| => a[k] + (if lo <= off + k <= hi then x else 0))
  }

  function Zeros(k: nat): (r: seq<int>)
    ensures |r| == k
    ensures forall i :: 0 <= i < k ==> r[i] == 0
  {
    seq(k, _ => 0)
  }

  lemma {:induction false} SumConcat(a: seq<int>, b: seq<int>)
    ensures Sum(a + b) == Sum(a) + Sum(b)
    decreases |a|
  {
    if |a| == 0 {
      assert a + b == b;
    } else {
      assert (a + b)[1..] == a[1..] + b;
      SumConcat(a[1..], b);
    }
  }

  lemma SliceConcat(a: seq<int>, i: nat, j: nat, k: nat)
    requires i <= j <= k <= |a|
    ensures a[i..k] == a[i..j] + a[j..k]
  {
  }

  /** Splitting a slice at any inner point splits its sum. */
  lemma SumSplit(a: seq<int>, i: nat, j: nat, k: nat)
    requires i <= j <= k <= |a|
    ensures Sum(a[i..k]) == Sum(a[i..j]) + Sum(a[j..k])
  {
    SliceConcat(a, i, j, k);
    SumConcat(a[i..j], a[j..k]);
  }

  lemma {:induction false} SumInConcat(a: seq<int>, b: seq<int>, off: int, lo: int, hi: int)
    ensures SumIn(a + b, off, lo, hi) == SumIn(a, off, lo, hi) + SumIn(b, off + |a|, lo, hi)
    decreases |a|
  {
    if |a| == 0 {
      assert a + b == b;
    } else {
      assert (a + b)[1..] == a[1..] + b;
      SumInConcat(a[1..], b, off + 1, lo, hi);
    }
  }

  /** When every position lies in [lo, hi], the restricted sum is the whole sum. */
  lemma {:induction false} SumInAll(a: seq<int>, off: int, lo: int, hi: int)
    requires lo <= off && off + |a| - 1 <= hi
    ensures SumIn(a, off, lo, hi) == Sum(a)
    decreases |a|
  {
    if |a| > 0 {
      SumInAll(a[1..], off + 1, lo, hi);
    }
  }

  /** When no position lies in [lo, hi], the restricted sum is zero. */
  lemma {:induction false} SumInNone(a: seq<int>, off: int, lo: int, hi: int)
    requires off > hi || off + |a| - 1 < lo
    ensures SumIn(a, off, lo, hi) == 0
    decreases |a|
  {
    if |a| > 0 {
      SumInNone(a[1..], off + 1, lo, hi);
    }
  }

  lemma {:induction false} SumInZeros(k: nat, off: int, lo: int, hi: int)
    ensures SumIn(Zeros(k), off, lo, hi) == 0
    decreases k
  {
    if k > 0 {
      assert Zeros(k)[1..] == Zeros(k - 1);
      SumInZeros(k - 1, off + 1, lo, hi);
    }
  }

  /** On positions `0 ..`, the restricted sum over `[lo, hi]` is the sum of the slice `a[lo..hi]`. */
  lemma SumInSlice(a: seq<int>, lo: nat, hi: nat)
    requires lo <= hi < |a|
    ensures SumIn(a, 0, lo, hi) == Sum(a[lo..hi + 1])
  {
    var front, mid, back := a[..lo], a[lo..hi + 1], a[hi + 1..];
    assert a == front + (mid + back);
    SumInConcat(front, mid + back, 0, lo, hi);
    SumInConcat(mid, back, lo, lo, hi);
    SumInNone(front, 0, lo, hi);
    SumInAll(mid, lo, lo, hi);
    SumInNone(back, hi + 1, lo, hi);
  }

  /** An empty interval holds no position. */
  lemma {:induction false} SumInEmpty(a: seq<int>, off: int, lo: int, hi: int)
    requires hi < lo
    ensures SumIn(a, off, lo, hi) == 0
    decreases |a|
  {
    if |a| > 0 {
      SumInEmpty(a[1..], off + 1, lo, hi);
    }
  }

  lemma AddInConcat(a: seq<int>, b: seq<int>, off: int, lo: int, hi: int, x: int)
    ensures AddIn(a + b, off, lo, hi, x) == AddIn(a, off, lo, hi, x) + AddIn(b, off + |a|, lo, hi, x)
  {
  }

  /** A slice of `AddIn` is `AddIn` of the slice, with the positions shifted accordingly. */
  lemma AddInSlice(a: seq<int>, off: int, lo: int, hi: int, x: int, i: nat, j: nat)
    requires i <= j <= |a|
    ensures AddIn(a, off, lo, hi, x)[i..j] == AddIn(a[i..j], off + i, lo, hi, x)
  {
  }

  /** `k` zeros add up to zero, and so does any slice of them. */
  lemma {:induction false} SumZeros(k: nat)
    ensures Sum(Zeros(k)) == 0
    ensures forall i, j :: 0 <= i <= j <= k ==> Zeros(k)[i..j] == Zeros(j - i)
    decreases k
  {
    if k > 0 {
      assert Zeros(k)[1..] == Zeros(k - 1);
      SumZeros(k - 1);
    }
  }

  /** Two ranges that both cover every position of `a` add `x` to the same elements. */
  lemma AddInCovered(a: seq<int>, off: int, lo: int, hi: int, lo': int, hi': int, x: int)
    requires lo <= off && off + |a| - 1 <= hi
    requires lo' <= off && off + |a| - 1 <= hi'
    ensures AddIn(a, off, lo, hi, x) == AddIn(a, off, lo', hi', x)
  {
  }

  /** A range that holds none of the positions of `a` leaves it unchanged. */
  lemma AddInOutside(a: seq<int>, off: int, lo: int, hi: int, x: int)
    requires hi < lo || hi < off || off + |a| - 1 < lo
    ensures AddIn(a, off, lo, hi, x) == a
  {
  }

  /** Adding `x` at one position adds `x` to the sum exactly when that position is one of `a`'s. */
  lemma {:induction false} SumAddInPoint(a: seq<int>, off: int, i: int, x: int)
    ensures Sum(AddIn(a, off, i, i, x)) == Sum(a) + (if off <= i < off + |a| then x else 0)
    decreases |a|
  {
    if |a| > 0 {
      assert AddIn(a, off, i, i, x)[1..] == AddIn(a[1..], off + 1, i, i, x);
      SumAddInPoint(a[1..], off + 1, i, x);
    }
  }

  /** Adding `x` at position `i` changes a restricted sum by `x` exactly when `i` is one of `a`'s positions inside `[lo, hi]`. */
  lemma {:induction false} SumInAddInPoint(a: seq<int>, off: int, lo: int, hi: int, i: int, x: int)
    ensures SumIn(AddIn(a, off, i, i, x), off, lo, hi)
         == SumIn(a, off, lo, hi) + (if lo <= i <= hi && off <= i < off + |a| then x else 0)
    decreases |a|
  {
    if |a| > 0 {
      assert AddIn(a, off, i, i, x)[1..] == AddIn(a[1..], off + 1, i, i, x);
      SumInAddInPoint(a[1..], off + 1, lo, hi, i, x);
    }
  }

  /** `k * x` as `k` copies of `x` added up. */
  function Times(k: nat, x: int): int
    decreases k
  {
    if k == 0 then 0 else Times(k - 1, x) + x
  }

  lemma {:induction false} TimesIsProduct(k: nat, x: int)
    ensures Times(k, x) == k * x
    decreases k
  {
    if k > 0 {
      TimesIsProduct(k - 1, x);
    }
  }

  lemma {:induction false} TimesAddCount(a: nat, b: nat, x: int)
    ensures Times(a + b, x) == Times(a, x) + Times(b, x)
    decreases b
  {
    if b > 0 {
      TimesAddCount(a, b - 1, x);
    }
  }

  lemma {:induction false} TimesAddValue(k: nat, x: int, y: int)
    ensures Times(k, x + y) == Times(k, x) + Times(k, y)
    decreases k
  {
    if k > 0 {
      TimesAddValue(k - 1, x, y);
    }
  }

  lemma {:induction false} TimesZero(k: nat)
    ensures Times(k, 0) == 0
    decreases k
  {
    if k > 0 {
      TimesZero(k - 1);
    }
  }
}
