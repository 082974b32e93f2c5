/** How the exercises split n elements over t threads: blocks of n / t
    elements, one after the other, the last block running to n and so taking
    the remainder. Also the count of an element over an index range, which
    the per-block searches add up. */
module Blocks {

  /** The first index of block i. */
  function BlockStart(n: nat, t: nat, i: nat): nat
    requires t >= 1
  {
    i * (n / t)
  }

  /** One past the last index of block i. */
  function BlockEnd(n: nat, t: nat, i: nat): nat
    requires t >= 1 && i < t
  {
    if i == t - 1 then n else (i + 1) * (n / t)
  }

  /** k blocks of n / t elements stay within n when k <= t. */
  lemma ScaledBlocks(n: nat, t: nat, k: nat)
    requires t >= 1 && k <= t
    ensures k * (n / t) <= n
  {
    MulMono(k, t, n / t);
    assert t * (n / t) + n % t == n;
  }

  /** Each block lies within [0, n) and ends where the next one starts. */
  lemma BlockInRange(n: nat, t: nat, i: nat)
    requires t >= 1 && i < t
    ensures BlockStart(n, t, i) <= BlockEnd(n, t, i) <= n
    ensures i < t - 1 ==> BlockEnd(n, t, i) == BlockStart(n, t, i + 1) == BlockStart(n, t, i) + n / t
  {
    assert (i + 1) * (n / t) == i * (n / t) + n / t;
    ScaledBlocks(n, t, i + 1);
    ScaledBlocks(n, t, i);
  }

  /** The blocks follow each other: a block ends no later than any later
      block starts, so no index belongs to two blocks. */
  lemma BlocksDisjoint(n: nat, t: nat, i: nat, j: nat)
    requires t >= 1 && i < j < t
    ensures BlockEnd(n, t, i) <= BlockStart(n, t, j)
  {
    assert (i + 1) * (n / t) <= j * (n / t);
  }

  /** The blocks cover [0, n): every index lies in one of them. */
  lemma BlockOf(n: nat, t: nat, k: nat) returns (i: nat)
    requires t >= 1 && k < n
    ensures i < t && BlockStart(n, t, i) <= k < BlockEnd(n, t, i)
  {
    var b := n / t;
    if b == 0 {
      i := t - 1;
      assert BlockStart(n, t, i) == i * 0 == 0;
    } else {
      var q, r := k / b, k % b;
      assert k == q * b + r && 0 <= r < b;
      if q >= t - 1 {
        i := t - 1;
        MulMono(t - 1, q, b);
      } else {
        i := q;
        assert (q + 1) * b == q * b + b;
      }
    }
  }

  /** Multiplying by a natural number keeps the order. */
  lemma MulMono(a: nat, c: nat, b: nat)
    requires a <= c
    ensures a * b <= c * b
  {
    assert c * b == a * b + (c - a) * b;
  }

  /** The number of indices j in [lo, hi) with s[j] == x. */
  function Count<T(==)>(s: seq<T>, lo: nat, hi: nat, x: T): (c: nat)
    requires lo <= hi <= |s|
    ensures c <= hi - lo
    decreases hi - lo
  {
    if lo == hi then 0 else Count(s, lo, hi - 1, x) + (if s[hi - 1] == x then 1 else 0)
  }

  /** Counts over two adjacent ranges add up to the count over their union. */
  lemma {:induction false} CountSplit<T>(s: seq<T>, lo: nat, mid: nat, hi: nat, x: T)
    requires lo <= mid <= hi <= |s|
    ensures Count(s, lo, mid, x) + Count(s, mid, hi, x) == Count(s, lo, hi, x)
    decreases hi - mid
  {
    if mid < hi {
      CountSplit(s, lo, mid, hi - 1, x);
    }
  }

  /** Count is the multiplicity of x in the slice s[lo..hi]. */
  lemma {:induction false} CountIsMultiplicity<T>(s: seq<T>, lo: nat, hi: nat, x: T)
    requires lo <= hi <= |s|
    ensures Count(s, lo, hi, x) == multiset(s[lo..hi])[x]
    decreases hi - lo
  {
    if lo < hi {
      CountIsMultiplicity(s, lo, hi - 1, x);
      assert s[lo..hi] == s[lo..hi - 1] + [s[hi - 1]];
    }
  }
}
