/** FindCountMins and CountMinsParallel of td1.cpp: the number of times the
    smallest element of a vector<int> range occurs. Each block reports its
    (minimum, count) pair, an empty block (INT_MAX, 0), and a final loop
    merges the pairs. The blocks are run here one after the other. */
module CountMins {
  import opened MachineInts
  import opened Blocks

  function Min(a: i32, b: i32): i32
  {
    if a <= b then a else b
  }

  /** The smallest of seed and s[lo..hi). */
  function MinFrom(s: seq<i32>, lo: nat, hi: nat, seed: i32): i32
    requires lo <= hi <= |s|
    decreases hi - lo
  {
    if lo == hi then seed else Min(MinFrom(s, lo, hi - 1, seed), s[hi - 1])
  }

  /** MinFrom is at most the seed and every element of the range, and it is
      the seed or one of those elements. */
  lemma {:induction false} MinFromIsMin(s: seq<i32>, lo: nat, hi: nat, seed: i32)
    requires lo <= hi <= |s|
    ensures MinFrom(s, lo, hi, seed) <= seed
    ensures forall j :: lo <= j < hi ==> MinFrom(s, lo, hi, seed) <= s[j]
    ensures MinFrom(s, lo, hi, seed) == seed || exists j :: lo <= j < hi && s[j] == MinFrom(s, lo, hi, seed)
    decreases hi - lo
  {
    if lo < hi {
      MinFromIsMin(s, lo, hi - 1, seed);
    }
  }

  /** Taking the minimum block by block: the minimum of [mid, hi) seeded with
      the minimum of [lo, mid) is the minimum of [lo, hi). */
  lemma {:induction false} MinFromSplit(s: seq<i32>, lo: nat, mid: nat, hi: nat, seed: i32)
    requires lo <= mid <= hi <= |s|
    ensures MinFrom(s, mid, hi, MinFrom(s, lo, mid, seed)) == MinFrom(s, lo, hi, seed)
    decreases hi - mid
  {
    if mid < hi {
      MinFromSplit(s, lo, mid, hi - 1, seed);
    }
  }

  /** Since no int is above INT_MAX, the minimum of a non-empty range seeded
      with INT_MAX is the smallest element of the range. */
  lemma SmallestElement(s: seq<i32>, lo: nat, hi: nat)
    requires lo < hi <= |s|
    ensures exists j :: lo <= j < hi && s[j] == MinFrom(s, lo, hi, INT_MAX as i32)
  {
    var m := MinFrom(s, lo, hi, INT_MAX as i32);
    MinFromIsMin(s, lo, hi, INT_MAX as i32);
    if m == INT_MAX as i32 {
      assert s[lo] <= m;
      assert s[lo] == m;
    }
  }

  /** A value below every element of a range does not occur in it. */
  lemma {:induction false} CountBelowMin(s: seq<i32>, lo: nat, hi: nat, seed: i32, x: i32)
    requires lo <= hi <= |s| && x < MinFrom(s, lo, hi, seed)
    ensures Count(s, lo, hi, x) == 0
    decreases hi - lo
  {
    if lo < hi {
      CountBelowMin(s, lo, hi - 1, seed, x);
    }
  }

  /** FindCountMins on a[lo..hi): min starts at INT_MAX and cnt at 0; an
      element equal to min bumps cnt, a smaller one becomes min with cnt 1.
      So min is the smallest element (INT_MAX for an empty range) and cnt
      the number of times it occurs (0 for an empty range). */
  method FindCountMins(a: array<i32>, lo: nat, hi: nat) returns (min: i32, cnt: nat)
    requires lo <= hi <= a.Length
    ensures min == MinFrom(a[..], lo, hi, INT_MAX as i32)
    ensures cnt == Count(a[..], lo, hi, min)
    ensures lo == hi ==> min == INT_MAX as i32 && cnt == 0
  {
    ghost var s := a[..];
    cnt := 0;
    min := INT_MAX as i32;
    var k := lo;
    while k != hi
      invariant lo <= k <= hi
      invariant min == MinFrom(s, lo, k, INT_MAX as i32)
      invariant cnt == Count(s, lo, k, min)
      decreases hi - k
    {
      if a[k] == min {
        cnt := cnt + 1;
      }
      if a[k] < min {
        CountBelowMin(s, lo, k, INT_MAX as i32, a[k]);
        min := a[k];
        cnt := 1;
      }
      k := k + 1;
    }
  }

  /** One step of the merge loop: the pair (min, cnt) of [0, mid) and the
      pair (m, c) of [mid, hi) give the pair of [0, hi). */
  lemma MergeStep(s: seq<i32>, mid: nat, hi: nat, min: i32, cnt: nat, m: i32, c: nat)
    requires mid <= hi <= |s|
    requires min == MinFrom(s, 0, mid, INT_MAX as i32) && cnt == Count(s, 0, mid, min)
    requires m == MinFrom(s, mid, hi, INT_MAX as i32) && c == Count(s, mid, hi, m)
    ensures Min(min, m) == MinFrom(s, 0, hi, INT_MAX as i32)
    ensures Count(s, 0, hi, Min(min, m)) ==
              if m == min then cnt + c else if m < min then c else cnt
  {
    MinFromSplit(s, 0, mid, hi, INT_MAX as i32);
    MinSeed(s, mid, hi, INT_MAX as i32, min);
    CountSplit(s, 0, mid, hi, Min(min, m));
    if m < min {
      CountBelowMin(s, 0, mid, INT_MAX as i32, m);
    } else if min < m {
      CountBelowMin(s, mid, hi, INT_MAX as i32, min);
    }
  }

  /** Seeding with a smaller value: the minimum seeded with min(seed, x) is
      the minimum seeded with seed, lowered to x. */
  lemma {:induction false} MinSeed(s: seq<i32>, lo: nat, hi: nat, seed: i32, x: i32)
    requires lo <= hi <= |s| && x <= seed
    ensures MinFrom(s, lo, hi, x) == Min(MinFrom(s, lo, hi, seed), x)
    decreases hi - lo
  {
    if lo < hi {
      MinSeed(s, lo, hi - 1, seed, x);
    }
  }

  /** CountMinsParallel: 0 for an empty range; otherwise num_threads - 1
      blocks of length / num_threads elements and a last block running to
      the end, each reduced by FindCountMins into mins and cnts, and the
      pairs merged in block order. The result is the number of times the
      smallest element occurs. */
  method CountMinsParallel(a: array<i32>, numThreads: nat) returns (r: nat)
    requires a.Length == 0 || numThreads >= 1
    ensures a.Length == 0 ==> r == 0
    ensures a.Length > 0 ==> r == Count(a[..], 0, a.Length, MinFrom(a[..], 0, a.Length, INT_MAX as i32))
  {
    var n := a.Length;
    if n == 0 {
      return 0;
    }
    var t := numThreads;
    var mins, cnts := ReduceBlocks(a, t);
    r := MergeBlocks(a, t, mins, cnts);
  }

  /** (m, c) is what FindCountMins gives for block i of s split over t
      threads. */
  ghost predicate Reduced(s: seq<i32>, t: nat, i: nat, m: i32, c: nat)
    requires t >= 1 && i < t
  {
    BlockStart(|s|, t, i) <= BlockEnd(|s|, t, i) <= |s| &&
    m == MinFrom(s, BlockStart(|s|, t, i), BlockEnd(|s|, t, i), INT_MAX as i32) &&
    c == Count(s, BlockStart(|s|, t, i), BlockEnd(|s|, t, i), m)
  }

  /** The block reductions of CountMinsParallel: mins[i] and cnts[i] are
      the pair FindCountMins gives for block i. */
  method ReduceBlocks(a: array<i32>, t: nat) returns (mins: array<i32>, cnts: array<nat>)
    requires a.Length > 0 && t >= 1
    ensures mins.Length == t && cnts.Length == t
    ensures forall i :: 0 <= i < t ==> Reduced(a[..], t, i, mins[i], cnts[i])
  {
    ghost var s := a[..];
    var n := a.Length;
    var blockSize := n / t;
    mins := new i32[t](_ => 0);
    cnts := new nat[t](_ => 0);
    var start := 0;
    var i := 0;
    while i < t - 1
      invariant i <= t - 1 && start <= n && start == BlockStart(n, t, i)
      invariant forall j :: 0 <= j < i ==> Reduced(s, t, j, mins[j], cnts[j])
    {
      BlockInRange(n, t, i);
      var m, c := FindCountMins(a, start, start + blockSize);
      assert Reduced(s, t, i, m, c);
      mins[i], cnts[i] := m, c;
      start := start + blockSize;
      i := i + 1;
    }
    BlockInRange(n, t, t - 1);
    var m, c := FindCountMins(a, start, n);
    assert Reduced(s, t, t - 1, m, c);
    mins[t - 1], cnts[t - 1] := m, c;
  }

  /** The merge loop of CountMinsParallel: min starts at INT_MAX and cnt at
      0; a block with the same minimum adds its count, a block with a smaller
      one replaces both. */
  method MergeBlocks(a: array<i32>, t: nat, mins: array<i32>, cnts: array<nat>) returns (cnt: nat)
    requires a.Length > 0 && t >= 1 && mins.Length == t && cnts.Length == t
    requires forall i :: 0 <= i < t ==> Reduced(a[..], t, i, mins[i], cnts[i])
    ensures cnt == Count(a[..], 0, a.Length, MinFrom(a[..], 0, a.Length, INT_MAX as i32))
  {
    ghost var s := a[..];
    ghost var n := a.Length;
    ghost var mid := 0;
    var min := INT_MAX as i32;
    cnt := 0;
    var i := 0;
    while i < t
      invariant i <= t && mid <= n
      invariant i < t ==> mid == BlockStart(n, t, i)
      invariant i == t ==> mid == n
      invariant min == MinFrom(s, 0, mid, INT_MAX as i32)
      invariant cnt == Count(s, 0, mid, min)
    {
      assert Reduced(s, t, i, mins[i], cnts[i]);
      BlockInRange(n, t, i);
      ghost var hi := BlockEnd(n, t, i);
      MergeStep(s, mid, hi, min, cnt, mins[i], cnts[i]);
      if mins[i] == min {
        cnt := cnt + cnts[i];
      }
      if mins[i] < min {
        cnt := cnts[i];
        min := mins[i];
      }
      mid := hi;
      i := i + 1;
    }
  }

  /** A run: in [3, 1, 2, 1, 1] over two threads ([3, 1] and [2, 1, 1]) the
      smallest element 1 occurs three times. */
  method ThreeMins() returns (r: nat)
    ensures r == 3
  {
    var a := new i32[5];
    a[0], a[1], a[2], a[3], a[4] := 3, 1, 2, 1, 1;
    r := CountMinsParallel(a, 2);
    assert a[..] == [3, 1, 2, 1, 1];
    assert MinFrom(a[..], 0, 5, INT_MAX as i32) == 1;
  }
}
