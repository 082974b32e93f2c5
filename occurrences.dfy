/** FindThread and FindParallel of td3.cpp: is target in the array at least
    count times? Each thread scans its block and bumps a shared counter of
    occurrences, stopping once the counter has reached count. The threads are
    run here one after the other, block by block, with the counter passed
    from each to the next. */
module Occurrences {
  import opened MachineInts
  import opened Blocks

  function Min(a: int, b: int): int
  {
    if a <= b then a else b
  }

  /** FindThread on arr[lo .. lo + blockSize): a counter already at count or
      above is left alone; otherwise it grows by the block's matches, and
      stops growing at count. */
  method FindThread<T(==)>(arr: array<T>, lo: nat, blockSize: nat, target: T, count: u32, occ: u32)
    returns (occ': u32)
    requires lo + blockSize <= arr.Length
    ensures occ >= count ==> occ' == occ
    ensures occ < count ==> occ' as int == Min(occ as int + Count(arr[..], lo, lo + blockSize, target), count as int)
  {
    var hi := lo + blockSize;
    var k := lo;
    occ' := occ;
    while k != hi
      invariant lo <= k <= hi
      invariant occ >= count ==> occ' == occ
      invariant occ < count ==> occ' as int == Min(occ as int + Count(arr[..], lo, k, target), count as int)
      decreases hi - k
    {
      if occ' >= count {
        CountSplit(arr[..], lo, k, hi, target);
        return;
      }
      if arr[k] == target {
        occ' := occ' + 1;
      }
      k := k + 1;
    }
  }

  /** FindParallel: with an empty array, whether count is 0. Otherwise the
      blocks [i * (N / T), (i + 1) * (N / T)) for i < T - 1 and the rest
      [(T - 1) * (N / T), N) are scanned in turn, and the answer is whether
      the counter reached count. count is a size_t but the threads take it as
      an unsigned int, so they stop at count modulo 2^32: below 2^32 the
      answer is exactly whether target occurs count times; from 2^32 on it is
      always false. */
  method FindParallel<T(==)>(arr: array<T>, target: T, count: u64, numThreads: u64) returns (r: bool)
    requires arr.Length == 0 || numThreads >= 1
    requires arr.Length <= 0xFFFF_FFFF_FFFF_FFFF
    ensures arr.Length == 0 ==> (r <==> count == 0)
    ensures count as int <= UINT_MAX ==> (r <==> Count(arr[..], 0, arr.Length, target) >= count as int)
    ensures count as int > UINT_MAX ==> !r
  {
    var n := arr.Length;
    if n == 0 {
      return count == 0;
    }
    var t := numThreads as nat;
    var threadCount := ToU32(count as int);
    var occ := FindBlocks(arr, target, threadCount, t);
    r := occ as int >= count as int;
  }

  /** The scans of FindParallel, block after block, starting from a counter
      at 0: the counter ends at the number of matches, capped at count. */
  method FindBlocks<T(==)>(arr: array<T>, target: T, count: u32, t: nat) returns (occ: u32)
    requires arr.Length > 0 && t >= 1
    ensures occ as int == Min(Count(arr[..], 0, arr.Length, target), count as int)
  {
    ghost var s := arr[..];
    var n := arr.Length;
    var blockSize := n / t;
    var start := 0;
    var i := 0;
    occ := 0;
    while i < t - 1
      invariant i <= t - 1 && start <= n && start == BlockStart(n, t, i)
      invariant occ as int == Min(Count(s, 0, start, target), count as int)
    {
      BlockInRange(n, t, i);
      CountSplit(s, 0, start, start + blockSize, target);
      occ := FindThread(arr, start, blockSize, target, count, occ);
      start := start + blockSize;
      i := i + 1;
    }
    BlockInRange(n, t, t - 1);
    CountSplit(s, 0, start, n, target);
    occ := FindThread(arr, start, n - start, target, count, occ);
  }
}
