/** The maximum and prefix-maximum passes of td2.cpp. The arrays hold doubles
    in the source; only <, > and <= are applied to them, so the model uses
    integers, and DBL_MAX is the largest finite double as an integer. The
    threads of each pass are run one after the other. */
module Maxima {
  import opened Blocks

  /** 2^128. */
  const TWO_128: int := 0x1_0000_0000_0000_0000_0000_0000_0000_0000

  /** The largest finite double, (2^53 - 1) * 2^971, with 971 = 75 + 7 * 128. */
  const DBL_MAX: int := 0x1F_FFFF_FFFF_FFFF * 0x800_0000_0000_0000_0000 *
                        TWO_128 * TWO_128 * TWO_128 * TWO_128 * TWO_128 * TWO_128 * TWO_128

  function Max(a: int, b: int): int
  {
    if a >= b then a else b
  }

  /** The largest of seed and s[lo..hi). */
  function MaxFrom(s: seq<int>, lo: nat, hi: nat, seed: int): int
    requires lo <= hi <= |s|
    decreases hi - lo
  {
    if lo == hi then seed else Max(MaxFrom(s, lo, hi - 1, seed), s[hi - 1])
  }

  /** MaxFrom is at least the seed and every element of the range, and it is
      the seed or one of those elements. */
  lemma {:induction false} MaxFromIsMax(s: seq<int>, lo: nat, hi: nat, seed: int)
    requires lo <= hi <= |s|
    ensures seed <= MaxFrom(s, lo, hi, seed)
    ensures forall j :: lo <= j < hi ==> s[j] <= MaxFrom(s, lo, hi, seed)
    ensures MaxFrom(s, lo, hi, seed) == seed || exists j :: lo <= j < hi && s[j] == MaxFrom(s, lo, hi, seed)
    decreases hi - lo
  {
    if lo < hi {
      MaxFromIsMax(s, lo, hi - 1, seed);
    }
  }

  /** With a seed no larger than every element of a non-empty range, MaxFrom
      is the largest element of the range. */
  lemma LargestElement(s: seq<int>, lo: nat, hi: nat, seed: int)
    requires lo < hi <= |s|
    requires forall j :: lo <= j < hi ==> seed <= s[j]
    ensures exists j :: lo <= j < hi && s[j] == MaxFrom(s, lo, hi, seed)
    ensures forall j :: lo <= j < hi ==> s[j] <= MaxFrom(s, lo, hi, seed)
  {
    MaxFromIsMax(s, lo, hi, seed);
    if MaxFrom(s, lo, hi, seed) == seed {
      assert seed <= s[lo] <= MaxFrom(s, lo, hi, seed);
    }
  }

  /** A running maximum never decreases along the range. */
  lemma {:induction false} MaxFromMonotone(s: seq<int>, lo: nat, i: nat, j: nat, seed: int)
    requires lo <= i <= j <= |s|
    ensures MaxFrom(s, lo, i, seed) <= MaxFrom(s, lo, j, seed)
    decreases j - i
  {
    if i < j {
      MaxFromMonotone(s, lo, i, j - 1, seed);
    }
  }

  /** Raising the seed to at least x raises the maximum to at least x: this
      is MaxOffset(x) applied after PartialMaxSeq(seed). */
  lemma {:induction false} MaxFromSeed(s: seq<int>, lo: nat, hi: nat, seed: int, x: int)
    requires lo <= hi <= |s|
    ensures MaxFrom(s, lo, hi, Max(seed, x)) == Max(MaxFrom(s, lo, hi, seed), x)
    decreases hi - lo
  {
    if lo < hi {
      MaxFromSeed(s, lo, hi - 1, seed, x);
    }
  }

  /** The maximum of two adjacent ranges is the larger of their maxima. */
  lemma {:induction false} MaxFromJoin(s: seq<int>, lo: nat, mid: nat, hi: nat, seed: int)
    requires lo <= mid <= hi <= |s|
    ensures Max(MaxFrom(s, lo, mid, seed), MaxFrom(s, mid, hi, seed)) == MaxFrom(s, lo, hi, seed)
    decreases hi - mid
  {
    if mid == hi {
      MaxFromIsMax(s, lo, mid, seed);
    } else {
      MaxFromJoin(s, lo, mid, hi - 1, seed);
    }
  }

  /** A running maximum continued from another: seeding [mid, hi) with the
      maximum of [lo, mid) gives the maximum of [lo, hi). */
  lemma MaxFromSplit(s: seq<int>, lo: nat, mid: nat, hi: nat, seed: int)
    requires lo <= mid <= hi <= |s|
    ensures MaxFrom(s, mid, hi, MaxFrom(s, lo, mid, seed)) == MaxFrom(s, lo, hi, seed)
  {
    var m := MaxFrom(s, lo, mid, seed);
    MaxFromIsMax(s, lo, mid, seed);
    MaxFromSeed(s, mid, hi, seed, m);
    assert Max(seed, m) == m;
    MaxFromJoin(s, lo, mid, hi, seed);
  }

  /** The largest element of block [lo, hi) of start, folded into
      maxValues[i]; nothing else changes. */
  method BlockMax(start: array<int>, lo: nat, hi: nat, maxValues: array<int>, i: nat)
    requires lo <= hi <= start.Length && i < maxValues.Length && maxValues != start
    modifies maxValues
    ensures maxValues[i] == MaxFrom(start[..], lo, hi, old(maxValues[i]))
    ensures forall j :: 0 <= j < maxValues.Length && j != i ==> maxValues[j] == old(maxValues[j])
  {
    var j := lo;
    while j < hi
      invariant lo <= j <= hi
      invariant maxValues[i] == MaxFrom(start[..], lo, j, old(maxValues[i]))
      invariant forall k :: 0 <= k < maxValues.Length && k != i ==> maxValues[k] == old(maxValues[k])
    {
      if start[j] > maxValues[i] {
        maxValues[i] := start[j];
      }
      j := j + 1;
    }
  }

  /** v is what the thread for block i of s left in max_values. */
  ghost predicate Reduced(s: seq<int>, t: nat, i: nat, v: int)
    requires t >= 1 && i < t
  {
    BlockStart(|s|, t, i) <= BlockEnd(|s|, t, i) <= |s| &&
    v == MaxFrom(s, BlockStart(|s|, t, i), BlockEnd(|s|, t, i), -DBL_MAX)
  }

  /** MaxParallel: 0 for an empty array; otherwise each of the t blocks
      (the last running to N) is reduced into max_values, which starts at
      -DBL_MAX everywhere, and the largest of those is returned. That is the
      largest element whenever all elements are at least -DBL_MAX, as every
      finite double is. */
  method MaxParallel(start: array<int>, numThreads: nat) returns (m: int)
    requires start.Length == 0 || numThreads >= 1
    ensures start.Length == 0 ==> m == 0
    ensures start.Length > 0 ==> m == MaxFrom(start[..], 0, start.Length, -DBL_MAX)
  {
    var n := start.Length;
    if n == 0 {
      return 0;
    }
    ghost var s := start[..];
    var t := numThreads;
    var maxValues := new int[t](_ => -DBL_MAX);
    var i := 0;
    while i < t
      invariant i <= t
      invariant forall j :: 0 <= j < i ==> Reduced(s, t, j, maxValues[j])
      invariant forall j :: i <= j < t ==> maxValues[j] == -DBL_MAX
    {
      BlockInRange(n, t, i);
      var startIndex := i * (n / t);
      var endIndex := (i + 1) * (n / t);
      if i == t - 1 {
        endIndex := n;
      }
      BlockMax(start, startIndex, endIndex, maxValues, i);
      assert Reduced(s, t, i, maxValues[i]);
      i := i + 1;
    }
    m := MaxElement(start, t, maxValues);
  }

  /** std::max_element over max_values, whose entry j is the maximum of
      block j: the maximum of the whole array. */
  method MaxElement(start: array<int>, t: nat, maxValues: array<int>) returns (m: int)
    requires start.Length > 0 && t >= 1 && maxValues.Length == t
    requires forall j :: 0 <= j < t ==> Reduced(start[..], t, j, maxValues[j])
    ensures m == MaxFrom(start[..], 0, start.Length, -DBL_MAX)
  {
    ghost var s := start[..];
    ghost var n := start.Length;
    assert BlockStart(n, t, 0) == 0 && Reduced(s, t, 0, maxValues[0]);
    BlockInRange(n, t, 0);
    ghost var mid := BlockEnd(n, t, 0);
    m := maxValues[0];
    var i := 1;
    while i < t
      invariant 1 <= i <= t && mid <= n
      invariant mid == if i < t then BlockStart(n, t, i) else n
      invariant m == MaxFrom(s, 0, mid, -DBL_MAX)
    {
      MergeStep(s, t, i, mid, m, maxValues[i]);
      BlockInRange(n, t, i);
      mid := BlockEnd(n, t, i);
      if maxValues[i] > m {
        m := maxValues[i];
      }
      i := i + 1;
    }
  }

  /** One step of the max_element loop: the maximum of the blocks before i,
      combined with block i's, is the maximum of the blocks up to i. */
  lemma MergeStep(s: seq<int>, t: nat, i: nat, mid: nat, m: int, v: int)
    requires i < t && Reduced(s, t, i, v) && mid == BlockStart(|s|, t, i)
    requires m == MaxFrom(s, 0, mid, -DBL_MAX)
    ensures Max(m, v) == MaxFrom(s, 0, BlockEnd(|s|, t, i), -DBL_MAX)
  {
    MaxFromJoin(s, 0, mid, BlockEnd(|s|, t, i), -DBL_MAX);
  }

  /** PartialMaxSeq on [lo, lo + n): res[k] is the largest of offset and
      start[lo..k]. The first entry is written even when n is 0, so the
      source needs n >= 1. Nothing outside the range changes. */
  method PartialMaxSeq(start: array<int>, lo: nat, n: nat, res: array<int>, offset: int)
    requires n >= 1 && lo + n <= start.Length && lo + n <= res.Length && res != start
    modifies res
    ensures forall k :: lo <= k < lo + n ==> res[k] == MaxFrom(start[..], lo, k + 1, offset)
    ensures forall k :: 0 <= k < res.Length && !(lo <= k < lo + n) ==> res[k] == old(res[k])
  {
    ghost var s := start[..];
    if start[lo] > offset {
      res[lo] := start[lo];
    } else {
      res[lo] := offset;
    }
    var i := 1;
    while i < n
      invariant 1 <= i <= n
      invariant forall k :: lo <= k < lo + i ==> res[k] == MaxFrom(s, lo, k + 1, offset)
      invariant forall k :: 0 <= k < res.Length && !(lo <= k < lo + i) ==> res[k] == old(res[k])
    {
      if res[lo + i - 1] < start[lo + i] {
        res[lo + i] := start[lo + i];
      } else {
        res[lo + i] := res[lo + i - 1];
      }
      i := i + 1;
    }
  }

  /** After PartialMaxSeq the result range is non-decreasing. */
  lemma PartialMaxSorted(s: seq<int>, r: seq<int>, lo: nat, n: nat, offset: int)
    requires lo + n <= |s| && lo + n <= |r|
    requires forall k :: lo <= k < lo + n ==> r[k] == MaxFrom(s, lo, k + 1, offset)
    ensures forall i, j :: lo <= i <= j < lo + n ==> r[i] <= r[j]
  {
    forall i, j | lo <= i <= j < lo + n
      ensures r[i] <= r[j]
    {
      MaxFromMonotone(s, lo, i + 1, j + 1, offset);
    }
  }

  /** MaxOffset on [lo, lo + n): every element below offset becomes offset. */
  method MaxOffset(a: array<int>, lo: nat, n: nat, offset: int)
    requires lo + n <= a.Length
    modifies a
    ensures forall k :: lo <= k < lo + n ==> a[k] == Max(old(a[k]), offset)
    ensures forall k :: 0 <= k < a.Length && !(lo <= k < lo + n) ==> a[k] == old(a[k])
  {
    var i := 0;
    while i < n
      invariant i <= n
      invariant forall k :: lo <= k < lo + i ==> a[k] == Max(old(a[k]), offset)
      invariant forall k :: 0 <= k < a.Length && !(lo <= k < lo + i) ==> a[k] == old(a[k])
    {
      if a[lo + i] < offset {
        a[lo + i] := offset;
      }
      i := i + 1;
    }
  }

  /** r[k] is the running maximum of s from index from up to k, for every k
      in [lo, hi). */
  ghost predicate Running(r: seq<int>, s: seq<int>, from: nat, lo: nat, hi: nat, seed: int)
  {
    from <= lo <= hi <= |r| && hi <= |s| &&
    forall k :: lo <= k < hi ==> r[k] == MaxFrom(s, from, k + 1, seed)
  }

  /** Chunk c (of length len) holds the running maxima of that chunk alone. */
  ghost predicate LocalChunk(r: seq<int>, s: seq<int>, len: nat, c: nat, seed: int)
  {
    Running(r, s, c * len, c * len, c * len + len, seed)
  }

  /** Chunk c holds the running maxima of the whole prefix. */
  ghost predicate GlobalChunk(r: seq<int>, s: seq<int>, len: nat, c: nat, seed: int)
  {
    Running(r, s, 0, c * len, c * len + len, seed)
  }

  /** Writing outside [lo, hi) keeps what [lo, hi) holds. */
  lemma RunningFrame(r1: seq<int>, r2: seq<int>, s: seq<int>, from: nat, lo: nat, hi: nat, seed: int, wlo: nat, whi: nat)
    requires Running(r1, s, from, lo, hi, seed) && |r2| == |r1|
    requires hi <= wlo || whi <= lo
    requires forall k :: 0 <= k < |r2| && !(wlo <= k < whi) ==> r2[k] == r1[k]
    ensures Running(r2, s, from, lo, hi, seed)
  {
  }

  /** Raising the running maxima of the chunk [lo, hi) to the maximum of
      everything before lo gives the running maxima of the whole prefix. */
  lemma Globalize(r1: seq<int>, r2: seq<int>, s: seq<int>, lo: nat, hi: nat, seed: int, offset: int)
    requires Running(r1, s, lo, lo, hi, seed) && |r2| == |r1|
    requires offset == MaxFrom(s, 0, lo, seed)
    requires forall k :: lo <= k < hi ==> r2[k] == Max(r1[k], offset)
    ensures Running(r2, s, 0, lo, hi, seed)
  {
    forall k | lo <= k < hi
      ensures r2[k] == MaxFrom(s, 0, k + 1, seed)
    {
      MaxFromJoin(s, 0, lo, k + 1, seed);
    }
  }

  /** Chunk c ends no later than chunk i starts when c < i. */
  lemma ChunkBefore(c: nat, i: nat, len: nat)
    requires c < i
    ensures c * len + len <= i * len
  {
    assert i * len == c * len + len + (i - c - 1) * len;
  }

  /** The chunk of length len that index k falls in. */
  lemma ChunkIndex(k: nat, len: nat, t: nat) returns (c: nat)
    requires len >= 1 && k < t * len
    ensures c < t && c * len <= k < c * len + len
    decreases t
  {
    assert t != 0;
    assert t * len == (t - 1) * len + len;
    if k < (t - 1) * len {
      c := ChunkIndex(k, len, t - 1);
    } else {
      c := t - 1;
    }
  }

  /** With N >= t + 1, the chunks of N / (t + 1) elements are not empty and
      t of them leave at least one more chunk's worth for the remainder. */
  lemma ChunkLength(n: nat, t: nat)
    requires t >= 1 && n >= t + 1
    ensures n / (t + 1) >= 1 && t * (n / (t + 1)) + n / (t + 1) <= n
  {
    var len := n / (t + 1);
    assert n == (t + 1) * len + n % (t + 1);
    assert (t + 1) * len == t * len + len;
  }

  /** One PartialMaxSeq of the first pass of PrefixMaximums: chunk i gets its
      own running maxima, seeded with seed; the earlier chunks keep theirs. */
  method LocalChunkPass(start: array<int>, res: array<int>, len: nat, i: nat, seed: int)
    requires len >= 1 && i * len + len <= start.Length == res.Length && res != start
    requires forall c :: 0 <= c < i ==> LocalChunk(res[..], start[..], len, c, seed)
    modifies res
    ensures forall c :: 0 <= c <= i ==> LocalChunk(res[..], start[..], len, c, seed)
  {
    ghost var s := start[..];
    ghost var r1 := res[..];
    PartialMaxSeq(start, i * len, len, res, seed);
    assert LocalChunk(res[..], s, len, i, seed);
    forall c | 0 <= c < i
      ensures LocalChunk(res[..], s, len, c, seed)
    {
      assert LocalChunk(r1, s, len, c, seed);
      ChunkBefore(c, i, len);
      RunningFrame(r1, res[..], s, c * len, c * len, c * len + len, seed, i * len, i * len + len);
    }
  }

  /** The first pass of PrefixMaximums: t - 1 worker threads and then the
      main thread each run PartialMaxSeq with offset seed on one chunk. */
  method LocalPass(start: array<int>, res: array<int>, len: nat, t: nat, seed: int)
    requires t >= 1 && len >= 1 && t * len + len <= start.Length == res.Length && res != start
    modifies res
    ensures forall c :: 0 <= c < t ==> LocalChunk(res[..], start[..], len, c, seed)
  {
    var i := 0;
    while i < t - 1
      invariant i <= t - 1
      invariant forall c :: 0 <= c < i ==> LocalChunk(res[..], start[..], len, c, seed)
    {
      ChunkBefore(i, t, len);
      LocalChunkPass(start, res, len, i, seed);
      i := i + 1;
    }
    ChunkBefore(t - 1, t, len);
    LocalChunkPass(start, res, len, t - 1, seed);
  }

  /** The offsets loop of PrefixMaximums: offsets[i] is the larger of
      offsets[i - 1] and the last entry of chunk i, which makes it the
      maximum of chunks 0 to i. */
  method ChunkOffsets(start: array<int>, res: array<int>, len: nat, t: nat, seed: int) returns (offsets: array<int>)
    requires t >= 1 && len >= 1 && t * len + len <= start.Length == res.Length
    requires forall c :: 0 <= c < t ==> LocalChunk(res[..], start[..], len, c, seed)
    ensures offsets.Length == t && fresh(offsets)
    ensures forall i :: 0 <= i < t ==> offsets[i] == MaxFrom(start[..], 0, i * len + len, seed)
  {
    ghost var s := start[..];
    offsets := new int[t];
    assert LocalChunk(res[..], s, len, 0, seed);
    offsets[0] := res[len - 1];
    var i := 1;
    while i < t
      invariant 1 <= i <= t
      invariant forall j :: 0 <= j < i ==> offsets[j] == MaxFrom(s, 0, j * len + len, seed)
    {
      assert LocalChunk(res[..], s, len, i, seed);
      ChunkBefore(i - 1, i, len);
      ChunkBefore(i, t, len);
      assert len * (i + 1) - 1 == i * len + len - 1;
      assert (i - 1) * len + len == i * len;
      MaxFromJoin(s, 0, i * len, i * len + len, seed);
      if offsets[i - 1] <= res[len * (i + 1) - 1] {
        offsets[i] := res[len * (i + 1) - 1];
      } else {
        offsets[i] := offsets[i - 1];
      }
      i := i + 1;
    }
  }

  /** One MaxOffset of the third pass: chunk i + 1 is raised to offsets[i],
      the maximum of the chunks before it; the other chunks keep what they
      hold. */
  method GlobalChunkPass(start: array<int>, res: array<int>, len: nat, t: nat, i: nat, offset: int, seed: int)
    requires i + 1 < t && len >= 1 && t * len + len <= start.Length == res.Length && res != start
    requires offset == MaxFrom(start[..], 0, (i + 1) * len, seed)
    requires forall c :: 0 <= c <= i ==> GlobalChunk(res[..], start[..], len, c, seed)
    requires forall c :: i < c < t ==> LocalChunk(res[..], start[..], len, c, seed)
    modifies res
    ensures forall c :: 0 <= c <= i + 1 ==> GlobalChunk(res[..], start[..], len, c, seed)
    ensures forall c :: i + 1 < c < t ==> LocalChunk(res[..], start[..], len, c, seed)
  {
    ghost var s := start[..];
    ghost var r1 := res[..];
    var lo := (i + 1) * len;
    ChunkBefore(i + 1, t, len);
    assert LocalChunk(r1, s, len, i + 1, seed);
    MaxOffset(res, lo, len, offset);
    Globalize(r1, res[..], s, lo, lo + len, seed, offset);
    assert GlobalChunk(res[..], s, len, i + 1, seed);
    forall c | 0 <= c < i + 1
      ensures GlobalChunk(res[..], s, len, c, seed)
    {
      assert GlobalChunk(r1, s, len, c, seed);
      ChunkBefore(c, i + 1, len);
      RunningFrame(r1, res[..], s, 0, c * len, c * len + len, seed, lo, lo + len);
    }
    forall c | i + 1 < c < t
      ensures LocalChunk(res[..], s, len, c, seed)
    {
      assert LocalChunk(r1, s, len, c, seed);
      ChunkBefore(i + 1, c, len);
      RunningFrame(r1, res[..], s, c * len, c * len, c * len + len, seed, lo, lo + len);
    }
  }

  /** The third pass of PrefixMaximums: chunks 1 to t - 1 are raised to the
      offsets of the chunks before them. Chunk 0 needs nothing: its running
      maxima already start at index 0. */
  method OffsetPass(start: array<int>, res: array<int>, len: nat, t: nat, offsets: array<int>, seed: int)
    requires t >= 1 && len >= 1 && t * len + len <= start.Length == res.Length && res != start
    requires offsets.Length == t && offsets != res
    requires forall i :: 0 <= i < t ==> offsets[i] == MaxFrom(start[..], 0, i * len + len, seed)
    requires forall c :: 0 <= c < t ==> LocalChunk(res[..], start[..], len, c, seed)
    modifies res
    ensures forall c :: 0 <= c < t ==> GlobalChunk(res[..], start[..], len, c, seed)
  {
    assert LocalChunk(res[..], start[..], len, 0, seed);
    assert GlobalChunk(res[..], start[..], len, 0, seed);
    var i := 0;
    while i < t - 1
      invariant i <= t - 1
      invariant forall c :: 0 <= c <= i ==> GlobalChunk(res[..], start[..], len, c, seed)
      invariant forall c :: i < c < t ==> LocalChunk(res[..], start[..], len, c, seed)
    {
      assert (i + 1) * len == i * len + len;
      GlobalChunkPass(start, res, len, t, i, offsets[i], seed);
      i := i + 1;
    }
  }

  /** PrefixMaximums with the chunks of the first pass seeded with seed:
      chunks of N / (t + 1) elements for the t threads, then the remainder
      [t * (N / (t + 1)), N), which the main thread finishes with the last
      offset. Every res[k] ends as the larger of seed and the maximum of
      start[0..k]. The source needs N >= t + 1: with shorter chunks of length
      0, PartialMaxSeq would still write their first entry. */
  method PrefixMaximumsFrom(start: array<int>, numThreads: nat, res: array<int>, seed: int)
    requires numThreads >= 1 && start.Length >= numThreads + 1
    requires res.Length == start.Length && res != start
    modifies res
    ensures forall k :: 0 <= k < start.Length ==> res[k] == MaxFrom(start[..], 0, k + 1, seed)
  {
    ghost var s := start[..];
    var n := start.Length;
    var t := numThreads;
    var chunkLength := n / (t + 1);
    ChunkLength(n, t);
    LocalPass(start, res, chunkLength, t, seed);
    var offsets := ChunkOffsets(start, res, chunkLength, t, seed);
    OffsetPass(start, res, chunkLength, t, offsets, seed);
    ghost var r1 := res[..];
    var rest := chunkLength * t;
    assert offsets[t - 1] == MaxFrom(s, 0, rest, seed) by {
      assert (t - 1) * chunkLength + chunkLength == rest;
    }
    PartialMaxSeq(start, rest, n - rest, res, offsets[t - 1]);
    forall k | 0 <= k < n
      ensures res[k] == MaxFrom(s, 0, k + 1, seed)
    {
      if k < rest {
        var c := ChunkIndex(k, chunkLength, t);
        assert GlobalChunk(r1, s, chunkLength, c, seed);
        ChunkBefore(c, t, chunkLength);
        RunningFrame(r1, res[..], s, 0, c * chunkLength, c * chunkLength + chunkLength, seed, rest, n);
      } else {
        MaxFromSplit(s, 0, rest, k + 1, seed);
      }
    }
  }

  /** PrefixMaximums as written: the chunks of the first pass are seeded
      with 0, so res[k] is the larger of 0 and the maximum of start[0..k].
      That is the prefix maximum only when the elements are not negative. */
  method PrefixMaximums(start: array<int>, numThreads: nat, res: array<int>)
    requires numThreads >= 1 && start.Length >= numThreads + 1
    requires res.Length == start.Length && res != start
    modifies res
    ensures forall k :: 0 <= k < start.Length ==> res[k] == MaxFrom(start[..], 0, k + 1, 0)
    ensures (forall j :: 0 <= j < start.Length ==> start[j] >= 0) ==>
              forall k :: 0 <= k < start.Length ==> IsPrefixMax(start[..], k, res[k])
  {
    PrefixMaximumsFrom(start, numThreads, res, 0);
    PrefixMaxOfSeed(start[..], res[..], 0);
  }

  /** PrefixMaximums with the first pass seeded with -DBL_MAX, as MaxParallel
      seeds max_values: every res[k] is the maximum of start[0..k], since no
      finite double is below -DBL_MAX. */
  method PrefixMaximumsCorrected(start: array<int>, numThreads: nat, res: array<int>)
    requires numThreads >= 1 && start.Length >= numThreads + 1
    requires res.Length == start.Length && res != start
    modifies res
    ensures forall k :: 0 <= k < start.Length ==> res[k] == MaxFrom(start[..], 0, k + 1, -DBL_MAX)
    ensures (forall j :: 0 <= j < start.Length ==> start[j] >= -DBL_MAX) ==>
              forall k :: 0 <= k < start.Length ==> IsPrefixMax(start[..], k, res[k])
  {
    PrefixMaximumsFrom(start, numThreads, res, -DBL_MAX);
    PrefixMaxOfSeed(start[..], res[..], -DBL_MAX);
  }

  /** m is the largest of s[0..k]: one of them, and none is larger. */
  ghost predicate IsPrefixMax(s: seq<int>, k: nat, m: int)
    requires k < |s|
  {
    (exists j :: 0 <= j <= k && s[j] == m) && forall j :: 0 <= j <= k ==> s[j] <= m
  }

  /** Running maxima from a seed no element is below are prefix maxima. */
  lemma PrefixMaxOfSeed(s: seq<int>, r: seq<int>, seed: int)
    requires |r| == |s|
    requires forall k :: 0 <= k < |s| ==> r[k] == MaxFrom(s, 0, k + 1, seed)
    ensures (forall j :: 0 <= j < |s| ==> s[j] >= seed) ==>
              forall k :: 0 <= k < |s| ==> IsPrefixMax(s, k, r[k])
  {
    if forall j :: 0 <= j < |s| ==> s[j] >= seed {
      forall k | 0 <= k < |s|
        ensures IsPrefixMax(s, k, r[k])
      {
        LargestElement(s, 0, k + 1, seed);
      }
    }
  }

  /** The input that shows the seed of 0: for [-1, -1] on one thread, the
      prefix maxima are -1 and -1, but PrefixMaximums gives 0 and 0. */
  method NegativePrefixAsWritten() returns (r0: int, r1: int)
    ensures r0 == 0 && r1 == 0
  {
    var start := new int[2](_ => -1);
    var res := new int[2];
    PrefixMaximums(start, 1, res);
    assert start[..] == [-1, -1];
    r0, r1 := res[0], res[1];
  }

  /** The same input with the corrected seed gives -1 and -1. */
  method NegativePrefixCorrected() returns (r0: int, r1: int)
    ensures r0 == -1 && r1 == -1
  {
    var start := new int[2](_ => -1);
    var res := new int[2];
    PrefixMaximumsCorrected(start, 1, res);
    assert start[..] == [-1, -1];
    r0, r1 := res[0], res[1];
  }

  /** MaxParallel on [-3, -1, -2] with two threads: -1, since max_values
      starts at -DBL_MAX. */
  method MaxOfNegatives() returns (m: int)
    ensures m == -1
  {
    var start := new int[3];
    start[0], start[1], start[2] := -3, -1, -2;
    m := MaxParallel(start, 2);
    assert start[..] == [-3, -1, -2];
  }
}
