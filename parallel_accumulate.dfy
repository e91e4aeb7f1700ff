/** `parallel_accumulate` (code_list_2/concurrency_accumulate.cpp): the range
    [first, last) is cut into `num_threads` contiguous blocks, each block is
    folded into its own slot of `results` by `accumulate_block`, and the slots
    are folded onto `init`.  Threads are run one after another here; the
    hardware thread count is a parameter and the element type is `int`. */
module ParallelAccumulate {

  /** `min_per_thread`: the least number of elements worth a thread. */
  const MinPerThread: nat := 25

  /** `std::accumulate(first, last, init)`: a left fold with `+`. */
  function Accumulate(s: seq<int>, init: int): int
  {
    if s == [] then init else Accumulate(s[..|s| - 1], init) + s[|s| - 1]
  }

  /** Plain sum of a range, the value a fold onto 0 yields. */
  function Sum(s: seq<int>): int
  {
    if s == [] then 0 else Sum(s[..|s| - 1]) + s[|s| - 1]
  }

  /** Folding onto `init` adds `init` to the sum of the range. */
  lemma {:induction false} AccumulateIsInitPlusSum(s: seq<int>, init: int)
    ensures Accumulate(s, init) == init + Sum(s)
  {
    if s != [] {
      AccumulateIsInitPlusSum(s[..|s| - 1], init);
    }
  }

  /** The sum of a range splits at any point into the sums of the two parts. */
  lemma {:induction false} SumSplit(s: seq<int>, k: nat)
    requires k <= |s|
    ensures Sum(s) == Sum(s[..k]) + Sum(s[k..])
  {
    if k < |s| {
      var t := s[..|s| - 1];
      SumSplit(t, k);
      assert t[..k] == s[..k];
      assert s[k..] == t[k..] + [s[|s| - 1]];
      SumAppend(t[k..], s[|s| - 1]);
    } else {
      assert s[..k] == s;
    }
  }

  lemma SumAppend(s: seq<int>, x: int)
    ensures Sum(s + [x]) == Sum(s) + x
  {
    assert (s + [x])[..|s|] == s;
  }

  /** `max_thread`: the number of threads needed so that none gets fewer than
      `MinPerThread` elements, i.e. the length divided by 25 rounded up. */
  function MaxThreads(length: nat): (m: nat)
    ensures m * MinPerThread >= length
    ensures length > 0 ==> m >= 1 && (m - 1) * MinPerThread < length
  {
    (length + MinPerThread - 1) / MinPerThread
  }

  /** `num_threads`: the hardware thread count (2 when it is reported as 0),
      capped by `max_thread`. */
  function NumThreads(length: nat, hardwareThreads: nat): (n: nat)
    requires length > 0
    ensures 1 <= n <= MaxThreads(length)
    ensures n <= (if hardwareThreads != 0 then hardwareThreads else 2)
    ensures n == MaxThreads(length) || n == (if hardwareThreads != 0 then hardwareThreads else 2)
  {
    var wanted := if hardwareThreads != 0 then hardwareThreads else 2;
    var maxThreads := MaxThreads(length);
    if wanted < maxThreads then wanted else maxThreads
  }

  /** `block_size`: every block but the last has this many elements, and the
      last has at least as many and fewer than `block_size + numThreads`. */
  function BlockSize(length: nat, numThreads: nat): (b: nat)
    requires numThreads >= 1
    ensures numThreads * b <= length < numThreads * (b + 1)
  {
    length / numThreads
  }

  /** The bounds [lo, hi) of block `k`: blocks `0 .. numThreads-2` start where
      the previous one ended and have exactly `block_size` elements; the last
      one runs to the end of the range. */
  function Block(length: nat, numThreads: nat, k: nat): (bounds: (nat, nat))
    requires 1 <= numThreads && k < numThreads
    ensures bounds.0 <= bounds.1 <= length
    ensures k < numThreads - 1 ==> bounds.1 - bounds.0 == BlockSize(length, numThreads)
    ensures k == numThreads - 1 ==> bounds.1 == length
    ensures k == 0 ==> bounds.0 == 0
  {
    var size := BlockSize(length, numThreads);
    MulMonotone(k, numThreads - 1, size);
    if k == numThreads - 1 then (k * size, length) else (k * size, (k + 1) * size)
  }

  lemma MulMonotone(a: nat, b: nat, c: nat)
    requires a <= b
    ensures a * c <= b * c
  {
  }

  /** The blocks tile [0, length): each one starts exactly where the one before
      it ended, so there is neither gap nor overlap. */
  lemma BlocksAreContiguous(length: nat, numThreads: nat, k: nat)
    requires 1 <= numThreads && k + 1 < numThreads
    ensures Block(length, numThreads, k).1 == Block(length, numThreads, k + 1).0
  {
  }

  /** `accumulate_block`: fold the block [first, last) of `a` onto
      `results[i]`, leaving every other slot alone. */
  method AccumulateBlock(a: seq<int>, first: nat, last: nat, results: array<int>, i: nat)
    requires first <= last <= |a| && i < results.Length
    modifies results
    ensures results[..] == old(results[..])[i := Accumulate(a[first..last], old(results[i]))]
  {
    results[i] := Accumulate(a[first..last], results[i]);
  }

  /** One more block folded: the slots up to `i` sum to the range up to `hi`. */
  lemma {:induction false} ExtendPrefix(results: seq<int>, a: seq<int>, i: nat, lo: nat, hi: nat)
    requires i < |results| && lo <= hi <= |a|
    requires Sum(results[..i]) == Sum(a[..lo]) && results[i] == Sum(a[lo..hi])
    ensures Sum(results[..i + 1]) == Sum(a[..hi])
  {
    assert results[..i + 1] == results[..i] + [results[i]];
    SumAppend(results[..i], results[i]);
    SumSplit(a[..hi], lo);
    assert a[..hi][..lo] == a[..lo];
    assert a[..hi][lo..] == a[lo..hi];
  }

  /** `parallel_accumulate` on a range of integers: the result is `init` plus
      the sum of the whole range, whatever the hardware thread count. */
  method ParallelAccumulate(a: seq<int>, init: int, hardwareThreads: nat) returns (r: int)
    ensures r == init + Sum(a)
  {
    var length := |a|;
    if length == 0 {
      return init;
    }
    var numThreads := NumThreads(length, hardwareThreads);
    var blockSize := BlockSize(length, numThreads);
    var results := new int[numThreads](_ => 0);
    var blockStart := 0;
    var i := 0;
    while i < numThreads - 1
      invariant 0 <= i <= numThreads - 1
      invariant blockStart == Block(length, numThreads, i).0
      invariant Sum(results[..i]) == Sum(a[..blockStart])
      invariant forall j :: i <= j < numThreads ==> results[j] == 0
    {
      BlocksAreContiguous(length, numThreads, i);
      var blockEnd := blockStart + blockSize;
      AccumulateBlock(a, blockStart, blockEnd, results, i);
      AccumulateIsInitPlusSum(a[blockStart..blockEnd], 0);
      ExtendPrefix(results[..], a, i, blockStart, blockEnd);
      blockStart := blockEnd;
      i := i + 1;
    }
    assert results[numThreads - 1] == 0;
    AccumulateBlock(a, blockStart, length, results, numThreads - 1);
    AccumulateIsInitPlusSum(a[blockStart..length], 0);
    ExtendPrefix(results[..], a, numThreads - 1, blockStart, length);
    assert results[..] == results[..numThreads];
    assert a[..length] == a;
    r := Accumulate(results[..], init);
    AccumulateIsInitPlusSum(results[..], init);
  }
}
