/** The histogram of runMultiThreaded: the flat `size_t` count array `v`
    bumped once per correlation value, at the bin `countMat` names for it, and
    the buffer fills around it. */
module Histogram {
  import opened Arith

  /** 2^64: `v` holds `size_t` counts. */
  const Modulus: int := 0x1_0000_0000_0000_0000

  newtype u64 = x: int | 0 <= x < 0x1_0000_0000_0000_0000

  /** `NITEMS`, the length of `v`, and the outer `flatSize` of the output scan:
      2000 bins per vector element. */
  function NumBins(vectorSize: nat): (m: nat)
    ensures m % 2000 == 0 && m / 2000 == vectorSize
  {
    2000 * vectorSize
  }

  /** Number of entries of idx equal to k. */
  function Occurrences(idx: seq<int>, k: int): (c: nat)
    ensures c == multiset(idx)[k]
    ensures c <= |idx|
  {
    if idx == [] then 0
    else
      assert idx == [idx[0]] + idx[1..];
      (if idx[0] == k then 1 else 0) + Occurrences(idx[1..], k)
  }

  /** The histogram does not depend on the order in which the values arrive,
      so any interleaving of race-free increments gives the same counts. */
  lemma OccurrencesOrderFree(idx: seq<int>, idx': seq<int>, k: int)
    requires multiset(idx) == multiset(idx')
    ensures Occurrences(idx, k) == Occurrences(idx', k)
  {
  }

  /** Counting two parts separately and adding the counts gives the count of
      the whole, so per-thread partial histograms merge by summation. */
  lemma OccurrencesSplit(idx: seq<int>, idx': seq<int>, k: int)
    ensures Occurrences(idx + idx', k) == Occurrences(idx, k) + Occurrences(idx', k)
  {
  }

  /** `countMat[ii] = 1` and `_pearsonCorr[ii] = 1` for ii < batchSize. */
  method FillOnes(a: array<real>, batchSize: nat)
    requires batchSize <= a.Length
    modifies a
    ensures forall ii :: 0 <= ii < batchSize ==> a[ii] == 1.0
    ensures forall ii :: batchSize <= ii < a.Length ==> a[ii] == old(a[ii])
  {
    var ii := 0;
    while ii < batchSize
      invariant 0 <= ii <= batchSize
      invariant forall jj :: 0 <= jj < ii ==> a[jj] == 1.0
      invariant forall jj :: ii <= jj < a.Length ==> a[jj] == old(a[jj])
    {
      a[ii] := 1.0;
      ii := ii + 1;
    }
  }

  /** `x + 1` on a `size_t`: wraps from 2^64 - 1 to 0. */
  function Succ(x: u64): (y: u64)
    ensures y as int == (x as int + 1) % Modulus
  {
    if x as int == Modulus - 1 then 0 else x + 1
  }

  /** A count bumped c times. */
  function BumpedBy(x: u64, c: nat): u64
  {
    if c == 0 then x else Succ(BumpedBy(x, c - 1))
  }

  /** Bumping c times adds c modulo 2^64. */
  lemma {:induction false} BumpedByWraps(x: u64, c: nat)
    ensures BumpedBy(x, c) as int == (x as int + c) % Modulus
  {
    if c > 0 {
      BumpedByWraps(x, c - 1);
      SuccWraps(x as int + c - 1, BumpedBy(x, c - 1));
    }
  }

  /** One `+= 1` adds one modulo 2^64. */
  lemma SuccWraps(t: int, y: u64)
    requires y as int == t % Modulus
    ensures Succ(y) as int == (t + 1) % Modulus
  {
    assert t == t / Modulus * Modulus + y as int;
    if y as int + 1 < Modulus {
      DivModUnique(t + 1, Modulus, t / Modulus, y as int + 1);
    } else {
      DivModUnique(t + 1, Modulus, t / Modulus + 1, 0);
    }
  }

  /** Two successive passes bump a count by the sum of their bumps, so the
      counts after several batches are those of one pass over all their
      values (with OccurrencesSplit). */
  lemma {:induction false} BumpedByAdd(x: u64, a: nat, b: nat)
    ensures BumpedBy(BumpedBy(x, a), b) == BumpedBy(x, a + b)
  {
    if b > 0 {
      BumpedByAdd(x, a, b - 1);
    }
  }

  /** `(ssize_t)x`: conversion of a floating-point value toward zero. */
  function Trunc(x: real): (t: int)
    ensures x >= 0.0 ==> t as real <= x < t as real + 1.0
    ensures x < 0.0 ==> t as real - 1.0 < x <= t as real
  {
    if x >= 0.0 then x.Floor else -((-x).Floor)
  }

  /** The bin indices the histogram loop reads out of a stretch of `countMat`. */
  function BinsOf(s: seq<real>): (bins: seq<int>)
    ensures |bins| == |s|
  {
    if s == [] then [] else BinsOf(s[..|s| - 1]) + [Trunc(s[|s| - 1])]
  }

  /** Value j of s lands in bin Trunc(s[j]). */
  lemma {:induction false} BinsOfAt(s: seq<real>, j: int)
    requires 0 <= j < |s|
    ensures BinsOf(s)[j] == Trunc(s[j])
  {
    if j < |s| - 1 {
      BinsOfAt(s[..|s| - 1], j);
    }
  }

  /** Number of the first j values of s that fall in bin k. */
  function Tally(s: seq<real>, j: nat, k: int): nat
    requires j <= |s|
  {
    Occurrences(BinsOf(s[..j]), k)
  }

  lemma TallyStep(s: seq<real>, j: nat, k: int)
    requires j < |s|
    ensures Tally(s, j + 1, k) == Tally(s, j, k) + if k == Trunc(s[j]) then 1 else 0
  {
    assert s[..j + 1][..j] == s[..j];
    OccurrencesSplit(BinsOf(s[..j]), [Trunc(s[j])], k);
  }

  /** `v[(ssize_t)countMat[j]] += 1` for j < flatSize: each count is bumped once
      per value that falls in its bin, so it grows by that number modulo 2^64
      (BumpedByWraps); bins no value falls in keep their count. */
  method Accumulate(v: array<u64>, countMat: array<real>, flatSize: nat)
    requires flatSize <= countMat.Length
    requires forall j :: 0 <= j < flatSize ==> 0 <= Trunc(countMat[j]) < v.Length
    modifies v
    ensures forall k :: 0 <= k < v.Length ==> v[k] == BumpedBy(old(v[k]), Occurrences(BinsOf(countMat[..flatSize]), k))
    ensures forall k :: 0 <= k < v.Length && k !in BinsOf(countMat[..flatSize]) ==> v[k] == old(v[k])
  {
    ghost var values, start := countMat[..], v[..];
    var j := 0;
    while j < flatSize
      invariant 0 <= j <= flatSize
      invariant forall k :: 0 <= k < v.Length ==> v[k] == BumpedBy(start[k], Tally(values, j, k))
    {
      var ix := Trunc(countMat[j]);
      v[ix] := Succ(v[ix]);
      forall k | 0 <= k < v.Length
        ensures v[k] == BumpedBy(start[k], Tally(values, j + 1, k))
      {
        TallyStep(values, j, k);
      }
      j := j + 1;
    }
    assert values[..flatSize] == countMat[..flatSize];
  }

  /** Clears every count: the initialisation `v` needs before the first batch. */
  method ZeroCounts(v: array<u64>)
    modifies v
    ensures forall k :: 0 <= k < v.Length ==> v[k] == 0
  {
    var ii := 0;
    while ii < v.Length
      invariant 0 <= ii <= v.Length
      invariant forall k :: 0 <= k < ii ==> v[k] == 0
    {
      v[ii] := 0;
      ii := ii + 1;
    }
  }

  /** Sum of the first m counts. */
  function SumBelow(s: seq<u64>, m: nat): int
    requires m <= |s|
  {
    if m == 0 then 0 else SumBelow(s, m - 1) + s[m - 1] as int
  }

  /** Sum over the bins 0..m-1 of the number of values in each. */
  function OccurrencesBelow(idx: seq<int>, m: nat): nat
  {
    if m == 0 then 0 else OccurrencesBelow(idx, m - 1) + Occurrences(idx, m - 1)
  }

  lemma {:induction false} OccurrencesBelowFirst(idx: seq<int>, m: nat)
    requires idx != []
    ensures OccurrencesBelow(idx, m) == (if 0 <= idx[0] < m then 1 else 0) + OccurrencesBelow(idx[1..], m)
  {
    if m > 0 {
      OccurrencesBelowFirst(idx, m - 1);
    }
  }

  /** When every value falls in one of the bins 0..m-1, the bins count each
      value exactly once. */
  lemma {:induction false} OccurrencesBelowAll(idx: seq<int>, m: nat)
    requires forall j :: 0 <= j < |idx| ==> 0 <= idx[j] < m
    ensures OccurrencesBelow(idx, m) == |idx|
  {
    if idx == [] {
      if m > 0 {
        OccurrencesBelowAll(idx, m - 1);
      }
    } else {
      OccurrencesBelowFirst(idx, m);
      OccurrencesBelowAll(idx[1..], m);
    }
  }

  lemma {:induction false} SumBelowPointwise(before: seq<u64>, after: seq<u64>, idx: seq<int>, m: nat)
    requires m <= |before| == |after|
    requires forall k :: 0 <= k < m ==> after[k] as int == before[k] as int + Occurrences(idx, k)
    ensures SumBelow(after, m) == SumBelow(before, m) + OccurrencesBelow(idx, m)
  {
    if m > 0 {
      SumBelowPointwise(before, after, idx, m - 1);
    }
  }

  lemma {:induction false} SumBelowZero(s: seq<u64>, m: nat)
    requires m <= |s| && forall k :: 0 <= k < m ==> s[k] == 0
    ensures SumBelow(s, m) == 0
  {
    if m > 0 {
      SumBelowZero(s, m - 1);
    }
  }

  /** After a pass whose counts do not reach 2^64, the counts have grown by
      exactly flatSize in all. */
  lemma {:induction false} AccumulateTotal(before: seq<u64>, after: seq<u64>, idx: seq<int>)
    requires |before| == |after|
    requires forall j :: 0 <= j < |idx| ==> 0 <= idx[j] < |before|
    requires forall k :: 0 <= k < |before| ==> after[k] == BumpedBy(before[k], Occurrences(idx, k))
    requires forall k :: 0 <= k < |before| ==> before[k] as int + Occurrences(idx, k) < Modulus
    ensures SumBelow(after, |after|) == SumBelow(before, |before|) + |idx|
  {
    forall k | 0 <= k < |before|
      ensures after[k] as int == before[k] as int + Occurrences(idx, k)
    {
      BumpedByWraps(before[k], Occurrences(idx, k));
    }
    SumBelowPointwise(before, after, idx, |before|);
    OccurrencesBelowAll(idx, |before|);
  }

  /** Starting from cleared counts, and with fewer than 2^64 values, every
      count is the number of values in its bin and the counts add up to the
      number of values. */
  lemma {:induction false} FreshHistogram(before: seq<u64>, after: seq<u64>, idx: seq<int>)
    requires |before| == |after|
    requires forall k :: 0 <= k < |before| ==> before[k] == 0
    requires forall j :: 0 <= j < |idx| ==> 0 <= idx[j] < |before|
    requires |idx| < Modulus
    requires forall k :: 0 <= k < |before| ==> after[k] == BumpedBy(before[k], Occurrences(idx, k))
    ensures forall k :: 0 <= k < |after| ==> after[k] as int == Occurrences(idx, k)
    ensures SumBelow(after, |after|) == |idx|
  {
    forall k | 0 <= k < |before|
      ensures after[k] as int == Occurrences(idx, k)
    {
      BumpedByWraps(before[k], Occurrences(idx, k));
    }
    AccumulateTotal(before, after, idx);
    SumBelowZero(before, |before|);
  }

  /** A count array that was never cleared leaks its old contents into the
      histogram: after a pass, bin k reports its leftover count plus the
      number of values in it, and that is the true number only when the
      leftover was 0. */
  lemma UnclearedCountsLeak(leftover: u64, idx: seq<int>, k: int)
    requires leftover as int + Occurrences(idx, k) < Modulus
    ensures BumpedBy(leftover, Occurrences(idx, k)) as int == leftover as int + Occurrences(idx, k)
    ensures BumpedBy(leftover, Occurrences(idx, k)) as int == Occurrences(idx, k) <==> leftover == 0
  {
    BumpedByWraps(leftover, Occurrences(idx, k));
  }
}
