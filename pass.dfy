/** One pass of the batch loop of runMultiThreaded over the `batchSize`
    buffers: reset `_pearsonCorr` to ones, let the multiply write mSize * n
    products into it, take absolute values, turn each value into a bin index
    accumulated in `countMat`, and bump the counts of `v`. The multiply itself
    is not modelled: its products are an input. Arithmetic on the buffers is
    exact real arithmetic (no rounding). */
module Pass {
  import opened Arith
  import opened Batches
  import opened Histogram

  /** `abs` of a correlation value. */
  function Abs(x: real): (r: real)
    ensures r >= 0.0 && (r == x || r == -x)
  {
    if x < 0.0 then -x else x
  }

  /** `c * vecSize + prev` with vecSize = vectorSize + 1. */
  function Scaled(c: real, vectorSize: nat, prev: real): (r: real)
    ensures c >= 0.0 ==> r >= prev + c
    ensures r == prev <==> c == 0.0
  {
    c * (vectorSize + 1) as real + prev
  }

  /** The value `countMat[j]` holds after the index step for a product p, when
      it held prev before: entries never shrink, and they stay put only for a
      zero product. */
  function IndexValue(p: real, vectorSize: nat, prev: real): (r: real)
    ensures r >= prev + Abs(p)
    ensures r == prev <==> p == 0.0
  {
    Scaled(Abs(p), vectorSize, prev)
  }

  /** Stand-in for the multiply: it leaves its mSize * n products in the first
      entries of `_pearsonCorr` and nothing else. */
  method StoreProducts(corr: array<real>, products: seq<real>)
    requires |products| <= corr.Length
    modifies corr
    ensures corr[..|products|] == products
    ensures forall j :: |products| <= j < corr.Length ==> corr[j] == old(corr[j])
  {
    var j := 0;
    while j < |products|
      invariant 0 <= j <= |products|
      invariant corr[..j] == products[..j]
      invariant forall i :: j <= i < corr.Length ==> corr[i] == old(corr[i])
    {
      corr[j] := products[j];
      j := j + 1;
    }
  }

  /** `_pearsonCorr[j] = abs(_pearsonCorr[j])` for j < flatSize. */
  method AbsPrefix(corr: array<real>, flatSize: nat)
    requires flatSize <= corr.Length
    modifies corr
    ensures forall j :: 0 <= j < flatSize ==> corr[j] == Abs(old(corr[j]))
    ensures forall j :: flatSize <= j < corr.Length ==> corr[j] == old(corr[j])
  {
    var j := 0;
    while j < flatSize
      invariant 0 <= j <= flatSize
      invariant forall i :: 0 <= i < j ==> corr[i] == Abs(old(corr[i]))
      invariant forall i :: j <= i < corr.Length ==> corr[i] == old(corr[i])
    {
      corr[j] := Abs(corr[j]);
      j := j + 1;
    }
  }

  /** `countMat[j] = _pearsonCorr[j] * vecSize + countMat[j]` for j < flatSize:
      each entry grows by the scaled value, so entries keep what earlier
      batches left in them. */
  method IndexPrefix(countMat: array<real>, corr: array<real>, flatSize: nat, vectorSize: nat)
    requires countMat != corr
    requires flatSize <= countMat.Length && flatSize <= corr.Length
    modifies countMat
    ensures forall j :: 0 <= j < flatSize ==> countMat[j] == Scaled(corr[j], vectorSize, old(countMat[j]))
    ensures forall j :: flatSize <= j < countMat.Length ==> countMat[j] == old(countMat[j])
  {
    var vecSize := vectorSize + 1;
    var j := 0;
    while j < flatSize
      invariant 0 <= j <= flatSize
      invariant forall i :: 0 <= i < j ==> countMat[i] == Scaled(corr[i], vectorSize, old(countMat[i]))
      invariant forall i :: j <= i < countMat.Length ==> countMat[i] == old(countMat[i])
    {
      countMat[j] := corr[j] * vecSize as real + countMat[j];
      j := j + 1;
    }
  }

  /** One batch of mSize rows against all n vectors. Afterwards the first
      mSize * n entries of `_pearsonCorr` hold the absolute products and the
      rest of the buffer holds ones; `countMat` has grown by the scaled
      absolute products there and is unchanged elsewhere; and every count of
      `v` has been bumped once per entry whose truncated index is its bin.
      Every index must name a bin of `v`. The source's own steps do not keep
      to this: a correlation of 1 already breaks it in the first batch
      (TopProductPastLastBin), and since `countMat` is never reset, an entry
      that took a product of at least 1000 in an earlier batch breaks it for
      any product of at least 1000 (ReusedEntryPastLastBin). */
  method ProcessBatch(v: array<u64>, corr: array<real>, countMat: array<real>,
                      n: nat, vectorSize: nat, mSize: int, products: seq<real>)
    requires corr != countMat
    requires corr.Length == BatchSize(n) && countMat.Length == BatchSize(n)
    requires 0 <= mSize <= DesiredBatch && |products| == mSize * n
    requires forall j :: 0 <= j < |products| ==>
      0 <= Trunc(IndexValue(products[j], vectorSize, countMat[j])) < v.Length
    modifies v, corr, countMat
    ensures forall j :: 0 <= j < |products| ==>
      corr[j] == Abs(products[j]) && countMat[j] == IndexValue(products[j], vectorSize, old(countMat[j]))
    ensures forall j :: |products| <= j < BatchSize(n) ==> corr[j] == 1.0 && countMat[j] == old(countMat[j])
    ensures forall k :: 0 <= k < v.Length ==>
      v[k] == BumpedBy(old(v[k]), Occurrences(BinsOf(countMat[..|products|]), k))
  {
    MulMono(mSize, DesiredBatch, n);
    ghost var before := countMat[..];
    var batchSize := BatchSize(n);
    var flatSize := mSize * n;
    FillOnes(corr, batchSize);
    StoreProducts(corr, products);
    assert forall j :: 0 <= j < flatSize ==> corr[j] == products[j] by {
      forall j | 0 <= j < flatSize ensures corr[j] == products[j] {
        assert corr[..flatSize][j] == corr[j];
      }
    }
    AbsPrefix(corr, flatSize);
    assert forall j :: 0 <= j < flatSize ==> corr[j] == Abs(products[j]);
    IndexPrefix(countMat, corr, flatSize, vectorSize);
    assert forall j :: 0 <= j < flatSize ==> countMat[j] == IndexValue(products[j], vectorSize, before[j]);
    Accumulate(v, countMat, flatSize);
  }

  /** The multiply scales by 1000 and adds 1000 times the ones left in the
      buffer, so a correlation of 1 arrives as the product 2000. In the first
      batch, where `countMat` still holds 1, its index is
      2000 * (vectorSize + 1) + 1, past the last of the NITEMS bins: a batch
      holding it does not meet ProcessBatch's precondition. */
  lemma TopProductPastLastBin(vectorSize: nat)
    ensures Trunc(IndexValue(2000.0, vectorSize, 1.0)) == 2000 * (vectorSize + 1) + 1
    ensures Trunc(IndexValue(2000.0, vectorSize, 1.0)) >= NumBins(vectorSize)
  {
  }

  /** `countMat` is filled with ones once, before the batch loop, and only
      grows afterwards. An entry that took a product q of at least 1000
      (correlation at least 0) in one batch indexes past the NITEMS bins when
      it takes a product p of at least 1000 (correlation at least 0) in the
      next. */
  lemma ReusedEntryPastLastBin(vectorSize: nat, q: real, p: real)
    requires q >= 1000.0 && p >= 1000.0
    ensures Trunc(IndexValue(p, vectorSize, IndexValue(q, vectorSize, 1.0))) >= NumBins(vectorSize)
  {
    var k := (vectorSize + 1) as real;
    assert Abs(q) * k >= 1000.0 * k && Abs(p) * k >= 1000.0 * k;
    var first := IndexValue(q, vectorSize, 1.0);
    assert first == Abs(q) * k + 1.0;
    var x := IndexValue(p, vectorSize, first);
    assert x == Abs(p) * k + first;
    assert x >= 2000.0 * k + 1.0;
    assert x >= (2000 * (vectorSize + 1) + 1) as real;
  }
}
