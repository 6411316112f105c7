/** The batch range table of runMultiThreaded (`_startVec`, `_endVec`), the
    row counts `mSize` it yields, and the row-block table the batch loop
    evidently intends. */
module Batches {
  import opened Arith
  import opened Chunks

  /** `desiredBatch`: the most rows one batch is meant to correlate at once. */
  const DesiredBatch: nat := 2096

  /** `numBatches`: n / desiredBatch rounded up (the source divides in double
      precision and takes the ceiling, which is exact for every int n). */
  function NumBatches(n: nat): (nb: nat)
    ensures nb * DesiredBatch >= n
    ensures nb > 0 ==> (nb - 1) * DesiredBatch < n
  {
    (n + DesiredBatch - 1) / DesiredBatch
  }

  /** `batchSize`: the element count of `_pearsonCorr`, `squared` and `countMat`. */
  function BatchSize(n: nat): (b: nat)
    ensures b % DesiredBatch == 0 && b / DesiredBatch == n
  {
    n * DesiredBatch
  }

  /** `_endVec[xx]` as the table loop computes it. */
  function BatchEnd(n: int, xx: int): (e: int)
    ensures e <= n - 1 && e <= xx + DesiredBatch
    ensures e == n - 1 || e == xx + DesiredBatch
  {
    if xx + DesiredBatch >= n then n - 1 else xx + DesiredBatch
  }

  /** `mSize` of batch xx: the number of rows handed to the multiply. */
  function BatchRows(n: int, xx: int): (m: int)
    ensures m <= DesiredBatch
    ensures m == DesiredBatch || xx + m == n - 1
    ensures 0 <= m <==> xx <= n - 1
  {
    BatchEnd(n, xx) - xx
  }

  /** The table loop as written: it runs xx = 0 .. numBatches, so it fills
      numBatches + 1 slots of each array. */
  method BuildBatchTable(n: nat, numBatches: nat, startVec: array<int>, endVec: array<int>)
    requires startVec != endVec
    requires numBatches < startVec.Length && numBatches < endVec.Length
    modifies startVec, endVec
    ensures forall xx :: 0 <= xx <= numBatches ==> startVec[xx] == xx && endVec[xx] == BatchEnd(n, xx)
    ensures forall xx :: numBatches < xx < startVec.Length ==> startVec[xx] == old(startVec[xx])
    ensures forall xx :: numBatches < xx < endVec.Length ==> endVec[xx] == old(endVec[xx])
  {
    var xx := 0;
    while xx <= numBatches
      invariant 0 <= xx <= numBatches + 1
      invariant forall y :: 0 <= y < xx ==> startVec[y] == y && endVec[y] == BatchEnd(n, y)
      invariant forall y :: xx <= y < startVec.Length ==> startVec[y] == old(startVec[y])
      invariant forall y :: xx <= y < endVec.Length ==> endVec[y] == old(endVec[y])
    {
      startVec[xx] := xx;
      if xx + DesiredBatch >= n {
        endVec[xx] := n - 1;
      } else {
        endVec[xx] := xx + DesiredBatch;
      }
      xx := xx + 1;
    }
  }

  /** A batch that starts at or before the last vector has between 0 and
      desiredBatch rows, so its mSize * n results fit in the batchSize buffers. */
  lemma BatchRowsBound(n: nat, xx: int)
    requires 0 <= xx <= n - 1
    ensures 0 <= BatchRows(n, xx) <= DesiredBatch
    ensures BatchRows(n, xx) * n <= BatchSize(n)
  {
    MulMono(BatchRows(n, xx), DesiredBatch, n);
  }

  /** With two or more vectors every slot the table loop fills starts at or
      before the last vector, so every batch of the table has mSize >= 0. */
  lemma TableSlotsWithinVectors(n: nat, xx: int)
    requires n >= 2 && 0 <= xx <= NumBatches(n)
    ensures xx <= n - 1
    ensures 0 <= BatchRows(n, xx) <= DesiredBatch
  {
    BatchRowsBound(n, xx);
  }

  /** With fewer than two vectors the last slot of the table gets mSize = -1. */
  lemma ShortInputNegativeBatch(n: nat)
    requires n <= 1
    ensures BatchRows(n, NumBatches(n)) == -1
  {
    assert NumBatches(n) == n;
  }

  /** Rows handed to the multiply by the batches 0..k-1 of the as-written table. */
  function RowsAsWritten(n: int, k: nat): int
  {
    if k == 0 then 0 else RowsAsWritten(n, k - 1) + BatchRows(n, k - 1)
  }

  /** Batch xx of the as-written table multiplies rows xx .. xx + mSize - 1, and
      these never include the last vector n - 1. */
  lemma AsWrittenSkipsLastVector(n: int, xx: int, row: int)
    requires xx <= row < xx + BatchRows(n, xx)
    ensures row < n - 1
  {
  }

  /** For two vectors the as-written table hands one row to the multiply, so
      the histogram receives 2 values instead of the 2 * 2 pairs. */
  lemma TwoVectorsAsWritten()
    ensures NumBatches(2) == 1
    ensures RowsAsWritten(2, NumBatches(2) + 1) * 2 == 2
  {
    assert BatchRows(2, 0) == 1 && BatchRows(2, 1) == 0;
  }

  /** The table the batch loop evidently intends: batch xx is the row block
      xx * desiredBatch .. min(n, (xx + 1) * desiredBatch) - 1, `_startVec`
      holds its first row and `_endVec` one past its last, and only the
      numBatches allocated slots are written. */
  method BuildBlockTable(n: nat, numBatches: nat, startVec: array<int>, endVec: array<int>)
    requires startVec != endVec
    requires numBatches <= startVec.Length && numBatches <= endVec.Length
    modifies startVec, endVec
    ensures forall xx :: 0 <= xx < numBatches ==>
      startVec[xx] == Lo(DesiredBatch, xx) && endVec[xx] == Hi(n, DesiredBatch, xx) + 1
    ensures forall xx :: numBatches <= xx < startVec.Length ==> startVec[xx] == old(startVec[xx])
    ensures forall xx :: numBatches <= xx < endVec.Length ==> endVec[xx] == old(endVec[xx])
  {
    var xx := 0;
    while xx < numBatches
      invariant 0 <= xx <= numBatches
      invariant forall y :: 0 <= y < xx ==>
        startVec[y] == Lo(DesiredBatch, y) && endVec[y] == Hi(n, DesiredBatch, y) + 1
      invariant forall y :: xx <= y < startVec.Length ==> startVec[y] == old(startVec[y])
      invariant forall y :: xx <= y < endVec.Length ==> endVec[y] == old(endVec[y])
    {
      startVec[xx] := xx * DesiredBatch;
      endVec[xx] := Min(n, (xx + 1) * DesiredBatch);
      xx := xx + 1;
    }
  }

  /** Each intended block holds between 1 and desiredBatch rows, and its
      `_endVec - _startVec` is that row count. */
  lemma BlockRowsBound(n: nat, xx: int)
    requires 0 <= xx < NumBatches(n)
    ensures Hi(n, DesiredBatch, xx) + 1 - Lo(DesiredBatch, xx) == Rows(n, DesiredBatch, xx)
    ensures 1 <= Rows(n, DesiredBatch, xx) <= DesiredBatch
    ensures Rows(n, DesiredBatch, xx) * n <= BatchSize(n)
  {
    MulMono(xx, NumBatches(n) - 1, DesiredBatch);
    ChunkRowsBound(n, DesiredBatch, xx);
    MulMono(Rows(n, DesiredBatch, xx), DesiredBatch, n);
  }

  /** The intended blocks partition the vectors: each row 0..n-1 lies in exactly
      one block 0..numBatches-1, and the blocks hold n rows in all, so the
      histogram receives n * n values. */
  lemma BlocksPartitionRows(n: nat, row: int)
    ensures RowsBefore(n, DesiredBatch, NumBatches(n)) == n
    ensures 0 <= row < n ==>
      0 <= row / DesiredBatch < NumBatches(n) && InChunk(n, DesiredBatch, row / DesiredBatch, row)
    ensures forall xx :: 0 <= xx < NumBatches(n) && InChunk(n, DesiredBatch, xx, row) ==>
      0 <= row < n && xx == row / DesiredBatch
  {
    ChunkPrefix(n, DesiredBatch, NumBatches(n));
    if 0 <= row < n {
      ChunkOfRow(n, DesiredBatch, row);
    }
    forall xx | 0 <= xx < NumBatches(n) && InChunk(n, DesiredBatch, xx, row)
      ensures 0 <= row < n && xx == row / DesiredBatch
    {
      ChunkWithinRows(n, DesiredBatch, xx, row);
      ChunkOfRow(n, DesiredBatch, row);
      ChunksDisjoint(n, DesiredBatch, xx, row / DesiredBatch, row);
    }
  }
}
