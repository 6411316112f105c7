/** The split of the vectors among the threads of the standardisation region
    of runMultiThreaded: thread tid of nthreads takes the rows
    tid * chunkSize .. min(n, (tid + 1) * chunkSize) - 1. */
module Threads {
  import opened Arith
  import opened Chunks

  /** `chunkSize`: the number of rows per thread, n / nthreads rounded up. */
  function ChunkSize(n: nat, nthreads: int): (c: nat)
    requires nthreads >= 1
    ensures c * nthreads >= n && (c - 1) * nthreads < n
    ensures n > 0 ==> c >= 1
  {
    var q := (n + nthreads - 1) / nthreads;
    assert n + nthreads - 1 == q * nthreads + (n + nthreads - 1) % nthreads;
    assert (q - 1) * nthreads == q * nthreads - nthreads;
    q
  }

  /** The thread whose range holds row. */
  function Owner(n: nat, nthreads: int, row: int): int
    requires nthreads >= 1 && 0 <= row < n
  {
    row / ChunkSize(n, nthreads)
  }

  /** The thread ranges partition the rows: each row 0..n-1 lies in the range
      of exactly one thread 0..nthreads-1, and no thread's range holds any
      other row. */
  lemma ThreadRowsPartition(n: nat, nthreads: int, row: int)
    requires nthreads >= 1
    ensures 0 <= row < n ==>
      0 <= Owner(n, nthreads, row) < nthreads && InChunk(n, ChunkSize(n, nthreads), Owner(n, nthreads, row), row)
    ensures forall tid :: 0 <= tid < nthreads && InChunk(n, ChunkSize(n, nthreads), tid, row) ==>
      0 <= row < n && tid == Owner(n, nthreads, row)
  {
    var c := ChunkSize(n, nthreads);
    if 0 <= row < n {
      ChunkOfRow(n, c, row);
      DivModUnique(row, c, row / c, row % c);
      assert (nthreads - 1) * c + c == nthreads * c;
      MultiplesApart(c, row / c, nthreads - 1);
    }
    forall tid | 0 <= tid < nthreads && InChunk(n, c, tid, row)
      ensures 0 <= row < n && tid == Owner(n, nthreads, row)
    {
      ChunkWithinRows(n, c, tid, row);
      ChunkOfRow(n, c, row);
      ChunksDisjoint(n, c, tid, row / c, row);
    }
  }

  /** The row loops of the standardisation region, run one thread after the
      other. The per-row numerics are not modelled; `visits[row]` counts how
      often row `row` is standardised, and every row is standardised once. */
  method StandardizeRows(n: nat, nthreads: int, visits: array<nat>)
    requires nthreads >= 1 && visits.Length == n
    modifies visits
    ensures forall r :: 0 <= r < n ==> visits[r] == old(visits[r]) + 1
  {
    var chunkSize := ChunkSize(n, nthreads);
    var tid := 0;
    var loRowRange := 0;
    assert Lo(chunkSize, 0) == 0 && Min(n, 0) == 0;
    while tid < nthreads
      invariant 0 <= tid <= nthreads && loRowRange == Lo(chunkSize, tid)
      invariant forall r :: 0 <= r < n ==>
        visits[r] == old(visits[r]) + if r < Min(n, loRowRange) then 1 else 0
    {
      var hiRowRange := Min(n, loRowRange + chunkSize) - 1;
      StandardizeRange(visits, loRowRange, hiRowRange);
      assert Lo(chunkSize, tid + 1) == loRowRange + chunkSize;
      tid := tid + 1;
      loRowRange := loRowRange + chunkSize;
    }
    assert Lo(chunkSize, nthreads) >= n;
  }

  /** The rows lo..hi of one thread: each is standardised once and no other
      row is touched. */
  method StandardizeRange(visits: array<nat>, lo: int, hi: int)
    requires 0 <= lo && hi < visits.Length
    modifies visits
    ensures forall r :: 0 <= r < visits.Length ==>
      visits[r] == old(visits[r]) + if lo <= r <= hi then 1 else 0
  {
    var row := lo;
    while row <= hi
      invariant lo <= row && (row <= hi + 1 || row == lo)
      invariant forall r :: 0 <= r < visits.Length ==>
        visits[r] == old(visits[r]) + if lo <= r < row then 1 else 0
    {
      visits[row] := visits[row] + 1;
      row := row + 1;
    }
  }
}
