/** Contiguous chunking of the rows 0..n-1: chunk k holds the rows
    k * c .. min(n, (k + 1) * c) - 1 (both ends inclusive, as the source writes
    its row ranges). Both the per-thread row split and the intended row-block
    split of the batch loop are instances. */
module Chunks {
  import opened Arith

  function Min(a: int, b: int): int { if a <= b then a else b }

  /** First row of chunk k: the k-th multiple of the chunk size. */
  function Lo(c: int, k: int): (r: int)
    ensures c > 0 ==> r % c == 0 && r / c == k
  {
    if c > 0 then DivModUnique(k * c, c, k, 0); k * c else k * c
  }

  /** Last row of chunk k; below Lo when the chunk is empty. The chunk ends
      just before the next one starts, or at the last row n - 1, whichever
      comes first. */
  function Hi(n: int, c: int, k: int): (r: int)
    ensures r + 1 <= n && r + 1 <= (k + 1) * c
    ensures r + 1 == n || r + 1 == (k + 1) * c
  {
    Min(n, (k + 1) * c) - 1
  }

  predicate InChunk(n: int, c: int, k: int, row: int)
  {
    Lo(c, k) <= row <= Hi(n, c, k)
  }

  /** Number of rows in chunk k. */
  function Rows(n: int, c: int, k: int): int
  {
    if Hi(n, c, k) < Lo(c, k) then 0 else Hi(n, c, k) - Lo(c, k) + 1
  }

  /** No row lies in two chunks. */
  lemma ChunksDisjoint(n: int, c: nat, k: int, k': int, row: int)
    requires InChunk(n, c, k, row) && InChunk(n, c, k', row)
    ensures k == k'
  {
    if k < k' {
      MulStep(k, k', c);
      assert false;
    } else if k' < k {
      MulStep(k', k, c);
      assert false;
    }
  }

  /** Every row 0..n-1 lies in chunk row / c. */
  lemma ChunkOfRow(n: int, c: nat, row: int)
    requires c > 0 && 0 <= row < n
    ensures 0 <= row / c && InChunk(n, c, row / c, row)
  {
    DivModUnique(row, c, row / c, row % c);
    assert (row / c + 1) * c == row / c * c + c;
  }

  /** Chunks with a non-negative number hold only rows 0..n-1. */
  lemma ChunkWithinRows(n: int, c: nat, k: int, row: int)
    requires 0 <= k && InChunk(n, c, k, row)
    ensures 0 <= row < n
  {
    MulMono(0, k, c);
  }

  /** A chunk holds at most c rows, holds Hi - Lo + 1 of them when not empty,
      and is empty exactly when it starts at or past row n. */
  lemma ChunkRowsBound(n: int, c: nat, k: int)
    requires 0 <= k
    ensures 0 <= Rows(n, c, k) <= c
    ensures Rows(n, c, k) == 0 <==> Lo(c, k) >= n || c == 0
  {
    assert (k + 1) * c == k * c + c;
  }

  /** The first k chunks together hold exactly the rows below min(n, k * c). */
  lemma {:induction false} ChunkPrefix(n: nat, c: nat, k: nat)
    ensures RowsBefore(n, c, k) == Min(n, k * c)
  {
    if k > 0 {
      ChunkPrefix(n, c, k - 1);
      var lo := (k - 1) * c;
      assert k * c == lo + c;
      MulMono(0, k - 1, c);
      assert Lo(c, k - 1) == lo && Hi(n, c, k - 1) == Min(n, lo + c) - 1;
    }
  }

  /** Rows held by chunks 0..k-1. */
  function RowsBefore(n: int, c: int, k: nat): int
  {
    if k == 0 then 0 else RowsBefore(n, c, k - 1) + Rows(n, c, k - 1)
  }
}
