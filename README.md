# PearsonRMKL bookkeeping, modelled in Dafny

`PearsonRMKL` computes all-pairs Pearson correlations between `numVectors`
vectors of `vectorSize` elements. It standardises every vector, multiplies
row blocks of the vector matrix with the whole matrix, and histograms the
correlations into a count array that it writes out as a table. The floating-point
kernel (standardisation and the matrix multiply) is not modelled. This project
models the integer and buffer bookkeeping around that kernel:

- **Arith** (`arith.dfy`). Facts about products, quotients and multiples that
  the other modules' proofs share.
- **Layout** (`layout.dfy`). The padded vector layout: the stride rounded up to
  a whole 64-byte line, and where element j of vector i sits in the flat buffer.
- **Store** (`store.dfy`). The `PearsonRMKL` object (a class with the source's
  vector buffer and its size, thread and process fields), its constructor and
  `generateRandomData`. The generator's stream is a
  parameter.
- **Chunks** and **Threads** (`chunks.dfy`, `threads.dfy`). The contiguous row
  chunks of the standardisation region, one per thread, and the row loops over
  them. The loops are run one thread after the other.
- **Batches** (`batches.dfy`). The `_startVec`/`_endVec` batch table as
  written, the `mSize` and `flatSize` bounds it gives, and the row-block table
  the batch loop evidently intends.
- **Histogram** (`histogram.dfy`). The `size_t` count array `v` with
  wrap-around, the `v[(ssize_t)countMat[j]] += 1` loop, and the buffer fills.
- **Pass** (`pass.dfy`). One pass of the batch loop over the `batchSize`
  buffers: ones fill, products, `abs`, index step, histogram. The products of
  the multiply are an input.
- **Table** (`table.dfy`). The scan that emits one `level fraction count` line
  per bin whose count, read as a 32-bit `int`, is not zero.

## Model

| member | source | states |
|---|---|---|
| Layout.Alignment | include/PearsonRMKL_V1.hpp:168 | the alignment unit is positive and holds exactly 64 bytes of elements |
| Layout.AlignedStride | include/PearsonRMKL_V1.hpp:168-171 | the stride is a multiple of the alignment unit, at least the vector size and less than size + unit |
| Layout.AlignedStrideLeast | include/PearsonRMKL_V1.hpp:171 | no multiple of the unit that holds the vector is smaller than the stride |
| Layout.AlignedStrideIdempotent | include/PearsonRMKL_V1.hpp:171 | aligning a size that is already a multiple of the unit returns it unchanged |
| Layout.AlignedStrideTwice | include/PearsonRMKL_V1.hpp:171 | aligning twice equals aligning once |
| Layout.Offset | include/PearsonRMKL_V1.hpp:206-208 | position i * stride + j of element j < stride of vector i gives back i by `/` and j by `%`; OffsetInBounds and OffsetInjective state the rest |
| Layout.OffsetInBounds | include/PearsonRMKL_V1.hpp:206-208 | element j < size of vector i < numVectors lies in the buffer, is a logical slot, and i and j are recovered by / and % |
| Layout.OffsetInjective | include/PearsonRMKL_V1.hpp:206-208 | two (vector, element) pairs with the same position are the same pair |
| Layout.VectorRangesDisjoint | include/PearsonRMKL_V1.hpp:183-184 | vector ranges lie inside the numVectors * stride buffer, in order, without overlap |
| Layout.LogicalSlotDecompose | include/PearsonRMKL_V1.hpp:205-209 | every logical position is element p % stride of an existing vector p / stride |
| Layout.VectorStartAligned | include/PearsonRMKL_V1.hpp:113-116 | every vector starts on a 64-byte boundary for float and for double |
| Store.PearsonRMKL.constructor | include/PearsonRMKL_V1.hpp:166-190 | stores the sizes and thread and process fields, sets the aligned stride, and allocates numVectors * stride elements |
| Store.PearsonRMKL.GenerateRandomData | include/PearsonRMKL_V1.hpp:203-211 | each buffer position afterwards holds the Generated value: logical slots get stream value i * size + j, padding keeps its value |
| Store.GenerateVectors | include/PearsonRMKL_V1.hpp:205-210 | the nested fill loop over all vectors meets the same specification over a plain buffer |
| Store.GenerateVector | include/PearsonRMKL_V1.hpp:207-209 | the inner loop copies size stream values into one vector and changes no other position |
| Store.GeneratedLogical | include/PearsonRMKL_V1.hpp:205-209 | element j of vector i receives stream value i * size + j, and both positions are in range |
| Store.GeneratedPadding | include/PearsonRMKL_V1.hpp:205-209 | a position that is not a logical slot is left as it was |
| Chunks.Lo | include/PearsonRMKL_V1.hpp:403 | `loRowRange` of chunk k is a multiple of the chunk size that divides back to k |
| Chunks.Hi | include/PearsonRMKL_V1.hpp:404 | `hiRowRange` + 1 is at most n and at most (k + 1) * chunkSize, and equals one of them; ChunkRowsBound and ChunkPrefix state the rows this gives |
| Chunks.ChunksDisjoint | include/PearsonRMKL_V1.hpp:402-404 | no row lies in two chunks |
| Chunks.ChunkOfRow | include/PearsonRMKL_V1.hpp:402-404 | every row 0..n-1 lies in chunk row / c |
| Chunks.ChunkWithinRows | include/PearsonRMKL_V1.hpp:403-404 | chunks hold only rows 0..n-1 |
| Chunks.ChunkRowsBound | include/PearsonRMKL_V1.hpp:403-404 | a chunk holds at most c rows, and is empty exactly when it starts at or past n |
| Chunks.ChunkPrefix | include/PearsonRMKL_V1.hpp:402-404 | the first k chunks hold exactly min(n, k * c) rows |
| Threads.ChunkSize | include/PearsonRMKL_V1.hpp:402 | chunkSize * nthreads covers n, and one row fewer per thread would not |
| Threads.ThreadRowsPartition | include/PearsonRMKL_V1.hpp:402-404 | each row lies in the range of exactly one thread, and a thread's range holds only rows 0..n-1 |
| Threads.StandardizeRows | include/PearsonRMKL_V1.hpp:386-436 | over all threads, every row is standardised exactly once |
| Threads.StandardizeRange | include/PearsonRMKL_V1.hpp:407-408 | one thread's loop visits rows lo..hi once each and no other row |
| Batches.NumBatches | include/PearsonRMKL_V1.hpp:307-308 | numBatches batches of desiredBatch rows cover n, and one batch fewer would not |
| Batches.BatchSize | include/PearsonRMKL_V1.hpp:336 | batchSize is n blocks of desiredBatch elements: a multiple of 2096 that divides back to n |
| Batches.BatchEnd | include/PearsonRMKL_V1.hpp:328-332 | `_endVec[xx]` is the smaller of n - 1 and xx + 2096: at most both, and equal to one of them |
| Batches.BatchRows | include/PearsonRMKL_V1.hpp:463 | mSize is at most 2096, is 2096 unless the batch reaches vector n - 1, and is non-negative exactly when xx <= n - 1; BatchRowsBound and ShortInputNegativeBatch state its bounds in the table |
| Batches.BuildBatchTable | include/PearsonRMKL_V1.hpp:326-333 | as written: slots 0..numBatches (numBatches + 1 of them) get start xx and end xx + desiredBatch, or n - 1 once that reaches n; later slots are unchanged |
| Batches.BatchRowsBound | include/PearsonRMKL_V1.hpp:463-484 | a batch starting at or before the last vector has 0..desiredBatch rows, so mSize * n fits in batchSize |
| Batches.TableSlotsWithinVectors | include/PearsonRMKL_V1.hpp:326-333 | with n >= 2, every slot the table loop fills has 0 <= mSize <= desiredBatch |
| Batches.ShortInputNegativeBatch | include/PearsonRMKL_V1.hpp:326-333 | with n <= 1, the last slot gets mSize = -1 |
| Batches.AsWrittenSkipsLastVector | include/PearsonRMKL_V1.hpp:463-478 | rows handed to the multiply by the as-written table never include vector n - 1 |
| Batches.TwoVectorsAsWritten | include/PearsonRMKL_V1.hpp:460-484 | with two vectors, the as-written batches give 2 correlation values instead of 4 |
| Batches.BuildBlockTable | include/PearsonRMKL_V1.hpp:326-333 | corrected table: only the numBatches allocated slots are written, and each holds the bounds of row block xx |
| Batches.BlockRowsBound | include/PearsonRMKL_V1.hpp:336-338 | each corrected block has 1..desiredBatch rows, its end minus start is that count, and its values fit in batchSize |
| Batches.BlocksPartitionRows | include/PearsonRMKL_V1.hpp:307-308 | the corrected blocks hold n rows in all, and each row lies in exactly one block |
| Histogram.NumBins | include/PearsonRMKL_V1.hpp:372 | NITEMS holds 2000 levels for each of the vectorSize positions: a multiple of 2000 that divides back to vectorSize |
| Histogram.Occurrences | include/PearsonRMKL_V1.hpp:511-513 | the number of values in bin k is the multiplicity of k in the index sequence |
| Histogram.OccurrencesOrderFree | include/PearsonRMKL_V1.hpp:509-513 | counts do not depend on the order in which the values arrive |
| Histogram.OccurrencesSplit | include/PearsonRMKL_V1.hpp:460-513 | counting two parts and adding gives the count of the whole |
| Histogram.FillOnes | include/PearsonRMKL_V1.hpp:443-446 | the first batchSize entries become 1 and the rest are unchanged (also lines 471-474) |
| Histogram.Succ | include/PearsonRMKL_V1.hpp:512 | one `+= 1` on a `size_t` count adds 1 modulo 2^64 |
| Histogram.BumpedByWraps | include/PearsonRMKL_V1.hpp:373-374 | bumping a size_t count c times adds c modulo 2^64 |
| Histogram.SuccWraps | include/PearsonRMKL_V1.hpp:512 | one += 1 on a size_t adds one modulo 2^64 |
| Histogram.BumpedByAdd | include/PearsonRMKL_V1.hpp:460-513 | successive passes add their bumps |
| Histogram.Trunc | include/PearsonRMKL_V1.hpp:512 | `(ssize_t)` truncates toward zero: the result is within 1 of x, on the side of x nearer 0 |
| Histogram.BinsOf | include/PearsonRMKL_V1.hpp:511-512 | one bin index per countMat entry read; BinsOfAt gives index j as the truncation of countMat[j] |
| Histogram.BinsOfAt | include/PearsonRMKL_V1.hpp:512 | value j lands in the bin given by truncating countMat[j] toward zero |
| Histogram.Accumulate | include/PearsonRMKL_V1.hpp:509-513 | each count grows by the number of values in its bin (mod 2^64), and bins no value names are unchanged |
| Histogram.ZeroCounts | include/PearsonRMKL_V1.hpp:372-378 | corrected: every count of v is 0 before the first batch |
| Histogram.AccumulateTotal | include/PearsonRMKL_V1.hpp:511-513 | without wrap-around, the counts grow by exactly flatSize in total |
| Histogram.FreshHistogram | include/PearsonRMKL_V1.hpp:372-378 | from zeroed counts, each count equals the number of values in its bin and the counts sum to flatSize |
| Histogram.UnclearedCountsLeak | include/PearsonRMKL_V1.hpp:372-378 | as written: after a pass a bin reports its leftover count plus the number of values in it, which is the true number only when the leftover was 0 |
| Pass.Abs | include/PearsonRMKL_V1.hpp:493 | abs returns x or -x, and never a negative value |
| Pass.Scaled | include/PearsonRMKL_V1.hpp:502-504 | scaling a non-negative value by vecSize grows the entry by at least that value, and leaves it unchanged exactly when the value is 0 |
| Pass.IndexValue | include/PearsonRMKL_V1.hpp:492-504 | after `abs` and the index step an entry grows by at least the absolute product, and stays unchanged exactly when the product is 0 |
| Pass.StoreProducts | include/PearsonRMKL_V1.hpp:478 | the multiply leaves its mSize * n products in the first entries and nothing else |
| Pass.AbsPrefix | include/PearsonRMKL_V1.hpp:492-494 | the first flatSize entries become their absolute values and the rest are unchanged |
| Pass.IndexPrefix | include/PearsonRMKL_V1.hpp:502-504 | the first flatSize entries of countMat grow by corr * (vectorSize + 1) and the rest are unchanged |
| Pass.ProcessBatch | include/PearsonRMKL_V1.hpp:462-513 | after one batch: corr holds the absolute products and then ones; countMat has grown by the scaled products; v has been bumped once per index |
| Pass.TopProductPastLastBin | include/PearsonRMKL_V1.hpp:478-503 | a product of 2000 (correlation 1) in the first batch indexes bin 2000 * (vectorSize + 1) + 1, past the NITEMS bins |
| Pass.ReusedEntryPastLastBin | include/PearsonRMKL_V1.hpp:443-512 | an entry of countMat that took a product of at least 1000 (correlation at least 0) in one batch indexes past the NITEMS bins for any product of at least 1000 in the next |
| Table.Int32Of | include/PearsonRMKL_V1.hpp:568-574 | `count = v[ii]` yields a 32-bit value, equal to the count while it is below 2^31 |
| Table.Int32OfWraps | include/PearsonRMKL_V1.hpp:574 | the stored value differs from the count by a multiple of 2^32, and is 0 exactly when the count is a multiple of 2^32 |
| Table.RecordAtFields | include/PearsonRMKL_V1.hpp:572-574 | the record of bin ii (Table.RecordAt): its level ii % (vectorSize + 1) is at most vectorSize and congruent to ii, the fraction lies in [0, 1) with fraction * 1000 = level % 1000, and the count is the stored count |
| Table.NonZeroBins | include/PearsonRMKL_V1.hpp:569-585 | the bins with a non-zero count, strictly increasing, each below the bound, and none missing |
| Table.Lines | include/PearsonRMKL_V1.hpp:569-585 | the scan over bins below m writes at most m lines; LinesAreNonZeroBins states which |
| Table.LinesAreNonZeroBins | include/PearsonRMKL_V1.hpp:569-585 | exactly one line per non-zero bin, in bin order, carrying that bin's record |
| Table.LinesExactBelowInt32 | include/PearsonRMKL_V1.hpp:574-583 | while counts are below 2^31, each line's count is the bin's count and the bin's count is not 0 |
| Table.CountOf2To32Dropped | include/PearsonRMKL_V1.hpp:574-581 | a count of exactly 2^32 gets no line |
| Table.LinesFields | include/PearsonRMKL_V1.hpp:572-573 | every line's level is at most vectorSize, its fraction is (level % 1000) / 1000 in [0, 1), and its count is not 0 |
| Table.WriteTable | include/PearsonRMKL_V1.hpp:569-585 | the scan with both branches of its test returns exactly the Lines of v over all 2000 * vectorSize bins |

## Left out

- Standardisation numerics (mean, variance, `1/sqrt`) are floating point and are not modelled. StandardizeRows only records that each row is visited once.
- The matrix multiply (`mygemm` over MKL's `cblas_sgemm`/`cblas_dgemm`) is a foreign call. Its products are an input of ProcessBatch.
- Pass.Abs, Pass.IndexPrefix: exact real arithmetic. Float rounding and the `float`/`double` width are not modelled. For the `(ssize_t)` truncation, in-range values are truncated toward zero.
- Table.RecordAt: the fraction `float(nPrint % 1000) / 1000` is an exact real, not a rounded `float`.
- OpenMP and vectorisation: the parallel regions (the standardisation at line 386 and the index step at line 499) run sequentially. Neither updates shared counts.
- Histogram.Accumulate: the histogram loop at lines 509-513 carries `#pragma simd`, and forced vectorisation of `v[...] += 1` can lose increments when one vector of indices holds the same bin twice. The sequential contract does not capture that loss. Histogram.OccurrencesOrderFree shows that any order without lost increments gives the same counts.
- The thread count comes from the runtime. The fallback to `omp_get_num_procs()` when `numCPUThreads < 1` is not modelled; StandardizeRows takes `nthreads >= 1`.
- `drand48`/`srand48`: the random stream is the parameter `draws`. `seed` is ignored, because the generator is always seeded with 11.
- Timers (`getSysTime`) and the `stderr` diagnostics are left out.
- Allocation through `mm_malloc`/`mm_free` and the `exit(-1)` paths when it fails are left out.
- The source buffers come from `mm_malloc` with unspecified contents. The constructor's contract says nothing about the contents of the vector buffer, and the other specifications speak of `old` contents, never of zeros.
- The `table.csv` stream is a returned sequence of records.
- Xeon Phi offload, the MPI entry points and `runSingleThreaded` (one full multiply) are not part of this model.
- Store.PearsonRMKL.constructor: sizes are `nat`. The 32-bit `int` overflow of `i * _vectorSizeAligned` and of the sizes is not modelled, and negative sizes are excluded.
- Threads.ChunkSize: the `int` products `tid * chunkSize` are unbounded.
- Pass.ProcessBatch: the loop over all batches is not a method. One pass is modelled; passes compose through Histogram.BumpedByAdd and Histogram.OccurrencesSplit. `countMat` keeps its values from batch to batch, as the source does.
- Pass.ProcessBatch requires `0 <= mSize`. The as-written table breaks this for n <= 1 (Batches.ShortInputNegativeBatch). At n = 1, `flatSize = mSize * _numVectors` at line 484 becomes 2^64 - 1 as a `size_t`, and the `abs` loop runs past `_pearsonCorr`. The model does not cover that pass.
- Pass.ProcessBatch requires every index to name a bin of `v`. The source's own steps break this, and writes past `v` are not modelled. A correlation of 1 breaks it in the first batch (Pass.TopProductPastLastBin). Because `countMat` is never reset between batches, an entry that took a correlation of at least 0 in an earlier batch breaks it again for any correlation of at least 0 (Pass.ReusedEntryPastLastBin). The intended index formula is not evident from the source, so no corrected pass is given.
- The `_pearsonCorr` field is not a field of the model class. Its allocation to batchSize elements (lines 337-338) and its reset to NULL in the constructor are left out, and Pass.ProcessBatch takes the buffer as the separate array `corr`. `countMat` is likewise an array passed to the methods that use it. `squared` (lines 344-349) is allocated and never used, so it is left out.

## Findings

| source | as written | input that shows it | evidently intended | confidence | as-written member | corrected member |
|---|---|---|---|---|---|---|
| include/PearsonRMKL_V1.hpp:326-333 | the table loop runs `xx <= numBatches`. It writes numBatches + 1 slots of arrays allocated with numBatches; the batch loop at line 460 reads the same extra slot | n = 2: numBatches = 1, slot 1 is written and read | write and read slots 0..numBatches-1 | not executed | Batches.BuildBatchTable | Batches.BuildBlockTable |
| include/PearsonRMKL_V1.hpp:326-333 | batch xx starts at row xx, not at xx * desiredBatch. Its end n - 1 is used as exclusive, so vector n - 1 never heads a row of the multiply | n = 2: rows handed over are 1 + 0, giving 2 values instead of 2 * 2 | batch xx covers the row block xx * desiredBatch .. min(n, (xx + 1) * desiredBatch) - 1, and the blocks partition the rows | not executed | Batches.TwoVectorsAsWritten | Batches.BlocksPartitionRows |
| include/PearsonRMKL_V1.hpp:372-378 | `v` is allocated but never cleared before the first `+= 1` | any leftover count c in bin k is reported as c plus the number of values in k, e.g. 5 for a bin that no value names | clear `v` before the batch loop | not executed | Histogram.UnclearedCountsLeak | Histogram.FreshHistogram |
