/** The output scan at the end of runMultiThreaded: one `level fraction count`
    line per bin of `v` whose count is non-zero, in bin order. The lines are
    returned as records instead of being written to table.csv. */
module Table {
  import opened Arith
  import opened Histogram

  /** One output line: `nPrint`, `pcc` and `count`. */
  datatype Record = Record(level: int, fraction: real, count: int)

  /** `count = v[ii]` stores a `size_t` in an `int`: the count modulo 2^32, read
      as a two's-complement 32-bit value. */
  function Int32Of(x: u64): (r: int)
    ensures -0x8000_0000 <= r < 0x8000_0000
    ensures x as int < 0x8000_0000 ==> r == x as int
  {
    var m := x as int % 0x1_0000_0000;
    if m >= 0x8000_0000 then m - 0x1_0000_0000 else m
  }

  /** The stored value differs from the count by a multiple of 2^32, and it is
      zero exactly when the count is a multiple of 2^32. */
  lemma Int32OfWraps(x: u64)
    ensures (x as int - Int32Of(x)) % 0x1_0000_0000 == 0
    ensures Int32Of(x) == 0 <==> x as int % 0x1_0000_0000 == 0
  {
  }

  /** The record both branches of the scan compute for bin ii. */
  function RecordAt(ii: nat, vectorSize: nat, count: int): Record
  {
    var nPrint := ii % (vectorSize + 1);
    Record(nPrint, (nPrint % 1000) as real / 1000.0, count)
  }

  /** The level of bin ii's record is at most vectorSize and congruent to ii,
      its fraction is the level modulo 1000 in thousandths, in [0, 1), and it
      carries the count it was given. */
  lemma RecordAtFields(ii: nat, vectorSize: nat, count: int)
    ensures 0 <= RecordAt(ii, vectorSize, count).level <= vectorSize
    ensures (ii - RecordAt(ii, vectorSize, count).level) % (vectorSize + 1) == 0
    ensures 0.0 <= RecordAt(ii, vectorSize, count).fraction < 1.0
    ensures RecordAt(ii, vectorSize, count).fraction * 1000.0 == (RecordAt(ii, vectorSize, count).level % 1000) as real
    ensures RecordAt(ii, vectorSize, count).count == count
  {
    var nPrint := ii % (vectorSize + 1);
    DivModUnique(ii - nPrint, vectorSize + 1, ii / (vectorSize + 1), 0);
  }

  /** The bins below m whose count reads as non-zero, in the order the scan
      visits them. */
  function Scan(counts: seq<u64>, m: nat): seq<nat>
    requires m <= |counts|
  {
    if m == 0 then []
    else if Int32Of(counts[m - 1]) != 0 then Scan(counts, m - 1) + [m - 1]
    else Scan(counts, m - 1)
  }

  /** The scan's bins are in range, read as non-zero, strictly increasing, and
      include every bin below m that reads as non-zero. */
  lemma {:induction false} ScanFacts(counts: seq<u64>, m: nat)
    requires m <= |counts|
    ensures forall i :: 0 <= i < |Scan(counts, m)| ==> Scan(counts, m)[i] < m && Int32Of(counts[Scan(counts, m)[i]]) != 0
    ensures forall i, j :: 0 <= i < j < |Scan(counts, m)| ==> Scan(counts, m)[i] < Scan(counts, m)[j]
    ensures forall ii :: 0 <= ii < m && Int32Of(counts[ii]) != 0 ==> ii in Scan(counts, m)
  {
    if m > 0 {
      ScanFacts(counts, m - 1);
    }
  }

  /** The bins below m whose count reads as non-zero, in increasing order. */
  function NonZeroBins(counts: seq<u64>, m: nat): (bins: seq<nat>)
    requires m <= |counts|
    ensures forall i :: 0 <= i < |bins| ==> bins[i] < m && Int32Of(counts[bins[i]]) != 0
    ensures forall i, j :: 0 <= i < j < |bins| ==> bins[i] < bins[j]
    ensures forall ii :: 0 <= ii < m && Int32Of(counts[ii]) != 0 ==> ii in bins
  {
    ScanFacts(counts, m);
    Scan(counts, m)
  }

  /** The lines the scan emits for the bins below m. */
  function Lines(counts: seq<u64>, vectorSize: nat, m: nat): (lines: seq<Record>)
    requires m <= |counts|
    ensures |lines| <= m
  {
    if m == 0 then []
    else if Int32Of(counts[m - 1]) != 0
    then Lines(counts, vectorSize, m - 1) + [RecordAt(m - 1, vectorSize, Int32Of(counts[m - 1]))]
    else Lines(counts, vectorSize, m - 1)
  }

  /** The count of bin b as the scan reads it; 0 past the last bin. */
  function CountAt(counts: seq<u64>, b: nat): int
  {
    if b < |counts| then Int32Of(counts[b]) else 0
  }

  /** The records of the given bins, in order. */
  function RecordsOf(counts: seq<u64>, vectorSize: nat, bins: seq<nat>): (records: seq<Record>)
    ensures |records| == |bins|
  {
    if bins == [] then []
    else
      var b := bins[|bins| - 1];
      RecordsOf(counts, vectorSize, bins[..|bins| - 1]) + [RecordAt(b, vectorSize, CountAt(counts, b))]
  }

  /** Record i of RecordsOf is the record of bin i. */
  lemma {:induction false} RecordsOfAt(counts: seq<u64>, vectorSize: nat, bins: seq<nat>, i: int)
    requires 0 <= i < |bins|
    ensures RecordsOf(counts, vectorSize, bins)[i] == RecordAt(bins[i], vectorSize, CountAt(counts, bins[i]))
  {
    if i < |bins| - 1 {
      RecordsOfAt(counts, vectorSize, bins[..|bins| - 1], i);
    }
  }

  /** One step of the scan: bin m - 1 adds itself and its line exactly when
      its count reads as non-zero. */
  lemma ScanStep(counts: seq<u64>, vectorSize: nat, m: nat)
    requires 0 < m <= |counts|
    ensures Int32Of(counts[m - 1]) != 0 ==>
      Scan(counts, m) == Scan(counts, m - 1) + [m - 1] &&
      Lines(counts, vectorSize, m) == Lines(counts, vectorSize, m - 1) + [RecordAt(m - 1, vectorSize, Int32Of(counts[m - 1]))]
    ensures Int32Of(counts[m - 1]) == 0 ==>
      Scan(counts, m) == Scan(counts, m - 1) &&
      Lines(counts, vectorSize, m) == Lines(counts, vectorSize, m - 1)
  {
  }

  /** Appending a bin appends its record. */
  lemma RecordsOfSnoc(counts: seq<u64>, vectorSize: nat, bins: seq<nat>, b: nat)
    requires b < |counts|
    ensures RecordsOf(counts, vectorSize, bins + [b]) ==
      RecordsOf(counts, vectorSize, bins) + [RecordAt(b, vectorSize, Int32Of(counts[b]))]
  {
    assert (bins + [b])[..|bins|] == bins;
  }

  /** If the scan below m - 1 emits the records of its bins, so does the scan
      below m. */
  lemma LinesAsRecordsStep(counts: seq<u64>, vectorSize: nat, m: nat)
    requires 0 < m <= |counts|
    requires Lines(counts, vectorSize, m - 1) == RecordsOf(counts, vectorSize, Scan(counts, m - 1))
    ensures Lines(counts, vectorSize, m) == RecordsOf(counts, vectorSize, Scan(counts, m))
  {
    ScanStep(counts, vectorSize, m);
    if Int32Of(counts[m - 1]) != 0 {
      RecordsOfSnoc(counts, vectorSize, Scan(counts, m - 1), m - 1);
    }
  }

  /** The scan below m emits the records of the bins it keeps. */
  lemma {:induction false} LinesAsRecords(counts: seq<u64>, vectorSize: nat, m: nat)
    requires m <= |counts|
    ensures Lines(counts, vectorSize, m) == RecordsOf(counts, vectorSize, Scan(counts, m))
  {
    if m > 0 {
      LinesAsRecords(counts, vectorSize, m - 1);
      LinesAsRecordsStep(counts, vectorSize, m);
    }
  }

  /** The scan emits exactly one line per bin whose count reads as non-zero, in
      increasing bin order, carrying that bin's level, fraction and count. */
  lemma LinesAreNonZeroBins(counts: seq<u64>, vectorSize: nat, m: nat)
    requires m <= |counts|
    ensures |Lines(counts, vectorSize, m)| == |NonZeroBins(counts, m)|
    ensures forall i :: 0 <= i < |NonZeroBins(counts, m)| ==>
      Lines(counts, vectorSize, m)[i] ==
        RecordAt(NonZeroBins(counts, m)[i], vectorSize, Int32Of(counts[NonZeroBins(counts, m)[i]]))
  {
    var bins := NonZeroBins(counts, m);
    LinesAsRecords(counts, vectorSize, m);
    forall i | 0 <= i < |bins|
      ensures Lines(counts, vectorSize, m)[i] == RecordAt(bins[i], vectorSize, Int32Of(counts[bins[i]]))
    {
      RecordsOfAt(counts, vectorSize, bins, i);
    }
  }

  /** While no count reaches 2^31, the bins with a line are exactly the bins
      with a non-zero count, and each line carries the bin's count unchanged. */
  lemma LinesExactBelowInt32(counts: seq<u64>, vectorSize: nat, i: int)
    requires forall ii :: 0 <= ii < |counts| ==> counts[ii] as int < 0x8000_0000
    requires 0 <= i < |NonZeroBins(counts, |counts|)|
    ensures i < |Lines(counts, vectorSize, |counts|)|
    ensures 0 <= NonZeroBins(counts, |counts|)[i] < |counts|
    ensures counts[NonZeroBins(counts, |counts|)[i]] != 0
    ensures Lines(counts, vectorSize, |counts|)[i].count == counts[NonZeroBins(counts, |counts|)[i]] as int
  {
    LinesAreNonZeroBins(counts, vectorSize, |counts|);
  }

  /** A bin whose count is a non-zero multiple of 2^32 gets no line. */
  lemma CountOf2To32Dropped(vectorSize: nat)
    ensures Lines([0x1_0000_0000 as u64], vectorSize, 1) == []
  {
  }

  /** Every line's level is below vectorSize + 1 and its fraction is the
      level modulo 1000 in thousandths, in [0, 1). */
  lemma LinesFields(counts: seq<u64>, vectorSize: nat, m: nat, i: int)
    requires m <= |counts| && 0 <= i < |Lines(counts, vectorSize, m)|
    ensures 0 <= Lines(counts, vectorSize, m)[i].level <= vectorSize
    ensures Lines(counts, vectorSize, m)[i].fraction == (Lines(counts, vectorSize, m)[i].level % 1000) as real / 1000.0
    ensures 0.0 <= Lines(counts, vectorSize, m)[i].fraction < 1.0
    ensures Lines(counts, vectorSize, m)[i].count != 0
  {
    LinesAreNonZeroBins(counts, vectorSize, m);
    var bins := NonZeroBins(counts, m);
    RecordAtFields(bins[i], vectorSize, Int32Of(counts[bins[i]]));
  }

  /** The scan over the 2000 * vectorSize bins of `v`. Its two branches compute
      the same line, so the output does not depend on the branch condition. */
  method WriteTable(v: array<u64>, vectorSize: nat) returns (lines: seq<Record>)
    requires v.Length == NumBins(vectorSize)
    ensures lines == Lines(v[..], vectorSize, v.Length)
  {
    lines := [];
    var flatSize := NumBins(vectorSize);
    var ii := 0;
    while ii < flatSize
      invariant 0 <= ii <= flatSize
      invariant lines == Lines(v[..], vectorSize, ii)
    {
      var nPrint: int;
      var pcc: real;
      var count: int;
      if 1000 * (vectorSize + 1) > ii {
        nPrint := ii % (vectorSize + 1);
        pcc := (nPrint % 1000) as real / 1000.0;
        count := Int32Of(v[ii]);
      } else {
        nPrint := ii % (vectorSize + 1);
        pcc := (nPrint % 1000) as real / 1000.0;
        count := Int32Of(v[ii]);
      }
      if count != 0 {
        lines := lines + [Record(nPrint, pcc, count)];
      }
      ii := ii + 1;
    }
  }
}
