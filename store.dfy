/** The PearsonRMKL object: its sizes, its padded vector buffer, and the
    generation of test data into that buffer. */
module Store {
  import opened Arith
  import opened Layout

  /** The value position p of a buffer holds once the generator has filled
      every logical element from `draws`, starting from the contents `init`. */
  ghost function Generated(init: seq<real>, draws: seq<real>, size: nat, stride: nat, p: nat): real
    requires p < |init|
  {
    if stride > 0 && p % stride < size && Offset(p / stride, p % stride, size) < |draws|
    then draws[Offset(p / stride, p % stride, size)]
    else init[p]
  }

  /** Element j of vector i receives value number i * size + j of the stream. */
  lemma GeneratedLogical(init: seq<real>, draws: seq<real>, numVectors: nat, size: nat, stride: nat, i: int, j: int)
    requires size <= stride && |init| == numVectors * stride && |draws| == numVectors * size
    requires 0 <= i < numVectors && 0 <= j < size
    ensures 0 <= Offset(i, j, stride) < |init| && 0 <= Offset(i, j, size) < |draws|
    ensures Generated(init, draws, size, stride, Offset(i, j, stride)) == draws[Offset(i, j, size)]
  {
    OffsetInBounds(numVectors, size, stride, i, j);
    OffsetInBounds(numVectors, size, size, i, j);
  }

  /** A padding position keeps the value it had before generation. */
  lemma GeneratedPadding(init: seq<real>, draws: seq<real>, numVectors: nat, size: nat, stride: nat, p: nat)
    requires |init| == numVectors * stride && p < |init|
    requires !IsLogicalSlot(p, numVectors, size, stride)
    ensures Generated(init, draws, size, stride, p) == init[p]
  {
  }

  /** Position p of the vector starting at `base` (vector i) receives stream
      value `first + (p - base)` when it is logical and keeps its value
      otherwise. */
  lemma GeneratedInVector(init: seq<real>, draws: seq<real>, size: nat, stride: nat,
                                             i: nat, base: nat, first: nat, p: nat)
    requires size <= stride && base == Offset(i, 0, stride) && first == Offset(i, 0, size)
    requires base <= p < base + stride && p < |init| && first + size <= |draws|
    ensures Generated(init, draws, size, stride, p) == if p < base + size then draws[first + (p - base)] else init[p]
  {
    DivModUnique(p, stride, i, p - base);
  }

  class PearsonRMKL {
    /** sizeof(FloatType) of the template instance. */
    const elemBytes: int
    /** `_vectors`: numVectors vectors of vectorSizeAligned elements each. */
    var vectors: array<real>
    var numVectors: nat
    var vectorSize: nat
    var vectorSizeAligned: nat
    var numCPUThreads: int
    var numMICThreads: int
    var micIndex: int
    var rank: int
    var numProcs: int

    /** The layout invariant the constructor establishes and nothing changes. */
    ghost predicate Valid()
      reads this
    {
      && IsElemBytes(elemBytes)
      && vectorSizeAligned == AlignedStride(vectorSize, Alignment(elemBytes))
      && vectors.Length == numVectors * vectorSizeAligned
    }

    /** Allocates one buffer of numVectors * vectorSizeAligned elements. */
    constructor (elemBytes: int, numVectors: nat, vectorSize: nat, numCPUThreads: int,
                 numMICThreads: int, micIndex: int, rank: int, numProcs: int)
      requires IsElemBytes(elemBytes)
      ensures Valid() && fresh(vectors)
      ensures this.elemBytes == elemBytes
      ensures this.numVectors == numVectors && this.vectorSize == vectorSize
      ensures this.vectorSizeAligned == AlignedStride(vectorSize, Alignment(elemBytes))
      ensures vectors.Length == numVectors * this.vectorSizeAligned
      ensures this.numCPUThreads == numCPUThreads && this.numMICThreads == numMICThreads
      ensures this.micIndex == micIndex && this.rank == rank && this.numProcs == numProcs
    {
      this.elemBytes := elemBytes;
      var alignment := Alignment(elemBytes);
      this.numVectors := numVectors;
      this.vectorSize := vectorSize;
      var aligned := AlignedStride(vectorSize, alignment);
      this.vectorSizeAligned := aligned;
      this.numCPUThreads := numCPUThreads;
      this.numMICThreads := numMICThreads;
      this.micIndex := micIndex;
      this.rank := rank;
      this.numProcs := numProcs;
      vectors := new real[numVectors * aligned];
    }

    /** Writes the next value of the generator's stream into each logical element,
        vector by vector. The stream is `draws` (the generator is always seeded
        with 11, so `seed` has no effect); padding elements are left as they were. */
    method GenerateRandomData(seed: int, draws: seq<real>)
      requires Valid()
      requires |draws| == numVectors * vectorSize
      modifies vectors
      ensures Valid()
      ensures forall p :: 0 <= p < vectors.Length ==>
        vectors[p] == Generated(old(vectors[..]), draws, vectorSize, vectorSizeAligned, p)
    {
      GenerateVectors(vectors, numVectors, vectorSize, vectorSizeAligned, draws);
    }
  }

  /** The loops of GenerateRandomData over a buffer of numVectors vectors of
      stride elements, of which the first size are logical. */
  method GenerateVectors(buf: array<real>, n: nat, size: nat, stride: nat, draws: seq<real>)
    requires size <= stride && buf.Length == n * stride && |draws| == n * size
    modifies buf
    ensures forall p :: 0 <= p < buf.Length ==> buf[p] == Generated(old(buf[..]), draws, size, stride, p)
  {
    ghost var init := buf[..];
    var i := 0;
    var base, first := 0, 0;
    while i < n
      invariant 0 <= i <= n && base == Offset(i, 0, stride) && first == Offset(i, 0, size)
      invariant base <= buf.Length == |init|
      invariant forall p :: 0 <= p < base ==> buf[p] == Generated(init, draws, size, stride, p)
      invariant forall p :: base <= p < buf.Length ==> buf[p] == init[p]
    {
      assert base + stride <= buf.Length && first + size <= |draws| by {
        MulStep(i, n, stride);
        MulStep(i, n, size);
      }
      ghost var before := buf[..];
      GenerateVector(buf, size, draws, base, first);
      VectorGenerated(init, draws, size, stride, i, base, first, before, buf[..]);
      i := i + 1;
      base, first := base + stride, first + size;
    }
  }

  /** Filling vector i (positions base .. base + size - 1) from stream value
      `first` on extends the generated prefix by one whole stride. */
  lemma VectorGenerated(init: seq<real>, draws: seq<real>, size: nat, stride: nat,
                                           i: nat, base: nat, first: nat, before: seq<real>, after: seq<real>)
    requires size <= stride && base == Offset(i, 0, stride) && first == Offset(i, 0, size)
    requires base + stride <= |init| == |before| == |after| && first + size <= |draws|
    requires forall p :: 0 <= p < base ==> before[p] == Generated(init, draws, size, stride, p)
    requires forall p :: base <= p < |before| ==> before[p] == init[p]
    requires forall p :: base <= p < base + size ==> after[p] == draws[first + (p - base)]
    requires forall p :: 0 <= p < |after| && !(base <= p < base + size) ==> after[p] == before[p]
    ensures forall p :: 0 <= p < base + stride ==> after[p] == Generated(init, draws, size, stride, p)
    ensures forall p :: base + stride <= p < |after| ==> after[p] == init[p]
    ensures Offset(i + 1, 0, stride) == base + stride && Offset(i + 1, 0, size) == first + size
  {
    forall p | base <= p < base + stride
      ensures after[p] == Generated(init, draws, size, stride, p)
    {
      GeneratedInVector(init, draws, size, stride, i, base, first, p);
    }
  }

  /** The inner loop of GenerateRandomData: copies the size values of the
      stream starting at `first` into the vector starting at `base`, and
      changes nothing else. */
  method GenerateVector(buf: array<real>, size: nat, draws: seq<real>, base: nat, first: nat)
    requires base + size <= buf.Length && first + size <= |draws|
    modifies buf
    ensures forall p :: base <= p < base + size ==> buf[p] == draws[first + (p - base)]
    ensures forall p :: 0 <= p < buf.Length && !(base <= p < base + size) ==> buf[p] == old(buf[p])
  {
    var j := 0;
    while j < size
      invariant 0 <= j <= size
      invariant forall p :: base <= p < base + j ==> buf[p] == draws[first + (p - base)]
      invariant forall p :: 0 <= p < buf.Length && !(base <= p < base + j) ==> buf[p] == old(buf[p])
    {
      buf[base + j] := draws[first + j];
      j := j + 1;
    }
  }
}
