/** The padded vector layout of PearsonRMKL: every vector starts on a 64-byte
    boundary of one flat buffer, so its logical length is rounded up to a whole
    number of 64-byte lines. */
module Layout {
  import opened Arith

  /** sizeof(FloatType): the class template is used with float or double. */
  predicate IsElemBytes(b: int) { b == 4 || b == 8 }

  /** Number of elements in one 64-byte line. */
  function Alignment(elemBytes: int): (a: nat)
    requires IsElemBytes(elemBytes)
    ensures a > 0 && a * elemBytes == 64
  {
    64 / elemBytes
  }

  /** `_vectorSizeAligned`: the logical vector length rounded up to a multiple
      of the alignment unit. */
  function AlignedStride(size: nat, a: nat): (s: nat)
    requires a > 0
    ensures s % a == 0
    ensures size <= s < size + a
  {
    var q := (size + a - 1) / a;
    var r := (size + a - 1) % a;
    assert size + a - 1 == q * a + r;
    DivModUnique(q * a, a, q, 0);
    q * a
  }

  /** The stride is the least multiple of the alignment unit that holds the
      vector, so no layout wastes less padding. */
  lemma AlignedStrideLeast(size: nat, a: nat, m: nat)
    requires a > 0 && m % a == 0 && size <= m
    ensures AlignedStride(size, a) <= m
  {
    MultipleBelow(AlignedStride(size, a), m, size, a);
  }

  /** Aligning a length that is already a multiple of the unit changes nothing. */
  lemma AlignedStrideIdempotent(size: nat, a: nat)
    requires a > 0 && size % a == 0
    ensures AlignedStride(size, a) == size
  {
    AlignedStrideLeast(size, a, size);
  }

  /** Aligning twice is aligning once. */
  lemma AlignedStrideTwice(size: nat, a: nat)
    requires a > 0
    ensures AlignedStride(AlignedStride(size, a), a) == AlignedStride(size, a)
  {
    AlignedStrideIdempotent(AlignedStride(size, a), a);
  }

  /** Position of element j of vector i in the flat buffer. */
  function Offset(i: int, j: int, stride: int): (p: int)
    ensures 0 <= j < stride ==> p / stride == i && p % stride == j
  {
    if 0 <= j < stride then DivModUnique(i * stride + j, stride, i, j); i * stride + j
    else i * stride + j
  }

  /** Whether buffer position p holds a logical element (and not padding) of
      one of the numVectors vectors. */
  predicate IsLogicalSlot(p: int, numVectors: nat, size: nat, stride: nat)
  {
    stride > 0 && 0 <= p < numVectors * stride && p % stride < size
  }

  /** Element j of vector i lies inside the numVectors * stride buffer, is a
      logical slot, and determines i and j back. */
  lemma OffsetInBounds(numVectors: nat, size: nat, stride: nat, i: int, j: int)
    requires size <= stride
    requires 0 <= i < numVectors && 0 <= j < size
    ensures 0 <= Offset(i, j, stride) < numVectors * stride
    ensures Offset(i, j, stride) / stride == i && Offset(i, j, stride) % stride == j
    ensures IsLogicalSlot(Offset(i, j, stride), numVectors, size, stride)
  {
    DivModUnique(Offset(i, j, stride), stride, i, j);
    MulStep(i, numVectors, stride);
  }

  /** Distinct (vector, element) pairs never share a buffer position. */
  lemma OffsetInjective(size: nat, stride: nat, i: int, j: int, i': int, j': int)
    requires size <= stride
    requires 0 <= j < size && 0 <= j' < size
    requires Offset(i, j, stride) == Offset(i', j', stride)
    ensures i == i' && j == j'
  {
    DivModUnique(Offset(i, j, stride), stride, i, j);
    DivModUnique(Offset(i', j', stride), stride, i', j');
  }

  /** Vector i occupies [Offset(i, 0), Offset(i, size)); these ranges lie in the
      buffer and follow each other in vector order without overlapping. */
  lemma VectorRangesDisjoint(numVectors: nat, size: nat, stride: nat, i: int, i': int)
    requires size <= stride
    requires 0 <= i < i' < numVectors
    ensures 0 <= Offset(i, 0, stride)
    ensures Offset(i, size, stride) <= Offset(i', 0, stride)
    ensures Offset(i', size, stride) <= numVectors * stride
  {
    MulStep(i, i', stride);
    MulStep(i', numVectors, stride);
  }

  /** Every logical slot is element p % stride of vector p / stride. */
  lemma LogicalSlotDecompose(p: int, numVectors: nat, size: nat, stride: nat)
    requires IsLogicalSlot(p, numVectors, size, stride)
    ensures 0 <= p / stride < numVectors
    ensures p == Offset(p / stride, p % stride, stride)
  {
    var i, j := p / stride, p % stride;
    assert p == i * stride + j;
    if i < 0 {
      MulStep(i, 0, stride);
      assert false;
    } else if i >= numVectors {
      MulMono(numVectors, i, stride);
      assert false;
    }
    assert Offset(i, j, stride) == p;
  }

  /** i whole strides of a multiple of a elements of e bytes each, with
      a * e == 64, cover a whole number of 64-byte lines. */
  lemma StrideBytesAligned(i: int, s: int, a: int, e: int)
    requires a > 0 && s % a == 0 && a * e == 64
    ensures i * s * e % 64 == 0
  {
    var k := s / a;
    assert s == k * a;
    var ik := i * k;
    assert i * s * e == ik * (a * e);
    DivModUnique(ik * 64, 64, ik, 0);
  }

  /** With a = 64 / sizeof(FloatType), every vector starts on a 64-byte boundary. */
  lemma VectorStartAligned(size: nat, elemBytes: int, i: nat)
    requires IsElemBytes(elemBytes)
    ensures Offset(i, 0, AlignedStride(size, Alignment(elemBytes))) * elemBytes % 64 == 0
  {
    StrideBytesAligned(i, AlignedStride(size, Alignment(elemBytes)), Alignment(elemBytes), elemBytes);
  }
}
