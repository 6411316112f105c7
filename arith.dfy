/** Integer facts about products, quotients and multiples that the layout,
    chunking, batching and histogram proofs share. */
module Arith {

  /** A strictly larger factor gives a product at least one multiple of d larger. */
  lemma {:induction false} MulStep(x: int, y: int, d: int)
    requires x < y && d >= 0
    ensures x * d + d <= y * d
    decreases y - x
  {
    if x + 1 < y {
      MulStep(x + 1, y, d);
    }
    assert (x + 1) * d == x * d + d;
  }

  /** Multiplying by a non-negative factor keeps the order. */
  lemma MulMono(x: int, y: int, d: int)
    requires x <= y && d >= 0
    ensures x * d <= y * d
  {
    if x < y {
      MulStep(x, y, d);
    }
  }

  /** Quotient and remainder are determined by the two bounds they meet. */
  lemma DivModUnique(x: int, d: int, q: int, r: int)
    requires d > 0 && 0 <= r < d && x == q * d + r
    ensures x / d == q && x % d == r
  {
    var q' := x / d;
    if q' < q {
      MulStep(q', q, d);
      assert false;
    } else if q' > q {
      MulStep(q, q', d);
      assert false;
    }
  }

  /** A multiple of d below the multiple after j * d is at most j * d. */
  lemma MultiplesApart(d: int, k: int, j: int)
    requires d > 0 && k * d < j * d + d
    ensures k <= j
  {
    if k > j {
      MulStep(j, k, d);
      assert false;
    }
  }

  /** A multiple of d less than d above a bound of m, itself a multiple of d,
      is at most m. */
  lemma MultipleBelow(s: int, m: int, size: int, d: int)
    requires d > 0 && s % d == 0 && m % d == 0 && size <= m && s < size + d
    ensures s <= m
  {
    var k, j := s / d, m / d;
    assert s == k * d && m == j * d;
    MultiplesApart(d, k, j);
    MulMono(k, j, d);
  }
}
