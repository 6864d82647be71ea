/** Facts about Euclidean division on naturals that the row-major index arithmetic needs. */
module Arith {

  /** A product of naturals is positive only if both factors are. */
  lemma PositiveFactors(a: nat, b: nat)
    requires a * b > 0
    ensures a > 0 && b > 0
  {
  }

  /** Multiplying by a positive natural preserves the order of naturals. */
  lemma MulMonotone(a: nat, b: nat, n: nat)
    requires a <= b
    ensures a * n <= b * n
  {
  }

  /** One more row of `n`. */
  lemma MulSucc(a: nat, n: nat)
    ensures (a + 1) * n == a * n + n
  {
  }

  /** `k / n` and `k % n` are the only quotient and remainder of `k` by `n`. */
  lemma DivModUnique(k: nat, n: nat, q: nat, m: nat)
    requires n > 0 && 0 <= m < n && k == q * n + m
    ensures k / n == q && k % n == m
  {
    var q', m' := k / n, k % n;
    assert k == q' * n + m';
    if q < q' {
      MulMonotone(q + 1, q', n);
      assert false;
    }
    if q' < q {
      MulMonotone(q' + 1, q, n);
      assert false;
    }
  }

  /** An index other than `x * n + y` has a different quotient or remainder by `n`. */
  lemma OtherCell(k: nat, n: nat, x: nat, y: nat)
    requires n > 0 && k != x * n + y
    ensures k / n != x || k % n != y
  {
  }

  /** Cell `(x, y)` of an `r` by `c` grid has a row-major index below `r * c`. */
  lemma CellIndexBound(x: nat, y: nat, r: nat, c: nat)
    requires x < r && y < c
    ensures x * c + y < r * c
  {
    MulMonotone(x + 1, r, c);
    assert (x + 1) * c == x * c + c;
  }

  /** An index below `r * c` lies in a row below `r` when rows have length `c`. */
  lemma RowBound(k: nat, r: nat, c: nat)
    requires c > 0 && k < r * c
    ensures k / c < r
  {
    if k / c >= r {
      MulMonotone(r, k / c, c);
      assert false;
    }
  }
}
