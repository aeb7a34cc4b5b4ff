/** Multiplication and division by a quantity that is not a literal. */
module Arith {

  lemma Fundamental(x: int, d: int)
    requires d > 0
    ensures x == (x / d) * d + x % d && 0 <= x % d < d
  {
  }

  lemma MulLe(a: int, b: int, c: int)
    requires a <= b && 0 <= c
    ensures a * c <= b * c
  {
    MulNonneg(b - a, c);
  }

  lemma MulNonneg(a: int, b: int)
    requires 0 <= a && 0 <= b
    ensures 0 <= a * b
  {
  }

  lemma MulStep(a: int, d: int)
    ensures (a + 1) * d == a * d + d
  {
  }

  /** Numbers in different blocks of size `d` are different. */
  lemma BlockUnique(q: int, r: int, q': int, r': int, d: int)
    requires 0 <= r < d && 0 <= r' < d && q * d + r == q' * d + r'
    ensures q == q' && r == r'
  {
    if q < q' {
      MulLe(q + 1, q', d);
      MulStep(q, d);
    } else if q' < q {
      MulLe(q' + 1, q, d);
      MulStep(q', d);
    }
  }

  lemma DivModOf(q: int, r: int, d: int)
    requires 0 <= r < d
    ensures (q * d + r) / d == q && (q * d + r) % d == r
  {
    var x := q * d + r;
    Fundamental(x, d);
    BlockUnique(q, r, x / d, x % d, d);
  }

  lemma DivBound(x: int, n: int, d: int)
    requires 0 <= x < n * d && d > 0
    ensures 0 <= x / d < n
  {
    Fundamental(x, d);
    if x / d >= n {
      MulLe(n, x / d, d);
    } else if x / d < 0 {
      MulLe(x / d + 1, 0, d);
      MulStep(x / d, d);
    }
  }

  lemma InBlock(q: int, r: int, n: int, d: int)
    requires 0 <= q < n && 0 <= r < d
    ensures 0 <= q * d + r < n * d
  {
    MulNonneg(q, d);
    MulLe(q + 1, n, d);
    MulStep(q, d);
  }
}
