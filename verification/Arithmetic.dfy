/** Division and multiplication facts the solver does not find by itself. */
module Arithmetic {

  lemma MulMonotone(a: int, b: int, c: int)
    requires a <= b && 0 <= c
    ensures a * c <= b * c
  {
  }

  lemma QuotientUnique(size: int, q: int, r: int, d: int, m: int)
    requires q * size + r == d * size + m
    requires 0 <= r < size && 0 <= m < size
    ensures q == d && r == m
  {
    assert (q - d) * size == q * size - d * size;
    assert (d - q) * size == d * size - q * size;
    if q > d {
      MulMonotone(1, q - d, size);
    } else if d > q {
      MulMonotone(1, d - q, size);
    }
  }

  lemma DivModUnique(n: int, size: int, q: int, r: int)
    requires size > 0 && n == q * size + r && 0 <= r < size
    ensures n / size == q && n % size == r
  {
    DivModOf(n, size);
    QuotientUnique(size, q, r, n / size, n % size);
  }

  lemma DivModOf(n: int, size: int)
    requires size > 0
    ensures n == n / size * size + n % size && 0 <= n % size < size
  {
  }

  lemma DivMonotone(a: int, b: int, size: int)
    requires size > 0 && a <= b
    ensures a / size <= b / size
  {
    DivModOf(a, size);
    DivModOf(b, size);
    var p, q := a / size, b / size;
    assert (p - q) * size == p * size - q * size;
    if p > q {
      MulMonotone(1, p - q, size);
    }
  }

  /** n / size rounded up, for a natural n. */
  function CeilDiv(n: int, size: int): int
    requires size > 0
  {
    (n + size - 1) / size
  }

  lemma CeilDivUnique(n: int, size: int, q: int)
    requires size > 0 && (q - 1) * size < n <= q * size
    ensures CeilDiv(n, size) == q
  {
    assert (q - 1) * size == q * size - size;
    DivModUnique(n + size - 1, size, q, n + size - 1 - q * size);
  }

  lemma CeilDivBounds(n: int, size: int)
    requires size > 0
    ensures (CeilDiv(n, size) - 1) * size < n <= CeilDiv(n, size) * size
  {
  }

  lemma CeilDivMonotone(a: int, b: int, size: int)
    requires size > 0 && a <= b
    ensures CeilDiv(a, size) <= CeilDiv(b, size)
  {
    DivMonotone(a + size - 1, b + size - 1, size);
  }
}
