/** Products and quotients of variables, kept behind a name so that few proofs meet a multiplication. */
module Products {
  function Product(a: int, b: int): int {
    a * b
  }

  lemma ProductMonotone(a: int, b: int, h: int)
    requires a <= b && h >= 0
    ensures Product(a, h) <= Product(b, h)
  {
  }

  lemma ProductNext(q: int, d: int)
    ensures Product(q + 1, d) == Product(q, d) + d && Product(q, d) == Product(d, q)
  {
  }

  lemma ProductZero(h: int)
    ensures Product(0, h) == 0
  {
  }

  lemma ProductNegate(a: int, b: int)
    ensures Product(a, -b) == -Product(a, b)
  {
  }

  lemma DivProduct(a: int, d: int)
    requires d > 0
    ensures a == Product(a / d, d) + a % d
  {
    assert a == a / d * d + a % d;
  }

  /** Quotient and remainder are determined. */
  lemma QuotientUnique(v: int, d: int, q: int, r: int)
    requires d > 0 && v == Product(q, d) + r && 0 <= r < d
    ensures v / d == q && v % d == r
  {
    hide Product;
    var p := v / d;
    DivProduct(v, d);
    ProductNext(p, d);
    ProductNext(q, d);
    if p + 1 <= q {
      ProductMonotone(p + 1, q, d);
    } else if q + 1 <= p {
      ProductMonotone(q + 1, p, d);
    }
  }

  lemma DivMonotone(a: int, b: int, d: int)
    requires a <= b && d > 0
    ensures a / d <= b / d
  {
    hide Product;
    DivProduct(a, d);
    DivProduct(b, d);
    ProductNext(b / d, d);
    if b / d + 1 <= a / d {
      ProductMonotone(b / d + 1, a / d, d);
    }
  }

  lemma MultipleOf(q: int, d: int)
    requires d > 0
    ensures Product(q, d) % d == 0 && Product(q, d) / d == q && Product(d, q) / d == q
  {
    hide Product;
    ProductNext(q, d);
    QuotientUnique(Product(q, d), d, q, 0);
  }
}
