/** Facts about products and quotients that the solver does not find by itself. */
module Division {

  lemma MulLe(d: int, a: int, b: int)
    requires d >= 0 && a <= b
    ensures d * a <= d * b
  {}

  lemma MulNext(a: int, b: int)
    ensures a * (b + 1) == a * b + a
  {}

  lemma EuclidUnique(d: int, k: int, r: int, k': int, r': int)
    requires d * k + r == d * k' + r' && 0 <= r < d && 0 <= r' < d
    ensures k == k'
  {
    if k < k' {
      MulLe(d, k + 1, k');
      MulNext(d, k);
    } else if k' < k {
      MulLe(d, k' + 1, k);
      MulNext(d, k');
    }
  }

  lemma Euclid(a: int, d: int)
    requires d > 0
    ensures a == d * (a / d) + a % d && 0 <= a % d < d
  {}

  lemma QuotientIs(a: int, d: int, k: int, r: int)
    requires a == d * k + r && 0 <= r < d
    ensures a / d == k && a % d == r
  {
    Euclid(a, d);
    EuclidUnique(d, k, r, a / d, a % d);
  }

  lemma DivMono(a: int, b: int, d: int)
    requires a <= b && d > 0
    ensures a / d <= b / d
  {
    Euclid(a, d);
    Euclid(b, d);
    if b / d < a / d {
      MulLe(d, b / d + 1, a / d);
      MulNext(d, b / d);
    }
  }

  /** C division: towards zero. */
  function TruncDiv(a: int, b: int): int
    requires b > 0
  {
    if a >= 0 then a / b else -((-a) / b)
  }
}
