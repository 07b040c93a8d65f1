/** Facts of real arithmetic that products and quotients of variables need. */
module RealFacts {

  function Ceil(x: real): (n: int)
    ensures n as real - 1.0 < x <= n as real
  {
    -((-x).Floor)
  }

  /** A product under a name, so that facts about it chain without arithmetic. */
  function Times(a: real, b: real): real {
    a * b
  }

  lemma TimesSum(a: real, b: real, c: real)
    ensures Times(a + b, c) == Times(a, c) + Times(b, c)
  {
  }

  lemma TimesLess(a: real, b: real, c: real)
    requires a < b && c > 0.0
    ensures Times(a, c) < Times(b, c)
  {
    MulLess(a, b, c);
  }

  lemma MulPositive(a: real, b: real)
    requires a > 0.0 && b > 0.0
    ensures a * b > 0.0
  {
  }

  lemma MulAtMost(a: real, b: real, c: real)
    requires a <= b && c >= 0.0
    ensures a * c <= b * c
  {
  }

  lemma MulLess(a: real, b: real, c: real)
    requires a < b && c > 0.0
    ensures a * c < b * c
  {
    MulPositive(b - a, c);
    assert b * c == a * c + (b - a) * c;
  }

  lemma QuotientAtLeast(a: real, b: real, c: real)
    requires b > 0.0
    ensures a / b >= c <==> a >= c * b
  {
    QuotientCompare(a / b, a, b, c);
  }

  lemma QuotientCompare(q: real, a: real, b: real, c: real)
    requires b > 0.0 && q * b == a
    ensures q >= c <==> a >= c * b
  {
    if q >= c {
      MulAtMost(c, q, b);
    } else {
      MulLess(q, c, b);
    }
  }

  lemma QuotientTimes(a: real, b: real)
    requires b > 0.0
    ensures (a / b) * b == a
  {
  }

  lemma QuotientMonotone(a1: real, a2: real, b: real)
    requires a1 <= a2 && b > 0.0
    ensures a1 / b <= a2 / b
  {
    QuotientTimes(a1, b);
    QuotientAtLeast(a2, b, a1 / b);
  }

  lemma QuotientBetween(x: real, lo: real, hi: real, n: real)
    requires n > 0.0 && lo < x <= hi
    ensures lo / n < x / n <= hi / n
  {
    QuotientAtLeast(hi, n, x / n);
    QuotientAtLeast(lo, n, x / n);
    assert (x / n) * n == x;
  }

  /** A whole number is at most x iff it is at most the floor of x. */
  lemma FloorAtLeast(x: real, k: int)
    ensures x.Floor >= k <==> x >= k as real
  {
  }
}
