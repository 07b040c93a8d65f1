/** Facts of integer division that variable divisors need. */
module IntFacts {

  lemma DivTwice(a: nat, p: nat)
    requires p > 0
    ensures a / 2 / p == a / (2 * p)
  {
    var q, r := a / 2 / p, a / 2 % p;
    assert a == 2 * (q * p + r) + a % 2;
    QuotientUnique(a, 2 * p, q, 2 * r + a % 2);
  }

  lemma QuotientUnique(a: nat, d: nat, q: int, r: int)
    requires d > 0 && a == q * d + r && 0 <= r < d
    ensures a / d == q && a % d == r
  {
    var q', r' := a / d, a % d;
    assert (q - q') * d == r' - r;
    if q > q' {
      TimesAtLeastOne(q - q', d);
    } else if q < q' {
      TimesAtLeastOne(q' - q, d);
    }
  }

  lemma TimesAtLeastOne(k: int, d: nat)
    requires k >= 1
    ensures k * d >= d
  {
  }
}
