/** Quotients and remainders by a variable divisor, in the small steps the solver can take. */
module DivMod {

  lemma DifferenceOfMultiples(a: int, b: int, m: int)
    ensures (a - b) * m == a * m - b * m
  {
  }

  lemma MultipleApart(d: int, m: nat)
    ensures d == 0 || d * m >= m || d * m + m <= 0
  {
    if d >= 1 {
      assert d * m >= m;
    } else if d <= -1 {
      assert (-d) * m >= m;
      assert (-d) * m == -(d * m);
    }
  }

  lemma QuotientUnique(m: nat, q: int, r: nat, q': int, r': nat)
    requires r < m && r' < m && q * m + r == q' * m + r'
    ensures q == q' && r == r'
  {
    MultipleApart(q' - q, m);
    DifferenceOfMultiples(q', q, m);
  }

  lemma ModUnique(x: int, m: nat, q: int, r: nat)
    requires r < m && x == q * m + r
    ensures x % m == r
  {
    var q', r' := x / m, x % m;
    assert x == q' * m + r';
    QuotientUnique(m, q, r, q', r');
  }

  /** One more lap does not change the remainder. */
  lemma NextLap(p: nat, m: nat)
    requires m > 0
    ensures (p + m) % m == p % m
  {
    assert p + m == (p / m + 1) * m + p % m;
    ModUnique(p + m, m, p / m + 1, p % m);
  }

  /** Within one lap, numbers with the same remainder are the same. */
  lemma SameRemainder(p: nat, q: nat, m: nat)
    requires m > 0 && p % m == q % m && p <= q < p + m
    ensures p == q
  {
    assert p == p / m * m + p % m && q == q / m * m + q % m;
    DifferenceOfMultiples(q / m, p / m, m);
    MultipleApart(q / m - p / m, m);
  }
}
