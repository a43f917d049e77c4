/** Powers of integers and the few facts about them the numeric modules need. */
module Powers {

  function Pow(base: int, exponent: nat): int {
    if exponent == 0 then 1 else base * Pow(base, exponent - 1)
  }

  lemma {:induction false} PowPositive(base: int, exponent: nat)
    requires base > 0
    ensures Pow(base, exponent) > 0
  {
    if exponent > 0 { PowPositive(base, exponent - 1); }
  }

  lemma {:induction false} PowAdd(base: int, m: nat, n: nat)
    ensures Pow(base, m + n) == Pow(base, m) * Pow(base, n)
  {
    if m > 0 {
      PowAdd(base, m - 1, n);
      assert Pow(base, m + n) == base * (Pow(base, m - 1) * Pow(base, n));
    }
  }

  lemma {:induction false} PowMultiply(base: int, m: nat, n: nat)
    ensures m * n >= 0 && Pow(Pow(base, m), n) == Pow(base, m * n)
    decreases n
  {
    if n > 0 {
      PowMultiply(base, m, n - 1);
      assert m * n == m + m * (n - 1);
      PowAdd(base, m, m * (n - 1));
    }
  }

  lemma MultiplyMonotone(a: int, b: int, c: int, d: int)
    requires 0 <= a <= b && 0 <= c <= d
    ensures a * c <= b * d
  {
    assert a * c <= b * c;
    assert b * c <= b * d;
  }

  lemma {:induction false} PowMonotoneBase(a: int, b: int, n: nat)
    requires 0 <= a <= b
    ensures 0 <= Pow(a, n) <= Pow(b, n)
  {
    if n > 0 {
      PowMonotoneBase(a, b, n - 1);
      MultiplyMonotone(a, b, Pow(a, n - 1), Pow(b, n - 1));
      assert 0 <= a * Pow(a, n - 1);
    }
  }

  lemma {:induction false} PowStrictBase(a: int, b: int, n: nat)
    requires 0 <= a < b && n > 0
    ensures Pow(a, n) < Pow(b, n)
  {
    if n > 1 {
      PowStrictBase(a, b, n - 1);
      PowMonotoneBase(a, b, n - 1);
      assert a * Pow(a, n - 1) <= a * Pow(b, n - 1);
      PowPositive(b, n - 1);
      assert a * Pow(b, n - 1) < b * Pow(b, n - 1);
    } else {
      assert Pow(a, 1) == a * Pow(a, 0) && Pow(b, 1) == b * Pow(b, 0);
    }
  }

  lemma {:induction false} PowMonotoneExponent(base: int, m: nat, n: nat)
    requires base >= 1 && m <= n
    ensures Pow(base, m) <= Pow(base, n)
    decreases n
  {
    if m < n {
      PowMonotoneExponent(base, m, n - 1);
      PowPositive(base, n - 1);
      assert Pow(base, n - 1) <= base * Pow(base, n - 1);
    }
  }

  /** Taking the same root on both sides: a comparison of n-th powers gives the comparison of the bases. */
  lemma RootCompare(a: int, b: int, n: nat)
    requires 0 <= a && 0 <= b && n > 0
    requires Pow(a, n) <= Pow(b, n)
    ensures a <= b
  {
    if b < a { PowStrictBase(b, a, n); }
  }
}
