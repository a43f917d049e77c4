/** What P, Q and T of a range mean: the exact value of a stretch of the Chudnovsky series,
    the size of T against Q, and the size of the part of the series a finite run leaves out
    (README.md, section 1; src/binary/BinarySplitter.cpp). */
module ChudnovskySeries {
  import opened Chudnovsky
  import opened Powers

  const SERIES_BASE: int := 640320

  /** Q_CONSTANT / 72: no leaf has Q below this multiple of P, since (6k-5)(2k-1)(6k-1) <= 72 k^3. */
  const CONVERGENCE: int := 151931373056000

  function Factorial(n: nat): int {
    if n == 0 then 1 else n * Factorial(n - 1)
  }

  /** The denominator (3k)! (k!)^3 640320^(3k) of term k. */
  function TermDenominator(k: nat): int {
    Factorial(3 * k) * (Factorial(k) * Factorial(k) * Factorial(k)) * Pow(SERIES_BASE, 3 * k)
  }

  // ---------- the factorial identity ----------

  lemma {:induction false} FactorialPositive(n: nat)
    ensures Factorial(n) > 0
  {
    if n > 0 { FactorialPositive(n - 1); }
  }

  lemma TermDenominatorPositive(k: nat)
    ensures TermDenominator(k) > 0
  {
    FactorialPositive(3 * k);
    FactorialPositive(k);
    PowPositive(SERIES_BASE, 3 * k);
    var f := Factorial(k);
    assert f * f > 0;
    assert f * f * f > 0;
    assert Factorial(3 * k) * (f * f * f) > 0;
  }

  lemma FactorialThree(n: nat)
    requires n >= 3
    ensures Factorial(n) == Factorial(n - 3) * (n * (n - 1) * (n - 2))
  {
    assert Factorial(n - 1) == (n - 1) * Factorial(n - 2);
    assert Factorial(n - 2) == (n - 2) * Factorial(n - 3);
    RegroupThree(n, Factorial(n - 3));
  }

  lemma RegroupThree(n: int, f: int)
    ensures n * ((n - 1) * ((n - 2) * f)) == f * (n * (n - 1) * (n - 2))
  {
  }

  lemma FactorialStep6(k: nat)
    requires k > 0
    ensures Factorial(6 * k)
         == Factorial(6 * k - 6) * ((6 * k) * (6 * k - 1) * (6 * k - 2) * ((6 * k - 3) * (6 * k - 4) * (6 * k - 5)))
  {
    FactorialThree(6 * k);
    FactorialThree(6 * k - 3);
    Regroup3(Factorial(6 * k - 6), (6 * k - 3) * (6 * k - 4) * (6 * k - 5), (6 * k) * (6 * k - 1) * (6 * k - 2));
  }

  lemma Regroup3(f: int, lower: int, upper: int)
    ensures (f * lower) * upper == f * (upper * lower)
  {
  }

  /** 24 P_k (3k)(3k-1)(3k-2) = (6k)(6k-1)...(6k-5) */
  lemma LeafAgainstFactorials(k: nat)
    requires k > 0
    ensures 24 * LeafP(k) * (3 * k * (3 * k - 1) * (3 * k - 2))
         == (6 * k) * (6 * k - 1) * (6 * k - 2) * ((6 * k - 3) * (6 * k - 4) * (6 * k - 5))
  {
    var x, y, z := 3 * k, 3 * k - 1, 3 * k - 2;
    var u, v, w := 6 * k - 5, 2 * k - 1, 6 * k - 1;
    assert 6 * k == 2 * x && 6 * k - 2 == 2 * y && 6 * k - 4 == 2 * z && 6 * k - 3 == 3 * v;
    calc {
      (6 * k) * (6 * k - 1) * (6 * k - 2) * ((6 * k - 3) * (6 * k - 4) * (6 * k - 5));
      (2 * x) * w * (2 * y) * ((3 * v) * (2 * z) * u);
      { RegroupSix(x, y, z, u, v, w); }
      24 * (u * v * w) * (x * y * z);
    }
  }

  lemma RegroupSix(x: int, y: int, z: int, u: int, v: int, w: int)
    ensures (2 * x) * w * (2 * y) * ((3 * v) * (2 * z) * u) == 24 * (u * v * w) * (x * y * z)
  {
    var xy, vz := x * y, v * z;
    assert (2 * x) * w * (2 * y) == 4 * (xy * w);
    assert (3 * v) * (2 * z) * u == 6 * (vz * u);
    assert (4 * (xy * w)) * (6 * (vz * u)) == 24 * ((xy * w) * (vz * u));
    assert (xy * w) * (vz * u) == (u * v * w) * (x * y * z);
  }

  /** P(0,k+1) (3k)! (k!)^3 640320^(3k) = Q(0,k+1) (6k)!, for every k. */
  lemma {:induction false} TermIdentity(k: nat)
    ensures Split(0, k + 1).p * TermDenominator(k) == Split(0, k + 1).q * Factorial(6 * k)
  {
    if k > 0 {
      TermIdentity(k - 1);
      SplitAppend(0, k, k + 1);
      var p, q := Split(0, k).p, Split(0, k).q;
      var f3, f1, c, f6 := Factorial(3 * k - 3), Factorial(k - 1), Pow(SERIES_BASE, 3 * k - 3), Factorial(6 * k - 6);
      assert 3 * (k - 1) == 3 * k - 3 && 6 * (k - 1) == 6 * k - 6;
      assert p * (f3 * (f1 * f1 * f1) * c) == q * f6;
      var x3 := 3 * k * (3 * k - 1) * (3 * k - 2);
      var x6 := (6 * k) * (6 * k - 1) * (6 * k - 2) * ((6 * k - 3) * (6 * k - 4) * (6 * k - 5));
      FactorialThree(3 * k);
      FactorialStep6(k);
      LeafAgainstFactorials(k);
      assert Pow(SERIES_BASE, 3 * k) == c * 262537412640768000 by {
        var m := 3 * k;
        assert Pow(SERIES_BASE, m) == SERIES_BASE * Pow(SERIES_BASE, m - 1);
        assert Pow(SERIES_BASE, m - 1) == SERIES_BASE * Pow(SERIES_BASE, m - 2);
        assert Pow(SERIES_BASE, m - 2) == SERIES_BASE * c;
      }
      var k3 := k * k * k;
      assert Factorial(k) == k * f1;
      CubeOfProduct(k, f1);
      CombineTerm(p, q, f3, f1 * f1 * f1, c, f6, LeafP(k), x3, x6, k3);
    }
  }

  lemma CubeOfProduct(k: int, f: int)
    ensures (k * f) * (k * f) * (k * f) == (f * f * f) * (k * k * k)
  {
    var kk, ff := k * k, f * f;
    assert (k * f) * (k * f) == kk * ff;
    assert kk * ff * (k * f) == (ff * f) * (kk * k);
  }

  lemma CombineTerm(p: int, q: int, f3: int, g: int, c: int, f6: int, leafP: int, x3: int, x6: int, k3: int)
    requires p * (f3 * g * c) == q * f6
    requires 24 * leafP * x3 == x6
    ensures (p * leafP) * ((f3 * x3) * (g * k3) * (c * 262537412640768000)) == (q * (k3 * Q_CONSTANT)) * (f6 * x6)
  {
    var d := 262537412640768000;
    assert 24 * Q_CONSTANT == d;
    calc {
      (p * leafP) * ((f3 * x3) * (g * k3) * (c * d));
      { Regroup8(p, leafP, f3, x3, g, k3, c); }
      d * ((p * (f3 * g * c)) * (leafP * x3 * k3));
      d * ((q * f6) * (leafP * x3 * k3));
      { assert d * ((q * f6) * (leafP * x3 * k3)) == 24 * Q_CONSTANT * ((q * f6) * (leafP * x3 * k3)); }
      Q_CONSTANT * (24 * ((q * f6) * (leafP * x3 * k3)));
      { Regroup24(q * f6, leafP, x3, k3); }
      Q_CONSTANT * ((q * f6) * (x6 * k3));
      { Regroup4(q, f6, x6, k3); }
      (q * (k3 * Q_CONSTANT)) * (f6 * x6);
    }
  }

  lemma Regroup8(p: int, l: int, f: int, x: int, g: int, k: int, c: int)
    ensures (p * l) * ((f * x) * (g * k) * (c * 262537412640768000))
         == 262537412640768000 * ((p * (f * g * c)) * (l * x * k))
  {
    var fg, xk := f * g, x * k;
    assert (f * x) * (g * k) == fg * xk;
    assert fg * xk * (c * 262537412640768000) == 262537412640768000 * ((fg * c) * xk);
    var e := fg * c;
    assert (p * l) * (262537412640768000 * (e * xk)) == 262537412640768000 * ((p * l) * (e * xk));
    assert (p * l) * (e * xk) == (p * e) * (l * xk);
    assert l * xk == l * x * k;
  }

  lemma Regroup24(a: int, l: int, x: int, k: int)
    ensures 24 * (a * (l * x * k)) == a * ((24 * l * x) * k)
  {
    assert 24 * (a * (l * x * k)) == a * (24 * (l * x * k));
    assert 24 * (l * x * k) == (24 * l * x) * k;
  }

  lemma Regroup4(q: int, f: int, x: int, k: int)
    ensures Q_CONSTANT * ((q * f) * (x * k)) == (q * (k * Q_CONSTANT)) * (f * x)
  {
    assert (q * f) * (x * k) == (q * k) * (f * x);
    assert Q_CONSTANT * ((q * k) * (f * x)) == (Q_CONSTANT * (q * k)) * (f * x);
    assert Q_CONSTANT * (q * k) == q * (k * Q_CONSTANT);
  }

  // ---------- T(0,N) / Q(0,N) is the N-term sum ----------

  /** Term k of the series: (-1)^k (6k)! (13591409 + 545140134 k) / ((3k)! (k!)^3 640320^(3k)). */
  function Term(k: nat): real {
    TermDenominatorPositive(k);
    (Coefficient(k) * Factorial(6 * k)) as real / TermDenominator(k) as real
  }

  function SumOf(term: nat -> real, n: nat): real {
    if n == 0 then 0.0 else SumOf(term, n - 1) + term(n - 1)
  }

  function PartialSum(n: nat): real {
    SumOf(Term, n)
  }

  lemma ScaleTerm(sl: int, p: int, q: int, d: int, f: int)
    requires d > 0 && p * d == q * f
    ensures sl as real * p as real == (sl * f) as real / d as real * q as real
  {
    assert sl * p * d == sl * f * q by {
      assert sl * (p * d) == sl * (q * f);
    }
    assert (sl * p * d) as real == sl as real * p as real * d as real;
    assert (sl * f * q) as real == (sl * f) as real * q as real;
    DivideOut(sl as real * p as real, d as real, (sl * f) as real, q as real);
  }

  lemma DivideOut(a: real, d: real, n: real, q: real)
    requires d > 0.0 && a * d == n * q
    ensures a == n / d * q
  {
    var r := n / d;
    assert r * d == n;
    assert (a - r * q) * d == a * d - r * d * q;
    assert (a - r * q) * d == 0.0;
  }

  /** The number a node stands for. */
  function Value(v: Pqt): real
    requires v.q > 0
  {
    v.t as real / v.q as real
  }

  lemma AddTerm(before: Pqt, leaf: Pqt, now: Pqt, sl: int, term: real)
    requires now == Join(before, leaf)
    requires before.q > 0 && leaf.q > 0 && now.q > 0
    requires leaf.t == sl * leaf.p
    requires sl as real * now.p as real == term * now.q as real
    ensures Value(now) == Value(before) + term
  {
    var b, q := before.q as real, leaf.q as real;
    assert now.t == before.t * leaf.q + sl * now.p by {
      assert before.p * (sl * leaf.p) == sl * (before.p * leaf.p);
    }
    assert (before.t * leaf.q) as real == before.t as real * q;
    assert (sl * now.p) as real == sl as real * now.p as real;
    assert now.q as real == b * q;
    AddQuotient(before.t as real, b, q, term);
  }

  lemma AddQuotient(t: real, b: real, q: real, term: real)
    requires b > 0.0 && q > 0.0
    ensures b * q > 0.0
    ensures (t * q + term * (b * q)) / (b * q) == t / b + term
  {
    var r := t / b;
    assert r * b == t;
    var d := b * q;
    assert t * q == r * d;
    assert t * q + term * d == (r + term) * d;
    assert (r + term) * d / d == r + term;
  }

  lemma TermOverDenominator(k: nat, p: int, q: int)
    requires p * TermDenominator(k) == q * Factorial(6 * k)
    ensures Coefficient(k) as real * p as real == Term(k) * q as real
  {
    TermDenominatorPositive(k);
    ScaleTerm(Coefficient(k), p, q, TermDenominator(k), Factorial(6 * k));
  }

  lemma StepFromIdentity(k: nat, before: Pqt, now: Pqt)
    requires now == Join(before, Leaf(k))
    requires before.q > 0 && now.q > 0
    requires now.p * TermDenominator(k) == now.q * Factorial(6 * k)
    ensures Value(now) == Value(before) + Term(k)
  {
    LeafPositive(k);
    TermOverDenominator(k, now.p, now.q);
    AddTerm(before, Leaf(k), now, Coefficient(k), Term(k));
  }

  lemma ValueStep(k: nat)
    requires k > 0
    ensures Split(0, k).q > 0 && Split(0, k + 1).q > 0
    ensures Value(Split(0, k + 1)) == Value(Split(0, k)) + Term(k)
  {
    SplitPositive(0, k);
    SplitPositive(0, k + 1);
    SplitAppend(0, k, k + 1);
    TermIdentity(k);
    StepFromIdentity(k, Split(0, k), Split(0, k + 1));
  }

  /** The number the node of [0,n) stands for. */
  function PrefixValue(n: nat): real
    requires n > 0
  {
    SplitPositive(0, n);
    Value(Split(0, n))
  }

  lemma {:induction false} Accumulate(value: nat --> real, term: nat -> real, n: nat)
    requires n > 0
    requires forall k: nat | 0 < k :: value.requires(k)
    requires forall k: nat | 0 < k < n :: value(k + 1) == value(k) + term(k)
    requires value(1) == term(0)
    ensures value(n) == SumOf(term, n)
  {
    if n == 1 {
      assert SumOf(term, 1) == SumOf(term, 0) + term(0);
    } else {
      Accumulate(value, term, n - 1);
    }
  }

  lemma FirstValue()
    ensures PrefixValue(1) == Term(0)
  {
    assert Split(0, 1) == Pqt(1, 1, 13591409);
    assert Factorial(0) == 1 && Pow(SERIES_BASE, 0) == 1;
    assert TermDenominator(0) == 1;
    assert Term(0) == 13591409.0;
  }

  /** T(0,N) / Q(0,N) is exactly the sum of the first N terms of the series. */
  lemma SplitIsPartialSum(n: nat)
    requires n > 0
    ensures Split(0, n).q > 0
    ensures Split(0, n).t as real / Split(0, n).q as real == PartialSum(n)
  {
    forall k: nat | 0 < k < n ensures PrefixValue(k + 1) == PrefixValue(k) + Term(k) {
      ValueStep(k);
    }
    FirstValue();
    Accumulate(PrefixValue, Term, n);
    SplitPositive(0, n);
  }

  // ---------- size of T ----------

  /** Q_k >= 151931373056000 P_k for every k >= 1. */
  lemma LeafConvergence(k: nat)
    requires k >= 1
    ensures CONVERGENCE * LeafP(k) <= LeafQ(k)
  {
    var k2, k3 := k * k, k * k * k;
    assert k2 * k == k3;
    assert (6 * k - 5) * (2 * k - 1) == 12 * k2 - 16 * k + 5;
    assert LeafP(k) == (12 * k2 - 16 * k + 5) * (6 * k - 1);
    assert (12 * k2 - 16 * k + 5) * (6 * k - 1) == 72 * k3 - 108 * k2 + 46 * k - 5;
    assert k2 >= k;
    assert LeafP(k) <= 72 * k3;
  }

  /** One alternating step: prepending a term of magnitude l P to a tail of the other sign. */
  lemma TailStep(l: int, l1: int, leaf: Pqt, rest: Pqt, u: int)
    requires l > 0 && leaf.p > 0 && rest.q > 0 && l1 <= CONVERGENCE * l
    requires CONVERGENCE * leaf.p <= leaf.q
    requires 0 <= u && CONVERGENCE * u <= l1 * rest.q
    ensures var t := l * leaf.p * rest.q - leaf.p * u;
            0 <= t && CONVERGENCE * t <= l * (leaf.q * rest.q)
  {
    var p, w := leaf.p, l * rest.q;
    Scaled(l1, CONVERGENCE * l, rest.q);
    assert (CONVERGENCE * l) * rest.q == CONVERGENCE * w;
    assert u <= w;
    MultiplyMonotone(0, p, 0, w - u);
    MultiplyMonotone(0, p, 0, u);
    Apart(p, w, u);
    MultiplyMonotone(CONVERGENCE * p, leaf.q, w, w);
    assert (CONVERGENCE * p) * w == CONVERGENCE * (p * w);
    Exchanged(l, p, rest.q);
    Exchanged(l, leaf.q, rest.q);
  }

  lemma Apart(p: int, w: int, u: int)
    ensures p * (w - u) == p * w - p * u
  {
  }

  lemma Exchanged(l: int, p: int, q: int)
    ensures l * p * q == p * (l * q) && l * (p * q) == p * (l * q)
  {
  }

  lemma SignedJoin(k: nat, l: int, leaf: Pqt, rest: Pqt)
    requires leaf.t == Signed(k, l) * leaf.p
    ensures Signed(k, Join(leaf, rest).t) == l * leaf.p * rest.q - leaf.p * Signed(k + 1, rest.t)
  {
    assert (-l) * leaf.p * rest.q == -(l * leaf.p * rest.q);
    assert leaf.p * (-rest.t) == -(leaf.p * rest.t);
  }

  /** T of a range that starts at a has the sign of its first term and at most
      Linear(a) / 151931373056000 of the size of Q: the series alternates and shrinks. */
  lemma {:induction false} TailBound(a: nat, b: nat)
    requires 1 <= a < b
    ensures 0 <= Signed(a, Split(a, b).t)
    ensures CONVERGENCE * Signed(a, Split(a, b).t) <= Linear(a) * Split(a, b).q
    decreases b - a
  {
    hide Split;
    SplitStep(a, b);
    LeafPositive(a);
    LeafConvergence(a);
    if b - a == 1 {
      LeafTail(a, Linear(a), Leaf(a));
    } else {
      TailBound(a + 1, b);
      SplitPositive(a + 1, b);
      SignedJoin(a, Linear(a), Leaf(a), Split(a + 1, b));
      TailStep(Linear(a), Linear(a + 1), Leaf(a), Split(a + 1, b), Signed(a + 1, Split(a + 1, b).t));
    }
  }

  lemma LeafTail(k: nat, l: int, leaf: Pqt)
    requires l > 0 && leaf.p > 0 && CONVERGENCE * leaf.p <= leaf.q
    requires leaf.t == Signed(k, l) * leaf.p
    ensures 0 <= Signed(k, leaf.t) && CONVERGENCE * Signed(k, leaf.t) <= l * leaf.q
  {
    assert Signed(k, leaf.t) == l * leaf.p;
    assert CONVERGENCE * (l * leaf.p) == l * (CONVERGENCE * leaf.p) <= l * leaf.q;
  }

  lemma FirstTerm(n: nat)
    requires n > 1
    ensures Split(0, n).q == Split(1, n).q
    ensures Split(0, n).t == 13591409 * Split(1, n).q + Split(1, n).t
  {
    hide Split;
    SplitStep(0, n);
    assert Leaf(0) == Pqt(1, 1, 13591409);
  }

  lemma SplitOfFirst()
    ensures Split(0, 1) == Pqt(1, 1, 13591409)
  {
  }

  lemma TailFromOne(n: nat)
    requires n > 1
    ensures -Split(1, n).q <= Split(1, n).t <= 0
  {
    TailBound(1, n);
    SmallTail(Linear(1), Split(1, n));
  }

  lemma SmallTail(l: int, tail: Pqt)
    requires l == 558731543
    requires 0 <= -tail.t && CONVERGENCE * -tail.t <= l * tail.q
    ensures -tail.q <= tail.t <= 0
  {
  }

  /** 13591408 Q(0,N) <= T(0,N) <= 13591409 Q(0,N) for every N >= 1: T is never zero. */
  lemma TAgainstQ(n: nat)
    requires n >= 1
    ensures Split(0, n).q > 0
    ensures 13591408 * Split(0, n).q <= Split(0, n).t <= 13591409 * Split(0, n).q
  {
    SplitPositive(0, n);
    if n > 1 {
      FirstTerm(n);
      TailFromOne(n);
    } else {
      SplitOfFirst();
    }
  }

  lemma ConvergenceStep(c: int, p: int, q: int, leafP: int, leafQ: int)
    requires c >= 0 && p >= 0 && leafP >= 0
    requires c * p <= q && CONVERGENCE * leafP <= leafQ
    ensures (CONVERGENCE * c) * (p * leafP) <= q * leafQ
  {
    assert 0 <= c * p;
    MultiplyMonotone(c * p, q, CONVERGENCE * leafP, leafQ);
    assert (CONVERGENCE * c) * (p * leafP) == CONVERGENCE * (c * (p * leafP));
    assert c * (p * leafP) == (c * p) * leafP;
    assert CONVERGENCE * ((c * p) * leafP) == (c * p) * (CONVERGENCE * leafP);
  }

  /** P against Q over [0,N): N - 1 factors of at least 151931373056000. */
  lemma {:induction false} PrefixConvergence(n: nat)
    requires n >= 1
    ensures Pow(CONVERGENCE, n - 1) * Split(0, n).p <= Split(0, n).q
  {
    if n > 1 {
      var k := n - 1;
      PrefixConvergence(k);
      SplitAppend(0, k, k + 1);
      SplitPositive(0, k);
      LeafPositive(k);
      LeafConvergence(k);
      PowPositive(CONVERGENCE, k - 1);
      ConvergenceStep(Pow(CONVERGENCE, k - 1), Split(0, k).p, Split(0, k).q, LeafP(k), LeafQ(k));
    } else {
      SplitOfFirst();
    }
  }

  /** The part of the series after term N, over every longer partial sum M: with
      Q(0,N) >= scale P(0,N) it is at most Linear(N) / (151931373056000 scale). */
  lemma TruncationBound(n: nat, m: nat, scale: nat)
    requires 1 <= n < m
    requires Split(0, n).q >= scale * Split(0, n).p
    ensures var low, high := Split(0, n), Split(0, m);
            var gap := high.t * low.q - low.t * high.q;
            && 0 <= Signed(n, gap)
            && CONVERGENCE * scale * Signed(n, gap) <= Linear(n) * (high.q * low.q)
  {
    SplitAppend(0, n, m);
    SplitPositive(0, n);
    SplitPositive(n, m);
    TailBound(n, m);
    GapOfTail(n, Split(0, n), Split(n, m), Linear(n), scale);
  }

  lemma GapOfTail(k: nat, low: Pqt, tail: Pqt, l: int, scale: nat)
    requires low.p > 0 && low.q > 0 && tail.q > 0 && low.q >= scale * low.p
    requires 0 <= Signed(k, tail.t) && CONVERGENCE * Signed(k, tail.t) <= l * tail.q
    ensures var high := Join(low, tail);
            var gap := high.t * low.q - low.t * high.q;
            && 0 <= Signed(k, gap)
            && CONVERGENCE * scale * Signed(k, gap) <= l * (high.q * low.q)
  {
    var high := Join(low, tail);
    var gap := high.t * low.q - low.t * high.q;
    var u := Signed(k, tail.t);
    GapAlgebra(low.t, low.p, low.q, tail.t, tail.q);
    assert gap == low.p * tail.t * low.q;
    SignedProduct(k, low.p, tail.t, low.q);
    MultiplyMonotone(0, low.p, 0, u);
    MultiplyMonotone(0, low.p * u, 0, low.q);
    BoundGap(CONVERGENCE, scale, low.p, u, low.q, l, tail.q);
  }

  lemma GapAlgebra(t: int, p: int, q: int, tailT: int, tailQ: int)
    ensures (t * tailQ + p * tailT) * q - t * (q * tailQ) == p * tailT * q
  {
    var x, y := t * tailQ, p * tailT;
    assert (x + y) * q == x * q + y * q;
    assert t * (q * tailQ) == x * q;
  }

  lemma SignedProduct(k: nat, p: int, t: int, q: int)
    ensures Signed(k, p * t * q) == p * Signed(k, t) * q
  {
    var y := p * t;
    assert p * (-t) == -y && (-y) * q == -(y * q);
  }

  lemma BoundGap(c: int, scale: int, p: int, u: int, q: int, l: int, tq: int)
    requires c > 0 && scale >= 0 && p > 0 && u >= 0 && q > 0 && tq > 0
    requires q >= scale * p && c * u <= l * tq
    ensures c * scale * (p * u * q) <= l * (q * tq * q)
  {
    var sp, cu, lt := scale * p, c * u, l * tq;
    assert sp >= 0 && cu >= 0;
    MultiplyMonotone(sp, q, cu, lt);
    Scaled(sp * cu, q * lt, q);
    LeftSide(c, scale, p, u, q);
    RightSide(q, l, tq);
  }

  lemma Scaled(a: int, b: int, q: int)
    requires a <= b && q > 0
    ensures a * q <= b * q
  {
  }

  lemma LeftSide(c: int, scale: int, p: int, u: int, q: int)
    ensures c * scale * (p * u * q) == (scale * p) * (c * u) * q
  {
    Exchange(c, scale, p, u);
    var x, y := c * scale, p * u;
    assert x * (y * q) == (x * y) * q;
  }

  lemma Exchange(c: int, scale: int, p: int, u: int)
    ensures (c * scale) * (p * u) == (scale * p) * (c * u)
  {
    calc {
      (c * scale) * (p * u);
      scale * (c * (p * u));
      scale * (p * (c * u));
      (scale * p) * (c * u);
    }
  }

  lemma RightSide(q: int, l: int, tq: int)
    ensures q * (l * tq) * q == l * (q * tq * q)
  {
    assert q * (l * tq) == l * (q * tq);
    assert (l * (q * tq)) * q == l * ((q * tq) * q);
  }
}
