/** The residue verifier: P, Q and T of a range recomputed modulo three primes with 64-bit arithmetic,
    and compared with the residues of a block (src/checkpoint/ModularPQTVerifier.cpp). */
module ModularVerifier {
  import opened Chudnovsky
  import opened CheckpointTypes
  import opened ComputationIdentity
  import opened DivMod
  import opened Widths

  const PRIME_A: nat := 998244353
  const PRIME_B: nat := 1000000007
  const PRIME_C: nat := 1000000009
  const VERIFICATION_PRIMES: seq<nat> := [PRIME_A, PRIME_B, PRIME_C]

  /** Every prime is far below 2^32. */
  predicate SmallModulus(prime: nat) {
    7 <= prime < 0x8000_0000
  }

  /** Unsigned 64-bit arithmetic wraps around. */
  function Wrap64(x: int): (r: nat)
    ensures 0 <= x <= U64_MAX ==> r == x
  {
    x % 0x1_0000_0000_0000_0000
  }

  datatype Residues = Residues(p: nat, q: nat, t: nat)

  // ---------- the source's arithmetic, wrapping ----------

  function Multiply(left: nat, right: nat, prime: nat): nat
    requires prime > 0
  {
    Wrap64(left * right) % prime
  }

  function SubtractSmall(value: nat, amount: nat, prime: nat): nat
    requires prime > 0
  {
    Wrap64(Wrap64(value + prime) - amount) % prime
  }

  function AddModulo(left: nat, right: nat, prime: nat): nat
    requires prime > 0
  {
    Wrap64(left + right) % prime
  }

  function LeafP64(k: nat, prime: nat): nat
    requires prime > 0
  {
    var first := SubtractSmall(Multiply(6, k, prime), 5, prime);
    var second := SubtractSmall(Multiply(2, k, prime), 1, prime);
    var third := SubtractSmall(Multiply(6, k, prime), 1, prime);
    Multiply(Multiply(first, second, prime), third, prime)
  }

  function LeafQ64(k: nat, prime: nat): nat
    requires prime > 0
  {
    Multiply(Multiply(Multiply(k, k, prime), k, prime), Q_CONSTANT % prime, prime)
  }

  function LeafT64(term: nat, k: nat, p: nat, prime: nat): nat
    requires prime > 0
  {
    var linear := AddModulo(Multiply(k, T_MULTIPLIER % prime, prime), T_CONSTANT % prime, prime);
    var t := Multiply(linear, p, prime);
    if term % 2 != 0 && t != 0 then Wrap64(prime - t) else t
  }

  function LeafResidues(term: nat, prime: nat): Residues
    requires prime > 0
  {
    if term == 0 then
      Residues(1, 1, T_CONSTANT % prime)
    else
      var k := term % prime;
      var p := LeafP64(k, prime);
      Residues(p, LeafQ64(k, prime), LeafT64(term, k, p, prime))
  }

  function MergeResidues(left: Residues, right: Residues, prime: nat): Residues
    requires prime > 0
  {
    Residues(Multiply(left.p, right.p, prime),
             Multiply(left.q, right.q, prime),
             AddModulo(Multiply(left.t, right.q, prime), Multiply(left.p, right.t, prime), prime))
  }

  function Calculate(start: nat, end: nat, prime: nat): Residues
    requires start < end && prime > 0
    decreases end - start
  {
    if end - start == 1 then
      LeafResidues(start, prime)
    else
      var middle := start + (end - start) / 2;
      MergeResidues(Calculate(start, middle, prime), Calculate(middle, end, prime), prime)
  }

  // ---------- residues of integers ----------

  /** r is the canonical residue of x. */
  predicate IsResidue(r: nat, x: int, prime: nat)
    requires prime > 0
  {
    r == x % prime
  }

  lemma ModProduct(x: int, y: int, m: nat)
    requires m > 0
    ensures ((x % m) * (y % m)) % m == (x * y) % m
  {
    var a, r, b, s := x / m, x % m, y / m, y % m;
    var q, rest := (r * s) / m, (r * s) % m;
    assert x == a * m + r && y == b * m + s && r * s == q * m + rest;
    ExpandProduct(a, r, b, s, m);
    var high := a * b * m + a * s + r * b;
    var whole := high + q;
    SumTimes(high, q, m);
    ModUnique(x * y, m, whole, rest);
  }

  lemma SumTimes(a: int, b: int, m: int)
    ensures (a + b) * m == a * m + b * m
  {
  }

  lemma ExpandProduct(a: int, r: int, b: int, s: int, m: int)
    ensures (a * m + r) * (b * m + s) == (a * b * m + a * s + r * b) * m + r * s
  {
    calc {
      (a * m + r) * (b * m + s);
      a * m * (b * m + s) + r * (b * m + s);
      a * m * (b * m) + a * m * s + r * (b * m) + r * s;
      a * b * m * m + a * s * m + r * b * m + r * s;
    }
  }

  lemma ModSum(x: int, y: int, m: nat)
    requires m > 0
    ensures ((x % m) + (y % m)) % m == (x + y) % m
  {
    var a, r, b, s := x / m, x % m, y / m, y % m;
    assert x == a * m + r && y == b * m + s;
    var q, rest := (r + s) / m, (r + s) % m;
    assert r + s == q * m + rest;
    assert (a + b + q) * m == a * m + b * m + q * m;
    ModUnique(x + y, m, a + b + q, rest);
  }

  lemma ModNegate(x: int, m: nat)
    requires m > 0
    ensures (-x) % m == if x % m == 0 then 0 else m - x % m
  {
    var q, r := x / m, x % m;
    assert x == q * m + r;
    if r == 0 {
      assert (-q) * m == -(q * m);
      ModUnique(-x, m, -q, 0);
    } else {
      assert (-q - 1) * m == -(q * m) - m;
      ModUnique(-x, m, -q - 1, m - r);
    }
  }

  // ---------- no intermediate wraps, so every step keeps the residue ----------

  /** Below 2^31 a product, a sum and a lifted difference all fit 64 bits. */
  lemma NoOverflow(left: nat, right: nat, prime: nat)
    requires SmallModulus(prime) && left < prime && right < prime
    ensures left * right <= U64_MAX && left + right <= U64_MAX && left + prime <= U64_MAX
  {
    ProductBelow(left, right, 0x8000_0000);
  }

  lemma ProductBelow(left: nat, right: nat, bound: nat)
    requires left <= bound && right <= bound
    ensures left * right <= bound * bound
  {
    assert left * right <= bound * right;
    assert bound * right <= bound * bound;
  }

  lemma MultiplyResidue(left: nat, right: nat, x: int, y: int, prime: nat)
    requires SmallModulus(prime) && IsResidue(left, x, prime) && IsResidue(right, y, prime)
    ensures IsResidue(Multiply(left, right, prime), x * y, prime)
  {
    hide Wrap64;
    NoOverflow(left, right, prime);
    WrapKeeps(left * right, prime);
    ModProduct(x, y, prime);
  }

  lemma WrapKeeps(product: int, prime: nat)
    requires 0 <= product <= U64_MAX && prime > 0
    ensures Wrap64(product) % prime == product % prime
  {
  }

  lemma AddResidue(left: nat, right: nat, x: int, y: int, prime: nat)
    requires SmallModulus(prime) && IsResidue(left, x, prime) && IsResidue(right, y, prime)
    ensures IsResidue(AddModulo(left, right, prime), x + y, prime)
  {
    NoOverflow(left, right, prime);
    ModSum(x, y, prime);
  }

  lemma SubtractResidue(value: nat, amount: nat, x: int, prime: nat)
    requires SmallModulus(prime) && IsResidue(value, x, prime) && amount < prime
    ensures IsResidue(SubtractSmall(value, amount, prime), x - amount, prime)
  {
    NoOverflow(value, amount, prime);
    var q := x / prime;
    assert x == q * prime + value;
    var r := (value + prime - amount) % prime;
    var s := (value + prime - amount) / prime;
    assert value + prime - amount == s * prime + r;
    assert (q + s - 1) * prime == q * prime + s * prime - prime;
    ModUnique(x - amount, prime, q + s - 1, r);
  }

  lemma SmallResidue(x: nat, prime: nat)
    requires prime > 0 && x < prime
    ensures IsResidue(x, x, prime)
  {
  }

  lemma LeafPResidue(term: nat, prime: nat)
    requires SmallModulus(prime) && term > 0
    ensures IsResidue(LeafP64(term % prime, prime), LeafP(term), prime)
  {
    var k := term % prime;
    SmallResidue(6, prime);
    SmallResidue(2, prime);
    MultiplyResidue(6, k, 6, term, prime);
    MultiplyResidue(2, k, 2, term, prime);
    var first := SubtractSmall(Multiply(6, k, prime), 5, prime);
    var second := SubtractSmall(Multiply(2, k, prime), 1, prime);
    var third := SubtractSmall(Multiply(6, k, prime), 1, prime);
    SubtractResidue(Multiply(6, k, prime), 5, 6 * term, prime);
    SubtractResidue(Multiply(2, k, prime), 1, 2 * term, prime);
    SubtractResidue(Multiply(6, k, prime), 1, 6 * term, prime);
    MultiplyResidue(first, second, 6 * term - 5, 2 * term - 1, prime);
    MultiplyResidue(Multiply(first, second, prime), third, (6 * term - 5) * (2 * term - 1), 6 * term - 1, prime);
  }

  lemma LeafQResidue(term: nat, prime: nat)
    requires SmallModulus(prime) && term > 0
    ensures IsResidue(LeafQ64(term % prime, prime), LeafQ(term), prime)
  {
    var k := term % prime;
    MultiplyResidue(k, k, term, term, prime);
    MultiplyResidue(Multiply(k, k, prime), k, term * term, term, prime);
    MultiplyResidue(Multiply(Multiply(k, k, prime), k, prime), Q_CONSTANT % prime, term * term * term, Q_CONSTANT, prime);
  }

  lemma LeafTResidue(term: nat, p: nat, prime: nat)
    requires SmallModulus(prime) && IsResidue(p, LeafP(term), prime)
    ensures IsResidue(LeafT64(term, term % prime, p, prime), Coefficient(term) * LeafP(term), prime)
  {
    var k := term % prime;
    MultiplyResidue(k, T_MULTIPLIER % prime, term, T_MULTIPLIER, prime);
    AddResidue(Multiply(k, T_MULTIPLIER % prime, prime), T_CONSTANT % prime, term * T_MULTIPLIER, T_CONSTANT, prime);
    var linear := AddModulo(Multiply(k, T_MULTIPLIER % prime, prime), T_CONSTANT % prime, prime);
    MultiplyResidue(linear, p, Linear(term), LeafP(term), prime);
    ModNegate(Linear(term) * LeafP(term), prime);
    NegatedProduct(Linear(term), LeafP(term));
  }

  predicate ResiduesOf(r: Residues, v: Pqt, prime: nat)
    requires prime > 0
  {
    IsResidue(r.p, v.p, prime) && IsResidue(r.q, v.q, prime) && IsResidue(r.t, v.t, prime)
  }

  lemma LeafResiduesCorrect(term: nat, prime: nat)
    requires SmallModulus(prime)
    ensures ResiduesOf(LeafResidues(term, prime), Leaf(term), prime)
  {
    if term > 0 {
      LeafPResidue(term, prime);
      LeafQResidue(term, prime);
      LeafTResidue(term, LeafP64(term % prime, prime), prime);
    }
  }

  lemma MergeResiduesCorrect(l: Residues, r: Residues, x: Pqt, y: Pqt, prime: nat)
    requires SmallModulus(prime) && ResiduesOf(l, x, prime) && ResiduesOf(r, y, prime)
    ensures ResiduesOf(MergeResidues(l, r, prime), Join(x, y), prime)
  {
    MultiplyResidue(l.p, r.p, x.p, y.p, prime);
    MultiplyResidue(l.q, r.q, x.q, y.q, prime);
    MultiplyResidue(l.t, r.q, x.t, y.q, prime);
    MultiplyResidue(l.p, r.t, x.p, y.t, prime);
    AddResidue(Multiply(l.t, r.q, prime), Multiply(l.p, r.t, prime), x.t * y.q, x.p * y.t, prime);
  }

  /** The wrapping recursion computes the residues of the exact recursion. */
  lemma {:induction false} CalculateIsHalving(start: nat, end: nat, prime: nat)
    requires start < end && SmallModulus(prime)
    ensures ResiduesOf(Calculate(start, end, prime), Halving(start, end), prime)
    decreases end - start
  {
    if end - start == 1 {
      LeafResiduesCorrect(start, prime);
    } else {
      var middle := start + (end - start) / 2;
      CalculateIsHalving(start, middle, prime);
      CalculateIsHalving(middle, end, prime);
      MergeResiduesCorrect(Calculate(start, middle, prime), Calculate(middle, end, prime),
                           Halving(start, middle), Halving(middle, end), prime);
    }
  }

  lemma CalculateIsSplit(start: nat, end: nat, prime: nat)
    requires start < end && SmallModulus(prime)
    ensures ResiduesOf(Calculate(start, end, prime), Split(start, end), prime)
  {
    CalculateIsHalving(start, end, prime);
    HalvingIsSplit(start, end);
  }

  // ---------- validate ----------

  predicate Congruent(x: int, y: int, m: nat)
    requires m > 0
  {
    x % m == y % m
  }

  predicate CongruentNodes(v: Pqt, w: Pqt, m: nat)
    requires m > 0
  {
    Congruent(v.p, w.p, m) && Congruent(v.q, w.q, m) && Congruent(v.t, w.t, m)
  }

  /** `ModularPQTVerifier::validate`: the number of diagnostics stands for their text. */
  method Validate(identity: Identity, location: BlockLocation, v: Pqt) returns (accepted: bool)
    ensures accepted <==>
              && identity.Valid() && location.Valid(identity.termCount)
              && CongruentNodes(v, Split(location.start, location.end), PRIME_A * PRIME_B * PRIME_C)
  {
    if !identity.Valid() || !location.Valid(identity.termCount) {
      return false;
    }
    var diagnostics := 0;
    ghost var truth := Split(location.start, location.end);
    for index := 0 to |VERIFICATION_PRIMES|
      invariant diagnostics >= 0
      invariant diagnostics == 0 <==>
                  forall j | 0 <= j < index :: CongruentNodes(v, truth, VERIFICATION_PRIMES[j])
    {
      var prime := VERIFICATION_PRIMES[index];
      var expected := Calculate(location.start, location.end, prime);
      CalculateIsSplit(location.start, location.end, prime);
      var mismatches := "";
      if v.p % prime != expected.p { mismatches := mismatches + "P"; }
      if v.q % prime != expected.q { mismatches := mismatches + "Q"; }
      if v.t % prime != expected.t { mismatches := mismatches + "T"; }
      assert mismatches == "" <==> CongruentNodes(v, truth, VERIFICATION_PRIMES[index]);
      if mismatches != "" {
        diagnostics := diagnostics + 1;
      }
    }
    accepted := diagnostics == 0;
    AllPrimes(v, truth);
    AllPrimesIsProduct(v.p, truth.p);
    AllPrimesIsProduct(v.q, truth.q);
    AllPrimesIsProduct(v.t, truth.t);
  }

  lemma AllPrimes(v: Pqt, w: Pqt)
    ensures (forall j | 0 <= j < |VERIFICATION_PRIMES| :: CongruentNodes(v, w, VERIFICATION_PRIMES[j]))
       <==> CongruentNodes(v, w, PRIME_A) && CongruentNodes(v, w, PRIME_B) && CongruentNodes(v, w, PRIME_C)
  {
    assert VERIFICATION_PRIMES[0] == PRIME_A && VERIFICATION_PRIMES[1] == PRIME_B && VERIFICATION_PRIMES[2] == PRIME_C;
    if CongruentNodes(v, w, PRIME_A) && CongruentNodes(v, w, PRIME_B) && CongruentNodes(v, w, PRIME_C) {
      forall j | 0 <= j < |VERIFICATION_PRIMES| ensures CongruentNodes(v, w, VERIFICATION_PRIMES[j]) {
        assert j == 0 || j == 1 || j == 2;
      }
    }
  }

  /** A node of plain recursion always passes. */
  lemma TruthIsAccepted(v: Pqt)
    ensures CongruentNodes(v, v, PRIME_A * PRIME_B * PRIME_C)
  {
  }

  // ---------- three congruences are one, modulo the product ----------

  lemma CongruentDifference(x: int, y: int, m: nat)
    requires m > 0
    ensures Congruent(x, y, m) <==> (x - y) % m == 0
  {
    var q, r, q', r' := x / m, x % m, y / m, y % m;
    assert x == q * m + r && y == q' * m + r';
    DifferenceOfMultiples(q, q', m);
    if r >= r' {
      ModUnique(x - y, m, q - q', r - r');
    } else {
      assert (q - q' - 1) * m == (q - q') * m - m;
      ModUnique(x - y, m, q - q' - 1, m + r - r');
    }
  }

  lemma DivisibleByProduct(x: int, a: nat, b: nat, u: int, v: int)
    requires a > 0 && b > 0 && u * a + v * b == 1
    requires x % a == 0 && x % b == 0
    ensures a * b > 0 && x % (a * b) == 0
  {
    var i, j := x / a, x / b;
    assert x == i * a && x == j * b;
    calc {
      x;
      (u * a + v * b) * x;
      u * a * x + v * b * x;
      u * a * (j * b) + v * b * (i * a);
      { Regroup(u, a, j, b, v, i); }
      (u * j + v * i) * (a * b);
    }
    assert a * b > 0;
    ModUnique(x, a * b, u * j + v * i, 0);
  }

  lemma Regroup(u: int, a: int, j: int, b: int, v: int, i: int)
    ensures u * a * (j * b) + v * b * (i * a) == (u * j + v * i) * (a * b)
  {
    var ab := a * b;
    assert u * a * (j * b) == u * j * ab;
    assert v * b * (i * a) == v * i * ab;
  }

  lemma DivisibleByFactor(x: int, a: nat, b: nat)
    requires a > 0 && b > 0 && a * b > 0 && x % (a * b) == 0
    ensures x % a == 0
  {
    var k := x / (a * b);
    assert x == k * (a * b);
    assert k * (a * b) == k * b * a;
    ModUnique(x, a, k * b, 0);
  }

  lemma AllPrimesIsProduct(x: int, y: int)
    ensures Congruent(x, y, PRIME_A) && Congruent(x, y, PRIME_B) && Congruent(x, y, PRIME_C)
       <==> Congruent(x, y, PRIME_A * PRIME_B * PRIME_C)
  {
    var d, ab := x - y, PRIME_A * PRIME_B;
    CongruentDifference(x, y, PRIME_A);
    CongruentDifference(x, y, PRIME_B);
    CongruentDifference(x, y, PRIME_C);
    CongruentDifference(x, y, ab * PRIME_C);
    if d % PRIME_A == 0 && d % PRIME_B == 0 && d % PRIME_C == 0 {
      DivisibleByProduct(d, PRIME_A, PRIME_B, 4924091, -4915446);
      DivisibleByProduct(d, ab, PRIME_C, -370435043, 369784689088492806);
    }
    if d % (ab * PRIME_C) == 0 {
      DivisibleByFactor(d, ab, PRIME_C);
      DivisibleByFactor(d, PRIME_C, ab);
      DivisibleByFactor(d, PRIME_A, PRIME_B);
      DivisibleByFactor(d, PRIME_B, PRIME_A);
    }
  }
}
