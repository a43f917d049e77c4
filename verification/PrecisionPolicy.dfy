/** The integer-only precision plan (src/chudnovsky/PrecisionPolicy.cpp) and why its term
    count is enough. 64-bit arithmetic is written out: additions and multiplications either
    fail as the source fails or are taken modulo 2^64. */
module PrecisionPolicy {
  import opened Chudnovsky
  import opened ChudnovskySeries
  import opened Powers
  import opened Widths

  const MINIMUM_GUARD_DIGITS: int := 16
  const DIGITS_PER_TERM_SCALE: int := 1000000
  const DIGITS_PER_TERM_LOWER: int := 14181647

  datatype Result<T> = Ok(value: T) | InvalidArgument | Overflow

  datatype PrecisionPlan = PrecisionPlan(requestedDigits: nat, guardDigits: nat, workingDigits: nat,
                                         termCount: nat, estimatedBits: nat)

  function CheckedAdd(left: nat, right: nat): Result<nat>
    requires left <= U64_MAX && right <= U64_MAX
  {
    if right > U64_MAX - left then Overflow else Ok(left + right)
  }

  /** The smallest q with q * divisor >= product. */
  function CeilDiv(product: nat, divisor: nat): nat
    requires divisor > 0
  {
    if product % divisor == 0 then product / divisor else product / divisor + 1
  }

  /** The source's overflow guard before a 64-bit multiplication. */
  predicate ProductOverflows(a: nat, b: nat)
    requires b > 0
    ensures ProductOverflows(a, b) <==> a * b > U64_MAX
  {
    QuotientFits(a, b);
    a > U64_MAX / b
  }

  lemma QuotientFits(quotient: nat, multiplier: nat)
    requires 0 < multiplier
    ensures quotient > U64_MAX / multiplier <==> quotient * multiplier > U64_MAX
  {
    var m := U64_MAX / multiplier;
    assert m * multiplier <= U64_MAX < (m + 1) * multiplier;
    if quotient > m {
      assert quotient * multiplier >= (m + 1) * multiplier;
    } else {
      assert quotient * multiplier <= m * multiplier;
    }
  }

  /** Unsigned 64-bit multiplication. */
  function WrapMultiply(a: nat, b: nat): (product: nat)
    ensures a * b <= U64_MAX ==> product == a * b
  {
    (a * b) % (U64_MAX + 1)
  }

  function MultiplyDivideCeil(value: nat, multiplier: nat, divisor: nat): Result<nat>
    requires value <= U64_MAX && 0 < multiplier <= U64_MAX && 0 < divisor <= U64_MAX
  {
    var quotient, remainder := value / divisor, value % divisor;
    if ProductOverflows(quotient, multiplier) then Overflow else
    var whole := WrapMultiply(quotient, multiplier);
    var fraction := CeilDiv(WrapMultiply(remainder, multiplier), divisor);
    if fraction > U64_MAX - whole then Overflow else Ok(whole + fraction)
  }

  function Create(requestedDigits: nat, guardDigits: nat): Result<PrecisionPlan>
    requires requestedDigits <= U64_MAX && guardDigits <= U32_MAX
  {
    if requestedDigits == 0 || guardDigits < MINIMUM_GUARD_DIGITS then InvalidArgument else
    var working := CheckedAdd(requestedDigits, guardDigits);
    if !working.Ok? then Overflow else
    var perTerm := MultiplyDivideCeil(working.value, DIGITS_PER_TERM_SCALE, DIGITS_PER_TERM_LOWER);
    if !perTerm.Ok? then Overflow else
    var terms := CheckedAdd(perTerm.value, 1);
    if !terms.Ok? then Overflow else
    var scaled := CheckedAdd(working.value, 2);
    if !scaled.Ok? then Overflow else
    var bits := MultiplyDivideCeil(scaled.value, 3322, 1000);
    if !bits.Ok? then Overflow else
    var estimated := CheckedAdd(bits.value, 64);
    if !estimated.Ok? then Overflow else
    Ok(PrecisionPlan(requestedDigits, guardDigits, working.value, terms.value, estimated.value))
  }

  // ---------- the split product is the exact ceiling ----------

  lemma CeilDivLeast(product: nat, divisor: nat, q: nat)
    requires divisor > 0
    ensures q * divisor >= product <==> q >= CeilDiv(product, divisor)
  {
    CeilCompare(product / divisor, product % divisor, divisor, q);
  }

  lemma CeilCompare(whole: nat, rest: nat, divisor: nat, q: nat)
    requires rest < divisor
    ensures q * divisor >= whole * divisor + rest <==> q >= (if rest == 0 then whole else whole + 1)
  {
    if q > whole {
      assert q * divisor >= (whole + 1) * divisor == whole * divisor + divisor;
    } else if q < whole {
      assert q * divisor <= (whole - 1) * divisor == whole * divisor - divisor;
    }
  }

  /** A number c is the ceiling when it is the least multiple count that covers the product. */
  lemma CeilDivUnique(product: nat, divisor: nat, c: nat)
    requires divisor > 0
    requires c * divisor >= product && c * divisor - divisor < product
    ensures CeilDiv(product, divisor) == c
  {
    CeilDivLeast(product, divisor, c);
    if c > 0 {
      CeilDivLeast(product, divisor, c - 1);
      assert (c - 1) * divisor == c * divisor - divisor;
    }
  }

  lemma CeilDivBounds(product: nat, divisor: nat)
    requires divisor > 0 && product > 0
    ensures CeilDiv(product, divisor) * divisor - divisor < product <= CeilDiv(product, divisor) * divisor
  {
    var c := CeilDiv(product, divisor);
    CeilDivLeast(product, divisor, c);
    CeilDivLeast(product, divisor, 0);
    CeilDivLeast(product, divisor, c - 1);
    assert (c - 1) * divisor == c * divisor - divisor;
  }

  lemma CeilDivSplit(value: nat, multiplier: nat, divisor: nat)
    requires divisor > 0
    ensures CeilDiv(value * multiplier, divisor)
         == (value / divisor) * multiplier + CeilDiv((value % divisor) * multiplier, divisor)
  {
    SplitCeil(value, value / divisor, value % divisor, multiplier, divisor);
  }

  lemma SplitCeil(value: nat, quotient: nat, remainder: nat, multiplier: nat, divisor: nat)
    requires divisor > 0 && value == quotient * divisor + remainder
    ensures CeilDiv(value * multiplier, divisor)
         == quotient * multiplier + CeilDiv(remainder * multiplier, divisor)
  {
    var whole, rest := quotient * multiplier, remainder * multiplier;
    assert value * multiplier == whole * divisor + rest;
    CeilDivShift(whole, rest, divisor);
  }

  lemma CeilDivShift(whole: nat, rest: nat, divisor: nat)
    requires divisor > 0
    ensures whole * divisor >= 0 && CeilDiv(whole * divisor + rest, divisor) == whole + CeilDiv(rest, divisor)
  {
    var c := CeilDiv(rest, divisor);
    assert (whole + c) * divisor == whole * divisor + c * divisor;
    if rest > 0 {
      CeilDivBounds(rest, divisor);
    }
    assert (whole + c) * divisor - divisor < whole * divisor + rest;
    CeilDivUnique(whole * divisor + rest, divisor, whole + c);
  }

  /** `multiplyDivideCeil` against the exact ceiling of value * multiplier / divisor: a reported
      overflow is one, and a value is the ceiling if and only if the product of the remainder does
      not wrap; a wrapped product always makes it too small. */
  lemma MultiplyDivideCeilExact(value: nat, multiplier: nat, divisor: nat)
    requires value <= U64_MAX && 0 < multiplier <= U64_MAX && 0 < divisor <= U64_MAX
    ensures var exact, result := CeilDiv(value * multiplier, divisor), MultiplyDivideCeil(value, multiplier, divisor);
            var fits := (value % divisor) * multiplier <= U64_MAX;
            && (result.Ok? ==> if fits then result.value == exact else result.value < exact)
            && (result.Overflow? ==> exact > U64_MAX)
            && (fits && exact > U64_MAX ==> result.Overflow?)
            && !result.InvalidArgument?
  {
    hide CeilDiv, WrapMultiply;
    var quotient, remainder := value / divisor, value % divisor;
    CeilDivSplit(value, multiplier, divisor);
    QuotientFits(quotient, multiplier);
    ProductOrWrap(quotient, multiplier);
    ProductOrWrap(remainder, multiplier);
    if remainder * multiplier > U64_MAX {
      CeilDivDrops(WrapMultiply(remainder, multiplier), remainder * multiplier, divisor);
    }
  }

  lemma ProductOrWrap(a: nat, b: nat)
    ensures if a * b <= U64_MAX then WrapMultiply(a, b) == a * b else WrapMultiply(a, b) <= a * b - U64_MAX - 1
  {
    var product := a * b;
    assert product >= 0;
  }

  lemma CeilDivDrops(small: nat, large: nat, divisor: nat)
    requires divisor > 0 && small + divisor <= large
    ensures CeilDiv(small, divisor) < CeilDiv(large, divisor)
  {
    var c := CeilDiv(large, divisor);
    CeilDivBounds(large, divisor);
    CeilDivLeast(large, divisor, 0);
    assert (c - 1) * divisor == c * divisor - divisor;
    CeilDivLeast(small, divisor, c - 1);
  }

  /** Such a wrapped product exists; no caller in the source comes near it. */
  lemma WrappedProductIsTooSmall()
    ensures MultiplyDivideCeil(U64_MAX - 1, 2, U64_MAX) == Ok(1)
    ensures CeilDiv((U64_MAX - 1) * 2, U64_MAX) == 2
  {
    assert (U64_MAX - 1) / U64_MAX == 0 && (U64_MAX - 1) % U64_MAX == U64_MAX - 1;
    assert ((U64_MAX - 1) * 2) % (U64_MAX + 1) == U64_MAX - 3;
  }

  lemma RemainderFits(remainder: nat, multiplier: nat, divisor: nat)
    requires remainder < divisor && divisor * multiplier <= U64_MAX
    ensures 0 <= remainder * multiplier <= U64_MAX
  {
    assert 0 <= remainder * multiplier <= divisor * multiplier;
  }

  // ---------- which requests are accepted, and what the plan holds ----------

  /** `create` accepts a request exactly when the digits and guards are valid and the bit
      estimate fits 64 bits; it then returns the exact ceilings. */
  lemma CreateExact(requestedDigits: nat, guardDigits: nat)
    requires requestedDigits <= U64_MAX && guardDigits <= U32_MAX
    ensures var working := requestedDigits + guardDigits;
            var bits := CeilDiv((working + 2) * 3322, 1000) + 64;
            var plan := Create(requestedDigits, guardDigits);
            && (plan.Ok? <==> requestedDigits > 0 && guardDigits >= 16 && bits <= U64_MAX)
            && (plan.InvalidArgument? <==> requestedDigits == 0 || guardDigits < 16)
            && (plan.Ok? ==> plan.value == PrecisionPlan(requestedDigits, guardDigits, working,
                   CeilDiv(working * DIGITS_PER_TERM_SCALE, DIGITS_PER_TERM_LOWER) + 1, bits))
  {
    hide MultiplyDivideCeil, CeilDiv;
    var working := requestedDigits + guardDigits;
    if working <= U64_MAX {
      RemainderFits(working % DIGITS_PER_TERM_LOWER, DIGITS_PER_TERM_SCALE, DIGITS_PER_TERM_LOWER);
      MultiplyDivideCeilExact(working, DIGITS_PER_TERM_SCALE, DIGITS_PER_TERM_LOWER);
      TermsFit(working);
    }
    if working + 2 <= U64_MAX {
      RemainderFits((working + 2) % 1000, 3322, 1000);
      MultiplyDivideCeilExact(working + 2, 3322, 1000);
    } else {
      BitsOverflow(working + 2);
    }
  }

  lemma TermsFit(working: nat)
    requires working <= U64_MAX
    ensures CeilDiv(working * DIGITS_PER_TERM_SCALE, DIGITS_PER_TERM_LOWER) + 1 <= U64_MAX
  {
    CeilDivLeast(working * DIGITS_PER_TERM_SCALE, DIGITS_PER_TERM_LOWER, U64_MAX - 1);
  }

  lemma BitsOverflow(scaled: nat)
    requires scaled > U64_MAX
    ensures CeilDiv(scaled * 3322, 1000) > U64_MAX
  {
    CeilDivLeast(scaled * 3322, 1000, U64_MAX);
  }

  // ---------- 151931373056000^1000000 >= 10^14181647 ----------

  /** One squaring of a decimal lower bound, optionally with one more factor. */
  lemma SquareStep(n: nat, m: nat, e: nat, extra: nat, k: nat, next: nat) returns (n2: nat, e2: nat)
    requires extra <= 1
    requires Pow(CONVERGENCE, n) >= m * Pow(10, e)
    requires m * m * (if extra == 1 then CONVERGENCE else 1) >= next * Pow(10, k)
    ensures n2 == 2 * n + extra && e2 == 2 * e + k
    ensures Pow(CONVERGENCE, n2) >= next * Pow(10, e2)
  {
    n2, e2 := 2 * n + extra, 2 * e + k;
    var factor := if extra == 1 then CONVERGENCE else 1;
    assert Pow(CONVERGENCE, extra) == factor by {
      if extra == 1 { assert Pow(CONVERGENCE, 1) == CONVERGENCE * Pow(CONVERGENCE, 0); }
    }
    PowAdd(CONVERGENCE, n, n);
    PowAdd(CONVERGENCE, n + n, extra);
    PowAdd(10, e, e);
    PowAdd(10, e + e, k);
    PowPositive(10, e);
    CombineBounds(Pow(CONVERGENCE, n), Pow(10, e), m, factor, Pow(10, k), next);
  }

  lemma CombineBounds(c: int, t: int, m: nat, f: int, s: int, next: nat)
    requires t > 0 && f > 0 && c >= m * t && m * m * f >= next * s
    ensures (c * c) * f >= next * ((t * t) * s)
  {
    var mt, tt := m * t, t * t;
    assert mt >= 0;
    MultiplyMonotone(mt, c, mt, c);
    assert mt * mt == (m * m) * tt;
    assert (c * c) * f >= ((m * m) * tt) * f;
    assert ((m * m) * tt) * f == (m * m * f) * tt;
    assert tt > 0;
    assert (m * m * f) * tt >= (next * s) * tt;
    assert (next * s) * tt == next * (tt * s);
  }

  lemma FirstBound() returns (n: nat, e: nat)
    ensures 0 < n < 2 && e < 1
    ensures Pow(CONVERGENCE, n) >= CONVERGENCE * Pow(10, e)
  {
    n, e := 1, 0;
    assert Pow(CONVERGENCE, 1) == CONVERGENCE * Pow(CONVERGENCE, 0);
  }

  lemma PowersOfTen()
    ensures Pow(10, 19) == 10000000000000000000
    ensures Pow(10, 20) == 100000000000000000000
    ensures Pow(10, 23) == 100000000000000000000000
    ensures Pow(10, 33) == 1000000000000000000000000000000000
    ensures Pow(10, 34) == 10000000000000000000000000000000000
  {
    assert Pow(10, 1) == 10 * Pow(10, 0);
    assert Pow(10, 2) == 10 * Pow(10, 1);
    assert Pow(10, 3) == 10 * Pow(10, 2);
    PowAdd(10, 2, 2);
    PowAdd(10, 4, 4);
    PowAdd(10, 8, 8);
    PowAdd(10, 16, 3);
    PowAdd(10, 19, 1);
    PowAdd(10, 20, 3);
    PowAdd(10, 16, 16);
    PowAdd(10, 32, 1);
    PowAdd(10, 32, 2);
  }

  /** The decimal digits one million terms contribute, by twenty squarings with 20-digit mantissas. */
  lemma MillionTerms() returns (scale: nat, digits: nat)
    ensures 999999 < scale < 1000001 && 14181646 < digits < 14181648
    ensures Pow(CONVERGENCE, scale) >= Pow(10, digits)
  {
    PowersOfTen();
    var n, e := FirstBound();
    n, e := SquareStep(n, 151931373056000, e, 1, 23, 35070534765380565097);
    n, e := SquareStep(n, 35070534765380565097, e, 1, 34, 18686683893811743809);
    n, e := SquareStep(n, 18686683893811743809, e, 1, 33, 53053243561518167991);
    n, e := SquareStep(n, 53053243561518167991, e, 0, 20, 28146466523977689459);
    n, e := SquareStep(n, 28146466523977689459, e, 1, 34, 12036361594027214288);
    n, e := SquareStep(n, 12036361594027214288, e, 0, 19, 14487400042217334285);
    n, e := SquareStep(n, 14487400042217334285, e, 0, 19, 20988475998323881922);
    n, e := SquareStep(n, 20988475998323881922, e, 0, 19, 44051612473221767189);
    n, e := SquareStep(n, 44051612473221767189, e, 0, 20, 19405445614909075802);
    n, e := SquareStep(n, 19405445614909075802, e, 1, 33, 57212997627149231554);
    n, e := SquareStep(n, 57212997627149231554, e, 0, 20, 32733270974841836002);
    n, e := SquareStep(n, 32733270974841836002, e, 0, 20, 10714670287124230006);
    n, e := SquareStep(n, 10714670287124230006, e, 1, 33, 17442353564375501934);
    n, e := SquareStep(n, 17442353564375501934, e, 0, 19, 30423569786468277708);
    n, e := SquareStep(n, 30423569786468277708, e, 0, 19, 92559359855210544485);
    n, e := SquareStep(n, 92559359855210544485, e, 0, 20, 85672350968063613465);
    n, e := SquareStep(n, 85672350968063613465, e, 0, 20, 73397517203950703672);
    n, e := SquareStep(n, 73397517203950703672, e, 0, 20, 53871955317042395214);
    n, e := SquareStep(n, 53871955317042395214, e, 0, 20, 29021875696814123966);
    scale, digits := n, e + 19;
    PowAdd(10, e, 19);
    PowPositive(10, e);
    assert 29021875696814123966 * Pow(10, e) >= Pow(10, e) * 10000000000000000000;
  }

  // ---------- the plan is long enough ----------

  /** Enough terms for W digits: 151931373056000^(N-1) >= 10^W whenever N - 1 >= W * 10^6 / 14181647. */
  lemma EnoughTerms(terms: nat, working: nat)
    requires terms * DIGITS_PER_TERM_LOWER >= working * DIGITS_PER_TERM_SCALE
    ensures Pow(CONVERGENCE, terms) >= Pow(10, working)
  {
    var scale, digits := MillionTerms();
    PowMultiply(10, working, scale);
    PowMultiply(10, digits, terms);
    PowMultiply(CONVERGENCE, scale, terms);
    PowMultiply(CONVERGENCE, terms, scale);
    assert working * scale <= digits * terms by {
      assert working * scale == working * DIGITS_PER_TERM_SCALE;
      assert digits * terms == terms * DIGITS_PER_TERM_LOWER;
    }
    PowMonotoneExponent(10, working * scale, digits * terms);
    PowPositive(10, digits);
    PowMonotoneBase(Pow(10, digits), Pow(CONVERGENCE, scale), terms);
    assert scale * terms == terms * scale;
    PowPositive(10, working);
    PowPositive(CONVERGENCE, terms);
    RootCompare(Pow(10, working), Pow(CONVERGENCE, terms), scale);
  }

  /** Every accepted plan has enough terms: Q(0,N) >= 10^W P(0,N). */
  lemma PlanConverges(requestedDigits: nat, guardDigits: nat)
    requires requestedDigits <= U64_MAX && guardDigits <= U32_MAX
    requires Create(requestedDigits, guardDigits).Ok?
    ensures var plan := Create(requestedDigits, guardDigits).value;
            && plan.termCount >= 2
            && Split(0, plan.termCount).q >= Pow(10, plan.workingDigits) * Split(0, plan.termCount).p
  {
    hide Split, Create, Pow, CeilDiv;
    CreateExact(requestedDigits, guardDigits);
    var plan := Create(requestedDigits, guardDigits).value;
    var n, w := plan.termCount, plan.workingDigits;
    CeilDivLeast(w * DIGITS_PER_TERM_SCALE, DIGITS_PER_TERM_LOWER, n - 1);
    EnoughTerms(n - 1, w);
    PrefixConvergence(n);
    SplitPositive(0, n);
    WeakenScale(Pow(10, w), Pow(CONVERGENCE, n - 1), Split(0, n).p, Split(0, n).q);
  }

  lemma WeakenScale(small: int, large: int, p: int, q: int)
    requires small <= large && p > 0 && large * p <= q
    ensures small * p <= q
  {
    assert small * p <= large * p;
  }

  /** What the missing tail is worth: against every longer partial sum, the sum over the planned
      terms is off by at most 10^-W times Linear(N) / 151931373056000. */
  lemma PlanTruncation(requestedDigits: nat, guardDigits: nat, m: nat)
    requires requestedDigits <= U64_MAX && guardDigits <= U32_MAX
    requires Create(requestedDigits, guardDigits).Ok?
    requires m > Create(requestedDigits, guardDigits).value.termCount
    ensures var plan := Create(requestedDigits, guardDigits).value;
            var low, high := Split(0, plan.termCount), Split(0, m);
            var gap := high.t * low.q - low.t * high.q;
            && 0 <= Signed(plan.termCount, gap)
            && CONVERGENCE * Pow(10, plan.workingDigits) * Signed(plan.termCount, gap)
                 <= Linear(plan.termCount) * (high.q * low.q)
  {
    PlanConverges(requestedDigits, guardDigits);
    var plan := Create(requestedDigits, guardDigits).value;
    PowPositive(10, plan.workingDigits);
    TruncationBound(plan.termCount, m, Pow(10, plan.workingDigits));
  }
}
