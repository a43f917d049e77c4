/** `finalizeFixedPoint`: the integer arithmetic that turns Q and T into the rounded digits of pi
    (src/chudnovsky/ChudnovskyCalculator.cpp), and how far the result is from the exact quotient. */
module FixedPoint {
  import opened Chudnovsky
  import opened ChudnovskySeries
  import opened Powers
  import opened PrecisionPolicy
  import opened Widths

  /** Why a finalization stops: the scale exponent, or GMP's own argument checks. */
  datatype Finalized = Digits(value: int) | ExponentOverflow | DivisionByZero

  // ---------- integer square root and floor division, by their defining inequalities ----------

  function FloorSquareRoot(n: nat): (r: nat)
    ensures r * r <= n < (r + 1) * (r + 1)
  {
    if n == 0 then 0 else
    var r := FloorSquareRoot(n - 1);
    if (r + 1) * (r + 1) <= n then r + 1 else r
  }

  /** mpz_fdiv_q: rounds towards minus infinity for either sign of the divisor. */
  function FloorDivide(n: int, d: int): (q: int)
    requires d != 0
    ensures d > 0 ==> q * d <= n < q * d + d
    ensures d < 0 ==> q * d >= n > q * d + d
  {
    if d > 0 then n / d else (-n) / (-d)
  }

  // ---------- the steps ----------

  /** The scaled value before guard digits are rounded away. */
  function Unrounded(q: int, t: int, workingDigits: nat): int
    requires t != 0
  {
    PowPositive(10, workingDigits * 2);
    FloorDivide(FloorSquareRoot(Pow(10, workingDigits * 2) * 10005) * 426880 * q, t)
  }

  /** `guardDigits - 1` on 32 unsigned bits. */
  function RoundingExponent(guardDigits: nat): nat {
    if guardDigits == 0 then U32_MAX else guardDigits - 1
  }

  function Rounded(q: int, t: int, plan: PrecisionPlan): int
    requires t != 0
  {
    PowPositive(10, plan.guardDigits);
    FloorDivide(Unrounded(q, t, plan.workingDigits) + Pow(10, RoundingExponent(plan.guardDigits)) * 5,
                Pow(10, plan.guardDigits))
  }

  method FinalizeFixedPoint(node: Pqt, precision: PrecisionPlan) returns (result: Finalized)
    ensures result.ExponentOverflow? <==> precision.workingDigits > U64_MAX / 2
    ensures result.DivisionByZero? <==> precision.workingDigits <= U64_MAX / 2 && node.t == 0
    ensures result.Digits? ==> result.value == Rounded(node.q, node.t, precision)
  {
    if precision.workingDigits > U64_MAX / 2 {
      return ExponentOverflow;
    }
    var squareRootScale := Pow(10, precision.workingDigits * 2);
    PowPositive(10, precision.workingDigits * 2);
    squareRootScale := squareRootScale * 10005;
    squareRootScale := FloorSquareRoot(squareRootScale);

    var scaledPi := squareRootScale;
    scaledPi := scaledPi * 426880;
    scaledPi := scaledPi * node.q;
    if node.t == 0 {
      return DivisionByZero;
    }
    scaledPi := FloorDivide(scaledPi, node.t);

    var roundingIncrement := Pow(10, RoundingExponent(precision.guardDigits));
    roundingIncrement := roundingIncrement * 5;
    scaledPi := scaledPi + roundingIncrement;

    var guardScale := Pow(10, precision.guardDigits);
    PowPositive(10, precision.guardDigits);
    scaledPi := FloorDivide(scaledPi, guardScale);
    result := Digits(scaledPi);
  }

  // ---------- how far off the result is ----------

  /** Squares of 10^W * 426880 * sqrt(10005) * q and of x * t, to compare without the root. */
  function TargetSquare(q: int, workingDigits: nat): int {
    426880 * 426880 * 10005 * Pow(10, workingDigits * 2) * (q * q)
  }

  lemma SquareMonotone(a: int, b: int)
    requires 0 <= a <= b
    ensures a * a <= b * b
  {
    assert a * a <= a * b;
    assert a * b <= b * b;
  }

  lemma SquareStrict(a: int, b: int)
    requires 0 <= a < b
    ensures a * a < b * b
  {
    assert a * a <= a * b;
    assert a * b < b * b;
  }

  lemma Regroup(b: int, d: int)
    ensures (b * d) * (b * d) == (b * b) * (d * d)
  {
    assert (b * d) * (b * d) == b * (d * (b * d));
    assert d * (b * d) == b * (d * d);
  }

  lemma ScaleBracket(a: int, b: int, c: int, s: int)
    requires a <= b < c && s > 0
    ensures a * s <= b * s < c * s
  {
  }

  lemma SignOfProduct(y: int, t: int)
    requires t > 0
    ensures y < 0 ==> y * t <= -t
    ensures y >= 0 ==> y * t >= 0
  {
    if y < 0 {
      MultiplyMonotone(1, -y, t, t);
      assert (-y) * t == -(y * t);
    } else {
      MultiplyMonotone(0, y, t, t);
    }
  }

  /** (root * 426880 * q)^2 against the target, where root = floor(sqrt(n)). */
  lemma RootBracket(root: nat, n: nat, q: int)
    requires root * root <= n < (root + 1) * (root + 1) && q > 0
    ensures var x, step := root * 426880 * q, 426880 * q;
            x * x <= 426880 * 426880 * n * (q * q) < (x + step) * (x + step)
  {
    var k := 426880 * q;
    assert root * 426880 * q == root * k && root * k + k == (root + 1) * k;
    Regroup(root, k);
    Regroup(root + 1, k);
    Regroup(426880, q);
    SquareStrict(0, k);
    ScaleBracket(root * root, n, (root + 1) * (root + 1), k * k);
    Swap(n, 426880 * 426880, q * q);
  }

  lemma Swap(n: int, c: int, s: int)
    ensures n * (c * s) == c * n * s
  {
  }

  /** The unrounded value Y brackets the exact quotient between Y and Y + 1 + 426880 q / t. */
  lemma UnroundedBracket(q: int, t: int, workingDigits: nat)
    requires q > 0 && t >= 13591408 * q
    ensures var y := Unrounded(q, t, workingDigits);
            && y >= 0
            && (y * t) * (y * t) <= TargetSquare(q, workingDigits)
            && TargetSquare(q, workingDigits) < ((y + 2) * t) * ((y + 2) * t)
  {
    PowPositive(10, workingDigits * 2);
    var n := Pow(10, workingDigits * 2) * 10005;
    var root := FloorSquareRoot(n);
    RootBracket(root, n, q);
    var x := root * 426880 * q;
    assert x >= 0;
    var y := FloorDivide(x, t);
    FloorBracket(x, y, t, 426880 * q, 426880 * 426880 * n * (q * q));
    assert 426880 * 426880 * n * (q * q) == TargetSquare(q, workingDigits);
  }

  lemma FloorBracket(x: int, y: int, t: int, step: int, target: int)
    requires x >= 0 && t > 0 && 0 <= step <= t
    requires y * t <= x < y * t + t
    requires x * x <= target < (x + step) * (x + step)
    ensures y >= 0
    ensures (y * t) * (y * t) <= target < ((y + 2) * t) * ((y + 2) * t)
  {
    SignOfProduct(y, t);
    SquareMonotone(y * t, x);
    assert (y + 2) * t == y * t + t + t;
    SquareStrict(x + step, (y + 2) * t);
  }

  /** Rounding the guard digits away moves the value by at most half a unit. */
  lemma RoundedBracket(y: int, guardDigits: nat)
    requires guardDigits >= 1
    ensures Pow(10, guardDigits) > 0
    ensures var half, unit := 5 * Pow(10, guardDigits - 1), Pow(10, guardDigits);
            var r := FloorDivide(y + Pow(10, guardDigits - 1) * 5, unit);
            r * unit - half <= y < r * unit + half
  {
    PowPositive(10, guardDigits);
    assert Pow(10, guardDigits) == 10 * Pow(10, guardDigits - 1);
  }

  /** low <= V < high for the exact quotient V = 10^W * 426880 * sqrt(10005) * Q / T of a node. The root
      is avoided by comparing squares after multiplying by T; a negative left end needs no comparison. */
  ghost predicate Encloses(low: int, high: int, node: Pqt, workingDigits: nat) {
    var target := TargetSquare(node.q, workingDigits);
    && (low >= 0 ==> (low * node.t) * (low * node.t) <= target)
    && high > 0 && target < (high * node.t) * (high * node.t)
  }

  /** -h - slack <= V - R * 10^g < h + 1 + slack, with h = 5 * 10^(g-1) half a unit of the last kept digit. */
  ghost predicate WithinHalfUnit(r: int, node: Pqt, plan: PrecisionPlan, slack: nat)
    requires plan.guardDigits >= 1
  {
    var half, unit := 5 * Pow(10, plan.guardDigits - 1), Pow(10, plan.guardDigits);
    Encloses(r * unit - half - slack, r * unit + half + 1 + slack, node, plan.workingDigits)
  }

  lemma NodeError(node: Pqt, plan: PrecisionPlan)
    requires node.q > 0 && node.t >= 13591408 * node.q && plan.guardDigits >= 1
    ensures WithinHalfUnit(Rounded(node.q, node.t, plan), node, plan, 0)
  {
    UnroundedBracket(node.q, node.t, plan.workingDigits);
    var y := Unrounded(node.q, node.t, plan.workingDigits);
    RoundedBracket(y, plan.guardDigits);
    var half, unit := 5 * Pow(10, plan.guardDigits - 1), Pow(10, plan.guardDigits);
    var r := Rounded(node.q, node.t, plan);
    WidenBracket(r * unit - half, y, r * unit + half + 1, node.t, TargetSquare(node.q, plan.workingDigits));
  }

  /** The error of the final digits against their own node, for every accepted plan. */
  lemma FinalDigitsError(requestedDigits: nat, guardDigits: nat)
    requires requestedDigits <= U64_MAX && guardDigits <= U32_MAX
    requires Create(requestedDigits, guardDigits).Ok?
    ensures var plan := Create(requestedDigits, guardDigits).value;
            plan.termCount >= 1 && plan.guardDigits >= 1 &&
            var node := Split(0, plan.termCount);
            node.t > 0 && WithinHalfUnit(Rounded(node.q, node.t, plan), node, plan, 0)
  {
    CreateExact(requestedDigits, guardDigits);
    var plan := Create(requestedDigits, guardDigits).value;
    TAgainstQ(plan.termCount);
    NodeError(Split(0, plan.termCount), plan);
  }

  lemma WidenBracket(low: int, y: int, high: int, t: int, target: int)
    requires t > 0 && y >= 0 && low <= y && y + 2 <= high
    requires (y * t) * (y * t) <= target < ((y + 2) * t) * ((y + 2) * t)
    ensures low >= 0 ==> (low * t) * (low * t) <= target
    ensures target < (high * t) * (high * t)
  {
    if low >= 0 {
      MultiplyMonotone(low, y, t, t);
      MultiplyMonotone(0, low, 0, t);
      SquareMonotone(low * t, y * t);
    }
    MultiplyMonotone(y + 2, high, t, t);
    MultiplyMonotone(0, y + 2, 0, t);
    SquareMonotone((y + 2) * t, high * t);
  }

  // ---------- how far off the digits are from the whole series ----------

  /** What lies beyond sqrt(s) w by b and beyond sqrt(s) g by d lies beyond sqrt(s) (w + g) by b + d. */
  lemma RootSum(s: int, w: int, g: int, b: int, d: int)
    requires s >= 0 && w >= 0 && g >= 0 && b >= 0 && d >= 0
    requires b * b > s * (w * w) && d * d >= s * (g * g)
    ensures (b + d) * (b + d) > s * ((w + g) * (w + g))
  {
    RootProduct(s, w, g, b, d);
    SquareOfSum(b, d);
    SquareOfSum(w, g);
    Spread(s, w * w, w * g, g * g);
  }

  lemma SquareOfSum(a: int, b: int)
    ensures (a + b) * (a + b) == a * a + 2 * (a * b) + b * b
  {
  }

  lemma Spread(s: int, x: int, y: int, z: int)
    ensures s * (x + 2 * y + z) == s * x + 2 * (s * y) + s * z
  {
  }

  lemma RootProduct(s: int, w: int, g: int, b: int, d: int)
    requires s >= 0 && w >= 0 && g >= 0 && b >= 0 && d >= 0
    requires b * b >= s * (w * w) && d * d >= s * (g * g)
    ensures b * d >= s * (w * g)
  {
    if b * d < s * (w * g) {
      MultiplyMonotone(0, b, 0, d);
      SquareStrict(b * d, s * (w * g));
      SquareNonNegative(s, w);
      SquareNonNegative(s, g);
      MultiplyMonotone(s * (w * w), b * b, s * (g * g), d * d);
      Regroup(b, d);
      SquareOfProduct(s, w, g);
    }
  }

  lemma SquareNonNegative(s: int, w: int)
    requires s >= 0
    ensures s * (w * w) >= 0
  {
    assert w * w >= 0;
    MultiplyMonotone(0, s, 0, w * w);
  }

  lemma SquareOfProduct(s: int, w: int, g: int)
    ensures (s * (w * g)) * (s * (w * g)) == (s * (w * w)) * (s * (g * g))
  {
    Regroup(s, w * g);
    Regroup(w, g);
    var x, y := w * w, g * g;
    assert (s * x) * (s * y) == (s * s) * (x * y);
  }

  lemma RootBeyond(s: int, u: int, v: int, b: int, d: int)
    requires s >= 0 && u >= 0 && v >= 0 && b >= 0 && d >= 0
    requires b * b > s * (u * u) && d * d >= s * ((v - u) * (v - u))
    ensures (b + d) * (b + d) > s * (v * v)
  {
    if v >= u {
      RootSum(s, u, v - u, b, d);
    } else {
      SquareMonotone(v, u);
      MultiplyMonotone(s, s, v * v, u * u);
      SquareMonotone(b, b + d);
    }
  }

  lemma CancelSquare(s: int, a: int, q: int, t: int)
    requires t > 0
    ensures (a * t) * (a * t) > s * ((q * t) * (q * t)) <==> a * a > s * (q * q)
  {
    Regroup(a, t);
    Regroup(q, t);
    var x, y, z := a * a, s * (q * q), t * t;
    assert s * ((q * q) * z) == y * z;
    SquareStrict(0, t);
    CancelFactor(x, y, z);
  }

  lemma CancelFactor(x: int, y: int, z: int)
    requires z > 0
    ensures x * z > y * z <==> x > y
  {
  }

  /** A bound above the quotient of one pair, raised by e, is above that of another. */
  lemma ShiftBound(s: int, q: int, t: int, q2: int, t2: int, x: int, e: int)
    requires s >= 0 && q >= 0 && t > 0 && q2 >= 0 && t2 > 0 && x >= 0 && e >= 0
    requires (x * t) * (x * t) > s * (q * q)
    requires var d, gap := e * (t * t2), t2 * q - t * q2; d * d >= s * (gap * gap)
    ensures ((x + e) * t2) * ((x + e) * t2) > s * (q2 * q2)
  {
    var b, d := x * t * t2, e * (t * t2);
    CancelSquare(s, x * t, q, t2);
    MultiplyMonotone(0, q, 0, t2);
    MultiplyMonotone(0, q2, 0, t);
    MultiplyMonotone(0, x, 0, t);
    MultiplyMonotone(0, x * t, 0, t2);
    MultiplyMonotone(0, t, 0, t2);
    MultiplyMonotone(0, e, 0, t * t2);
    SquareOfDifference(t2 * q, t * q2);
    assert t2 * q == q * t2 && t * q2 == q2 * t;
    RootBeyond(s, q * t2, q2 * t, b, d);
    assert b + d == (x + e) * t2 * t by { Gather(x, e, t, t2); }
    CancelSquare(s, (x + e) * t2, q2, t);
  }

  lemma SquareOfDifference(a: int, b: int)
    ensures (a - b) * (a - b) == (b - a) * (b - a)
  {
  }

  lemma Gather(x: int, e: int, t: int, t2: int)
    ensures x * t * t2 + e * (t * t2) == (x + e) * t2 * t
  {
    assert x * t * t2 == x * (t * t2);
    assert (x + e) * t2 * t == (x + e) * (t * t2);
  }

  /** Moving to the quotient of another node whose cross difference is small costs e on either side. */
  lemma ShiftEnclosure(low: int, high: int, from: Pqt, to: Pqt, workingDigits: nat, e: nat)
    requires from.q > 0 && from.t > 0 && to.q > 0 && to.t > 0
    requires Encloses(low, high, from, workingDigits)
    requires var d, gap := e * (from.t * to.t), to.t * from.q - from.t * to.q;
             d * d >= TargetSquare(1, workingDigits) * (gap * gap)
    ensures Encloses(low - e, high + e, to, workingDigits)
  {
    var s := TargetSquare(1, workingDigits);
    PowPositive(10, workingDigits * 2);
    assert forall q: int {:trigger TargetSquare(q, workingDigits)} :: TargetSquare(q, workingDigits) == s * (q * q);
    ShiftBound(s, from.q, from.t, to.q, to.t, high, e);
    if low - e >= 0 && ((low - e) * to.t) * ((low - e) * to.t) > s * (to.q * to.q) {
      SquareOfDifference(from.t * to.q, to.t * from.q);
      assert from.t * to.t == to.t * from.t;
      ShiftBound(s, to.q, to.t, from.q, from.t, low - e, e);
    }
  }

  /** How far the rounded digits can be from the whole series beyond their own node's error. */
  function SeriesSlack(plan: PrecisionPlan): (slack: nat) {
    plan.termCount / 1000000000000 + 1
  }

  lemma SlackCovers(l: int, scale: int, e: int, gap: int, q: int, t: int, q2: int, t2: int)
    requires l >= 0 && scale > 0 && gap >= 0 && q > 0 && q2 > 0 && e >= 0
    requires CONVERGENCE * scale * gap <= l * (q2 * q)
    requires t >= 13591408 * q && t2 >= 13591408 * q2
    requires 43114880 * l <= e * (CONVERGENCE * 13591408 * 13591408)
    ensures 43114880 * scale * gap <= e * (t * t2)
  {
    var z := q2 * q;
    MultiplyMonotone(1, q2, 1, q);
    MultiplyMonotone(43114880 * l, e * (CONVERGENCE * 13591408 * 13591408), z, z);
    MultiplyMonotone(13591408 * q, t, 13591408 * q2, t2);
    assert 13591408 * q * (13591408 * q2) == 13591408 * 13591408 * z;
    MultiplyMonotone(e, e, 13591408 * 13591408 * z, t * t2);
    assert e * (CONVERGENCE * 13591408 * 13591408) * z == CONVERGENCE * (e * (13591408 * 13591408 * z));
    assert 43114880 * (CONVERGENCE * scale * gap) == CONVERGENCE * (43114880 * scale * gap);
    assert 43114880 * l * z == 43114880 * (l * z);
  }

  /** sqrt(10005) < 101, so 426880 * sqrt(10005) < 43114880. */
  lemma RootScale(workingDigits: nat)
    ensures Pow(10, workingDigits) > 0
    ensures var k := 43114880 * Pow(10, workingDigits); TargetSquare(1, workingDigits) <= k * k
  {
    var p := Pow(10, workingDigits);
    PowPositive(10, workingDigits);
    PowAdd(10, workingDigits, workingDigits);
    assert (43114880 * p) * (43114880 * p) == 43114880 * 43114880 * (p * p);
  }

  lemma SquareCovers(s: int, k: int, g: int, gap: int, d: int)
    requires 0 <= s <= k * k && k >= 0 && g >= 0 && (gap == g || gap == -g) && k * g <= d
    ensures d * d >= s * (gap * gap)
  {
    assert gap * gap == g * g;
    MultiplyMonotone(0, k, 0, g);
    SquareMonotone(k * g, d);
    Regroup(k, g);
    MultiplyMonotone(s, k * k, g * g, g * g);
  }

  lemma SlackSuffices(n: nat)
    ensures Linear(n) >= 0
    ensures 43114880 * Linear(n) <= (n / 1000000000000 + 1) * (CONVERGENCE * 13591408 * 13591408)
  {
    assert n < 1000000000000 * (n / 1000000000000 + 1);
  }

  lemma SlackIsSmall(plan: PrecisionPlan)
    requires plan.termCount <= U64_MAX && plan.guardDigits >= 16
    ensures 100000000 * SeriesSlack(plan) <= 5 * Pow(10, plan.guardDigits - 1)
  {
    PowAdd(10, 15, plan.guardDigits - 16);
    PowPositive(10, plan.guardDigits - 16);
    assert Pow(10, 15) == 1000000000000000 by {
      PowAdd(10, 5, 5);
      PowAdd(10, 10, 5);
      assert Pow(10, 5) == 100000;
    }
    MultiplyMonotone(Pow(10, 15), Pow(10, 15), 1, Pow(10, plan.guardDigits - 16));
  }

  /** The digits a plan leads to, against the partial sum of any number of terms from its own on, and
      so against the series: within half a unit of the last kept digit and a slack that is at most
      a hundred-millionth of that. */
  lemma SeriesDigits(requestedDigits: nat, guardDigits: nat, m: nat)
    requires requestedDigits <= U64_MAX && guardDigits <= U32_MAX
    requires Create(requestedDigits, guardDigits).Ok?
    requires m >= Create(requestedDigits, guardDigits).value.termCount
    ensures var plan := Create(requestedDigits, guardDigits).value;
            plan.termCount >= 1 && plan.guardDigits >= 1 &&
            var node := Split(0, plan.termCount);
            && node.t > 0 && Split(0, m).t > 0
            && WithinHalfUnit(Rounded(node.q, node.t, plan), Split(0, m), plan, SeriesSlack(plan))
            && 100000000 * SeriesSlack(plan) <= 5 * Pow(10, plan.guardDigits - 1)
  {
    hide Split, Create, Rounded, TargetSquare, Encloses, Linear;
    CreateExact(requestedDigits, guardDigits);
    FinalDigitsError(requestedDigits, guardDigits);
    var plan := Create(requestedDigits, guardDigits).value;
    var n := plan.termCount;
    TermsFit(plan.workingDigits);
    SlackIsSmall(plan);
    var node, whole := Split(0, n), Split(0, m);
    TAgainstQ(n);
    TAgainstQ(m);
    SplitPositive(0, n);
    SplitPositive(0, m);
    GapIsCovered(requestedDigits, guardDigits, m);
    var half, unit := 5 * Pow(10, plan.guardDigits - 1), Pow(10, plan.guardDigits);
    var r := Rounded(node.q, node.t, plan);
    ShiftEnclosure(r * unit - half - 0, r * unit + half + 1 + 0, node, whole, plan.workingDigits, SeriesSlack(plan));
  }

  lemma GapIsCovered(requestedDigits: nat, guardDigits: nat, m: nat)
    requires requestedDigits <= U64_MAX && guardDigits <= U32_MAX
    requires Create(requestedDigits, guardDigits).Ok?
    requires m >= Create(requestedDigits, guardDigits).value.termCount >= 1
    ensures var plan := Create(requestedDigits, guardDigits).value;
            var from, to := Split(0, plan.termCount), Split(0, m);
            var d, gap := SeriesSlack(plan) * (from.t * to.t), to.t * from.q - from.t * to.q;
            d * d >= TargetSquare(1, plan.workingDigits) * (gap * gap)
  {
    hide Split, Create, TargetSquare, Linear;
    var plan := Create(requestedDigits, guardDigits).value;
    var n := plan.termCount;
    var from, to := Split(0, n), Split(0, m);
    var d, gap := SeriesSlack(plan) * (from.t * to.t), to.t * from.q - from.t * to.q;
    var scale := Pow(10, plan.workingDigits);
    RootScale(plan.workingDigits);
    if m == n {
      assert gap == 0;
      assert d * d >= 0;
    } else {
      PlanTruncation(requestedDigits, guardDigits, m);
      var g := Signed(n, gap);
      SlackSuffices(n);
      TAgainstQ(n);
      TAgainstQ(m);
      SplitPositive(0, n);
      SplitPositive(0, m);
      SlackCovers(Linear(n), scale, SeriesSlack(plan), g, from.q, from.t, to.q, to.t);
      TargetNonNegative(plan.workingDigits);
      SquareCovers(TargetSquare(1, plan.workingDigits), 43114880 * scale, g, gap, d);
    }
  }

  lemma TargetNonNegative(workingDigits: nat)
    ensures TargetSquare(1, workingDigits) >= 0
  {
    PowPositive(10, workingDigits * 2);
  }

  /** The planned node always finalizes: no division by zero, and no exponent overflow, because every
      accepted plan keeps its digits below the exponent guard. */
  lemma PlanFinalizes(requestedDigits: nat, guardDigits: nat)
    requires requestedDigits <= U64_MAX && guardDigits <= U32_MAX
    requires Create(requestedDigits, guardDigits).Ok?
    ensures var plan := Create(requestedDigits, guardDigits).value;
            && plan.termCount >= 1
            && Split(0, plan.termCount).t != 0
            && plan.workingDigits <= U64_MAX / 2
  {
    CreateExact(requestedDigits, guardDigits);
    var working := requestedDigits + guardDigits;
    TAgainstQ(Create(requestedDigits, guardDigits).value.termCount);
    CeilDivLeast((working + 2) * 3322, 1000, CeilDiv((working + 2) * 3322, 1000));
  }
}
