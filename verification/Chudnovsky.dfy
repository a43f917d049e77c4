/** Chudnovsky binary splitting on values: the leaf formula, the merge of two adjacent
    ranges and the halving recursion (src/binary/BinarySplitter.cpp). GMP integers are `int`.

    The main result is that the shape of the recursion tree does not matter: any way of
    cutting a range into adjacent pieces and merging them gives the same P, Q and T. */
module Chudnovsky {

  const T_CONSTANT: int := 13591409
  const T_MULTIPLIER: int := 545140134
  const Q_CONSTANT: int := 10939058860032000

  datatype Pqt = Pqt(p: int, q: int, t: int)

  // ---------- leaf, merge, recursion ----------

  function LeafP(k: nat): int {
    if k == 0 then 1 else (6 * k - 5) * (2 * k - 1) * (6 * k - 1)
  }

  function LeafQ(k: nat): int {
    if k == 0 then 1 else k * k * k * Q_CONSTANT
  }

  /** The linear factor of term k. */
  function Linear(k: nat): int {
    T_MULTIPLIER * k + T_CONSTANT
  }

  /** (-1)^k x */
  function Signed(k: nat, x: int): int {
    if k % 2 == 0 then x else -x
  }

  /** The linear factor with the sign of term k. */
  function Coefficient(k: nat): int {
    Signed(k, Linear(k))
  }

  lemma NegatedProduct(a: int, b: int)
    ensures (-a) * b == -(a * b)
  {
  }

  function Leaf(k: nat): Pqt {
    Pqt(LeafP(k), LeafQ(k), Coefficient(k) * LeafP(k))
  }

  function Join(l: Pqt, r: Pqt): Pqt {
    Pqt(l.p * r.p, l.q * r.q, l.t * r.q + l.p * r.t)
  }

  /** P, Q and T of a range: its leaves, joined one by one. */
  function Split(start: nat, end: nat): Pqt
    requires start < end
    decreases end - start, 1
  {
    if end - start == 1 then Leaf(start) else SplitAt(start, start + 1, end)
  }

  /** The two parts of a range, merged. */
  function SplitAt(start: nat, mid: nat, end: nat): Pqt
    requires start < mid < end
    decreases end - start, 0
  {
    Join(Split(start, mid), Split(mid, end))
  }

  /** `splitSequentialValidated`: halve the range until one term is left. */
  function Halving(start: nat, end: nat): Pqt
    requires start < end
    decreases end - start, 1
  {
    if end - start == 1 then Leaf(start) else HalvingAt(start, start + (end - start) / 2, end)
  }

  function HalvingAt(start: nat, mid: nat, end: nat): Pqt
    requires start < mid < end
    decreases end - start, 0
  {
    Join(Halving(start, mid), Halving(mid, end))
  }

  // ---------- the shape of the tree does not matter ----------

  lemma JoinAssociative(a: Pqt, b: Pqt, c: Pqt)
    ensures Join(Join(a, b), c) == Join(a, Join(b, c))
  {
    calc {
      Join(Join(a, b), c).t;
      (a.t * b.q + a.p * b.t) * c.q + (a.p * b.p) * c.t;
      a.t * b.q * c.q + a.p * b.t * c.q + a.p * b.p * c.t;
      a.t * (b.q * c.q) + a.p * (b.t * c.q + b.p * c.t);
      Join(a, Join(b, c)).t;
    }
  }

  /** One term is its leaf; more are the first leaf joined to the rest. */
  lemma SplitStep(start: nat, end: nat)
    requires start < end
    ensures Split(start, end) == if end - start == 1 then Leaf(start) else Join(Leaf(start), Split(start + 1, end))
  {
    hide Leaf, Join;
    if end - start > 1 {
      assert Split(start, start + 1) == Leaf(start);
      assert Split(start, end) == SplitAt(start, start + 1, end);
    }
  }

  /** Merging the results of two adjacent ranges gives the result of the whole range,
      wherever the cut is. */
  lemma {:induction false} SplitAppend(start: nat, mid: nat, end: nat)
    requires start < mid < end
    ensures Join(Split(start, mid), Split(mid, end)) == Split(start, end)
    decreases mid - start
  {
    hide Split, Join;
    SplitStep(start, mid);
    SplitStep(start, end);
    if mid - start > 1 {
      SplitAppend(start + 1, mid, end);
      JoinAssociative(Leaf(start), Split(start + 1, mid), Split(mid, end));
    }
  }

  /** The recursion by halving is one of the many ways to join the leaves. */
  lemma {:induction false} HalvingIsSplit(start: nat, end: nat)
    requires start < end
    ensures Halving(start, end) == Split(start, end)
    decreases end - start
  {
    if end - start > 1 {
      var mid := start + (end - start) / 2;
      HalvingIsSplit(start, mid);
      HalvingIsSplit(mid, end);
      SplitAppend(start, mid, end);
    }
  }

  // ---------- positivity ----------

  lemma LeafPositive(k: nat)
    ensures LeafP(k) > 0 && LeafQ(k) > 0
  {
    if k > 0 {
      var f, s, t := 6 * k - 5, 2 * k - 1, 6 * k - 1;
      assert f * s > 0;
      assert f * s * t > 0;
      assert k * k > 0;
      assert k * k * k > 0;
    }
  }

  /** P and Q of every range are positive, so a computed node is never mistaken for a spilled one. */
  lemma {:induction false} SplitPositive(start: nat, end: nat)
    requires start < end
    ensures Split(start, end).p > 0 && Split(start, end).q > 0
    decreases end - start
  {
    hide Split, LeafP, LeafQ;
    SplitStep(start, end);
    LeafPositive(start);
    if end - start > 1 {
      SplitPositive(start + 1, end);
      var l, r := Leaf(start), Split(start + 1, end);
      assert l.p * r.p > 0;
      assert l.q * r.q > 0;
    }
  }
}
