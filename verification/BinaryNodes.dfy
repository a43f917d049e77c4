/** A binary splitting node, its leaf and its merge as the source computes them in place
    (src/binary/BinaryNode.cpp, src/binary/BinarySplitter.cpp). */
module BinaryNodes {
  import opened Chudnovsky

  datatype BinaryNode = BinaryNode(start: nat, end: nat, v: Pqt) {

    /** `hasValues`: a node whose P, Q and T are all zero counts as spilled. */
    predicate HasValues() {
      v.p != 0 || v.q != 0 || v.t != 0
    }

    /** `clearValues` */
    function Cleared(): BinaryNode {
      BinaryNode(start, end, Pqt(0, 0, 0))
    }

    /** The node plain recursion computes for its range. */
    ghost predicate IsSplit() {
      start < end && v == Split(start, end)
    }
  }

  /** A node of the sequential recursion is never mistaken for a spilled one. */
  lemma SplitHasValues(n: BinaryNode)
    requires n.IsSplit()
    ensures n.HasValues()
  {
    SplitPositive(n.start, n.end);
  }

  method MakeChudnovskyLeaf(term: nat, end: nat) returns (node: BinaryNode)
    ensures node == BinaryNode(term, end, Leaf(term))
  {
    if term == 0 {
      return BinaryNode(term, end, Pqt(1, 1, 13591409));
    }
    var firstFactor: int := term;
    firstFactor := firstFactor * 6;
    firstFactor := firstFactor - 5;
    var secondFactor: int := term;
    secondFactor := secondFactor * 2;
    secondFactor := secondFactor - 1;
    var thirdFactor: int := term;
    thirdFactor := thirdFactor * 6;
    thirdFactor := thirdFactor - 1;

    var p := firstFactor;
    p := p * secondFactor;
    p := p * thirdFactor;
    var q := term;
    q := q * term;
    q := q * term;
    q := q * 10939058860032000;
    var t: int := term;
    t := t * 545140134;
    t := t + 13591409;
    t := t * p;
    if term % 2 != 0 {
      t := -t;
    }
    node := BinaryNode(term, end, Pqt(p, q, t));
    NegatedProduct(Linear(term), p);
  }

  datatype MergeResult = Merged(node: BinaryNode) | NotAdjacent

  method Merge(left: BinaryNode, right: BinaryNode) returns (r: MergeResult)
    ensures r == if left.end != right.start then NotAdjacent
                 else Merged(BinaryNode(left.start, right.end, Join(left.v, right.v)))
  {
    if left.end != right.start {
      return NotAdjacent;
    }
    var p := left.v.p;
    p := p * right.v.p;
    var q := left.v.q;
    q := q * right.v.q;
    var temp := left.v.t;
    temp := temp * right.v.q;
    var t := left.v.p;
    t := t * right.v.t;
    temp := temp + t;
    t, temp := temp, t;
    r := Merged(BinaryNode(left.start, right.end, Pqt(p, q, t)));
  }

  /** Merging two nodes of plain recursion over adjacent ranges gives the node of plain recursion. */
  lemma MergeOfSplits(left: BinaryNode, right: BinaryNode)
    requires left.IsSplit() && right.IsSplit() && left.end == right.start
    ensures BinaryNode(left.start, right.end, Join(left.v, right.v)).IsSplit()
  {
    SplitAppend(left.start, left.end, right.end);
  }

  /** `splitSequential`: refuses an empty range, otherwise recurses by halving. */
  method SplitSequential(start: nat, end: nat) returns (r: MergeResult)
    ensures r.NotAdjacent? <==> start >= end
    ensures r.Merged? ==> r.node == BinaryNode(start, end, Halving(start, end)) && r.node.IsSplit()
  {
    if start >= end {
      return NotAdjacent;
    }
    var node := SplitSequentialValidated(start, end);
    r := Merged(node);
  }

  lemma HalvingOnce(start: nat, end: nat)
    requires start < end
    ensures end - start == 1 ==> Halving(start, end) == Leaf(start) == Split(start, end)
    ensures end - start > 1 ==>
      var mid := start + (end - start) / 2;
      Halving(start, end) == Join(Halving(start, mid), Halving(mid, end))
  {
    hide Join, Leaf;
  }

  method SplitSequentialValidated(start: nat, end: nat) returns (node: BinaryNode)
    requires start < end
    ensures node == BinaryNode(start, end, Halving(start, end)) && node.IsSplit()
    decreases end - start
  {
    HalvingOnce(start, end);
    hide Halving, Split, Join, Leaf;
    if end - start == 1 {
      node := MakeChudnovskyLeaf(start, end);
    } else {
      var mid := start + (end - start) / 2;
      var left := SplitSequentialValidated(start, mid);
      var right := SplitSequentialValidated(mid, end);
      var merged := Merge(left, right);
      MergeOfSplits(left, right);
      node := merged.node;
    }
  }
}
