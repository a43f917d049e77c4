/** Laying out a parallel split: the seed frontier in order, and every gap between seeds cut into blocks
    (src/binary/BinarySplitter.cpp). */
module SplitLayout {
  import opened BinaryNodes
  import opened CheckpointTypes
  import opened Chudnovsky
  import opened Sequences
  import opened Widths
  import Sorting

  /** `BinaryFrontierNode` */
  datatype FrontierNode = FrontierNode(node: BinaryNode, treeLevel: nat)

  datatype ParallelSplitOptions = ParallelSplitOptions(sequentialCutoff: nat, tasksPerWorker: nat)

  /** What the splitter asks the scheduler: `running` and not on one of its workers, and how many workers. */
  datatype Executor = Executor(available: bool, workerCount: nat) {
    predicate AcceptsStagedWork() {
      available && workerCount != 0
    }
  }

  // ---------- contiguous nodes ----------

  /** Node j starts where its predecessor ends. */
  predicate ChainAt(nodes: seq<BinaryNode>, start: nat, j: nat)
    requires j < |nodes|
  {
    nodes[j].start == if j == 0 then start else nodes[j - 1].end
  }

  ghost predicate Chain(nodes: seq<BinaryNode>, start: nat) {
    forall j | 0 <= j < |nodes| :: ChainAt(nodes, start, j)
  }

  function ChainEnd(nodes: seq<BinaryNode>, start: nat): nat {
    if nodes == [] then start else nodes[|nodes| - 1].end
  }

  ghost predicate AllSplit(nodes: seq<BinaryNode>) {
    forall j {:trigger nodes[j].IsSplit()} | 0 <= j < |nodes| :: nodes[j].IsSplit()
  }

  /** Nodes of plain recursion that tile [start, end) in order. */
  ghost predicate Frontier(nodes: seq<BinaryNode>, start: nat, end: nat) {
    nodes != [] && Chain(nodes, start) && ChainEnd(nodes, start) == end && AllSplit(nodes)
  }

  lemma ChainExtend(nodes: seq<BinaryNode>, start: nat, next: BinaryNode)
    requires Chain(nodes, start) && AllSplit(nodes) && next.start == ChainEnd(nodes, start) && next.IsSplit()
    ensures Chain(nodes + [next], start) && AllSplit(nodes + [next]) && ChainEnd(nodes + [next], start) == next.end
  {
    var all := nodes + [next];
    forall j | 0 <= j < |all| ensures ChainAt(all, start, j) {
      if j < |nodes| { assert ChainAt(nodes, start, j); }
    }
  }

  lemma {:induction false} ChainBounds(nodes: seq<BinaryNode>, start: nat, j: nat)
    requires Chain(nodes, start) && AllSplit(nodes) && j < |nodes|
    ensures start <= nodes[j].start < nodes[j].end <= ChainEnd(nodes, start)
    decreases |nodes|
  {
    hide Split;
    var last := |nodes| - 1;
    assert ChainAt(nodes, start, last) && nodes[last].IsSplit() && nodes[j].IsSplit();
    if last > 0 {
      var front := nodes[..last];
      forall k | 0 <= k < last ensures ChainAt(front, start, k) && front[k].IsSplit() {
        assert ChainAt(nodes, start, k) && nodes[k].IsSplit();
      }
      ChainBounds(front, start, if j < last then j else last - 1);
    }
  }

  // ---------- the seed frontier ----------

  predicate StartsBefore(a: FrontierNode, b: FrontierNode) {
    a.node.start <= b.node.start
  }

  /** Seed i is resident, inside the range, and starts at or after the end of its predecessor. */
  predicate SeedAt(frontier: seq<FrontierNode>, start: nat, end: nat, i: nat)
    requires i < |frontier|
  {
    var n := frontier[i].node;
    n.start < n.end && start <= n.start && n.end <= end && n.HasValues()
    && (if i == 0 then start else frontier[i - 1].node.end) <= n.start
  }

  ghost predicate Seeds(frontier: seq<FrontierNode>, start: nat, end: nat) {
    forall i | 0 <= i < |frontier| :: SeedAt(frontier, start, end, i)
  }

  /** Some order of the given nodes is a seed frontier. */
  ghost predicate ValidFrontier(frontier: seq<FrontierNode>, start: nat, end: nat) {
    exists ordered: seq<FrontierNode> :: multiset(ordered) == multiset(frontier) && Seeds(ordered, start, end)
  }

  lemma {:induction false} SeedsInOrder(frontier: seq<FrontierNode>, start: nat, end: nat, i: nat, j: nat)
    requires Seeds(frontier, start, end) && i < j < |frontier|
    ensures frontier[i].node.start < frontier[j].node.start
  {
    assert SeedAt(frontier, start, end, i) && SeedAt(frontier, start, end, j);
    if i < j - 1 {
      SeedsInOrder(frontier, start, end, i, j - 1);
      assert SeedAt(frontier, start, end, j - 1);
    }
  }

  lemma SeedsAreSorted(frontier: seq<FrontierNode>, sorted: seq<FrontierNode>, start: nat, end: nat)
    requires Seeds(frontier, start, end) && multiset(sorted) == multiset(frontier) && Sorting.Ordered(sorted, StartsBefore)
    ensures sorted == frontier
  {
    forall i, j | 0 <= i < j < |frontier|
      ensures StartsBefore(frontier[i], frontier[j]) && !StartsBefore(frontier[j], frontier[i])
    {
      SeedsInOrder(frontier, start, end, i, j);
    }
    Sorting.SortedUnique(sorted, frontier, StartsBefore);
  }

  /** The checks on the sorted frontier. */
  method CheckSeeds(sorted: seq<FrontierNode>, start: nat, end: nat) returns (ok: bool)
    ensures ok <==> Seeds(sorted, start, end)
  {
    var coveredEnd := start;
    for i := 0 to |sorted|
      invariant forall j | 0 <= j < i :: SeedAt(sorted, start, end, j)
      invariant i == 0 ==> coveredEnd == start
      invariant i > 0 ==> coveredEnd == sorted[i - 1].node.end
    {
      var seed := sorted[i].node;
      ghost var fits := SeedAt(sorted, start, end, i);
      if seed.start >= seed.end {
        return false;
      }
      if seed.start < start || seed.end > end {
        return false;
      }
      if seed.start < coveredEnd {
        return false;
      }
      if !seed.HasValues() {
        return false;
      }
      coveredEnd := seed.end;
    }
    ok := true;
  }

  /** `sortAndValidateFrontier` */
  method SortAndValidateFrontier(frontier: seq<FrontierNode>, start: nat, end: nat) returns (ok: bool, sorted: seq<FrontierNode>)
    ensures multiset(sorted) == multiset(frontier)
    ensures ok ==> Seeds(sorted, start, end)
    ensures ok <==> ValidFrontier(frontier, start, end)
  {
    sorted := Sorting.Sort(frontier, StartsBefore);
    forall ordered: seq<FrontierNode> | multiset(ordered) == multiset(frontier) && Seeds(ordered, start, end)
      ensures Seeds(sorted, start, end)
    {
      SeedsAreSorted(ordered, sorted, start, end);
    }
    ok := CheckSeeds(sorted, start, end);
  }

  // ---------- how many blocks ----------

  function BoundedBlockCount(termCount: nat, sequentialCutoff: nat, workerCount: nat, tasksPerWorker: nat): nat
    requires termCount > 0 && sequentialCutoff > 0 && tasksPerWorker > 0
  {
    var requestedBlocks := 1 + (termCount - 1) / sequentialCutoff;
    var maximumBlocks := if workerCount > U64_MAX / tasksPerWorker then U64_MAX else workerCount * tasksPerWorker;
    if requestedBlocks < maximumBlocks then requestedBlocks else maximumBlocks
  }

  /** With at least one worker there is a block, every block can have a term, no block needs more than the
      cutoff unless the workers are the limit, and the product never overflows. */
  lemma BlockCountBounds(termCount: nat, sequentialCutoff: nat, workerCount: nat, tasksPerWorker: nat)
    requires termCount > 0 && sequentialCutoff > 0 && tasksPerWorker > 0 && workerCount > 0
    ensures 1 <= BoundedBlockCount(termCount, sequentialCutoff, workerCount, tasksPerWorker) <= termCount
    ensures workerCount <= U64_MAX / tasksPerWorker ==> workerCount * tasksPerWorker <= U64_MAX
  {
    var rest := termCount - 1;
    QuotientBounds(rest, sequentialCutoff);
    QuotientBounds(U64_MAX, tasksPerWorker);
    ProductMonotone(1, workerCount, tasksPerWorker);
    if workerCount <= U64_MAX / tasksPerWorker {
      ProductMonotone(workerCount, U64_MAX / tasksPerWorker, tasksPerWorker);
    }
  }

  lemma QuotientBounds(n: nat, d: nat)
    requires d > 0
    ensures 0 <= n / d <= n && n / d * d <= n
  {
    var q, r := n / d, n % d;
    assert n == q * d + r;
    ProductMonotone(1, d, q);
  }

  lemma ProductMonotone(a: nat, b: nat, c: nat)
    requires a <= b
    ensures a * c <= b * c
  {
  }

  // ---------- the layout ----------

  datatype PendingBlock = PendingBlock(index: nat, start: nat, end: nat)

  function PendingTerms(pending: seq<PendingBlock>): int {
    if pending == [] then 0 else
    var last := pending[|pending| - 1];
    PendingTerms(pending[..|pending| - 1]) + (last.end - last.start)
  }

  function SeedLength(seed: FrontierNode): int {
    seed.node.end - seed.node.start
  }

  function SeedTerms(frontier: seq<FrontierNode>): int {
    Sum(frontier, SeedLength)
  }

  datatype Layout = Layout(slots: seq<Option<BinaryNode>>, treeLevels: seq<nat>, pendingBlocks: seq<PendingBlock>)

  /** The layout covers the range of `expected`, which lists the node every slot has or will have. */
  ghost predicate LaysOut(layout: Layout, expected: seq<BinaryNode>, start: nat) {
    && |layout.slots| == |layout.treeLevels| == |expected|
    && Chain(expected, start) && AllSplit(expected)
    && (forall i | 0 <= i < |expected| :: layout.slots[i].Some? ==> layout.slots[i].value == expected[i])
    && (forall p | 0 <= p < |layout.pendingBlocks| :: BlockFits(layout.pendingBlocks[p], expected))
    && (forall i | 0 <= i < |expected| && layout.slots[i].None? ::
          exists p :: 0 <= p < |layout.pendingBlocks| && layout.pendingBlocks[p].index == i)
  }

  ghost predicate BlockFits(block: PendingBlock, expected: seq<BinaryNode>) {
    && block.index < |expected| && block.start < block.end
    && expected[block.index] == BinaryNode(block.start, block.end, Split(block.start, block.end))
  }

  ghost predicate LevelsAtMost(treeLevels: seq<nat>, maximum: nat) {
    forall i | 0 <= i < |treeLevels| :: treeLevels[i] <= maximum
  }

  function AddBlock(layout: Layout, blockStart: nat, blockEnd: nat): Layout {
    Layout(layout.slots + [None], layout.treeLevels + [0],
           layout.pendingBlocks + [PendingBlock(|layout.slots|, blockStart, blockEnd)])
  }

  function AddSeed(layout: Layout, seed: FrontierNode): Layout {
    Layout(layout.slots + [Some(seed.node)], layout.treeLevels + [seed.treeLevel], layout.pendingBlocks)
  }

  lemma AddBlockLaysOut(layout: Layout, expected: seq<BinaryNode>, start: nat, blockStart: nat, blockEnd: nat)
    requires LaysOut(layout, expected, start) && ChainEnd(expected, start) == blockStart < blockEnd
    ensures var node := BinaryNode(blockStart, blockEnd, Split(blockStart, blockEnd));
            LaysOut(AddBlock(layout, blockStart, blockEnd), expected + [node], start)
            && ChainEnd(expected + [node], start) == blockEnd
    ensures PendingTerms(AddBlock(layout, blockStart, blockEnd).pendingBlocks)
            == PendingTerms(layout.pendingBlocks) + (blockEnd - blockStart)
  {
    var node := BinaryNode(blockStart, blockEnd, Split(blockStart, blockEnd));
    ChainExtend(expected, start, node);
    var next, all := AddBlock(layout, blockStart, blockEnd), expected + [node];
    forall p | 0 <= p < |next.pendingBlocks| ensures BlockFits(next.pendingBlocks[p], all) {
      if p < |layout.pendingBlocks| { assert BlockFits(layout.pendingBlocks[p], expected); }
    }
    forall i | 0 <= i < |all| && next.slots[i].None?
      ensures exists p :: 0 <= p < |next.pendingBlocks| && next.pendingBlocks[p].index == i
    {
      if i < |expected| {
        var p :| 0 <= p < |layout.pendingBlocks| && layout.pendingBlocks[p].index == i;
        assert next.pendingBlocks[p].index == i;
      } else {
        assert next.pendingBlocks[|layout.pendingBlocks|].index == i;
      }
    }
    assert next.pendingBlocks[..|layout.pendingBlocks|] == layout.pendingBlocks;
  }

  lemma AddSeedLaysOut(layout: Layout, expected: seq<BinaryNode>, start: nat, seed: FrontierNode)
    requires LaysOut(layout, expected, start) && ChainEnd(expected, start) == seed.node.start && seed.node.IsSplit()
    ensures LaysOut(AddSeed(layout, seed), expected + [seed.node], start)
    ensures ChainEnd(expected + [seed.node], start) == seed.node.end
  {
    ChainExtend(expected, start, seed.node);
    var next, all := AddSeed(layout, seed), expected + [seed.node];
    forall p | 0 <= p < |next.pendingBlocks| ensures BlockFits(next.pendingBlocks[p], all) {
      assert BlockFits(layout.pendingBlocks[p], expected);
    }
  }

  /** Terms in the blocks that are left, of which the first `larger` are one term larger. */
  function TermsLeft(blocks: nat, baseBlockSize: nat, larger: nat): nat {
    if blocks == 0 then 0
    else if larger > 0 then baseBlockSize + 1 + TermsLeft(blocks - 1, baseBlockSize, larger - 1)
    else baseBlockSize + TermsLeft(blocks - 1, baseBlockSize, 0)
  }

  lemma {:induction false} TermsLeftTotal(blocks: nat, baseBlockSize: nat, larger: nat)
    requires larger <= blocks
    ensures TermsLeft(blocks, baseBlockSize, larger) == blocks * baseBlockSize + larger
  {
    if blocks > 0 {
      TermsLeftTotal(blocks - 1, baseBlockSize, if larger > 0 then larger - 1 else 0);
    }
  }

  lemma EvenBlocks(size: nat, count: nat)
    requires 1 <= count <= size
    ensures size / count >= 1 && size % count < count && TermsLeft(count, size / count, size % count) == size
  {
    var q, r := size / count, size % count;
    assert q * count + r == size;
    NotPositive(q, count);
    TermsLeftTotal(count, q, r);
  }

  lemma NotPositive(q: int, count: nat)
    ensures q <= 0 ==> q * count <= 0
  {
  }

  function LargerLeft(block: nat, larger: nat): nat {
    if block < larger then larger - block else 0
  }

  /** A layout grown from another by the blocks of [from, to). */
  ghost predicate Grown(layout0: Layout, layout: Layout, expected: seq<BinaryNode>, start: nat, from: nat, to: nat,
                        maximum: nat)
  {
    && from <= to
    && LaysOut(layout, expected, start) && ChainEnd(expected, start) == to
    && PendingTerms(layout.pendingBlocks) == PendingTerms(layout0.pendingBlocks) + (to - from)
    && (LevelsAtMost(layout0.treeLevels, maximum) ==> LevelsAtMost(layout.treeLevels, maximum))
  }

  lemma GrownAgain(layout0: Layout, layout1: Layout, expected1: seq<BinaryNode>, layout2: Layout, expected2: seq<BinaryNode>,
                   start: nat, from: nat, middle: nat, to: nat, maximum: nat)
    requires Grown(layout0, layout1, expected1, start, from, middle, maximum)
    requires Grown(layout1, layout2, expected2, start, middle, to, maximum)
    ensures Grown(layout0, layout2, expected2, start, from, to, maximum)
  {
  }

  /** One block joins the layout. */
  method AppendBlock(layout0: Layout, blockStart: nat, blockEnd: nat, ghost expected0: seq<BinaryNode>, ghost start: nat,
                     ghost maximum: nat)
    returns (layout: Layout, ghost expected: seq<BinaryNode>)
    requires blockStart < blockEnd && LaysOut(layout0, expected0, start) && ChainEnd(expected0, start) == blockStart
    ensures Grown(layout0, layout, expected, start, blockStart, blockEnd, maximum) && expected != []
  {
    AddBlockLaysOut(layout0, expected0, start, blockStart, blockEnd);
    layout := AddBlock(layout0, blockStart, blockEnd);
    expected := expected0 + [BinaryNode(blockStart, blockEnd, Split(blockStart, blockEnd))];
  }

  /** The blocks of one gap. */
  method AppendBlocks(layout0: Layout, gapStart: nat, gapEnd: nat, blockCount: nat, baseBlockSize: nat, largerBlockCount: nat,
                      ghost expected0: seq<BinaryNode>, ghost start: nat, ghost maximum: nat)
    returns (layout: Layout, ghost expected: seq<BinaryNode>)
    requires blockCount > 0 && baseBlockSize > 0 && largerBlockCount <= blockCount
    requires gapStart + TermsLeft(blockCount, baseBlockSize, largerBlockCount) == gapEnd
    requires LaysOut(layout0, expected0, start) && ChainEnd(expected0, start) == gapStart
    ensures Grown(layout0, layout, expected, start, gapStart, gapEnd, maximum) && expected != []
  {
    layout, expected := layout0, expected0;
    var blockStart: nat := gapStart;
    ghost var left := TermsLeft(blockCount, baseBlockSize, largerBlockCount);
    for block := 0 to blockCount
      invariant Grown(layout0, layout, expected, start, gapStart, blockStart, maximum)
      invariant left == TermsLeft(blockCount - block, baseBlockSize, LargerLeft(block, largerBlockCount))
      invariant blockStart + left == gapEnd
      invariant block > 0 ==> expected != []
    {
      var blockEnd := blockStart + baseBlockSize + if block < largerBlockCount then 1 else 0;
      left := TermsLeft(blockCount - block - 1, baseBlockSize, LargerLeft(block + 1, largerBlockCount));
      ghost var before, expectedBefore := layout, expected;
      layout, expected := AppendBlock(layout, blockStart, blockEnd, expected, start, maximum);
      GrownAgain(layout0, before, expectedBefore, layout, expected, start, gapStart, blockStart, blockEnd, maximum);
      blockStart := blockEnd;
    }
  }

  /** `appendGap`: blocks of equal size, the first few one term larger. */
  method AppendGap(layout0: Layout, gapStart: nat, gapEnd: nat, executor: Executor, options: ParallelSplitOptions,
                   ghost expected0: seq<BinaryNode>, ghost start: nat, ghost maximum: nat)
    returns (layout: Layout, ghost expected: seq<BinaryNode>)
    requires gapStart < gapEnd && options.sequentialCutoff > 0 && options.tasksPerWorker > 0
    requires LaysOut(layout0, expected0, start) && ChainEnd(expected0, start) == gapStart
    ensures Grown(layout0, layout, expected, start, gapStart, gapEnd, maximum) && expected != []
  {
    var gapSize := gapEnd - gapStart;
    var blockCount := 1;
    if executor.AcceptsStagedWork() {
      blockCount := BoundedBlockCount(gapSize, options.sequentialCutoff, executor.workerCount, options.tasksPerWorker);
      BlockCountBounds(gapSize, options.sequentialCutoff, executor.workerCount, options.tasksPerWorker);
    }
    EvenBlocks(gapSize, blockCount);
    layout, expected := AppendBlocks(layout0, gapStart, gapEnd, blockCount, gapSize / blockCount, gapSize % blockCount,
                                     expected0, start, maximum);
  }

  /** The gap before a seed, if there is one, and the seed with its own level. */
  method AppendSeed(layout0: Layout, coveredEnd: nat, seed: FrontierNode, executor: Executor, options: ParallelSplitOptions,
                    ghost expected0: seq<BinaryNode>, ghost start: nat, ghost maximum: nat)
    returns (layout: Layout, ghost expected: seq<BinaryNode>)
    requires options.sequentialCutoff > 0 && options.tasksPerWorker > 0
    requires LaysOut(layout0, expected0, start) && ChainEnd(expected0, start) == coveredEnd
    requires coveredEnd <= seed.node.start && seed.node.IsSplit()
    ensures LaysOut(layout, expected, start) && ChainEnd(expected, start) == seed.node.end && expected != []
    ensures PendingTerms(layout.pendingBlocks) == PendingTerms(layout0.pendingBlocks) + (seed.node.start - coveredEnd)
    ensures LevelsAtMost(layout0.treeLevels, maximum) && seed.treeLevel <= maximum ==> LevelsAtMost(layout.treeLevels, maximum)
  {
    layout, expected := layout0, expected0;
    if coveredEnd < seed.node.start {
      layout, expected := AppendGap(layout, coveredEnd, seed.node.start, executor, options, expected, start, maximum);
    }
    AddSeedLaysOut(layout, expected, start, seed);
    layout, expected := AddSeed(layout, seed), expected + [seed.node];
  }

  /** Seeds keep their slot and level, every uncovered gap becomes blocks. */
  method LayOutFrontier(frontier: seq<FrontierNode>, start: nat, end: nat, executor: Executor, options: ParallelSplitOptions,
                        ghost maximum: nat)
    returns (layout: Layout, ghost expected: seq<BinaryNode>)
    requires start < end && options.sequentialCutoff > 0 && options.tasksPerWorker > 0
    requires Seeds(frontier, start, end) && forall seed | seed in frontier :: seed.node.IsSplit()
    ensures LaysOut(layout, expected, start) && ChainEnd(expected, start) == end && expected != []
    ensures PendingTerms(layout.pendingBlocks) == (end - start) - SeedTerms(frontier)
    ensures (forall seed | seed in frontier :: seed.treeLevel <= maximum) ==> LevelsAtMost(layout.treeLevels, maximum)
  {
    layout, expected := Layout([], [], []), [];
    var coveredEnd := start;
    for i := 0 to |frontier|
      invariant LaysOut(layout, expected, start) && ChainEnd(expected, start) == coveredEnd <= end
      invariant i > 0 ==> coveredEnd == frontier[i - 1].node.end
      invariant i == 0 ==> coveredEnd == start
      invariant PendingTerms(layout.pendingBlocks) == (coveredEnd - start) - SeedTerms(frontier[..i])
      invariant (forall seed | seed in frontier :: seed.treeLevel <= maximum) ==> LevelsAtMost(layout.treeLevels, maximum)
    {
      var seed := frontier[i];
      assert SeedAt(frontier, start, end, i) && seed in frontier;
      SeedTermsStep(frontier, i);
      layout, expected := AppendSeed(layout, coveredEnd, seed, executor, options, expected, start, maximum);
      coveredEnd := seed.node.end;
    }
    assert frontier[..|frontier|] == frontier;
    if coveredEnd < end {
      layout, expected := AppendGap(layout, coveredEnd, end, executor, options, expected, start, maximum);
    }
  }

  lemma SeedTermsStep(frontier: seq<FrontierNode>, i: nat)
    requires i < |frontier|
    ensures SeedTerms(frontier[..i + 1]) == SeedTerms(frontier[..i]) + (frontier[i].node.end - frontier[i].node.start)
  {
    assert frontier[..i + 1][..i] == frontier[..i];
  }
}
