/** The parallel split: seeds and computed blocks, merged pair by pair, level by level, with the observer
    credited, the frontier committed and nodes spilled along the way (src/binary/BinarySplitter.cpp).
    Whatever the layout, the order of the tasks, the spills and the reloads, the result is the node of
    plain recursion. */
module BinarySplitter {
  import opened BinaryNodes
  import opened CheckpointSafety
  import opened CheckpointTypes
  import opened Chudnovsky
  import opened Disk
  import opened FrontierWriter
  import opened Schedule
  import opened Sequences
  import opened SplitLayout
  import opened StorageManager
  import opened StorageMergeCoordinator
  import opened Widths
  import Eviction

  // ---------- the blocks ----------

  function BlockTerms(pending: seq<PendingBlock>, p: nat): int {
    if p < |pending| then pending[p].end - pending[p].start else 0
  }

  /** Terms of the blocks in the order they were computed. */
  function CreditedTerms(order: seq<nat>, pending: seq<PendingBlock>): int {
    Sum(order, TermsOf(pending))
  }

  function TermsOf(pending: seq<PendingBlock>): nat -> int {
    (p: nat) => BlockTerms(pending, p)
  }

  lemma {:induction false} CreditedPrefix(order: seq<nat>, pending: seq<PendingBlock>, n: nat)
    requires n <= |pending| && forall i | 0 <= i < |order| :: order[i] < n
    ensures CreditedTerms(order, pending) == CreditedTerms(order, pending[..n])
  {
    if order != [] {
      CreditedPrefix(order[..|order| - 1], pending, n);
    }
  }

  /** The order without its i-th element. */
  function Without(order: seq<nat>, i: nat): (rest: seq<nat>)
    requires i < |order|
    ensures |rest| == |order| - 1
    ensures forall p | 0 <= p < |rest| :: rest[p] == order[if p < i then p else p + 1]
  {
    order[..i] + order[i + 1..]
  }

  lemma RemoveLastTask(order: seq<nat>, n: nat) returns (i: nat)
    requires IsOrderOf(order, n) && n > 0
    ensures i < |order| && order[i] == n - 1 && IsOrderOf(Without(order, i), n - 1)
    ensures forall p | 0 <= p < |order| - 1 :: Without(order, i)[p] < n - 1
  {
    assert n - 1 in order;
    i :| 0 <= i < |order| && order[i] == n - 1;
    var rest := Without(order, i);
    forall p | 0 <= p < |rest| ensures rest[p] < n - 1 {
      var q := if p < i then p else p + 1;
      assert order[q] in order && order[q] != order[i];
    }
    forall k | 0 <= k < n - 1 ensures k in rest {
      assert k in order;
      var p :| 0 <= p < |order| && order[p] == k;
      assert rest[if p < i then p else p - 1] == k;
    }
  }

  /** The observer is credited with every pending term once, in whatever order the blocks finish. */
  lemma {:induction false} CreditIsOrderFree(order: seq<nat>, pending: seq<PendingBlock>)
    requires IsOrderOf(order, |pending|)
    ensures CreditedTerms(order, pending) == PendingTerms(pending)
    decreases |pending|
  {
    if pending != [] {
      hide IsOrderOf, Sum, CreditedTerms;
      var n := |pending|;
      var i := RemoveLastTask(order, n);
      var rest := Without(order, i);
      CreditWithout(order, pending, i);
      CreditedPrefix(rest, pending, n - 1);
      CreditIsOrderFree(rest, pending[..n - 1]);
    }
  }

  lemma CreditWithout(order: seq<nat>, pending: seq<PendingBlock>, i: nat)
    requires i < |order|
    ensures CreditedTerms(order, pending) == CreditedTerms(Without(order, i), pending) + BlockTerms(pending, order[i])
  {
    SumWithout(order, TermsOf(pending), i);
  }

  /** Slots are filled as blocks finish; the rest are still pending. */
  ghost predicate Filling(slots: seq<Option<BinaryNode>>, expected: seq<BinaryNode>, pending: seq<PendingBlock>, done: seq<nat>) {
    && |slots| == |expected|
    && (forall i | 0 <= i < |slots| && slots[i].Some? :: slots[i].value == expected[i])
    && (forall i | 0 <= i < |slots| && slots[i].None? :: exists p :: WaitingFor(pending, done, p, i))
  }

  ghost predicate WaitingFor(pending: seq<PendingBlock>, done: seq<nat>, p: int, i: nat) {
    0 <= p < |pending| && pending[p].index == i && p !in done
  }

  lemma FillOne(slots: seq<Option<BinaryNode>>, expected: seq<BinaryNode>, pending: seq<PendingBlock>, done: seq<nat>, p: nat)
    requires Filling(slots, expected, pending, done) && p < |pending| && BlockFits(pending[p], expected)
    ensures Filling(slots[pending[p].index := Some(expected[pending[p].index])], expected, pending, done + [p])
  {
    var at := pending[p].index;
    var next := slots[at := Some(expected[at])];
    forall i | 0 <= i < |next| && next[i].None? ensures exists q :: WaitingFor(pending, done + [p], q, i) {
      var q :| WaitingFor(pending, done, q, i);
      assert WaitingFor(pending, done + [p], q, i);
    }
  }

  /** Every pending block is computed, some of them by workers, in any order. */
  method ComputeBlocks(layout: Layout, parallel: bool, ghost expected: seq<BinaryNode>, ghost start: nat)
    returns (nodes: seq<BinaryNode>, credited: int)
    requires LaysOut(layout, expected, start)
    ensures nodes == expected && credited == PendingTerms(layout.pendingBlocks)
  {
    var slots, pending := layout.slots, layout.pendingBlocks;
    var order := StageOrder(|pending|, parallel);
    credited := 0;
    forall i | 0 <= i < |slots| && slots[i].None? ensures exists p :: WaitingFor(pending, order[..0], p, i) {
      var p :| 0 <= p < |pending| && pending[p].index == i;
      assert WaitingFor(pending, order[..0], p, i);
    }
    for k := 0 to |order|
      invariant Filling(slots, expected, pending, order[..k])
      invariant credited == CreditedTerms(order[..k], pending)
    {
      assert order[k] in order;
      var block := pending[order[k]];
      assert BlockFits(block, expected);
      PrefixStep(order, k);
      FillOne(slots, expected, pending, order[..k], order[k]);
      var node := SplitSequentialValidated(block.start, block.end);
      slots := slots[block.index := Some(node)];
      credited := credited + (block.end - block.start);
    }
    assert order[..|order|] == order;
    CreditIsOrderFree(order, pending);
    forall i | 0 <= i < |slots| ensures slots[i] == Some(expected[i]) {
      assert forall p :: !WaitingFor(pending, order, p, i);
    }
    nodes := CollectSlots(slots, expected);
  }

  method CollectSlots(slots: seq<Option<BinaryNode>>, ghost expected: seq<BinaryNode>) returns (nodes: seq<BinaryNode>)
    requires |slots| == |expected| && forall i | 0 <= i < |slots| :: slots[i] == Some(expected[i])
    ensures nodes == expected
  {
    nodes := [];
    for i := 0 to |slots|
      invariant |nodes| == i && forall j | 0 <= j < i :: nodes[j] == expected[j]
    {
      nodes := nodes + [slots[i].value];
    }
  }

  // ---------- one merge level ----------

  function MergedNode(nodes: seq<BinaryNode>, pair: nat): BinaryNode
    requires 2 * pair + 1 < |nodes|
  {
    BinaryNode(nodes[2 * pair].start, nodes[2 * pair + 1].end, Join(nodes[2 * pair].v, nodes[2 * pair + 1].v))
  }

  /** Pairs merged, an odd node kept. */
  function NextLevel(nodes: seq<BinaryNode>): (next: seq<BinaryNode>)
    ensures |next| == (|nodes| + 1) / 2
    ensures forall j | 0 <= j < |next| :: next[j] == if 2 * j + 1 < |nodes| then MergedNode(nodes, j) else nodes[2 * j]
  {
    seq((|nodes| + 1) / 2, j requires 0 <= j < (|nodes| + 1) / 2 =>
      if 2 * j + 1 < |nodes| then MergedNode(nodes, j) else nodes[2 * j])
  }

  lemma NextLevelAt(nodes: seq<BinaryNode>, start: nat, end: nat, j: nat)
    requires Frontier(nodes, start, end) && j < (|nodes| + 1) / 2
    ensures NextLevel(nodes)[j].IsSplit() && ChainAt(NextLevel(nodes), start, j)
  {
    var next := NextLevel(nodes);
    assert nodes[2 * j].IsSplit() && ChainAt(nodes, start, 2 * j);
    if 2 * j + 1 < |nodes| {
      assert nodes[2 * j + 1].IsSplit() && ChainAt(nodes, start, 2 * j + 1);
      MergeOfSplits(nodes[2 * j], nodes[2 * j + 1]);
    }
    if j > 0 {
      assert next[j - 1] == MergedNode(nodes, j - 1);
      assert next[j - 1].end == nodes[2 * j - 1].end;
    }
  }

  lemma NextLevelIsFrontier(nodes: seq<BinaryNode>, start: nat, end: nat)
    requires Frontier(nodes, start, end)
    ensures Frontier(NextLevel(nodes), start, end)
  {
    hide NextLevel, Split;
    var next := NextLevel(nodes);
    forall j | 0 <= j < |next| ensures next[j].IsSplit() && ChainAt(next, start, j) {
      NextLevelAt(nodes, start, end, j);
    }
    NextLevelEnd(nodes);
  }

  lemma NextLevelEnd(nodes: seq<BinaryNode>)
    requires nodes != []
    ensures NextLevel(nodes)[|NextLevel(nodes)| - 1].end == nodes[|nodes| - 1].end
  {
    var n := |nodes|;
    if n % 2 == 0 {
      assert (n + 1) / 2 - 1 == n / 2 - 1 && 2 * (n / 2 - 1) + 1 == n - 1;
    } else {
      assert (n + 1) / 2 - 1 == n / 2 && 2 * (n / 2) == n - 1;
    }
  }

  function NextTreeLevel(left: nat, right: nat, maximum: nat): nat {
    var childLevel := if left < right then right else left;
    var raised := if childLevel == U32_MAX then childLevel else childLevel + 1;
    if raised < maximum then raised else maximum
  }

  /** The merge tasks of a level, in any order. */
  method MergePairs(nodes: seq<BinaryNode>, parallel: bool, ghost start: nat, ghost end: nat)
    returns (results: seq<Option<BinaryNode>>)
    requires |nodes| > 1 && Frontier(nodes, start, end)
    ensures |results| == |nodes| / 2
    ensures forall p | 0 <= p < |results| :: results[p] == Some(MergedNode(nodes, p))
  {
    var pairCount := |nodes| / 2;
    results := seq(pairCount, _ => None);
    var order := StageOrder(pairCount, parallel && pairCount > 1);
    for k := 0 to |order|
      invariant |results| == pairCount
      invariant forall p | 0 <= p < pairCount && p in order[..k] :: results[p] == Some(MergedNode(nodes, p))
    {
      var pair := order[k];
      assert pair in order;
      PrefixStep(order, k);
      assert ChainAt(nodes, start, 2 * pair + 1);
      var merged := Merge(nodes[2 * pair], nodes[2 * pair + 1]);
      results := results[pair := Some(merged.node)];
    }
    assert order[..|order|] == order;
  }

  /** The tree levels of the next level: one above the higher child, an odd node keeps its own. */
  ghost predicate NextTreeLevels(levels: seq<nat>, next: seq<nat>, maximum: nat) {
    && |next| == (|levels| + 1) / 2
    && forall j | 0 <= j < |next| ::
         next[j] == if 2 * j + 1 < |levels| then NextTreeLevel(levels[2 * j], levels[2 * j + 1], maximum) else levels[2 * j]
  }

  lemma NextTreeLevelsAtMost(levels: seq<nat>, next: seq<nat>, maximum: nat)
    requires NextTreeLevels(levels, next, maximum) && LevelsAtMost(levels, maximum)
    ensures LevelsAtMost(next, maximum)
  {
  }

  /** One merge level: the next nodes and their tree levels. */
  method MergeLevel(nodes: seq<BinaryNode>, treeLevels: seq<nat>, parallel: bool, maximum: nat, ghost start: nat, ghost end: nat)
    returns (next: seq<BinaryNode>, nextTreeLevels: seq<nat>)
    requires |nodes| == |treeLevels| > 1 && Frontier(nodes, start, end)
    ensures next == NextLevel(nodes) && NextTreeLevels(treeLevels, nextTreeLevels, maximum)
  {
    var results := MergePairs(nodes, parallel, start, end);
    next, nextTreeLevels := [], [];
    for pair := 0 to |nodes| / 2
      invariant |next| == |nextTreeLevels| == pair
      invariant forall j | 0 <= j < pair :: next[j] == MergedNode(nodes, j)
      invariant forall j | 0 <= j < pair :: nextTreeLevels[j] == NextTreeLevel(treeLevels[2 * j], treeLevels[2 * j + 1], maximum)
    {
      next := next + [results[pair].value];
      nextTreeLevels := nextTreeLevels + [NextTreeLevel(treeLevels[2 * pair], treeLevels[2 * pair + 1], maximum)];
    }
    if |nodes| % 2 != 0 {
      next := next + [nodes[|nodes| - 1]];
      nextTreeLevels := nextTreeLevels + [treeLevels[|nodes| - 1]];
    }
    assert next == NextLevel(nodes);
  }

  // ---------- a completed stage ----------

  datatype StageOutcome = StageDone | ObserveFailed | CommitRefused | CommitFailed | SpillFailed

  /** The writer continues what the run started with. */
  ghost predicate WriterOn(writer: FrontierWriter, o: Origin)
    reads writer, writer.fs
  {
    && writer.Valid() && Truthful(writer.fs.disk)
    && o.checksumOf == writer.checksumOf && o.termCount == writer.identity.termCount
    && (writer.held ==> Anchored(o, writer.fs.disk, writer.entries, writer.values))
  }

  /** Every directory state since the k-th is free of wrong blocks and loses nothing in a crash. */
  ghost predicate SafeStates(writer: FrontierWriter, k: nat, o: Origin)
    reads writer, writer.fs
  {
    forall i | k <= i < |writer.fs.history| ::
      Truthful(writer.fs.history[i]) && (writer.held ==> Recoverable(o, writer.fs.history[i]))
  }

  lemma FrontierIsLaidOut(nodes: seq<BinaryNode>, termCount: nat)
    requires Frontier(nodes, 0, termCount)
    ensures LaidOut(nodes, |nodes|, termCount) && Cursor(nodes, |nodes|) == termCount
  {
    forall j | 0 <= j < |nodes| ensures FitsAt(nodes, j, termCount) {
      assert ChainAt(nodes, 0, j);
      ChainBounds(nodes, 0, j);
    }
  }

  /** A frontier of the splitter passes every check of `commitFrontier`. */
  lemma FrontierIsResumable(nodes: seq<BinaryNode>, levels: seq<nat>, entries: seq<ManifestEntry>, termCount: nat)
    requires Frontier(nodes, 0, termCount) && |levels| == |nodes|
    requires LevelsAtMost(levels, MaximumTreeLevel(termCount))
    ensures Resumable(nodes, levels, entries, termCount)
  {
    FrontierIsLaidOut(nodes, termCount);
    forall i | 0 <= i < |nodes| ensures nodes[i].HasValues() {
      SplitHasValues(nodes[i]);
    }
  }

  /** A commit inside a run. */
  method CommitStage(writer: FrontierWriter, nodes: seq<BinaryNode>, levels: seq<nat>, ghost o: Origin)
    returns (outcome: CommitOutcome)
    requires WriterOn(writer, o) && TrueNodes(nodes) && |nodes| == |levels|
    modifies writer, writer.fs
    ensures writer.Valid() && Truthful(writer.fs.disk) && old(writer.fs.history) <= writer.fs.history
    ensures SafeStates(writer, |old(writer.fs.history)|, o)
    ensures !outcome.IoFailed? ==> WriterOn(writer, o)
    ensures outcome.Refused? ==> !Resumable(nodes, levels, old(writer.entries), writer.identity.termCount)
    ensures (old(writer.fs.failed) ==> writer.fs.failed) && (outcome.IoFailed? ==> writer.fs.failed)
  {
    hide Truthful, Recoverable, Anchored, Resumable, Commit.Published, Commit.WellFormed, HoldsAll;
    ghost var k, before := |writer.fs.history|, writer.fs.disk;
    ghost var c;
    outcome, c := writer.CommitFrontier(nodes, levels);
    forall i | k <= i < |writer.fs.history|
      ensures Truthful(writer.fs.history[i]) && (writer.held ==> Recoverable(o, writer.fs.history[i]))
    {
      CommitKeepsTruth(c, writer.fs.history[i]);
      if writer.held {
        CommitIsRecoverable(o, c, writer.fs.history[i]);
      }
    }
    if outcome.Committed? {
      CommitKeepsTruth(c, writer.fs.disk);
      if writer.held {
        CommitIsRecoverable(o, c, writer.fs.disk);
      }
    } else {
      assert writer.fs.history[|writer.fs.history| - 1] == writer.fs.disk;
    }
  }

  /** The nodes as they are after spilling, next to the level as it was computed. */
  ghost predicate Tracked(coordinator: StorageMergeCoordinator?, nodes: seq<BinaryNode>, level: seq<BinaryNode>, mergeLevel: nat)
    reads coordinator, if coordinator == null then {} else {coordinator.manager}
  {
    && |nodes| == |level| && (|level| == 1 ==> nodes == level)
    && (coordinator == null ==> nodes == level)
    && (coordinator != null ==>
          coordinator.Valid(nodes) && coordinator.Idle() && coordinator.observed == level
          && coordinator.observedLevel == mergeLevel)
  }

  ghost function CoordinatorFrame(coordinator: StorageMergeCoordinator?): set<object>
    reads coordinator
  {
    if coordinator == null then {} else {coordinator, coordinator.manager}
  }

  ghost function WriterFrame(writer: FrontierWriter?): set<object>
    reads writer
  {
    if writer == null then {} else {writer, writer.fs}
  }

  // ---------- nothing fails on its own ----------

  /** No call of the file system or of the chunk store has failed, and no chunk has been lost. */
  ghost predicate Undisturbed(coordinator: StorageMergeCoordinator?, writer: FrontierWriter?)
    reads coordinator, CoordinatorFrame(coordinator), writer, WriterFrame(writer)
  {
    && (coordinator != null ==> !coordinator.manager.interrupted && !coordinator.manager.disturbed)
    && (writer != null ==> !writer.fs.failed)
  }

  /** The chunk store has a budget, takes every node of the range as a chunk, and lists nothing of the range from
      before the run; the payloads of a level add up below 2^64. */
  ghost predicate Roomy(coordinator: StorageMergeCoordinator?, start: nat, end: nat) {
    coordinator != null ==>
      && coordinator.manager.memoryBudgetBytes > 0 && end <= coordinator.manager.termCount
      && (end - start) * MAX_CHUNK_PAYLOAD_BYTES <= U64_MAX
      && (forall l | l in coordinator.foreign :: l.end <= start || end <= l.start)
      && (forall a: nat, b: nat | start <= a < b <= end :: coordinator.manager.SizeFits(Chudnovsky.Split(a, b)))
  }

  lemma {:induction false} InOrder(nodes: seq<BinaryNode>, start: nat, i: nat, j: nat)
    requires Chain(nodes, start) && AllSplit(nodes) && i < j < |nodes|
    ensures nodes[i].end <= nodes[j].start
    decreases j
  {
    hide Chudnovsky.Split;
    assert ChainAt(nodes, start, j) && nodes[j - 1].IsSplit();
    if i < j - 1 { InOrder(nodes, start, i, j - 1); }
  }

  lemma {:induction false} NoMoreThanTerms(nodes: seq<BinaryNode>, start: nat, j: nat)
    requires Chain(nodes, start) && AllSplit(nodes) && j < |nodes|
    ensures start + j <= nodes[j].start < nodes[j].end
    decreases j
  {
    hide Chudnovsky.Split;
    assert ChainAt(nodes, start, j) && nodes[j].IsSplit();
    if j > 0 { NoMoreThanTerms(nodes, start, j - 1); }
  }

  lemma NodeHasRoom(coordinator: StorageMergeCoordinator, nodes: seq<BinaryNode>, level: nat, start: nat, end: nat, i: nat)
    requires Frontier(nodes, start, end) && Roomy(coordinator, start, end) && i < |nodes|
    ensures start <= nodes[i].start < nodes[i].end <= end
    ensures LocationOf(nodes[i], level).Valid(coordinator.manager.termCount) && coordinator.manager.SizeFits(nodes[i].v)
  {
    hide Chudnovsky.Split;
    ChainBounds(nodes, start, i);
    assert nodes[i].IsSplit();
  }

  lemma FrontierIsObservable(coordinator: StorageMergeCoordinator, nodes: seq<BinaryNode>, level: nat, start: nat, end: nat)
    requires Frontier(nodes, start, end) && Roomy(coordinator, start, end)
    ensures coordinator.Observable(nodes, level)
  {
    hide Frontier, Roomy;
    forall i | 0 <= i < |nodes|
      ensures LocationOf(nodes[i], level).Valid(coordinator.manager.termCount) && coordinator.manager.SizeFits(nodes[i].v)
    {
      NodeHasRoom(coordinator, nodes, level, start, end, i);
    }
    forall i, j | 0 <= i < j < |nodes| ensures LocationOf(nodes[i], level) != LocationOf(nodes[j], level) {
      NodeHasRoom(coordinator, nodes, level, start, end, i);
      FrontierInOrder(nodes, start, end, i, j);
    }
  }

  lemma FrontierInOrder(nodes: seq<BinaryNode>, start: nat, end: nat, i: nat, j: nat)
    requires Frontier(nodes, start, end) && i < j < |nodes|
    ensures nodes[i].end <= nodes[j].start
  {
    InOrder(nodes, start, i, j);
  }

  /** A frontier that has just been observed is a fresh level of nodes apart. */
  lemma ObservedIsFresh(coordinator: StorageMergeCoordinator, records: seq<ResidentNode>, nodes: seq<BinaryNode>, level: nat,
                        start: nat, end: nat)
    requires Frontier(nodes, start, end) && Roomy(coordinator, start, end) && |nodes| > 1
    requires FreshRecords(records, nodes, level, coordinator.manager.payloadSizeOf)
    ensures FreshLevel(records, level) && ApartRecords(records)
  {
    hide Chudnovsky.Split;
    FrontierIsObservable(coordinator, nodes, level, start, end);
    forall i, j | 0 <= i < j < |records| ensures !records[i].location.Overlaps(records[j].location) {
      FrontierInOrder(nodes, start, end, i, j);
    }
    ResidentAtMost(records, MAX_CHUNK_PAYLOAD_BYTES);
    NoMoreThanTerms(nodes, start, |nodes| - 1);
    ChainBounds(nodes, start, |nodes| - 1);
    ProductMonotone(|nodes|, end - start, MAX_CHUNK_PAYLOAD_BYTES);
  }

  /** What the index may still list cannot be in the way of a node of the frontier. */
  lemma FrontierIsAccepted(coordinator: StorageMergeCoordinator, indexed: set<BlockLocation>, nodes: seq<BinaryNode>,
                           level: nat, start: nat, end: nat, i: nat)
    requires Frontier(nodes, start, end) && Roomy(coordinator, start, end) && i < |nodes| && indexed <= coordinator.foreign
    ensures Accepts(indexed, coordinator.manager.termCount, LocationOf(nodes[i], level))
  {
    NodeHasRoom(coordinator, nodes, level, start, end, i);
  }

  /** What can go wrong needs the part it goes wrong in. */
  predicate StageFault(outcome: StageOutcome, stored: bool, committing: bool) {
    match outcome
    case StageDone => false
    case ObserveFailed => stored
    case SpillFailed => stored
    case CommitRefused => committing
    case CommitFailed => committing
  }

  /** The durable checkpoint of a stage. */
  method CommitComputed(writer: FrontierWriter, nodes: seq<BinaryNode>, levels: seq<nat>,
                        ghost start: nat, ghost end: nat, ghost o: Origin)
    returns (outcome: StageOutcome)
    requires Frontier(nodes, start, end) && |levels| == |nodes| && WriterOn(writer, o)
    modifies writer, writer.fs
    ensures outcome.StageDone? || outcome.CommitRefused? || outcome.CommitFailed?
    ensures outcome.CommitRefused? ==> !(end == o.termCount && Committable(levels, start, end))
    ensures writer.fs.Valid() && Truthful(writer.fs.disk) && old(writer.fs.history) <= writer.fs.history
            && SafeStates(writer, |old(writer.fs.history)|, o)
    ensures outcome.StageDone? ==> WriterOn(writer, o)
    ensures (old(writer.fs.failed) ==> writer.fs.failed) && (outcome.CommitFailed? ==> writer.fs.failed)
  {
    var committed := CommitStage(writer, nodes, levels, o);
    if committed.Refused? {
      if end == o.termCount && Committable(levels, start, end) {
        FrontierIsResumable(nodes, levels, old(writer.entries), end);
      }
      return CommitRefused;
    }
    outcome := if committed.IoFailed? then CommitFailed else StageDone;
  }

  /** The spill of a stage. */
  method SpillStage(coordinator: StorageMergeCoordinator, nodes: seq<BinaryNode>, mergeLevel: nat, ghost start: nat, ghost end: nat)
    returns (ok: bool, after: seq<BinaryNode>)
    requires Tracked(coordinator, nodes, nodes, mergeLevel) && Frontier(nodes, start, end) && |nodes| > 1
    requires FreshRecords(coordinator.records, nodes, mergeLevel, coordinator.manager.payloadSizeOf)
    requires !coordinator.manager.disturbed ==> coordinator.manager.index.Keys <= coordinator.foreign
    modifies coordinator, coordinator.manager
    ensures ok ==> Tracked(coordinator, after, nodes, mergeLevel)
    ensures old(coordinator.manager.interrupted) ==> coordinator.manager.interrupted
    ensures old(coordinator.manager.disturbed) ==> coordinator.manager.disturbed
    ensures Roomy(coordinator, start, end) && Undisturbed(coordinator, null) ==> ok
  {
    hide Frontier, Roomy, FreshLevel, ApartRecords, Accepts;
    ghost var records, indexed := coordinator.records, coordinator.manager.index.Keys;
    var spilled;
    ghost var chosen;
    spilled, after, chosen := coordinator.Spill(nodes, mergeLevel);
    ok := !spilled.SizeMismatch? && !spilled.PlanFailed? && !spilled.SpillFailed?;
    if Roomy(coordinator, start, end) && Undisturbed(coordinator, null) {
      SpillSucceeds(coordinator, records, indexed, chosen, nodes, mergeLevel, start, end);
    }
  }

  lemma SpillSucceeds(coordinator: StorageMergeCoordinator, records: seq<ResidentNode>, indexed: set<BlockLocation>,
                      chosen: seq<Eviction.Candidate>, nodes: seq<BinaryNode>, level: nat, start: nat, end: nat)
    requires Frontier(nodes, start, end) && Roomy(coordinator, start, end) && |nodes| > 1
    requires FreshRecords(records, nodes, level, coordinator.manager.payloadSizeOf) && indexed <= coordinator.foreign
    ensures coordinator.manager.memoryBudgetBytes > 0
    ensures FreshLevel(records, level) && Clean(records, level) && ApartRecords(records)
    ensures NamesRecords(records, chosen) ==>
      forall c | c in chosen :: Accepts(indexed, coordinator.manager.termCount, c.id)
  {
    ObservedIsFresh(coordinator, records, nodes, level, start, end);
    if NamesRecords(records, chosen) {
      forall c | c in chosen ensures Accepts(indexed, coordinator.manager.termCount, c.id) {
        var i :| Stands(records, c, i);
        FrontierIsAccepted(coordinator, indexed, nodes, level, start, end, i);
      }
    }
  }

  /** `completeStage`: storage accounting, durable checkpoint, then spill. */
  method CompleteStage(nodes: seq<BinaryNode>, levels: seq<nat>, mergeLevel: nat, computedNodes: bool,
                       coordinator: StorageMergeCoordinator?, writer: FrontierWriter?,
                       ghost start: nat, ghost end: nat, ghost o: Origin)
    returns (outcome: StageOutcome, after: seq<BinaryNode>)
    requires Frontier(nodes, start, end) && |levels| == |nodes|
    requires coordinator != null ==> coordinator.Ready()
    requires writer != null ==> WriterOn(writer, o)
    modifies CoordinatorFrame(coordinator), WriterFrame(writer)
    ensures outcome.StageDone? ==> Tracked(coordinator, after, nodes, mergeLevel)
    ensures outcome.StageDone? || StageFault(outcome, coordinator != null, writer != null)
    ensures Undisturbed(coordinator, writer) ==> old(Undisturbed(coordinator, writer))
    ensures Roomy(coordinator, start, end) && Undisturbed(coordinator, writer) ==> outcome.StageDone? || outcome.CommitRefused?
    ensures outcome.CommitRefused? ==>
      writer != null && !(end == o.termCount && Committable(levels, start, end))
    ensures writer != null ==>
      && writer.fs.Valid() && Truthful(writer.fs.disk) && old(writer.fs.history) <= writer.fs.history
      && SafeStates(writer, |old(writer.fs.history)|, o)
    ensures writer != null && outcome.StageDone? ==> WriterOn(writer, o)
  {
    hide Roomy, Frontier;
    after := nodes;
    if coordinator != null {
      if Roomy(coordinator, start, end) { FrontierIsObservable(coordinator, nodes, mergeLevel, start, end); }
      var observed := coordinator.Observe(nodes, mergeLevel);
      if !observed.Observed? {
        return ObserveFailed, nodes;
      }
    }
    if writer != null && computedNodes {
      outcome := CommitComputed(writer, nodes, levels, start, end, o);
      if !outcome.StageDone? {
        return outcome, nodes;
      }
    }
    if coordinator != null && |nodes| > 1 {
      var ok;
      ok, after := SpillStage(coordinator, nodes, mergeLevel, start, end);
      if !ok {
        return StageOutcome.SpillFailed, after;
      }
    }
    outcome := StageDone;
  }

  // ---------- the parallel split ----------

  datatype SplitResult = Whole(node: BinaryNode) | InvalidArgument | Failed(stage: StageOutcome) | ReloadFailed

  /** Without a coordinator and a writer nothing fails; with them only they do. */
  predicate OnlyTheyFail(result: SplitResult, coordinator: bool, writer: bool) {
    match result
    case Whole(_) => true
    case InvalidArgument => true
    case Failed(stage) => StageFault(stage, coordinator, writer)
    case ReloadFailed => coordinator
  }

  /** A resident seed is the node of plain recursion for its range. */
  ghost predicate TrueSeeds(frontier: seq<FrontierNode>) {
    forall seed | seed in frontier && seed.node.start < seed.node.end && seed.node.HasValues() :: seed.node.IsSplit()
  }

  ghost predicate SeedLevelsAtMost(frontier: seq<FrontierNode>, maximum: nat) {
    forall seed | seed in frontier :: seed.treeLevel <= maximum
  }

  lemma FrontierOfOne(nodes: seq<BinaryNode>, start: nat, end: nat)
    requires start < end && Frontier(nodes, start, end) && |nodes| == 1
    ensures nodes[0] == BinaryNode(start, end, Chudnovsky.Split(start, end))
  {
    assert ChainAt(nodes, start, 0) && nodes[0].IsSplit();
  }

  /** The levels a frontier may have if its manifest is to be resumable. */
  ghost predicate Committable(levels: seq<nat>, start: nat, end: nat) {
    start == 0 && LevelsAtMost(levels, MaximumTreeLevel(end))
  }

  /** Reload, merge, complete. */
  method NextStage(nodes0: seq<BinaryNode>, treeLevels0: seq<nat>, mergeLevel: nat, parallel: bool,
                   coordinator: StorageMergeCoordinator?, writer: FrontierWriter?,
                   ghost level: seq<BinaryNode>, start: nat, end: nat, ghost o: Origin)
    returns (failure: Option<SplitResult>, nodes: seq<BinaryNode>, treeLevels: seq<nat>)
    requires start < end && Frontier(level, start, end) && |treeLevels0| == |level| > 1
    requires Tracked(coordinator, nodes0, level, mergeLevel)
    requires writer != null ==> WriterOn(writer, o)
    modifies CoordinatorFrame(coordinator), WriterFrame(writer)
    ensures failure.None? ==>
      && Tracked(coordinator, nodes, NextLevel(level), mergeLevel + 1) && |treeLevels| == |NextLevel(level)|
      && (Committable(treeLevels0, start, end) ==> Committable(treeLevels, start, end))
      && (writer != null ==> WriterOn(writer, o))
    ensures failure.Some? ==> failure.value.Failed? || failure.value.ReloadFailed?
    ensures failure.Some? ==> OnlyTheyFail(failure.value, coordinator != null, writer != null)
    ensures Undisturbed(coordinator, writer) ==> old(Undisturbed(coordinator, writer))
    ensures Roomy(coordinator, start, end) && Undisturbed(coordinator, writer) ==>
      failure.None? || failure == Some(Failed(CommitRefused))
    ensures failure == Some(Failed(CommitRefused)) ==>
      writer != null && !(end == o.termCount && Committable(treeLevels0, start, end))
    ensures writer != null ==>
      && writer.fs.Valid() && Truthful(writer.fs.disk) && old(writer.fs.history) <= writer.fs.history
      && SafeStates(writer, |old(writer.fs.history)|, o)
  {
    hide NextLevel, MaximumTreeLevel, Roomy, Frontier, Truthful, Recoverable, LevelsAtMost;
    nodes, treeLevels := nodes0, treeLevels0;
    if coordinator != null {
      var ok;
      ok, nodes := coordinator.Prepare(nodes, mergeLevel);
      if !ok {
        return Some(ReloadFailed), nodes, treeLevels;
      }
    }
    assert nodes == level;
    NextLevelIsFrontier(level, start, end);
    var maximum := MaximumTreeLevel(end - start);
    nodes, treeLevels := MergeLevel(nodes, treeLevels, parallel, maximum, start, end);
    if Committable(treeLevels0, start, end) {
      NextTreeLevelsAtMost(treeLevels0, treeLevels, maximum);
    }
    var outcome;
    outcome, nodes := CompleteStage(nodes, treeLevels, mergeLevel + 1, true, coordinator, writer, start, end, o);
    failure := if outcome.StageDone? then None else Some(Failed(outcome));
  }

  /** Merge level after merge level until one node is left. */
  method MergeAll(nodes0: seq<BinaryNode>, treeLevels0: seq<nat>, parallel: bool,
                  coordinator: StorageMergeCoordinator?, writer: FrontierWriter?,
                  ghost level0: seq<BinaryNode>, start: nat, end: nat, ghost o: Origin)
    returns (result: SplitResult)
    requires start < end && Frontier(level0, start, end) && |treeLevels0| == |level0|
    requires Tracked(coordinator, nodes0, level0, 0)
    requires writer != null ==> WriterOn(writer, o)
    modifies CoordinatorFrame(coordinator), WriterFrame(writer)
    ensures result.Whole? ==> result.node == BinaryNode(start, end, Chudnovsky.Split(start, end))
    ensures !result.InvalidArgument? && OnlyTheyFail(result, coordinator != null, writer != null)
    ensures Undisturbed(coordinator, writer) ==> old(Undisturbed(coordinator, writer))
    ensures Roomy(coordinator, start, end) && Undisturbed(coordinator, writer) ==>
      result.Whole? || result == Failed(CommitRefused)
    ensures result == Failed(CommitRefused) ==>
      writer != null && !(end == o.termCount && Committable(treeLevels0, start, end))
    ensures writer != null ==>
      && writer.fs.Valid() && Truthful(writer.fs.disk) && old(writer.fs.history) <= writer.fs.history
      && SafeStates(writer, |old(writer.fs.history)|, o)
  {
    hide Roomy;
    var nodes, treeLevels, mergeLevel := nodes0, treeLevels0, 0;
    ghost var level := level0;
    while |nodes| > 1
      invariant Frontier(level, start, end) && |treeLevels| == |level| && Tracked(coordinator, nodes, level, mergeLevel)
      invariant writer != null ==>
        WriterOn(writer, o) && old(writer.fs.history) <= writer.fs.history && SafeStates(writer, |old(writer.fs.history)|, o)
      invariant Committable(treeLevels0, start, end) ==> Committable(treeLevels, start, end)
      invariant Undisturbed(coordinator, writer) ==> old(Undisturbed(coordinator, writer))
      decreases |nodes|
    {
      var failure;
      failure, nodes, treeLevels := NextStage(nodes, treeLevels, mergeLevel, parallel, coordinator, writer, level, start, end, o);
      if failure.Some? {
        return failure.value;
      }
      NextLevelIsFrontier(level, start, end);
      level, mergeLevel := NextLevel(level), mergeLevel + 1;
    }
    FrontierOfOne(level, start, end);
    result := Whole(nodes[0]);
  }

  /** The sequential path: no seeds, and nothing to gain from workers. */
  method SplitWhole(start: nat, end: nat, writer: FrontierWriter?, ghost o: Origin) returns (result: SplitResult, credited: int)
    requires start < end && (writer != null ==> WriterOn(writer, o))
    modifies WriterFrame(writer)
    ensures result.Whole? ==> result.node == BinaryNode(start, end, Chudnovsky.Split(start, end)) && credited == end - start
    ensures !result.InvalidArgument? && OnlyTheyFail(result, false, writer != null)
    ensures Undisturbed(null, writer) ==> old(Undisturbed(null, writer))
    ensures Undisturbed(null, writer) ==> result.Whole? || result == Failed(CommitRefused)
    ensures result == Failed(CommitRefused) ==> writer != null && !(start == 0 && end == o.termCount)
    ensures writer != null ==>
      && writer.fs.Valid() && Truthful(writer.fs.disk) && old(writer.fs.history) <= writer.fs.history
      && SafeStates(writer, |old(writer.fs.history)|, o)
  {
    var node := SplitSequentialValidated(start, end);
    credited := end - start;
    if writer != null {
      assert Frontier([node], start, end) by {
        assert ChainAt([node], start, 0);
      }
      if start == 0 && end == o.termCount {
        FrontierIsResumable([node], [0], writer.entries, end);
      }
      var committed := CommitStage(writer, [node], [0], o);
      if committed.Refused? {
        return Failed(CommitRefused), credited;
      }
      if committed.IoFailed? {
        return Failed(CommitFailed), credited;
      }
    }
    result := Whole(node);
  }

  /** The staged path: seeds and blocks laid out, computed and merged. */
  method SplitStaged(start: nat, end: nat, executor: Executor, options: ParallelSplitOptions, frontier: seq<FrontierNode>,
                     coordinator: StorageMergeCoordinator?, writer: FrontierWriter?, ghost o: Origin)
    returns (result: SplitResult, credited: int)
    requires start < end && options.sequentialCutoff > 0 && options.tasksPerWorker > 0
    requires Seeds(frontier, start, end) && forall seed | seed in frontier :: seed.node.IsSplit()
    requires coordinator != null ==> coordinator.Ready()
    requires writer != null ==> WriterOn(writer, o)
    modifies CoordinatorFrame(coordinator), WriterFrame(writer)
    ensures result.Whole? ==> result.node == BinaryNode(start, end, Chudnovsky.Split(start, end))
    ensures result.Whole? ==> credited == (end - start) - SeedTerms(frontier)
    ensures !result.InvalidArgument? && OnlyTheyFail(result, coordinator != null, writer != null)
    ensures Undisturbed(coordinator, writer) ==> old(Undisturbed(coordinator, writer))
    ensures Roomy(coordinator, start, end) && Undisturbed(coordinator, writer) ==>
      result.Whole? || result == Failed(CommitRefused)
    ensures result == Failed(CommitRefused) ==>
      writer != null && !(start == 0 && end == o.termCount && SeedLevelsAtMost(frontier, MaximumTreeLevel(end)))
    ensures writer != null ==>
      && writer.fs.Valid() && Truthful(writer.fs.disk) && old(writer.fs.history) <= writer.fs.history
      && SafeStates(writer, |old(writer.fs.history)|, o)
  {
    hide Roomy;
    var parallel := executor.AcceptsStagedWork();
    var layout;
    ghost var expected;
    layout, expected := LayOutFrontier(frontier, start, end, executor, options, MaximumTreeLevel(end));
    var nodes;
    nodes, credited := ComputeBlocks(layout, parallel, expected, start);
    var outcome;
    outcome, nodes := CompleteStage(nodes, layout.treeLevels, 0, layout.pendingBlocks != [], coordinator, writer, start, end, o);
    if !outcome.StageDone? {
      return Failed(outcome), credited;
    }
    result := MergeAll(nodes, layout.treeLevels, parallel, coordinator, writer, expected, start, end, o);
  }

  /** `splitParallel`. For every range, option, executor, task order and seed frontier: on its own it returns
      the node of plain recursion; with storage or checkpoints so it does as long as no call of those fails, no
      chunk is lost, the store is roomy enough and the frontiers fit the computation of the writer.
      The observer is credited with exactly the uncovered terms.
      Every frontier handed to the writer is one it accepts, and every directory state on the way is safe. */
  method SplitParallel(start: nat, end: nat, executor: Executor, options: ParallelSplitOptions,
                       coordinator: StorageMergeCoordinator?, initialFrontier: seq<FrontierNode>, writer: FrontierWriter?,
                       ghost o: Origin)
    returns (result: SplitResult, credited: int)
    requires TrueSeeds(initialFrontier)
    requires coordinator != null ==> coordinator.Ready()
    requires writer != null ==> WriterOn(writer, o)
    modifies CoordinatorFrame(coordinator), WriterFrame(writer)
    ensures result.InvalidArgument? <==>
      || start >= end || options.sequentialCutoff == 0 || options.tasksPerWorker == 0
      || !ValidFrontier(initialFrontier, start, end)
    ensures OnlyTheyFail(result, coordinator != null, writer != null)
    ensures coordinator == null && writer == null && !result.InvalidArgument? ==> result.Whole?
    ensures Undisturbed(coordinator, writer) ==> old(Undisturbed(coordinator, writer))
    ensures Roomy(coordinator, start, end) && Undisturbed(coordinator, writer) ==>
      result.Whole? || result.InvalidArgument? || result == Failed(CommitRefused)
    ensures result.Whole? ==> start < end && result.node == BinaryNode(start, end, Chudnovsky.Split(start, end))
    ensures result.Whole? ==> credited == (end - start) - SeedTerms(initialFrontier)
    ensures result == Failed(CommitRefused) ==>
      writer != null && !(start == 0 && end == o.termCount && SeedLevelsAtMost(initialFrontier, MaximumTreeLevel(end)))
    ensures writer != null ==>
      && writer.fs.Valid() && Truthful(writer.fs.disk) && old(writer.fs.history) <= writer.fs.history
      && SafeStates(writer, |old(writer.fs.history)|, o)
  {
    hide Roomy;
    credited := 0;
    if start >= end || options.sequentialCutoff == 0 || options.tasksPerWorker == 0 {
      return InvalidArgument, 0;
    }
    var valid, frontier := SortAndValidateFrontier(initialFrontier, start, end);
    if !valid {
      return InvalidArgument, 0;
    }
    var termCount, parallel := end - start, executor.AcceptsStagedWork();
    if frontier == [] && (termCount <= options.sequentialCutoff || !parallel
        || BoundedBlockCount(termCount, options.sequentialCutoff, executor.workerCount, options.tasksPerWorker) < 2) {
      EmptyFrontier(initialFrontier, frontier);
      result, credited := SplitWhole(start, end, writer, o);
      return;
    }
    SortedFrontier(initialFrontier, frontier, start, end);
    result, credited := SplitStaged(start, end, executor, options, frontier, coordinator, writer, o);
  }

  lemma EmptyFrontier(frontier: seq<FrontierNode>, sorted: seq<FrontierNode>)
    requires multiset(sorted) == multiset(frontier) && sorted == []
    ensures SeedTerms(frontier) == 0
  {
    SumOfMultiset(sorted, frontier, SeedLength);
  }

  lemma SortedFrontier(frontier: seq<FrontierNode>, sorted: seq<FrontierNode>, start: nat, end: nat)
    requires multiset(sorted) == multiset(frontier) && Seeds(sorted, start, end) && TrueSeeds(frontier)
    ensures forall seed | seed in sorted :: seed.node.IsSplit()
    ensures SeedTerms(sorted) == SeedTerms(frontier)
    ensures forall maximum :: SeedLevelsAtMost(frontier, maximum) ==> SeedLevelsAtMost(sorted, maximum)
  {
    SumOfMultiset(sorted, frontier, SeedLength);
    forall seed | seed in sorted ensures seed in frontier && seed.node.IsSplit() {
      assert seed in multiset(frontier);
      var i :| 0 <= i < |sorted| && sorted[i] == seed;
      assert SeedAt(sorted, start, end, i);
    }
  }
}
