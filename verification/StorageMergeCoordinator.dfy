/** Out-of-core merging: which nodes of a merge level are in memory, which are spilled, and how they come
    back (src/storage/StorageMergeCoordinator.cpp). The nodes belong to the splitter; a spilled node is one
    whose values have been cleared. */
module StorageMergeCoordinator {
  import opened BinaryNodes
  import opened CheckpointTypes
  import opened Chudnovsky
  import opened NodeLifecycle
  import opened StorageManager
  import opened Widths
  import Eviction

  /** `ResidentMergeNode` */
  datatype ResidentNode = ResidentNode(location: BlockLocation, bytes: nat, state: State, distance: real) {

    predicate InMemory() {
      state == Resident || state == Spilling
    }

    function Candidate(): Eviction.Candidate {
      Eviction.Candidate(location, bytes, distance)
    }
  }

  function LocationOf(node: BinaryNode, level: nat): BlockLocation {
    BlockLocation(node.start, node.end, level)
  }

  /** `snapshot().residentBytes`, before it wraps at 2^64. */
  function ResidentBytes(records: seq<ResidentNode>): nat {
    if records == [] then 0 else
    var last := records[|records| - 1];
    ResidentBytes(records[..|records| - 1]) + if last.InMemory() then last.bytes else 0
  }

  ghost predicate AllOfLevel(records: seq<ResidentNode>, level: nat) {
    forall i | 0 <= i < |records| :: records[i].location.treeLevel == level
  }

  function WrapU64(bytes: nat): nat {
    bytes % (U64_MAX + 1)
  }

  ghost predicate DistinctLocations(records: seq<ResidentNode>) {
    forall i, j | 0 <= i < j < |records| :: records[i].location != records[j].location
  }

  // ---------- writes submitted to the asynchronous writer ----------

  datatype WritePhase = Waiting | Claimed | Written | Finished(result: AsyncWriteState) {
    function Rank(): nat {
      match this case Waiting => 3 case Claimed => 2 case Written => 1 case Finished(_) => 0
    }
  }

  function Remaining(phases: seq<WritePhase>): nat {
    if phases == [] then 0 else Remaining(phases[..|phases| - 1]) + phases[|phases| - 1].Rank()
  }

  lemma {:induction false} RemainingDrops(phases: seq<WritePhase>, k: nat, p: WritePhase)
    requires k < |phases| && p.Rank() < phases[k].Rank()
    ensures Remaining(phases[k := p]) < Remaining(phases)
  {
    var last := |phases| - 1;
    if k == last {
      assert phases[k := p][..last] == phases[..last];
    } else {
      RemainingDrops(phases[..last], k, p);
      assert phases[k := p][..last] == phases[..last][k := p];
    }
  }

  lemma {:induction false} NoneRemaining(phases: seq<WritePhase>)
    ensures Remaining(phases) == 0 <==> forall k | 0 <= k < |phases| :: phases[k].Finished?
  {
    if phases != [] {
      NoneRemaining(phases[..|phases| - 1]);
    }
  }

  ghost predicate DistinctChunks(chunks: seq<Chunk>) {
    forall i, j | 0 <= i < j < |chunks| :: chunks[i].location != chunks[j].location
  }

  /** What the manager's state says about locations. */
  datatype View = View(inFlight: set<BlockLocation>, files: map<BlockLocation, ChunkFile>, contents: map<BlockLocation, Pqt>)

  ghost function ViewOf(manager: StorageManager): View
    reads manager
  {
    View(manager.inFlight, manager.files, manager.contents)
  }

  /** Every write so far is where its phase says, and nothing else has changed. */
  ghost predicate WritesAt(view: View, chunks: seq<Chunk>, phases: seq<WritePhase>, start: View) {
    && |phases| == |chunks|
    && (forall k | 0 <= k < |chunks| :: WriteAt(view, chunks[k], phases[k]))
    && (forall l | l in view.inFlight :: exists k :: UnderWay(chunks, phases, k, l))
    && (forall l | l in start.contents :: l in view.contents && view.contents[l] == start.contents[l])
    && (forall l | l in view.contents && l !in start.contents :: exists k :: StoredBy(chunks, phases, k, l))
    && (forall l | l in view.files && l !in start.files :: exists k :: 0 <= k < |chunks| && chunks[k].location == l)
  }

  ghost predicate UnderWay(chunks: seq<Chunk>, phases: seq<WritePhase>, k: int, l: BlockLocation)
    requires |phases| == |chunks|
  {
    0 <= k < |chunks| && chunks[k].location == l && (phases[k].Claimed? || phases[k].Written?)
  }

  ghost predicate StoredBy(chunks: seq<Chunk>, phases: seq<WritePhase>, k: int, l: BlockLocation)
    requires |phases| == |chunks|
  {
    0 <= k < |chunks| && chunks[k].location == l && phases[k] == Finished(WriteStored)
  }

  ghost predicate WriteAt(view: View, chunk: Chunk, phase: WritePhase) {
    match phase
    case Waiting => chunk.location !in view.inFlight
    case Claimed => chunk.location in view.inFlight
    case Written => chunk.location in view.inFlight
                    && (chunk.location in view.files && view.files[chunk.location].Intact? ==>
                          view.files[chunk.location].chunk == chunk)
    case Finished(r) => chunk.location !in view.inFlight
                        && (r == WriteStored || r == WriteFailed || r == WriteCancelled)
                        && (r == WriteStored ==> chunk.location in view.contents && view.contents[chunk.location] == chunk.v)
  }

  /** What one step may change. */
  ghost predicate StepOf(before: View, after: View, chunk: Chunk, next: WritePhase) {
    var l := chunk.location;
    && before.inFlight - {l} == after.inFlight - {l}
    && before.files - {l} == after.files - {l} && before.contents - {l} == after.contents - {l}
    && (l in after.inFlight ==> next.Claimed? || next.Written?)
    && (l in before.contents ==> l in after.contents && after.contents[l] == before.contents[l])
    && (l in after.contents && l !in before.contents ==> next == Finished(WriteStored))
  }

  lemma StepKeepsOther(before: View, after: View, chunk: Chunk, next: WritePhase, l: BlockLocation)
    requires StepOf(before, after, chunk, next) && l != chunk.location
    ensures l in after.inFlight <==> l in before.inFlight
    ensures l in after.files <==> l in before.files
    ensures l in after.files ==> after.files[l] == before.files[l]
    ensures l in after.contents <==> l in before.contents
    ensures l in after.contents ==> after.contents[l] == before.contents[l]
  {
    var here := {chunk.location};
    assert l in before.inFlight - here <==> l in after.inFlight - here;
    assert l in before.files - here <==> l in after.files - here;
    assert l in after.files - here ==> (after.files - here)[l] == (before.files - here)[l];
    assert l in before.contents - here <==> l in after.contents - here;
    assert l in after.contents - here ==> (after.contents - here)[l] == (before.contents - here)[l];
  }

  lemma StepKeepsStored(before: View, after: View, start: View, chunks: seq<Chunk>, phases: seq<WritePhase>, k: nat,
                        next: WritePhase, later: seq<WritePhase>)
    requires WritesAt(before, chunks, phases, start) && k < |chunks| && !phases[k].Finished?
    requires StepOf(before, after, chunks[k], next) && later == phases[k := next]
    ensures forall l | l in after.contents && l !in start.contents :: exists j :: StoredBy(chunks, later, j, l)
  {
    forall l | l in after.contents && l !in start.contents ensures exists j :: StoredBy(chunks, later, j, l) {
      if l == chunks[k].location && l !in before.contents {
        assert StoredBy(chunks, later, k, l);
      } else {
        if l != chunks[k].location { StepKeepsOther(before, after, chunks[k], next, l); }
        var j :| StoredBy(chunks, phases, j, l);
        assert StoredBy(chunks, later, j, l);
      }
    }
  }

  lemma StepKeepsWrites(before: View, after: View, start: View, chunks: seq<Chunk>, phases: seq<WritePhase>, k: nat,
                        next: WritePhase)
    requires DistinctChunks(chunks) && WritesAt(before, chunks, phases, start) && k < |chunks| && !phases[k].Finished?
    requires StepOf(before, after, chunks[k], next) && WriteAt(after, chunks[k], next)
    ensures WritesAt(after, chunks, phases[k := next], start)
  {
    var here, later := chunks[k].location, phases[k := next];
    forall l | l != here
      ensures l in after.inFlight <==> l in before.inFlight
      ensures l in after.files <==> l in before.files
      ensures l in after.files ==> after.files[l] == before.files[l]
      ensures l in after.contents <==> l in before.contents
      ensures l in after.contents ==> after.contents[l] == before.contents[l]
    {
      StepKeepsOther(before, after, chunks[k], next, l);
    }
    forall j | 0 <= j < |chunks| ensures WriteAt(after, chunks[j], later[j]) {
      if j != k { assert chunks[j].location != here && WriteAt(before, chunks[j], phases[j]); }
    }
    forall l | l in after.inFlight ensures exists j :: UnderWay(chunks, later, j, l) {
      if l == here {
        assert UnderWay(chunks, later, k, l);
      } else {
        var j :| UnderWay(chunks, phases, j, l);
        assert UnderWay(chunks, later, j, l);
      }
    }
    StepKeepsStored(before, after, start, chunks, phases, k, next, later);
    forall l | l in after.files && l !in start.files ensures exists j :: 0 <= j < |chunks| && chunks[j].location == l {
      if l == here { assert chunks[k].location == l; }
    }
  }

  // ---------- what decides whether a write is stored ----------

  ghost predicate ApartChunks(chunks: seq<Chunk>) {
    forall i, j | 0 <= i < |chunks| && 0 <= j < |chunks| && i != j :: !chunks[i].location.Overlaps(chunks[j].location)
  }

  /** A finished write was stored if and only if the index at the start accepts it; the one direction needs
      that nothing else went wrong and that no other write is in the way. */
  ghost predicate Decided(start: View, termCount: nat, chunks: seq<Chunk>, k: nat, phase: WritePhase, interrupted: bool)
    requires k < |chunks|
  {
    phase.Finished? ==>
      if phase.result == WriteStored then Accepts(start.contents.Keys, termCount, chunks[k].location)
      else interrupted || !ApartChunks(chunks) || !Accepts(start.contents.Keys, termCount, chunks[k].location)
  }

  ghost predicate AllDecided(start: View, termCount: nat, chunks: seq<Chunk>, phases: seq<WritePhase>, interrupted: bool) {
    |phases| == |chunks| && forall k | 0 <= k < |chunks| :: Decided(start, termCount, chunks, k, phases[k], interrupted)
  }

  /** Seen from an unfinished write, the index now accepts what it accepted at the start. */
  lemma AcceptedAtStart(view: View, chunks: seq<Chunk>, phases: seq<WritePhase>, start: View, k: nat, termCount: nat)
    requires WritesAt(view, chunks, phases, start) && k < |chunks| && !phases[k].Finished?
    ensures var l := chunks[k].location;
      && (Accepts(view.contents.Keys, termCount, l) ==> Accepts(start.contents.Keys, termCount, l))
      && (ApartChunks(chunks) ==> (Accepts(view.contents.Keys, termCount, l) <==> Accepts(start.contents.Keys, termCount, l)))
  {
    var l := chunks[k].location;
    if ApartChunks(chunks) {
      forall other | other in view.contents.Keys - start.contents.Keys
        ensures !other.Overlaps(l) && (other == l ==> !l.Valid(termCount))
      {
        var j :| StoredBy(chunks, phases, j, other);
        assert j != k;
      }
    }
    AcceptsWithout(start.contents.Keys, view.contents.Keys, termCount, l);
  }

  /** Files may be lost or damaged while writes are under way. */
  lemma DisturbanceKeepsWrites(before: View, after: View, chunks: seq<Chunk>, phases: seq<WritePhase>, start: View)
    requires WritesAt(before, chunks, phases, start)
    requires after.inFlight == before.inFlight && after.contents == before.contents
    requires forall l | l in after.files :: l in before.files && (after.files[l] == before.files[l] || after.files[l].Damaged?)
    ensures WritesAt(after, chunks, phases, start)
  {
    forall k | 0 <= k < |chunks| ensures WriteAt(after, chunks[k], phases[k]) {
      assert WriteAt(before, chunks[k], phases[k]);
    }
  }

  /** One step of one write: a worker picks it up, writes the file, publishes it, or gives up. */
  method WriteStep(manager: StorageManager, chunk: Chunk, phase: WritePhase) returns (next: WritePhase)
    requires manager.Valid() && !phase.Finished? && WriteAt(ViewOf(manager), chunk, phase)
    modifies manager
    ensures manager.Valid() && WriteAt(ViewOf(manager), chunk, next) && next.Rank() < phase.Rank()
    ensures StepOf(old(ViewOf(manager)), ViewOf(manager), chunk, next)
    ensures old(manager.interrupted) ==> manager.interrupted
    ensures old(manager.disturbed) ==> manager.disturbed
    ensures next.Finished? ==>
      if next.result == WriteStored then old(manager.IndexAccepts(chunk.location))
      else manager.interrupted || !old(manager.IndexAccepts(chunk.location))
  {
    var l := chunk.location;
    match phase
    case Waiting =>
      var cancelled := *;
      if cancelled {
        manager.interrupted := true;
        return Finished(WriteCancelled);
      }
      var claimed := manager.BeginStore(l);
      next := if claimed then Claimed else Finished(WriteFailed);
    case Claimed =>
      var written := manager.WriteChunk(chunk);
      if written {
        next := Written;
      } else {
        manager.AbortStore(l);
        next := Finished(WriteFailed);
      }
    case Written =>
      var published := manager.PublishStore(chunk);
      if published {
        next := Finished(WriteStored);
      } else {
        manager.AbortStore(l);
        next := Finished(WriteFailed);
      }
  }

  /** Any unfinished write takes its next step, whatever has happened to the files since the last one. */
  method StepSome(manager: StorageManager, chunks: seq<Chunk>, phases: seq<WritePhase>, ghost start: View)
    returns (after: seq<WritePhase>)
    requires manager.Valid() && DistinctChunks(chunks) && WritesAt(ViewOf(manager), chunks, phases, start)
    requires Remaining(phases) > 0 && AllDecided(start, manager.termCount, chunks, phases, manager.interrupted)
    modifies manager
    ensures manager.Valid() && WritesAt(ViewOf(manager), chunks, after, start) && Remaining(after) < Remaining(phases)
    ensures (old(manager.interrupted) ==> manager.interrupted)
            && AllDecided(start, manager.termCount, chunks, after, manager.interrupted)
    ensures old(manager.disturbed) ==> manager.disturbed
  {
    NoneRemaining(phases);
    hide WritesAt, WriteAt, StepOf, Remaining, DistinctChunks;
    ghost var found := ViewOf(manager);
    manager.Disturb();
    DisturbanceKeepsWrites(found, ViewOf(manager), chunks, phases, start);
    var k: int := *;
    if k < 0 || k >= |phases| || phases[k].Finished? {
      k :| 0 <= k < |phases| && !phases[k].Finished?;
    }
    ghost var before := ViewOf(manager);
    AcceptedAtStart(before, chunks, phases, start, k, manager.termCount);
    var next := WriteStep(manager, chunks[k], phases[k]);
    RemainingDrops(phases, k, next);
    StepKeepsWrites(before, ViewOf(manager), start, chunks, phases, k, next);
    after := phases[k := next];
  }

  lemma NothingDecided(start: View, termCount: nat, chunks: seq<Chunk>, phases: seq<WritePhase>, interrupted: bool)
    requires |phases| == |chunks| && forall k | 0 <= k < |phases| :: phases[k].Waiting?
    ensures AllDecided(start, termCount, chunks, phases, interrupted)
  {
  }

  lemma AllFinished(view: View, start: View, termCount: nat, chunks: seq<Chunk>, phases: seq<WritePhase>,
                    results: seq<AsyncWriteState>, interrupted: bool)
    requires WritesAt(view, chunks, phases, start) && AllDecided(start, termCount, chunks, phases, interrupted)
    requires |results| == |phases| && forall k | 0 <= k < |phases| :: phases[k] == Finished(results[k])
    ensures view.inFlight == {}
    ensures forall k | 0 <= k < |chunks| :: WriteAt(view, chunks[k], Finished(results[k]))
    ensures forall k | 0 <= k < |chunks| :: Decided(start, termCount, chunks, k, Finished(results[k]), interrupted)
    ensures forall l | l in view.contents && l !in start.contents ::
              exists k :: 0 <= k < |chunks| && chunks[k].location == l && results[k] == WriteStored
  {
    forall k | 0 <= k < |chunks|
      ensures WriteAt(view, chunks[k], Finished(results[k]))
      ensures Decided(start, termCount, chunks, k, Finished(results[k]), interrupted)
    {
      assert WriteAt(view, chunks[k], phases[k]);
      assert Decided(start, termCount, chunks, k, phases[k], interrupted);
    }
    forall l | l in view.contents && l !in start.contents
      ensures exists k :: 0 <= k < |chunks| && chunks[k].location == l && results[k] == WriteStored
    {
      var k :| StoredBy(chunks, phases, k, l);
      assert results[k] == WriteStored;
    }
    assert forall k, l :: !UnderWay(chunks, phases, k, l);
    assert forall l :: l !in view.inFlight;
  }

  /** All submitted writes, their steps interleaved in any order, until each is finished. */
  method RunWrites(manager: StorageManager, chunks: seq<Chunk>) returns (results: seq<AsyncWriteState>)
    requires manager.Valid() && manager.inFlight == {} && DistinctChunks(chunks)
    modifies manager
    ensures manager.Valid() && manager.inFlight == {} && |results| == |chunks|
    ensures forall k | 0 <= k < |chunks| ::
              && (results[k] == WriteStored || results[k] == WriteFailed || results[k] == WriteCancelled)
              && (results[k] == WriteStored ==> chunks[k].location in manager.contents
                                                && manager.contents[chunks[k].location] == chunks[k].v)
    ensures forall l | l in old(manager.contents) :: l in manager.contents && manager.contents[l] == old(manager.contents)[l]
    ensures forall l | l in manager.contents && l !in old(manager.contents) ::
              exists k :: 0 <= k < |chunks| && chunks[k].location == l && results[k] == WriteStored
    ensures forall l | l in manager.files && l !in old(manager.files) :: exists k :: 0 <= k < |chunks| && chunks[k].location == l
    ensures old(manager.interrupted) ==> manager.interrupted
    ensures old(manager.disturbed) ==> manager.disturbed
    ensures forall k | 0 <= k < |chunks| :: Decided(old(ViewOf(manager)), manager.termCount, chunks, k, Finished(results[k]), manager.interrupted)
  {
    hide Decided, StepOf;
    var phases := seq(|chunks|, k => Waiting);
    ghost var start := ViewOf(manager);
    NothingDecided(start, manager.termCount, chunks, phases, manager.interrupted);
    while Remaining(phases) > 0
      invariant manager.Valid() && WritesAt(ViewOf(manager), chunks, phases, start)
      invariant AllDecided(start, manager.termCount, chunks, phases, manager.interrupted)
      invariant old(manager.interrupted) ==> manager.interrupted
      invariant old(manager.disturbed) ==> manager.disturbed
      decreases Remaining(phases)
    {
      phases := StepSome(manager, chunks, phases, start);
    }
    NoneRemaining(phases);
    results := seq(|chunks|, k requires 0 <= k < |phases| => phases[k].result);
    AllFinished(ViewOf(manager), start, manager.termCount, chunks, phases, results, manager.interrupted);
  }

  // ---------- records, observed nodes and the nodes as they are now ----------

  /** A resident node is as it was observed; a stored one is cleared, and its observed values are indexed. */
  ghost predicate Tracks(contents: map<BlockLocation, Pqt>, r: ResidentNode, o: BinaryNode, n: BinaryNode) {
    && r.location.start == o.start && r.location.end == o.end && (r.bytes > 0 <==> o.HasValues())
    && (r.state == Resident || r.state == Spilling || r.state == Stored)
    && (r.InMemory() ==> n == o)
    && (r.state == Stored ==> n == o.Cleared() && r.location in contents && contents[r.location] == o.v)
  }

  ghost predicate TracksAll(contents: map<BlockLocation, Pqt>, records: seq<ResidentNode>, observed: seq<BinaryNode>,
                            nodes: seq<BinaryNode>)
  {
    && |records| == |observed| == |nodes|
    && forall i | 0 <= i < |records| :: Tracks(contents, records[i], observed[i], nodes[i])
  }

  lemma TracksGrow(before: map<BlockLocation, Pqt>, after: map<BlockLocation, Pqt>, records: seq<ResidentNode>,
                   observed: seq<BinaryNode>, nodes: seq<BinaryNode>)
    requires TracksAll(before, records, observed, nodes)
    requires forall l | l in before :: l in after && after[l] == before[l]
    ensures TracksAll(after, records, observed, nodes)
  {
    forall i | 0 <= i < |records| ensures Tracks(after, records[i], observed[i], nodes[i]) {
      assert Tracks(before, records[i], observed[i], nodes[i]);
    }
  }

  lemma TracksUpdate(contents: map<BlockLocation, Pqt>, records: seq<ResidentNode>, observed: seq<BinaryNode>,
                     nodes: seq<BinaryNode>, i: nat, r: ResidentNode, n: BinaryNode)
    requires TracksAll(contents, records, observed, nodes) && i < |records|
    requires Tracks(contents, r, observed[i], n)
    ensures TracksAll(contents, records[i := r], observed, nodes[i := n])
  {
    var rs, ns := records[i := r], nodes[i := n];
    forall j | 0 <= j < |rs| ensures Tracks(contents, rs[j], observed[j], ns[j]) {
      if j != i {
        assert rs[j] == records[j] && ns[j] == nodes[j];
      }
    }
  }

  lemma {:induction false} ResidentUpdate(records: seq<ResidentNode>, i: nat, r: ResidentNode)
    requires i < |records| && r.bytes == records[i].bytes
    ensures ResidentBytes(records[i := r]) + (if records[i].InMemory() then r.bytes else 0)
         == ResidentBytes(records) + (if r.InMemory() then r.bytes else 0)
  {
    var last := |records| - 1;
    if i == last {
      assert records[i := r][..last] == records[..last];
    } else {
      ResidentUpdate(records[..last], i, r);
      assert records[i := r][..last] == records[..last][i := r];
    }
  }

  // ---------- the plan, and what it means for the records ----------

  function Candidates(records: seq<ResidentNode>): (s: seq<Eviction.Candidate>)
    ensures |s| == |records| && forall i | 0 <= i < |records| :: s[i] == records[i].Candidate()
  {
    seq(|records|, i requires 0 <= i < |records| => records[i].Candidate())
  }

  lemma PlanNamesRecords(plan: Eviction.EvictionPlan, records: seq<ResidentNode>, needed: nat)
    requires Eviction.PlanOf(plan, Candidates(records), needed) && DistinctLocations(records)
    ensures NamesRecords(records, plan.candidates)
  {
    hide Eviction.Ordered, Eviction.Total, Eviction.Filtered;
    var resident := Candidates(records);
    var sorted :| Eviction.Ordered(sorted) && multiset(sorted) == multiset(Eviction.Filtered(resident))
                  && Eviction.GreedyPrefix(plan, sorted, needed);
    Eviction.PrefixMultiset(plan.candidates, sorted);
    Eviction.FilteredMultiset(resident);
    forall c | c in plan.candidates ensures c.bytes > 0 && exists i :: Stands(records, c, i) {
      assert c in multiset(plan.candidates) && c in multiset(Eviction.Filtered(resident));
      assert c in Eviction.Filtered(resident) && c in resident;
      var i :| 0 <= i < |resident| && resident[i] == c;
      assert Stands(records, c, i);
    }
    SubsetDistinct(plan.candidates, resident);
  }

  lemma SubsetDistinct(chosen: seq<Eviction.Candidate>, all: seq<Eviction.Candidate>)
    requires multiset(chosen) <= multiset(all) && Eviction.DistinctIds(all)
    ensures Eviction.DistinctIds(chosen)
  {
    forall i, j | 0 <= i < j < |chosen| ensures chosen[i].id != chosen[j].id {
      if chosen[i].id == chosen[j].id {
        var c := chosen[i];
        assert c in multiset(chosen) && chosen[j] in multiset(chosen);
        var m :| 0 <= m < |all| && all[m] == c;
        var n :| 0 <= n < |all| && all[n] == chosen[j];
        assert m == n;
        TwiceCounts(chosen, i, j);
        OnceCounts(all, m);
      }
    }
  }

  lemma TwiceCounts(s: seq<Eviction.Candidate>, i: nat, j: nat)
    requires i < j < |s| && s[i] == s[j]
    ensures multiset(s)[s[i]] >= 2
  {
    assert s == s[..i] + [s[i]] + s[i + 1..j] + [s[j]] + s[j + 1..];
  }

  lemma OnceCounts(s: seq<Eviction.Candidate>, i: nat)
    requires i < |s| && Eviction.DistinctIds(s)
    ensures multiset(s)[s[i]] == 1
  {
    var left, right := s[..i], s[i + 1..];
    assert s == left + [s[i]] + right;
    assert s[i] !in left && s[i] !in right;
    assert s[i] !in multiset(left) && s[i] !in multiset(right);
  }

  // ---------- the coordinator ----------

  datatype ObserveOutcome = Observed | InvalidNodes | RetireFailed

  datatype SpillOutcome = WithinBudget | Spilled | SizeMismatch | PlanFailed | SpillFailed

  function FreshRecord(node: BinaryNode, level: nat, count: nat, sizeOf: Pqt -> nat): ResidentNode {
    ResidentNode(LocationOf(node, level), sizeOf(node.v), Resident, if count > 1 then 1.0 else 0.0)
  }

  ghost predicate FreshRecords(records: seq<ResidentNode>, nodes: seq<BinaryNode>, level: nat, sizeOf: Pqt -> nat) {
    && |records| == |nodes|
    && forall i | 0 <= i < |nodes| :: records[i] == FreshRecord(nodes[i], level, |nodes|, sizeOf)
  }

  class StorageMergeCoordinator {
    const manager: StorageManager
    const async: bool

    var records: seq<ResidentNode>
    var spillCount: nat
    var reloadCount: nat
    var spilledBytes: nat

    /** The nodes of the level as they were handed over, and the level. */
    ghost var observed: seq<BinaryNode>
    ghost var observedLevel: nat

    /** What the index file already listed when the run started. */
    ghost const foreign: set<BlockLocation>

    constructor (manager: StorageManager, async: bool)
      requires manager.Valid() && manager.inFlight == {}
      ensures this.manager == manager && this.async == async && records == [] && observed == []
      ensures foreign == manager.index.Keys && Valid([])
    {
      this.manager, this.async := manager, async;
      records, spillCount, reloadCount, spilledBytes := [], 0, 0, 0;
      observed, observedLevel, foreign := [], 0, manager.index.Keys;
    }

    /** An indexed chunk is of the level at hand, from before the run, or has lost its file. */
    ghost predicate Accounted()
      reads this, manager
    {
      forall l | l in manager.index ::
        l in foreign || l !in manager.files || exists i :: 0 <= i < |records| && records[i].location == l
    }

    ghost predicate Valid(nodes: seq<BinaryNode>)
      reads this, manager
    {
      && manager.Valid() && manager.inFlight == {}
      && TracksAll(manager.contents, records, observed, nodes)
      && DistinctLocations(records) && AllOfLevel(records, observedLevel)
      && Accounted()
    }

    /** What `observeResidentNodes` may be called on. */
    ghost predicate Ready()
      reads this, manager
    {
      manager.Valid() && manager.inFlight == {} && DistinctLocations(records) && Accounted()
    }

    /** Between calls no spill is under way. */
    ghost predicate Idle()
      reads this
    {
      forall i | 0 <= i < |records| :: records[i].state != Spilling
    }

    ghost predicate Observable(nodes: seq<BinaryNode>, level: nat) {
      && (forall i | 0 <= i < |nodes| :: LocationOf(nodes[i], level).Valid(manager.termCount) && manager.SizeFits(nodes[i].v))
      && (forall i, j | 0 <= i < j < |nodes| :: LocationOf(nodes[i], level) != LocationOf(nodes[j], level))
    }

    method BuildRecords(nodes: seq<BinaryNode>, level: nat) returns (valid: bool, next: seq<ResidentNode>)
      ensures valid <==> Observable(nodes, level)
      ensures valid ==> FreshRecords(next, nodes, level, manager.payloadSizeOf)
    {
      next := [];
      var identities: set<BlockLocation> := {};
      for i := 0 to |nodes|
        invariant |next| == i && forall j | 0 <= j < i :: next[j] == FreshRecord(nodes[j], level, |nodes|, manager.payloadSizeOf)
        invariant forall j | 0 <= j < i :: LocationOf(nodes[j], level).Valid(manager.termCount) && manager.SizeFits(nodes[j].v)
        invariant forall l :: l in identities <==> exists j :: 0 <= j < i && LocationOf(nodes[j], level) == l
        invariant forall j, k | 0 <= j < k < i :: LocationOf(nodes[j], level) != LocationOf(nodes[k], level)
      {
        var location := LocationOf(nodes[i], level);
        if !location.Valid(manager.termCount) || !manager.SizeFits(nodes[i].v) {
          return false, [];
        }
        if location in identities {
          return false, [];
        }
        identities := identities + {location};
        next := next + [FreshRecord(nodes[i], level, |nodes|, manager.payloadSizeOf)];
      }
      valid := true;
    }

    /** One of the first p records is of this location. */
    ghost predicate Named(p: nat, l: BlockLocation)
      requires p <= |records|
      reads this
    {
      exists i :: 0 <= i < p && records[i].location == l
    }

    lemma NamedStep(p: nat)
      requires p < |records|
      ensures forall l :: Named(p + 1, l) <==> Named(p, l) || records[p].location == l
    {
      forall l ensures Named(p + 1, l) <==> Named(p, l) || records[p].location == l {
        if Named(p, l) || records[p].location == l {
          var i :| 0 <= i < p + 1 && records[i].location == l;
        }
      }
    }

    /** The chunks of the first p records have left the store, as far as their files were there. */
    ghost predicate RetiredTo(p: nat, indexed: set<BlockLocation>, stored: set<BlockLocation>)
      requires p <= |records|
      reads this, manager
    {
      && (forall l :: l in manager.index <==> l in indexed && !(l in stored && Named(p, l)))
      && Shrunk(indexed, stored)
      && (forall l | l in stored && !Named(p, l) :: l in manager.files)
    }

    /** Nothing is new. */
    ghost predicate Shrunk(indexed: set<BlockLocation>, stored: set<BlockLocation>)
      reads this, manager
    {
      manager.files.Keys <= stored && manager.index.Keys <= indexed
    }

    /** One record's chunk leaves, if index and directory have it. */
    method RetireOne(p: nat, ghost indexed: set<BlockLocation>, ghost stored: set<BlockLocation>) returns (ok: bool)
      requires manager.Valid() && manager.inFlight == {} && DistinctLocations(records)
      requires p < |records| && RetiredTo(p, indexed, stored)
      modifies manager
      ensures manager.Valid() && manager.inFlight == {} && manager.interrupted == old(manager.interrupted)
      ensures (old(manager.disturbed) ==> manager.disturbed) && (!ok ==> manager.disturbed)
      ensures ok ==> RetiredTo(p + 1, indexed, stored)
      ensures Shrunk(indexed, stored)
    {
      ghost var previous := records[p].location;
      NamedStep(p);
      assert !Named(p, previous);
      hide Named, DistinctLocations;
      ok := true;
      if manager.Contains(records[p].location) {
        ok := manager.Remove(records[p].location);
      }
    }

    lemma NothingRetired(indexed: set<BlockLocation>, stored: set<BlockLocation>)
      requires indexed == manager.index.Keys && stored == manager.files.Keys
      ensures RetiredTo(0, indexed, stored) && Shrunk(indexed, stored)
    {
      assert forall l :: !Named(0, l);
    }

    /** The chunks of the consumed level leave the store. */
    method Retire() returns (ok: bool)
      requires manager.Valid() && manager.inFlight == {} && DistinctLocations(records)
      modifies manager
      ensures manager.Valid() && manager.inFlight == {} && manager.interrupted == old(manager.interrupted)
      ensures (old(manager.disturbed) ==> manager.disturbed) && (!ok ==> manager.disturbed)
      ensures records == [] ==> ok
      ensures ok ==> RetiredTo(|records|, old(manager.index.Keys), old(manager.files.Keys))
      ensures Shrunk(old(manager.index.Keys), old(manager.files.Keys))
    {
      hide RetiredTo, Named, DistinctLocations, Shrunk;
      ghost var indexed, stored := manager.index.Keys, manager.files.Keys;
      NothingRetired(indexed, stored);
      ok := true;
      for p := 0 to |records|
        invariant manager.Valid() && manager.inFlight == {} && manager.interrupted == old(manager.interrupted)
        invariant ok && (old(manager.disturbed) ==> manager.disturbed) && RetiredTo(p, indexed, stored)
        invariant Shrunk(indexed, stored)
      {
        ok := RetireOne(p, indexed, stored);
        if !ok {
          return;
        }
      }
    }

    /** `observeResidentNodes`. Afterwards every node of the level is tracked as resident. The chunks of the
        level before leave the index, unless their file had already gone; entries of other levels stay. */
    method Observe(nodes: seq<BinaryNode>, level: nat) returns (outcome: ObserveOutcome)
      requires Ready()
      modifies this, manager
      ensures manager.Valid() && manager.inFlight == {}
      ensures outcome.InvalidNodes? <==> !Observable(nodes, level)
      ensures outcome.RetireFailed? ==> old(records) != [] && manager.disturbed
      ensures (old(manager.disturbed) ==> manager.disturbed) && manager.interrupted == old(manager.interrupted)
      ensures outcome.Observed? && !manager.disturbed ==> manager.index.Keys <= foreign
      ensures outcome.Observed? ==> Valid(nodes) && Idle() && observed == nodes && observedLevel == level && FreshRecords(records, nodes, level, manager.payloadSizeOf)
      ensures outcome.Observed? ==> forall l ::
        l in manager.index <==> l in old(manager.index)
                                && !(l in old(manager.files) && exists i :: 0 <= i < |old(records)| && old(records)[i].location == l)
      ensures outcome.Observed? ==> forall l |
        l in old(manager.files) && !(exists i :: 0 <= i < |old(records)| && old(records)[i].location == l) :: l in manager.files
    {
      var valid, next := BuildRecords(nodes, level);
      if !valid {
        return InvalidNodes;
      }
      var retired := Retire();
      if !retired {
        return RetireFailed;
      }
      records, observed, observedLevel := next, nodes, level;
      outcome := Observed;
      forall i, j | 0 <= i < j < |records| ensures records[i].location != records[j].location {
        assert LocationOf(nodes[i], level) != LocationOf(nodes[j], level);
      }
    }

    // ---------- spilling ----------

    /** The record a candidate stands for, if it is of this level and its node still has values. */
    method Select(nodes: seq<BinaryNode>, level: nat, id: BlockLocation) returns (found: Option<nat>)
      requires |nodes| == |records|
      ensures found.Some? ==> found.value < |records| && records[found.value].location == id
                              && id.treeLevel == level && nodes[found.value].HasValues()
      ensures found.None? ==> forall i | 0 <= i < |records| ::
                records[i].location != id || id.treeLevel != level || !nodes[i].HasValues()
    {
      for i := 0 to |records|
        invariant forall j | 0 <= j < i :: records[j].location != id || id.treeLevel != level || !nodes[j].HasValues()
      {
        if records[i].location == id && records[i].location.treeLevel == level && nodes[i].HasValues() {
          return Some(i);
        }
      }
      found := None;
    }

    /** The values of a node whose chunk is indexed are dropped. */
    method ClearStored(nodes: seq<BinaryNode>, i: nat, next: State, storedBytes: nat) returns (after: seq<BinaryNode>)
      requires Valid(nodes) && i < |records| && records[i].InMemory() && next == Stored
      requires records[i].location in manager.contents && manager.contents[records[i].location] == nodes[i].v
      modifies this`records, this`spillCount, this`spilledBytes
      ensures Valid(after) && after == nodes[i := nodes[i].Cleared()]
      ensures records == old(records)[i := old(records)[i].(state := Stored)]
      ensures spillCount == old(spillCount) + 1
    {
      after := nodes[i := nodes[i].Cleared()];
      TracksUpdate(manager.contents, records, observed, nodes, i, records[i].(state := next), nodes[i].Cleared());
      SameLocations(records, i, next);
      records := records[i := records[i].(state := next)];
      spillCount := spillCount + 1;
      spilledBytes := spilledBytes + storedBytes;
    }

    /** A residency state changes, nothing else. */
    method SetInMemory(nodes: seq<BinaryNode>, i: nat, state: State)
      requires Valid(nodes) && i < |records| && records[i].InMemory() && (state == Resident || state == Spilling)
      modifies this`records
      ensures Valid(nodes) && records == old(records)[i := old(records)[i].(state := state)]
    {
      TracksUpdate(manager.contents, records, observed, nodes, i, records[i].(state := state), nodes[i]);
      assert nodes[i := nodes[i]] == nodes;
      SameLocations(records, i, state);
      records := records[i := records[i].(state := state)];
    }

    lemma SameLocations(rs: seq<ResidentNode>, i: nat, state: State)
      requires i < |rs|
      ensures var after := rs[i := rs[i].(state := state)];
              && |after| == |rs| && (forall j | 0 <= j < |rs| :: after[j].location == rs[j].location)
              && (DistinctLocations(rs) ==> DistinctLocations(after))
              && forall level :: AllOfLevel(rs, level) ==> AllOfLevel(after, level)
    {
    }

    /** The synchronous spill of one node: stored first, cleared afterwards. */
    method SpillNode(nodes: seq<BinaryNode>, i: nat) returns (ok: bool, after: seq<BinaryNode>)
      requires Valid(nodes) && Idle() && i < |records|
      modifies this`records, this`spillCount, this`spilledBytes, manager
      ensures Valid(after) && Idle()
      ensures ok ==> old(records)[i].state == Resident && spillCount == old(spillCount) + 1
                     && records == old(records)[i := old(records)[i].(state := Stored)]
      ensures !ok ==> records == old(records) && after == nodes && spillCount == old(spillCount)
      ensures manager.index.Keys == old(manager.index.Keys) + if ok then {old(records)[i].location} else {}
      ensures (old(manager.interrupted) ==> manager.interrupted) && (old(manager.disturbed) ==> manager.disturbed)
      ensures if ok then old(manager.IndexAccepts(records[i].location))
              else old(records[i].state) != Resident || manager.interrupted || !old(manager.IndexAccepts(records[i].location))
    {
      var (begun, spilling) := BeginSpill(records[i].state);
      if !begun {
        return false, nodes;
      }
      SetInMemory(nodes, i, spilling);
      var location, v := records[i].location, nodes[i].v;
      var chunk := Chunk(location, v, manager.CreateMetadata(location, v));
      ok := StoreTracked(nodes, i, chunk);
      if ok {
        var (_, next) := CompleteSpill(spilling);
        after := ClearStored(nodes, i, next, chunk.metadata.storedSize);
      } else {
        var (_, back) := FailSpill(spilling);
        SetInMemory(nodes, i, back);
        after := nodes;
      }
    }

    /** A store of one of the tracked nodes loses nothing that is tracked. */
    method StoreTracked(nodes: seq<BinaryNode>, i: nat, chunk: Chunk) returns (ok: bool)
      requires Valid(nodes) && i < |records| && chunk.location == records[i].location
      modifies manager
      ensures Valid(nodes)
      ensures ok ==> chunk.location in manager.contents && manager.contents[chunk.location] == chunk.v
      ensures manager.index.Keys == old(manager.index.Keys) + if ok then {chunk.location} else {}
      ensures (old(manager.interrupted) ==> manager.interrupted) && (old(manager.disturbed) ==> manager.disturbed)
      ensures if ok then old(manager.IndexAccepts(chunk.location))
              else manager.interrupted || !old(manager.IndexAccepts(chunk.location))
    {
      ghost var contents0 := manager.contents;
      ok := manager.Store(chunk);
      TracksGrow(contents0, manager.contents, records, observed, nodes);
    }

    /** A candidate nobody has spilled yet is found. */
    lemma CandidateIsFound(nodes: seq<BinaryNode>, candidates: seq<Eviction.Candidate>, k: nat, level: nat, found: Option<nat>)
      requires Valid(nodes) && NamesRecords(records, candidates)
      requires k < |candidates| && LeftOnly(records, candidates, k, level)
      requires found.Some? ==> found.value < |records| && records[found.value].location == candidates[k].id
      requires found.None? ==> forall i | 0 <= i < |records| ::
                 records[i].location != candidates[k].id || candidates[k].id.treeLevel != level || !nodes[i].HasValues()
      ensures found.Some? && records[found.value].state == Resident && records[found.value].bytes == candidates[k].bytes
    {
      var c := candidates[k];
      assert c in candidates;
      var i :| Stands(records, c, i);
      assert records[i].state == Resident;
      assert Tracks(manager.contents, records[i], observed[i], nodes[i]);
      assert found.Some?;
      assert found.value == i;
    }

    /** The index has grown by the first k candidates, each of which it accepted from the start. */
    ghost predicate IndexedSoFar(candidates: seq<Eviction.Candidate>, k: nat, keys0: set<BlockLocation>)
      requires k <= |candidates|
      reads manager
    {
      && manager.index.Keys == keys0 + Ids(candidates, k)
      && forall m | 0 <= m < k :: Accepts(keys0, manager.termCount, candidates[m].id)
    }

    lemma NextIndexed(candidates: seq<Eviction.Candidate>, k: nat, keys0: set<BlockLocation>)
      requires k < |candidates| && IndexedSoFar(candidates, k, keys0)
      ensures manager.IndexAccepts(candidates[k].id) ==> Accepts(keys0, manager.termCount, candidates[k].id)
      ensures ApartIds(candidates) ==>
        (manager.IndexAccepts(candidates[k].id) <==> Accepts(keys0, manager.termCount, candidates[k].id))
      ensures Ids(candidates, k + 1) == Ids(candidates, k) + {candidates[k].id}
    {
      AcceptsWithout(keys0, keys0 + Ids(candidates, k), manager.termCount, candidates[k].id);
      if ApartIds(candidates) { StillDecided(keys0, candidates, k, manager.termCount); }
      assert forall l :: l in Ids(candidates, k + 1) <==> l in Ids(candidates, k) || l == candidates[k].id;
    }

    method SpillCandidate(nodes: seq<BinaryNode>, i: nat, ghost candidates: seq<Eviction.Candidate>, ghost k: nat,
                          ghost keys0: set<BlockLocation>)
      returns (ok: bool, after: seq<BinaryNode>)
      requires Valid(nodes) && Idle() && i < |records| && k < |candidates|
      modifies this`records, this`spillCount, this`spilledBytes, manager
      ensures Valid(after) && Idle()
      ensures (old(manager.interrupted) ==> manager.interrupted) && (old(manager.disturbed) ==> manager.disturbed)
      ensures ok ==> old(records)[i].state == Resident && spillCount == old(spillCount) + 1
                     && records == old(records)[i := old(records)[i].(state := Stored)]
      ensures !ok ==> records == old(records) && after == nodes && spillCount == old(spillCount)
      ensures old(IndexedSoFar(candidates, k, keys0)) && old(records)[i].location == candidates[k].id
              && old(records)[i].state == Resident ==>
        if ok then IndexedSoFar(candidates, k + 1, keys0)
        else SpillDecided(candidates, keys0, manager.termCount, false, manager.interrupted)
    {
      ghost var applies := IndexedSoFar(candidates, k, keys0);
      if applies {
        NextIndexed(candidates, k, keys0);
        assert candidates[k] in candidates;
      }
      ok, after := SpillNode(nodes, i);
    }

    /** The synchronous spill of a plan. */
    method SpillSync(nodes: seq<BinaryNode>, level: nat, candidates: seq<Eviction.Candidate>)
      returns (ok: bool, after: seq<BinaryNode>)
      requires Valid(nodes) && Idle() && NamesRecords(records, candidates)
      modifies this`records, this`spillCount, this`spilledBytes, manager
      ensures Valid(after) && Idle()
      ensures ok && old(Clean(records, level)) ==>
        Freed(records, candidates, |candidates|, old(ResidentBytes(records)))
        && spillCount == old(spillCount) + |candidates|
      ensures old(Clean(records, level)) ==>
        SpillDecided(candidates, old(manager.index.Keys), manager.termCount, ok, manager.interrupted)
      ensures (old(manager.interrupted) ==> manager.interrupted) && (old(manager.disturbed) ==> manager.disturbed)
    {
      after := nodes;
      ghost var clean, total := Clean(records, level), ResidentBytes(records);
      ghost var keys0 := manager.index.Keys;
      for k := 0 to |candidates|
        invariant Valid(after) && Idle() && NamesRecords(records, candidates)
        invariant (old(manager.interrupted) ==> manager.interrupted) && (old(manager.disturbed) ==> manager.disturbed)
        invariant clean ==> IndexedSoFar(candidates, k, keys0)
        invariant clean ==> LeftOnly(records, candidates, k, level) && Freed(records, candidates, k, total)
        invariant clean ==> spillCount == old(spillCount) + k
      {
        var found := Select(after, level, candidates[k].id);
        if clean {
          CandidateIsFound(after, candidates, k, level, found);
        }
        if found.Some? {
          ghost var before := records;
          ok, after := SpillCandidate(after, found.value, candidates, k, keys0);
          if !ok {
            return;
          }
          CandidateLeaves(before, candidates, k, found.value, level, total);
        }
      }
      ok := true;
    }

    // ---------- spilling through the asynchronous writer ----------

    /** The writes submitted, in order: the record each is for, and the chunk it carries. */
    ghost predicate Submitted(pending: seq<nat>, chunks: seq<Chunk>)
      reads this
    {
      && |pending| == |chunks| && DistinctChunks(chunks)
      && forall m | 0 <= m < |pending| ::
           && pending[m] < |records| && pending[m] < |observed|
           && chunks[m].location == records[pending[m]].location && chunks[m].v == observed[pending[m]].v
    }

    /** One node begins to spill and its chunk is submitted; the writer may be closed. */
    method SubmitOne(nodes: seq<BinaryNode>, i: nat, pending0: seq<nat>, chunks0: seq<Chunk>)
      returns (ok: bool, pending: seq<nat>, chunks: seq<Chunk>)
      requires Valid(nodes) && i < |records| && Submitted(pending0, chunks0) && SpillingAre(records, pending0)
      modifies this`records, manager`interrupted
      ensures Valid(nodes) && Submitted(pending, chunks) && (old(manager.interrupted) ==> manager.interrupted)
      ensures !ok ==> old(records)[i].state != Resident || manager.interrupted
      ensures ok ==> SpillingAre(records, pending) && pending == pending0 + [i] && old(records)[i].state == Resident
                     && records == old(records)[i := old(records)[i].(state := Spilling)]
      ensures !ok ==> ResidentBytes(records) == old(ResidentBytes(records))
    {
      ok, pending, chunks := true, pending0, chunks0;
      var (begun, spilling) := BeginSpill(records[i].state);
      if !begun {
        return false, pending, chunks;
      }
      ghost var before := records;
      SetInMemory(nodes, i, spilling);
      ResidentUpdate(before, i, records[i]);
      assert Tracks(manager.contents, records[i], observed[i], nodes[i]);
      var chunk := Chunk(records[i].location, nodes[i].v, manager.CreateMetadata(records[i].location, nodes[i].v));
      var refused := *;
      if refused {
        manager.interrupted := true;
        return false, pending, chunks;
      }
      NewChunkDistinct(pending, chunks, chunk, before, i);
      pending, chunks := pending + [i], chunks + [chunk];
    }

    /** Every candidate is submitted, unless the writer refuses one. */
    method SubmitAll(nodes: seq<BinaryNode>, level: nat, candidates: seq<Eviction.Candidate>)
      returns (ok: bool, pending: seq<nat>, chunks: seq<Chunk>)
      requires Valid(nodes) && Idle() && NamesRecords(records, candidates)
      modifies this`records, manager`interrupted
      ensures Valid(nodes) && Submitted(pending, chunks) && (old(manager.interrupted) ==> manager.interrupted)
      ensures !ok && old(Clean(records, level)) ==> manager.interrupted
      ensures ResidentBytes(records) == old(ResidentBytes(records))
      ensures ok ==> SpillingAre(records, pending) && NamesRecords(records, candidates)
      ensures ok && old(Clean(records, level)) ==> CleanlySubmitted(records, candidates, |candidates|, level, pending)
    {
      ok, pending, chunks := true, [], [];
      ghost var clean, total := Clean(records, level), ResidentBytes(records);
      for k := 0 to |candidates|
        invariant Valid(nodes) && Submitted(pending, chunks) && NamesRecords(records, candidates)
        invariant ok && ResidentBytes(records) == total && SpillingAre(records, pending)
        invariant old(manager.interrupted) ==> manager.interrupted
        invariant clean ==> CleanlySubmitted(records, candidates, k, level, pending)
      {
        var found := Select(nodes, level, candidates[k].id);
        if clean {
          CandidateIsFound(nodes, candidates, k, level, found);
        }
        if found.Some? {
          ghost var before, pending0 := records, pending;
          ok, pending, chunks := SubmitOne(nodes, found.value, pending, chunks);
          if !ok {
            return;
          }
          CandidateUnderWay(before, candidates, k, found.value, level, pending0);
        }
      }
    }

    lemma NewChunkDistinct(pending: seq<nat>, chunks: seq<Chunk>, chunk: Chunk, before: seq<ResidentNode>, i: nat)
      requires Submitted(pending, chunks) && DistinctLocations(records)
      requires |before| == |records| && i < |records| && chunk.location == records[i].location
      requires forall m | 0 <= m < |pending| :: before[pending[m]].state == Spilling
      requires before[i].state == Resident
      ensures DistinctChunks(chunks + [chunk])
    {
      forall m | 0 <= m < |chunks| ensures chunks[m].location != chunk.location {
        assert pending[m] != i;
      }
    }

    /** What waiting for the writes tells. */
    ghost predicate ResultsOf(chunks: seq<Chunk>, results: seq<AsyncWriteState>)
      reads this, manager
    {
      && |results| == |chunks|
      && forall m | 0 <= m < |chunks| ::
           && (results[m] == WriteStored || results[m] == WriteFailed || results[m] == WriteCancelled)
           && (results[m] == WriteStored ==> chunks[m].location in manager.contents
                                             && manager.contents[chunks[m].location] == chunks[m].v)
    }

    method RunTracked(nodes: seq<BinaryNode>, pending: seq<nat>, chunks: seq<Chunk>) returns (results: seq<AsyncWriteState>)
      requires Valid(nodes) && Submitted(pending, chunks)
      modifies manager
      ensures Valid(nodes) && ResultsOf(chunks, results)
      ensures (old(manager.interrupted) ==> manager.interrupted) && (old(manager.disturbed) ==> manager.disturbed)
      ensures forall k | 0 <= k < |chunks| ::
                Decided(old(ViewOf(manager)), manager.termCount, chunks, k, Finished(results[k]), manager.interrupted)
    {
      ghost var contents0 := manager.contents;
      results := RunWrites(manager, chunks);
      TracksGrow(contents0, manager.contents, records, observed, nodes);
      forall l | l in manager.index
        ensures l in foreign || l !in manager.files || exists j :: 0 <= j < |records| && records[j].location == l
      {
        if k :| 0 <= k < |chunks| && chunks[k].location == l {
          assert records[pending[k]].location == l;
        }
      }
    }

    /** One awaited write: cleared if it was stored, resident again if not. */
    method FinishOne(nodes: seq<BinaryNode>, i: nat, result: AsyncWriteState, storedBytes: nat) returns (after: seq<BinaryNode>)
      requires Valid(nodes) && i < |records| && records[i].state == Spilling
      requires result == WriteStored || result == WriteFailed || result == WriteCancelled
      requires result == WriteStored ==> records[i].location in manager.contents
                                         && manager.contents[records[i].location] == observed[i].v
      modifies this`records, this`spillCount, this`spilledBytes
      ensures Valid(after)
      ensures result == WriteStored ==> spillCount == old(spillCount) + 1
                                        && records == old(records)[i := old(records)[i].(state := Stored)]
      ensures result != WriteStored ==> records == old(records)[i := old(records)[i].(state := Resident)]
    {
      var (stored, next) := FinishAsyncSpill(records[i].state, result);
      assert Tracks(manager.contents, records[i], observed[i], nodes[i]);
      if stored {
        after := ClearStored(nodes, i, next, storedBytes);
      } else {
        SetInMemory(nodes, i, next);
        after := nodes;
      }
    }

    /** The wait loop; it stops at the first write that was not stored. */
    method AwaitWrites(nodes: seq<BinaryNode>, pending: seq<nat>, chunks: seq<Chunk>, results: seq<AsyncWriteState>,
                       ghost candidates: seq<Eviction.Candidate>, ghost clean: bool, ghost level: nat)
      returns (ok: bool, after: seq<BinaryNode>)
      requires Valid(nodes) && Submitted(pending, chunks) && ResultsOf(chunks, results) && SpillingAre(records, pending)
      requires NamesRecords(records, candidates)
      requires clean ==> CleanlySubmitted(records, candidates, |candidates|, level, pending)
      modifies this`records, this`spillCount, this`spilledBytes
      ensures Valid(after) && Submitted(pending, chunks)
      ensures ok ==> Idle()
      ensures ok <==> forall m | 0 <= m < |results| :: results[m] == WriteStored
      ensures ok && clean ==>
        Freed(records, candidates, |candidates|, old(ResidentBytes(records)))
        && spillCount == old(spillCount) + |candidates|
    {
      hide ResidentBytes, Eviction.Total, Tracks, Accounted;
      after := nodes;
      ghost var total := ResidentBytes(records);
      NothingFreed(records, candidates);
      for k := 0 to |pending|
        invariant Valid(after) && Submitted(pending, chunks) && ResultsOf(chunks, results)
        invariant SpillingAre(records, pending[k..]) && NamesRecords(records, candidates)
        invariant forall m | 0 <= m < k :: results[m] == WriteStored
        invariant clean ==> |pending| == |candidates| && Freed(records, candidates, k, total) && spillCount == old(spillCount) + k
        invariant clean ==> forall m | 0 <= m < |pending| :: Stands(records, candidates[m], pending[m])
      {
        var i := pending[k];
        ghost var before := records;
        NextAwaited(pending, chunks, k);
        after := FinishOne(after, i, results[k], chunks[k].metadata.storedSize);
        if results[k] != WriteStored {
          return false, after;
        }
        if clean {
          CandidateFreed(before, candidates, k, i, total, pending);
        }
        StillNames(before, candidates, i, Stored);
      }
      ok := true;
    }

    lemma NextAwaited(pending: seq<nat>, chunks: seq<Chunk>, k: nat)
      requires Submitted(pending, chunks) && k < |pending|
      ensures pending[k..] == [pending[k]] + pending[k + 1..] && pending[k] !in pending[k + 1..]
    {
      forall m | k < m < |pending| ensures pending[m] != pending[k] {
        assert chunks[k].location != chunks[m].location;
      }
    }

    /** The catch block: the remaining writes are awaited, and what is still spilling becomes resident. */
    method Recover(nodes: seq<BinaryNode>, pending: seq<nat>, chunks: seq<Chunk>, results: seq<AsyncWriteState>)
      returns (after: seq<BinaryNode>)
      requires Valid(nodes) && Submitted(pending, chunks) && ResultsOf(chunks, results)
      modifies this`records, this`spillCount, this`spilledBytes
      ensures Valid(after) && Idle()
    {
      after := nodes;
      for k := 0 to |pending|
        invariant Valid(after) && Submitted(pending, chunks) && ResultsOf(chunks, results)
      {
        if records[pending[k]].state == Spilling {
          after := FinishOne(after, pending[k], results[k], chunks[k].metadata.storedSize);
        }
      }
      for i := 0 to |records|
        invariant Valid(after) && |records| == old(|records|)
        invariant forall j | 0 <= j < i :: records[j].state != Spilling
      {
        var (failed, back) := FailSpill(records[i].state);
        if failed {
          SetInMemory(after, i, back);
        }
      }
    }

    /** The asynchronous spill of a plan. */
    method SpillAsync(nodes: seq<BinaryNode>, level: nat, candidates: seq<Eviction.Candidate>)
      returns (ok: bool, after: seq<BinaryNode>)
      requires Valid(nodes) && Idle() && NamesRecords(records, candidates)
      modifies this`records, this`spillCount, this`spilledBytes, manager
      ensures Valid(after) && Idle()
      ensures ok && old(Clean(records, level)) ==>
        Freed(records, candidates, |candidates|, old(ResidentBytes(records)))
        && spillCount == old(spillCount) + |candidates|
      ensures old(Clean(records, level)) ==>
        SpillDecided(candidates, old(manager.index.Keys), manager.termCount, ok, manager.interrupted)
      ensures (old(manager.interrupted) ==> manager.interrupted) && (old(manager.disturbed) ==> manager.disturbed)
    {
      ghost var clean, start := Clean(records, level), ViewOf(manager);
      var submitted, pending, chunks := SubmitAll(nodes, level, candidates);
      var results := RunTracked(nodes, pending, chunks);
      after, ok := nodes, false;
      if submitted {
        if clean { WritesDecide(candidates, pending, chunks, results, start); }
        ok, after := AwaitWrites(nodes, pending, chunks, results, candidates, clean, level);
      }
      if !ok {
        after := Recover(after, pending, chunks, results);
      }
    }

    /** The chunks are those of the candidates, so their fate decides the spill. */
    lemma WritesDecide(candidates: seq<Eviction.Candidate>, pending: seq<nat>, chunks: seq<Chunk>,
                       results: seq<AsyncWriteState>, start: View)
      requires Submitted(pending, chunks) && |candidates| == |pending| == |results|
      requires forall m | 0 <= m < |pending| :: Stands(records, candidates[m], pending[m])
      requires forall k | 0 <= k < |chunks| ::
                 Decided(start, manager.termCount, chunks, k, Finished(results[k]), manager.interrupted)
      ensures SpillDecided(candidates, start.contents.Keys, manager.termCount,
                           forall m | 0 <= m < |results| :: results[m] == WriteStored, manager.interrupted)
    {
      forall m | 0 <= m < |chunks| ensures chunks[m].location == candidates[m].id {
        assert Stands(records, candidates[m], pending[m]);
      }
      forall c | c in candidates && forall m | 0 <= m < |results| :: results[m] == WriteStored
        ensures Accepts(start.contents.Keys, manager.termCount, c.id)
      {
        var m :| 0 <= m < |candidates| && candidates[m] == c;
        assert Decided(start, manager.termCount, chunks, m, Finished(results[m]), manager.interrupted);
      }
      if m :| 0 <= m < |results| && results[m] != WriteStored {
        assert Decided(start, manager.termCount, chunks, m, Finished(results[m]), manager.interrupted);
        assert candidates[m] in candidates;
        if ApartIds(candidates) { assert ApartChunks(chunks); }
      }
    }

    lemma WrapSmall(a: nat)
      requires a <= U64_MAX
      ensures WrapU64(a) == a
    {
    }

    /** Wrapping early or late comes to the same. */
    lemma WrapTwice(a: nat, b: nat)
      ensures WrapU64(WrapU64(a) + b) == WrapU64(a + b)
    {
    }

    /** `snapshot().residentBytes`: a 64-bit sum. */
    method SnapshotResidentBytes() returns (bytes: nat)
      ensures bytes == WrapU64(ResidentBytes(records))
      ensures ResidentBytes(records) <= U64_MAX ==> bytes == ResidentBytes(records)
    {
      hide WrapU64;
      var sum: nat := 0;
      assert WrapU64(0) == 0 by { WrapSmall(0); }
      for i := 0 to |records|
        invariant sum == WrapU64(ResidentBytes(records[..i]))
      {
        assert records[..i + 1][..i] == records[..i];
        WrapTwice(ResidentBytes(records[..i]), records[i].bytes);
        if records[i].InMemory() {
          sum := WrapU64(sum + records[i].bytes);
        }
      }
      assert records[..|records|] == records;
      if ResidentBytes(records) <= U64_MAX { WrapSmall(ResidentBytes(records)); }
      bytes := sum;
    }

    /** The budget check and the eviction plan. */
    method PlanSpill(level: nat) returns (early: Option<SpillOutcome>, candidates: seq<Eviction.Candidate>)
      requires DistinctLocations(records)
      ensures early.Some? ==> early.value.WithinBudget? || early.value.PlanFailed?
      ensures early.None? ==> NamesRecords(records, candidates)
      ensures FreshLevel(records, level) ==>
        && (early == Some(WithinBudget) <==> ResidentBytes(records) <= manager.memoryBudgetBytes)
        && (early == Some(PlanFailed) ==> manager.memoryBudgetBytes == 0)
        && (early.None? ==> Eviction.Total(candidates) + manager.memoryBudgetBytes >= ResidentBytes(records)
                            && FewestFor(records, |candidates|, manager.memoryBudgetBytes))
    {
      candidates := [];
      var residentBytes := SnapshotResidentBytes();
      ghost var isFresh := FreshLevel(records, level);
      if residentBytes <= manager.memoryBudgetBytes {
        return Some(WithinBudget), [];
      }
      var needed := residentBytes - manager.memoryBudgetBytes;
      var planned := Eviction.PlanEvictions(Candidates(records), manager.memoryBudgetBytes, needed);
      if planned.InvalidArgument? {
        InvalidPlan(records, manager.memoryBudgetBytes, level);
        return Some(PlanFailed), [];
      }
      var plan := planned.plan;
      if isFresh {
        FreshPlan(plan, records, level, needed);
      }
      if !plan.budgetSatisfied {
        return Some(PlanFailed), [];
      }
      PlanNamesRecords(plan, records, needed);
      early, candidates := None, plan.candidates;
    }

    /** `spillAfterMergeLevel`. Whatever happens, a node is cleared only once its values are indexed. On a
        freshly observed level the plan cannot fail, the budget is met, and as few nodes as possible go. */
    method Spill(nodes: seq<BinaryNode>, level: nat)
      returns (outcome: SpillOutcome, after: seq<BinaryNode>, ghost chosen: seq<Eviction.Candidate>)
      requires |nodes| == |records| ==> Valid(nodes) && Idle()
      modifies this`records, this`spillCount, this`spilledBytes, manager
      ensures outcome.SizeMismatch? <==> |nodes| != |old(records)|
      ensures !outcome.SizeMismatch? ==> Valid(after) && Idle()
      ensures outcome.SizeMismatch? || outcome.WithinBudget? || outcome.PlanFailed? ==> records == old(records) && after == nodes
      ensures old(FreshLevel(records, level)) && |nodes| == |old(records)| ==>
        && (outcome.WithinBudget? <==> old(ResidentBytes(records)) <= manager.memoryBudgetBytes)
        && (outcome.PlanFailed? ==> manager.memoryBudgetBytes == 0)
        && (outcome.Spilled? ==> ResidentBytes(records) <= manager.memoryBudgetBytes
                                 && spillCount >= old(spillCount)
                                 && FewestFor(old(records), spillCount - old(spillCount), manager.memoryBudgetBytes))
      ensures outcome.Spilled? || outcome.SpillFailed? ==> NamesRecords(old(records), chosen)
      ensures old(Clean(records, level)) && (outcome.Spilled? || outcome.SpillFailed?) ==>
        SpillDecided(chosen, old(manager.index.Keys), manager.termCount, outcome.Spilled?, manager.interrupted)
      ensures old(Clean(records, level)) && ApartRecords(old(records)) && !manager.interrupted
              && (outcome.Spilled? || outcome.SpillFailed?) ==>
        (outcome.SpillFailed? <==> exists c :: c in chosen && !old(manager.IndexAccepts(c.id)))
      ensures (old(manager.interrupted) ==> manager.interrupted) && (old(manager.disturbed) ==> manager.disturbed)
    {
      after, chosen := nodes, [];
      if |nodes| != |records| {
        return SizeMismatch, nodes, chosen;
      }
      var early, candidates := PlanSpill(level);
      if early.Some? {
        return early.value, nodes, chosen;
      }
      chosen := candidates;
      var ok;
      if async {
        ok, after := SpillAsync(nodes, level, candidates);
      } else {
        ok, after := SpillSync(nodes, level, candidates);
      }
      outcome := if ok then Spilled else SpillFailed;
      assert candidates[..|candidates|] == candidates;
      if ApartRecords(old(records)) { ChosenApart(old(records), chosen); }
    }

    // ---------- reloading ----------

    /** Nodes while they are being reloaded: every node not waiting for its chunk is as observed. */
    ghost predicate Reloading(nodes: seq<BinaryNode>)
      reads this, manager
    {
      && Ready() && AllOfLevel(records, observedLevel)
      && |records| == |observed| == |nodes|
      && forall i | 0 <= i < |records| :: ReloadTracks(manager.contents, records[i], observed[i], nodes[i])
    }

    lemma ReloadsUpdate(contents: map<BlockLocation, Pqt>, rs: seq<ResidentNode>, os: seq<BinaryNode>, ns: seq<BinaryNode>,
                        i: nat, r: ResidentNode, n: BinaryNode)
      requires |rs| == |os| == |ns| && i < |rs| && ReloadTracks(contents, r, os[i], n)
      requires forall j | 0 <= j < |rs| :: ReloadTracks(contents, rs[j], os[j], ns[j])
      ensures forall j | 0 <= j < |rs| :: ReloadTracks(contents, rs[i := r][j], os[j], ns[i := n][j])
    {
    }

    /** One node is read back; a failed read leaves its record corrupted or removed. */
    method ReloadOne(nodes: seq<BinaryNode>, i: nat) returns (ok: bool, after: seq<BinaryNode>)
      requires Reloading(nodes) && i < |records| && records[i].state == Loading
      modifies this`records, this`reloadCount, manager`disturbed
      ensures (old(manager.disturbed) ==> manager.disturbed) && (!ok ==> manager.disturbed)
      ensures ok ==> Reloading(after) && records == old(records)[i := old(records)[i].(state := Resident)]
      ensures Ready()
    {
      hide Accepts;
      ghost var records0 := records;
      assert ReloadTracks(manager.contents, records[i], observed[i], nodes[i]);
      SameLocations(records, i, Resident);
      after := nodes;
      var loaded;
      ghost var unreadable;
      loaded, unreadable := manager.Load(records[i].location);
      manager.disturbed := manager.disturbed || unreadable;
      if !loaded.Loaded? {
        var artifact := *;
        var (_, failed) := FailLoad(records[i].state, artifact);
        SameLocations(records, i, failed);
        records := records[i := records[i].(state := failed)];
        return false, nodes;
      }
      after := nodes[i := BinaryNode(nodes[i].start, nodes[i].end, loaded.v)];
      var (_, done) := CompleteLoad(records[i].state);
      records := records[i := records[i].(state := done)];
      reloadCount := reloadCount + 1;
      ok := true;
      ReloadsUpdate(manager.contents, records0, observed, nodes, i, records[i], after[i]);
    }

    /** The merge distance drops to zero, and a stored record of this level starts to load. */
    method BeginReload(nodes: seq<BinaryNode>, i: nat, level: nat)
      requires Reloading(nodes) && i < |records|
      modifies this`records
      ensures Reloading(nodes) && |records| == old(|records|)
      ensures records == old(records)[i := records[i]] && records[i].location == old(records)[i].location
      ensures records[i].state == if old(records)[i].state == Stored && records[i].location.treeLevel == level
                                  then Loading else old(records)[i].state
    {
      ghost var records0 := records;
      var record := records[i].(distance := 0.0);
      if record.location.treeLevel == level {
        var (_, next) := BeginLoad(record.state);
        record := record.(state := next);
      }
      records := records[i := record];
      forall j | 0 <= j < |records| ensures ReloadTracks(manager.contents, records[j], observed[j], nodes[j]) {
        assert ReloadTracks(manager.contents, records0[j], observed[j], nodes[j]);
      }
    }

    /** With a reader, all loads are begun before any is awaited. */
    method BeginLoads(nodes: seq<BinaryNode>, level: nat)
      requires Reloading(nodes) && forall j | 0 <= j < |records| :: records[j].state == Resident || records[j].state == Stored
      requires level == observedLevel
      modifies this`records
      ensures Reloading(nodes) && |records| == old(|records|)
      ensures forall j | 0 <= j < |records| :: records[j].state == Resident || records[j].state == Loading
    {
      for i := 0 to |records|
        invariant Reloading(nodes) && |records| == old(|records|)
        invariant forall j | 0 <= j < i :: records[j].state == Resident || records[j].state == Loading
        invariant forall j | i <= j < |records| :: records[j].state == Resident || records[j].state == Stored
      {
        BeginReload(nodes, i, level);
      }
    }

    /** The chunk files may be lost or damaged at any time. */
    method DisturbFiles(nodes: seq<BinaryNode>)
      requires Reloading(nodes)
      modifies manager`files, manager`disturbed
      ensures Reloading(nodes) && (old(manager.disturbed) ==> manager.disturbed)
    {
      manager.Disturb();
    }

    /** `prepareMergeNodes`: one by one, or, with a reader, all loads begun before any is awaited. If it
        succeeds, every node is what it was when the level was observed, and so before any spill. */
    method Prepare(nodes: seq<BinaryNode>, level: nat) returns (ok: bool, after: seq<BinaryNode>)
      requires |nodes| == |records| ==> Valid(nodes) && Idle() && level == observedLevel
      requires Ready()
      modifies this`records, this`reloadCount, manager`files, manager`disturbed
      ensures ok ==> |nodes| == |old(records)| && Valid(after) && Idle() && after == observed
      ensures Ready() && (old(manager.disturbed) ==> manager.disturbed)
      ensures !ok && |nodes| == |old(records)| ==> manager.disturbed
    {
      after := nodes;
      if |nodes| != |records| {
        return false, nodes;
      }
      ghost var n := |records|;
      forall i | 0 <= i < n ensures ReloadTracks(manager.contents, records[i], observed[i], nodes[i]) {
        assert Tracks(manager.contents, records[i], observed[i], nodes[i]);
      }
      if async {
        BeginLoads(nodes, level);
      }
      ok, after := FinishLoads(nodes, level);
    }

    /** Each node in turn: begun now, unless that has been done, and awaited. */
    method FinishLoads(nodes: seq<BinaryNode>, level: nat) returns (ok: bool, after: seq<BinaryNode>)
      requires Reloading(nodes) && level == observedLevel
      requires forall j | 0 <= j < |records| ::
                 records[j].state == Resident || records[j].state == if async then Loading else Stored
      modifies this`records, this`reloadCount, manager`files, manager`disturbed
      ensures ok ==> |nodes| == |old(records)| && Valid(after) && Idle() && after == observed
      ensures Ready() && (old(manager.disturbed) ==> manager.disturbed)
      ensures !ok && |nodes| == |old(records)| ==> manager.disturbed
    {
      hide ReloadTracks, Tracks, Accounted, DistinctLocations;
      after := nodes;
      for i := 0 to |records|
        invariant Reloading(after) && |records| == old(|records|) && (old(manager.disturbed) ==> manager.disturbed)
        invariant forall j | 0 <= j < i :: records[j].state == Resident
        invariant forall j | i <= j < |records| ::
                    records[j].state == Resident || records[j].state == if async then Loading else Stored
      {
        DisturbFiles(after);
        if !async {
          BeginReload(after, i, level);
        }
        if records[i].state == Loading {
          ok, after := ReloadOne(after, i);
          if !ok {
            return;
          }
        }
      }
      ok := true;
      AllBack(after);
    }

    lemma AllBack(nodes: seq<BinaryNode>)
      requires Reloading(nodes) && forall j | 0 <= j < |records| :: records[j].state == Resident
      ensures Valid(nodes) && Idle() && nodes == observed
    {
      forall i | 0 <= i < |records|
        ensures Tracks(manager.contents, records[i], observed[i], nodes[i]) && nodes[i] == observed[i]
      {
        assert ReloadTracks(manager.contents, records[i], observed[i], nodes[i]);
      }
    }
  }

  // ---------- index entries that outlive their level ----------

  /** An entry the index file listed when the process started survives the next level, file and all. */
  method ObserveBesideLeftover(termCount: nat, budget: nat, storedSizeOf: Pqt -> nat, checksumOf: (BlockLocation, Pqt) -> nat,
                               leftover: Chunk, nodes: seq<BinaryNode>, level: nat)
    returns (coordinator: StorageMergeCoordinator, outcome: ObserveOutcome)
    ensures outcome.Observed? || outcome.InvalidNodes?
    ensures outcome.InvalidNodes? <==> !coordinator.Observable(nodes, level)
    ensures outcome.Observed? ==>
      && leftover.location in coordinator.manager.index && leftover.location in coordinator.manager.files
      && !coordinator.manager.IndexAccepts(leftover.location)
  {
    var manager := new StorageManager(termCount, budget, storedSizeOf, checksumOf,
                                      map[leftover.location := Intact(leftover)], map[leftover.location := leftover.metadata]);
    coordinator := new StorageMergeCoordinator(manager, false);
    outcome := coordinator.Observe(nodes, level);
  }

  /** A chunk of the level before whose file has vanished keeps its entry. */
  method ObserveAfterLoss(coordinator: StorageMergeCoordinator, lost: BlockLocation, nodes: seq<BinaryNode>, level: nat)
    returns (outcome: ObserveOutcome)
    requires coordinator.Ready() && lost in coordinator.manager.index && lost !in coordinator.manager.files
    modifies coordinator, coordinator.manager
    ensures outcome.Observed? ==> lost in coordinator.manager.index && !coordinator.manager.IndexAccepts(lost)
  {
    outcome := coordinator.Observe(nodes, level);
  }

  /** Nothing of this level has been spilled yet. */
  ghost predicate Clean(records: seq<ResidentNode>, level: nat) {
    forall i | 0 <= i < |records| :: records[i].state == Resident && records[i].location.treeLevel == level
  }

  ghost predicate NamesRecords(records: seq<ResidentNode>, candidates: seq<Eviction.Candidate>) {
    && Eviction.DistinctIds(candidates)
    && forall c | c in candidates :: c.bytes > 0 && exists i :: Stands(records, c, i)
  }

  /** The places of the first k candidates. */
  ghost function Ids(candidates: seq<Eviction.Candidate>, k: nat): set<BlockLocation>
    requires k <= |candidates|
  {
    set m | 0 <= m < k :: candidates[m].id
  }

  ghost predicate ApartIds(candidates: seq<Eviction.Candidate>) {
    forall i, j | 0 <= i < |candidates| && 0 <= j < |candidates| && i != j ::
      candidates[i].id != candidates[j].id && !candidates[i].id.Overlaps(candidates[j].id)
  }

  /** A spill of these candidates succeeds only if the index accepts every one of them; and if it accepts
      them all, they do not overlap, and no write fails for its own reasons, it does succeed. */
  ghost predicate SpillDecided(candidates: seq<Eviction.Candidate>, indexed: set<BlockLocation>, termCount: nat,
                               spilled: bool, interrupted: bool)
  {
    && (spilled ==> forall c | c in candidates :: Accepts(indexed, termCount, c.id))
    && (!spilled && !interrupted && ApartIds(candidates) ==> exists c :: c in candidates && !Accepts(indexed, termCount, c.id))
  }

  lemma StillDecided(indexed: set<BlockLocation>, candidates: seq<Eviction.Candidate>, k: nat, termCount: nat)
    requires k < |candidates| && ApartIds(candidates)
    ensures Accepts(indexed + Ids(candidates, k), termCount, candidates[k].id) <==> Accepts(indexed, termCount, candidates[k].id)
  {
    AcceptsWithout(indexed, indexed + Ids(candidates, k), termCount, candidates[k].id);
  }

  ghost predicate ApartRecords(records: seq<ResidentNode>) {
    forall i, j | 0 <= i < |records| && 0 <= j < |records| && i != j :: !records[i].location.Overlaps(records[j].location)
  }

  /** Nodes of a frontier do not overlap, so neither do any of them that are chosen. */
  lemma ChosenApart(records: seq<ResidentNode>, candidates: seq<Eviction.Candidate>)
    requires NamesRecords(records, candidates) && ApartRecords(records)
    ensures ApartIds(candidates)
  {
    forall m, n | 0 <= m < |candidates| && 0 <= n < |candidates| && m != n
      ensures candidates[m].id != candidates[n].id && !candidates[m].id.Overlaps(candidates[n].id)
    {
      assert candidates[m] in candidates && candidates[n] in candidates;
      var i :| Stands(records, candidates[m], i);
      var j :| Stands(records, candidates[n], j);
    }
  }

  ghost predicate Stands(records: seq<ResidentNode>, c: Eviction.Candidate, i: int) {
    0 <= i < |records| && records[i].location == c.id && records[i].bytes == c.bytes
  }

  /** Only the first k candidates have left memory. */
  ghost predicate LeftOnly(records: seq<ResidentNode>, candidates: seq<Eviction.Candidate>, k: nat, level: nat)
    requires k <= |candidates|
  {
    forall i | 0 <= i < |records| ::
      && records[i].location.treeLevel == level
      && (records[i].state != Resident ==> exists m :: 0 <= m < k && candidates[m].id == records[i].location)
  }

  /** Bytes in memory, as the candidates leave. */
  ghost predicate Freed(records: seq<ResidentNode>, candidates: seq<Eviction.Candidate>, k: nat, total: nat)
    requires k <= |candidates|
  {
    ResidentBytes(records) + Eviction.Total(candidates[..k]) == total
  }

  lemma NothingFreed(records: seq<ResidentNode>, candidates: seq<Eviction.Candidate>)
    ensures Freed(records, candidates, 0, ResidentBytes(records))
  {
  }

  /** Candidate k, found at record i, is stored. */
  lemma CandidateLeaves(before: seq<ResidentNode>, candidates: seq<Eviction.Candidate>, k: nat, i: nat, level: nat, total: nat)
    requires k < |candidates| && i < |before| && NamesRecords(before, candidates)
    ensures NamesRecords(before[i := before[i].(state := Stored)], candidates)
    ensures LeftOnly(before, candidates, k, level) && Freed(before, candidates, k, total) && before[i].InMemory()
            && Stands(before, candidates[k], i) ==>
              LeftOnly(before[i := before[i].(state := Stored)], candidates, k + 1, level)
              && Freed(before[i := before[i].(state := Stored)], candidates, k + 1, total)
  {
    var after := before[i := before[i].(state := Stored)];
    ResidentUpdate(before, i, after[i]);
    Eviction.TotalStep(candidates, k + 1);
    forall c | c in candidates ensures c.bytes > 0 && exists j :: Stands(after, c, j) {
      var j :| Stands(before, c, j);
      assert Stands(after, c, j);
    }
  }

  /** The records being spilled are those whose write is still to be waited for. */
  ghost predicate SpillingAre(records: seq<ResidentNode>, waiting: seq<nat>) {
    && (forall m | m in waiting :: m < |records|)
    && forall i | 0 <= i < |records| :: records[i].state == Spilling <==> i in waiting
  }

  /** The first k candidates are submitted, in order. */
  ghost predicate CleanlySubmitted(records: seq<ResidentNode>, candidates: seq<Eviction.Candidate>, k: nat, level: nat,
                                   pending: seq<nat>)
    requires k <= |candidates|
  {
    && LeftOnly(records, candidates, k, level) && |pending| == k
    && forall m | 0 <= m < k :: Stands(records, candidates[m], pending[m])
  }

  /** Candidate k, found at record i, is being stored. */
  lemma CandidateUnderWay(before: seq<ResidentNode>, candidates: seq<Eviction.Candidate>, k: nat, i: nat, level: nat,
                          pending: seq<nat>)
    requires k < |candidates| && i < |before| && NamesRecords(before, candidates) && before[i].state == Resident
    ensures var after := before[i := before[i].(state := Spilling)];
            NamesRecords(after, candidates) && ResidentBytes(after) == ResidentBytes(before)
    ensures CleanlySubmitted(before, candidates, k, level, pending) && Stands(before, candidates[k], i) ==>
              CleanlySubmitted(before[i := before[i].(state := Spilling)], candidates, k + 1, level, pending + [i])
  {
    hide ResidentBytes, Eviction.DistinctIds;
    var after := before[i := before[i].(state := Spilling)];
    ResidentUpdate(before, i, after[i]);
    forall c | c in candidates ensures c.bytes > 0 && exists j :: Stands(after, c, j) {
      var j :| Stands(before, c, j);
      assert Stands(after, c, j);
    }
    if CleanlySubmitted(before, candidates, k, level, pending) && Stands(before, candidates[k], i) {
      forall m | 0 <= m < k + 1 ensures Stands(after, candidates[m], (pending + [i])[m]) {
        if m < k { assert Stands(before, candidates[m], pending[m]); }
      }
    }
  }

  lemma StillNames(before: seq<ResidentNode>, candidates: seq<Eviction.Candidate>, i: nat, state: State)
    requires i < |before| && NamesRecords(before, candidates)
    ensures NamesRecords(before[i := before[i].(state := state)], candidates)
  {
    var after := before[i := before[i].(state := state)];
    forall c | c in candidates ensures c.bytes > 0 && exists j :: Stands(after, c, j) {
      var j :| Stands(before, c, j);
      assert Stands(after, c, j);
    }
  }

  /** The write of candidate k, for record i, was stored. */
  lemma CandidateFreed(before: seq<ResidentNode>, candidates: seq<Eviction.Candidate>, k: nat, i: nat, total: nat,
                       pending: seq<nat>)
    requires k < |candidates| == |pending| && i == pending[k] && Freed(before, candidates, k, total)
    requires forall m | 0 <= m < |pending| :: Stands(before, candidates[m], pending[m])
    requires i < |before| && before[i].InMemory()
    ensures Freed(before[i := before[i].(state := Stored)], candidates, k + 1, total)
    ensures forall m | 0 <= m < |pending| :: Stands(before[i := before[i].(state := Stored)], candidates[m], pending[m])
  {
    var after := before[i := before[i].(state := Stored)];
    assert Stands(before, candidates[k], i);
    ResidentUpdate(before, i, after[i]);
    Eviction.TotalStep(candidates, k + 1);
    forall m | 0 <= m < |pending| ensures Stands(after, candidates[m], pending[m]) {
      assert Stands(before, candidates[m], pending[m]);
    }
  }

  /** A level as `Observe` leaves it: all in memory, one merge distance, fewer than 2^64 bytes. */
  ghost predicate FreshLevel(records: seq<ResidentNode>, level: nat) {
    && Clean(records, level) && ResidentBytes(records) <= U64_MAX && DistinctLocations(records)
    && (forall i | 0 <= i < |records| :: records[i].distance == records[0].distance)
    && (records != [] ==> records[0].distance > 0.0)
  }

  lemma {:induction false} ResidentAtMost(records: seq<ResidentNode>, most: nat)
    requires forall i | 0 <= i < |records| :: records[i].bytes <= most
    ensures ResidentBytes(records) <= |records| * most
  {
    if records != [] {
      ResidentAtMost(records[..|records| - 1], most);
      assert |records| * most == (|records| - 1) * most + most;
    }
  }

  lemma {:induction false} TotalIsResident(records: seq<ResidentNode>, level: nat)
    requires Clean(records, level)
    ensures Eviction.Total(Candidates(records)) == ResidentBytes(records)
  {
    if records != [] {
      var front := records[..|records| - 1];
      TotalIsResident(front, level);
      assert Candidates(records)[..|records| - 1] == Candidates(front);
    }
  }

  lemma FreshIsFresh(records: seq<ResidentNode>, level: nat)
    requires FreshLevel(records, level) && records != []
    ensures Eviction.Fresh(Candidates(records), records[0].distance)
  {
    TotalIsResident(records, level);
  }

  /** The planner refuses a fresh level only when there is no budget at all. */
  lemma InvalidPlan(records: seq<ResidentNode>, budget: nat, level: nat)
    requires DistinctLocations(records)
    requires !(budget > 0 && Eviction.DistinctIds(Candidates(records)) && forall c | c in Candidates(records) :: c.distance >= 0.0)
    ensures FreshLevel(records, level) ==> budget == 0
  {
    assert Eviction.DistinctIds(Candidates(records));
  }

  /** No choice of fewer than `count` nodes brings the level within the budget. */
  ghost predicate FewestFor(records: seq<ResidentNode>, count: nat, budget: nat) {
    forall chosen: seq<Eviction.Candidate> |
      multiset(chosen) <= multiset(Candidates(records)) && Eviction.Total(chosen) + budget >= ResidentBytes(records) ::
      |chosen| >= count
  }

  lemma FreshPlan(plan: Eviction.EvictionPlan, records: seq<ResidentNode>, level: nat, needed: nat)
    requires FreshLevel(records, level) && 0 < needed <= ResidentBytes(records)
    requires Eviction.PlanOf(plan, Candidates(records), needed)
    ensures plan.budgetSatisfied && Eviction.Total(plan.candidates) >= needed
    ensures FewestFor(records, |plan.candidates|, ResidentBytes(records) - needed)
  {
    FreshIsFresh(records, level);
    TotalIsResident(records, level);
    Eviction.FreshPlanSucceeds(plan, Candidates(records), needed, records[0].distance);
    forall chosen: seq<Eviction.Candidate> |
      multiset(chosen) <= multiset(Candidates(records)) && Eviction.Total(chosen) >= needed
      ensures |chosen| >= |plan.candidates|
    {
      Eviction.FreshPlanIsSmallest(plan, Candidates(records), needed, records[0].distance, chosen);
    }
  }

  /** A node that is stored or loading can be restored from its indexed chunk; any other is resident. */
  ghost predicate ReloadTracks(contents: map<BlockLocation, Pqt>, r: ResidentNode, o: BinaryNode, n: BinaryNode) {
    && r.location.start == o.start && r.location.end == o.end && (r.bytes > 0 <==> o.HasValues())
    && n.start == o.start && n.end == o.end
    && (r.state == Resident || r.state == Stored || r.state == Loading)
    && (r.state == Resident ==> n == o)
    && (r.state == Stored ==> n == o.Cleared())
    && (r.state != Resident ==> r.location in contents && contents[r.location] == o.v)
  }
}
