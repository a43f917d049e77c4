/** Committing a merge frontier: new blocks, then the manifest, then the removal of superseded blocks
    (src/checkpoint/CheckpointFrontierWriter.cpp). */
module FrontierWriter {
  import opened AtomicFileCommit
  import opened BinaryNodes
  import opened CheckpointTypes
  import opened Chudnovsky
  import opened ComputationIdentity
  import opened Disk
  import opened GmpSerialization
  import opened ManifestValidator
  import opened Widths
  import Sorting

  datatype CommitOutcome = Committed | SkippedByInterval | AlreadyPublished | Refused | IoFailed

  // ---------- what a frontier, an entry and a directory have to do with each other ----------

  function Location(node: BinaryNode, level: nat): BlockLocation {
    BlockLocation(node.start, node.end, level)
  }

  ghost predicate Listed(entries: seq<ManifestEntry>, l: BlockLocation) {
    exists e :: e in entries && e.location == l
  }

  /** Where node k has to start. */
  function Cursor(nodes: seq<BinaryNode>, k: nat): nat
    requires k <= |nodes|
  {
    if k == 0 then 0 else nodes[k - 1].end
  }

  predicate FitsAt(nodes: seq<BinaryNode>, j: nat, termCount: nat)
    requires j < |nodes|
  {
    nodes[j].start == Cursor(nodes, j) && nodes[j].start < nodes[j].end <= termCount
  }

  /** The first k nodes are adjacent, non-empty and start at zero. */
  ghost predicate LaidOut(nodes: seq<BinaryNode>, k: nat, termCount: nat)
    requires k <= |nodes|
  {
    forall j | 0 <= j < k :: FitsAt(nodes, j, termCount)
  }

  /** Everything `commitFrontier` checks. */
  ghost predicate Resumable(nodes: seq<BinaryNode>, levels: seq<nat>, entries: seq<ManifestEntry>, termCount: nat) {
    && |nodes| == |levels| && nodes != []
    && LaidOut(nodes, |nodes|, termCount) && Cursor(nodes, |nodes|) == termCount
    && (forall i | 0 <= i < |nodes| :: levels[i] <= MaximumTreeLevel(termCount))
    && (forall i | 0 <= i < |nodes| :: nodes[i].HasValues() || Listed(entries, Location(nodes[i], levels[i])))
  }

  /** The entry describes the block file, and the file is durable. */
  ghost predicate Holds(d: Disk, e: ManifestEntry, v: Pqt, checksumOf: (BlockLocation, Pqt) -> nat) {
    && e == EntryOf(e.location, v, checksumOf)
    && d.Durable(BlockFile(e.location), Some(BlockOf(e.location, v)))
  }

  function EntryOf(l: BlockLocation, v: Pqt, checksumOf: (BlockLocation, Pqt) -> nat): ManifestEntry {
    ManifestEntry(l, BlockFile(l), PayloadSize(v), checksumOf(l, v), Complete)
  }

  function BlockOf(l: BlockLocation, v: Pqt): File {
    File(Block(l, v), true)
  }

  function ManifestOf(entries: seq<ManifestEntry>): File {
    File(Manifest(entries), true)
  }

  ghost predicate HoldsAll(d: Disk, entries: seq<ManifestEntry>, values: seq<Pqt>,
                           checksumOf: (BlockLocation, Pqt) -> nat)
  {
    && |values| == |entries|
    && forall i | 0 <= i < |entries| :: Holds(d, entries[i], values[i], checksumOf)
  }

  /** The entries a writer may start from. */
  predicate AcceptableEntry(e: ManifestEntry, termCount: nat) {
    e.location.Valid(termCount) && e.completion == Complete && e.filename == BlockFile(e.location)
  }

  ghost function IndexOf(entries: seq<ManifestEntry>, l: BlockLocation): (k: nat)
    requires Listed(entries, l)
    ensures k < |entries| && entries[k].location == l
  {
    var e :| e in entries && e.location == l;
    var k :| 0 <= k < |entries| && entries[k] == e;
    k
  }

  // ---------- the safety of every state of a commit ----------

  /** A listed location keeps its entry and its block, any other location gets its own. */
  ghost function Planned(node: BinaryNode, level: nat, entries: seq<ManifestEntry>, values: seq<Pqt>,
                         checksumOf: (BlockLocation, Pqt) -> nat): (ManifestEntry, Pqt)
    requires |entries| == |values|
  {
    var l := Location(node, level);
    if Listed(entries, l) then (entries[IndexOf(entries, l)], values[IndexOf(entries, l)])
    else (EntryOf(l, node.v, checksumOf), node.v)
  }

  /** One commit: the directory it starts from, the frontier, what was published before, the manifest the
      frontier asks for and what the blocks of that manifest hold; `held` says that the published blocks
      were durable when the writer was opened. */
  datatype Commit = Commit(start: Disk, nodes: seq<BinaryNode>, levels: seq<nat>, entries: seq<ManifestEntry>,
                           values: seq<Pqt>, manifest: seq<ManifestEntry>, newValues: seq<Pqt>,
                           checksumOf: (BlockLocation, Pqt) -> nat, held: bool)
  {
    ghost predicate WellFormed() {
      && |nodes| == |levels| == |manifest| == |newValues| && |entries| == |values|
      && forall i | 0 <= i < |nodes| ::
           (manifest[i], newValues[i]) == Planned(nodes[i], levels[i], entries, values, checksumOf)
    }

    ghost predicate OldHeld(d: Disk) {
      held ==> HoldsAll(d, entries, values, checksumOf)
    }

    ghost predicate NewHeld(d: Disk) {
      held ==> HoldsAll(d, manifest, newValues, checksumOf)
    }

    /** New blocks are being written. */
    ghost predicate WritingBlocks(d: Disk)
      requires WellFormed()
    {
      && d.After(ManifestFile) <= start.After(ManifestFile) && ListedKept(start, d, entries)
      && OldHeld(d) && OnlyFrontierFiles(start, d, nodes, levels, entries)
    }

    /** The manifest is being replaced: either may come up, and the blocks of both are held. */
    ghost predicate Switching(d: Disk)
      requires WellFormed()
    {
      && d.After(ManifestFile) <= start.After(ManifestFile) + {Some(ManifestOf(manifest))}
      && ListedKept(start, d, entries) && OldHeld(d) && NewHeld(d) && OnlyFrontierFiles(start, d, nodes, levels, entries)
    }

    /** The new manifest is durable; superseded blocks go. */
    ghost predicate Published(d: Disk)
      requires WellFormed()
    {
      && d.Durable(ManifestFile, Some(ManifestOf(manifest)))
      && NewHeld(d) && OnlyFrontierFiles(start, d, nodes, levels, entries)
    }

    /** Until the new manifest is durable no published block is touched, so every one that was held stays
        held; as soon as a crash could bring up the new manifest, every block it names is held; no other file
        is touched. */
    ghost predicate Safe(d: Disk)
      requires WellFormed()
    {
      WritingBlocks(d) || Switching(d) || Published(d)
    }

    ghost predicate SafeSince(history: seq<Disk>, k: nat)
      requires WellFormed()
    {
      forall i | k <= i < |history| :: Safe(history[i])
    }
  }

  /** The files of the published blocks are as they were. */
  ghost predicate ListedKept(before: Disk, d: Disk, entries: seq<ManifestEntry>) {
    forall e | e in entries :: var n := BlockFile(e.location);
      d.Current(n) == before.Current(n) && d.After(n) <= before.After(n)
  }

  lemma ListedThroughWrite(start: Disk, before: Disk, d: Disk, destination: FileName, f: File, entries: seq<ManifestEntry>)
    requires ListedKept(start, before, entries) && Between(before, d, destination, f)
    requires destination.BlockFile? ==> !Listed(entries, destination.location)
    ensures ListedKept(start, d, entries)
  {
    forall e | e in entries ensures var n := BlockFile(e.location); d.Current(n) == start.Current(n) && d.After(n) <= start.After(n) {
      var n := BlockFile(e.location);
      assert n != destination;
      assert before.Current(n) == start.Current(n) && before.After(n) <= start.After(n);
    }
  }

  /** What may be found under a name that is neither temporary nor the manifest: what was there, a new
      block of the frontier, or nothing where a superseded block was. */
  ghost predicate OnlyFrontierFiles(before: Disk, d: Disk, nodes: seq<BinaryNode>, levels: seq<nat>,
                                    entries: seq<ManifestEntry>)
    requires |nodes| == |levels|
  {
    forall n: FileName, o | !n.TempFile? && n != ManifestFile && o in d.After(n) ::
      || o in before.After(n)
      || (exists i :: NewBlock(n, o, nodes, levels, entries, i))
      || (o == None && Superseded(n, nodes, levels, entries))
  }

  ghost predicate NewBlock(n: FileName, o: Option<File>, nodes: seq<BinaryNode>, levels: seq<nat>,
                           entries: seq<ManifestEntry>, i: int)
    requires |nodes| == |levels|
  {
    && 0 <= i < |nodes| && nodes[i].HasValues()
    && var l := Location(nodes[i], levels[i]);
       !Listed(entries, l) && n == BlockFile(l) && o == Some(BlockOf(l, nodes[i].v))
  }

  ghost predicate Superseded(n: FileName, nodes: seq<BinaryNode>, levels: seq<nat>, entries: seq<ManifestEntry>)
    requires |nodes| == |levels|
  {
    && n.BlockFile? && Listed(entries, n.location)
    && forall i | 0 <= i < |nodes| :: Location(nodes[i], levels[i]) != n.location
  }

  // ---------- the walk over the published entries ----------

  /** std::lower_bound on entries ordered by location. */
  method LowerBound(entries: seq<ManifestEntry>, from: nat, l: BlockLocation) returns (at: nat)
    requires from <= |entries|
    ensures from <= at <= |entries|
    ensures forall j | from <= j < at :: entries[j].location.Less(l)
    ensures at < |entries| ==> !entries[at].location.Less(l)
  {
    at := from;
    while at < |entries| && entries[at].location.Less(l)
      invariant from <= at <= |entries|
      invariant forall j | from <= j < at :: entries[j].location.Less(l)
    {
      at := at + 1;
    }
  }

  /** The walk meets a listed location exactly where it stops. */
  lemma WalkFinds(entries: seq<ManifestEntry>, from: nat, at: nat, l: BlockLocation, termCount: nat)
    requires Disjoint(entries) && forall e | e in entries :: e.location.Valid(termCount)
    requires from <= at <= |entries|
    requires forall j | 0 <= j < from :: entries[j].location.Less(l)
    requires forall j | from <= j < at :: entries[j].location.Less(l)
    requires at < |entries| ==> !entries[at].location.Less(l)
    ensures Listed(entries, l) <==> at < |entries| && entries[at].location == l
  {
    if Listed(entries, l) {
      var e :| e in entries && e.location == l;
      var k :| 0 <= k < |entries| && entries[k] == e;
      assert at <= k;
      assert entries[at] in entries;
    }
  }

  /** One step of the walk: continue at the first entry not below the location, and reuse it if it is
      the location itself. */
  method Find(entries: seq<ManifestEntry>, from: nat, l: BlockLocation, termCount: nat)
    returns (at: nat, found: Option<ManifestEntry>)
    requires Disjoint(entries) && forall e | e in entries :: e.location.Valid(termCount)
    requires from <= |entries| && forall j | 0 <= j < from :: entries[j].location.start < l.start
    requires l.start < l.end
    ensures from <= at <= |entries| && forall j | 0 <= j < at :: entries[j].location.start < l.end
    ensures found.Some? <==> Listed(entries, l)
    ensures found.Some? ==> found.value in entries && found.value.location == l
  {
    at := LowerBound(entries, from, l);
    WalkFinds(entries, from, at, l, termCount);
    found := if at < |entries| && entries[at].location == l then Some(entries[at]) else None;
  }

  datatype Candidate = Candidate(entries: seq<ManifestEntry>, newNodes: seq<nat>)

  function Placeholder(l: BlockLocation): ManifestEntry {
    ManifestEntry(l, OtherFile(0), 0, 0, Complete)
  }

  ghost predicate CandidateEntry(e: ManifestEntry, node: BinaryNode, level: nat, entries: seq<ManifestEntry>) {
    var l := Location(node, level);
    if Listed(entries, l) then e in entries && e.location == l
    else e == Placeholder(l) && node.HasValues()
  }

  /** The candidate manifest of the first k nodes. */
  ghost predicate CandidateOf(c: Candidate, nodes: seq<BinaryNode>, levels: seq<nat>, entries: seq<ManifestEntry>, k: nat)
    requires |nodes| == |levels| && k <= |nodes|
  {
    && |c.entries| == k
    && (forall i | 0 <= i < k :: CandidateEntry(c.entries[i], nodes[i], levels[i], entries))
    && (forall m | 0 <= m < |c.newNodes| :: c.newNodes[m] < k)
    && (forall m, m' | 0 <= m < m' < |c.newNodes| :: c.newNodes[m] < c.newNodes[m'])
    && (forall i | 0 <= i < k :: i in c.newNodes <==> !Listed(entries, Location(nodes[i], levels[i])))
  }

  /** One more node: a published entry is reused, any other location gets a placeholder. */
  function Extended(c: Candidate, k: nat, location: BlockLocation, found: Option<ManifestEntry>): Candidate {
    match found
    case Some(e) => Candidate(c.entries + [e], c.newNodes)
    case None => Candidate(c.entries + [Placeholder(location)], c.newNodes + [k])
  }

  lemma ExtendedIsCandidate(c: Candidate, k: nat, found: Option<ManifestEntry>, nodes: seq<BinaryNode>,
                            levels: seq<nat>, entries: seq<ManifestEntry>)
    requires |nodes| == |levels| && k < |nodes| && CandidateOf(c, nodes, levels, entries, k)
    requires found.Some? <==> Listed(entries, Location(nodes[k], levels[k]))
    requires found.Some? ==> found.value in entries && found.value.location == Location(nodes[k], levels[k])
    requires found.None? ==> nodes[k].HasValues()
    ensures CandidateOf(Extended(c, k, Location(nodes[k], levels[k]), found), nodes, levels, entries, k + 1)
  {
    var d := Extended(c, k, Location(nodes[k], levels[k]), found);
    forall i | 0 <= i <= k
      ensures CandidateEntry(d.entries[i], nodes[i], levels[i], entries)
      ensures i in d.newNodes <==> !Listed(entries, Location(nodes[i], levels[i]))
    {
      if i < k {
        assert d.entries[i] == c.entries[i];
        assert i in d.newNodes <==> i in c.newNodes;
      } else {
        assert k !in c.newNodes;
      }
    }
  }

  /** The candidate manifest, built before any I/O. */
  method BuildCandidate(nodes: seq<BinaryNode>, levels: seq<nat>, entries: seq<ManifestEntry>, termCount: nat)
    returns (candidate: Option<Candidate>)
    requires |nodes| == |levels|
    requires Disjoint(entries) && forall e | e in entries :: e.location.Valid(termCount)
    ensures candidate.Some? ==> CandidateOf(candidate.value, nodes, levels, entries, |nodes|)
    ensures candidate.Some? ==> LaidOut(nodes, |nodes|, termCount) && Cursor(nodes, |nodes|) == termCount
    ensures nodes != [] && candidate.None? ==> !Resumable(nodes, levels, entries, termCount)
  {
    hide CandidateEntry, Listed;
    var c := Candidate([], []);
    var cursor, existing := 0, 0;
    for index := 0 to |nodes|
      invariant cursor == Cursor(nodes, index) && LaidOut(nodes, index, termCount)
      invariant existing <= |entries|
      invariant forall j | 0 <= j < existing :: entries[j].location.start < cursor
      invariant CandidateOf(c, nodes, levels, entries, index)
    {
      var start, end := nodes[index].start, nodes[index].end;
      if start != cursor {
        assert !FitsAt(nodes, index, termCount);
        return None;
      }
      cursor := end;
      var location := BlockLocation(start, end, levels[index]);
      if !location.Valid(termCount) {
        assert !FitsAt(nodes, index, termCount);
        return None;
      }
      var found;
      existing, found := Find(entries, existing, location, termCount);
      if found.None? && !nodes[index].HasValues() {
        return None;
      }
      ExtendedIsCandidate(c, index, found, nodes, levels, entries);
      c := Extended(c, index, location, found);
    }
    if cursor != termCount {
      return None;
    }
    candidate := Some(c);
  }

  lemma {:induction false} LaidOutInOrder(nodes: seq<BinaryNode>, i: nat, j: nat, termCount: nat)
    requires i < j < |nodes| && LaidOut(nodes, |nodes|, termCount)
    ensures nodes[i].start < nodes[i].end <= nodes[j].start
  {
    assert FitsAt(nodes, i, termCount) && FitsAt(nodes, j, termCount);
    if i < j - 1 {
      LaidOutInOrder(nodes, i, j - 1, termCount);
      assert FitsAt(nodes, j - 1, termCount);
    }
  }

  lemma DistinctStarts(nodes: seq<BinaryNode>, i: nat, j: nat, termCount: nat)
    requires i < |nodes| && j < |nodes| && i != j && LaidOut(nodes, |nodes|, termCount)
    ensures nodes[i].start != nodes[j].start
  {
    if i < j {
      LaidOutInOrder(nodes, i, j, termCount);
    } else {
      LaidOutInOrder(nodes, j, i, termCount);
    }
  }

  // ---------- how a held block survives the steps ----------

  lemma HeldThroughWrite(before: Disk, d: Disk, destination: FileName, f: File, e: ManifestEntry, v: Pqt,
                         checksumOf: (BlockLocation, Pqt) -> nat)
    requires Between(before, d, destination, f) && Holds(before, e, v, checksumOf)
    requires destination != BlockFile(e.location)
    ensures Holds(d, e, v, checksumOf)
  {
    hide EntryOf, BlockOf;
    assert d.After(BlockFile(e.location)) <= before.After(BlockFile(e.location));
    assert d.Current(BlockFile(e.location)) in d.After(BlockFile(e.location));
  }

  lemma AllHeldThroughWrite(before: Disk, d: Disk, destination: FileName, f: File, entries: seq<ManifestEntry>,
                            values: seq<Pqt>, checksumOf: (BlockLocation, Pqt) -> nat)
    requires Between(before, d, destination, f) && HoldsAll(before, entries, values, checksumOf)
    requires destination.BlockFile? ==> !Listed(entries, destination.location)
    ensures HoldsAll(d, entries, values, checksumOf)
  {
    forall i | 0 <= i < |entries| ensures Holds(d, entries[i], values[i], checksumOf) {
      assert Holds(before, entries[i], values[i], checksumOf);
      assert entries[i] in entries;
      HeldThroughWrite(before, d, destination, f, entries[i], values[i], checksumOf);
    }
  }

  lemma AllHeldThroughUnlink(before: Disk, n: FileName, entries: seq<ManifestEntry>, values: seq<Pqt>,
                             checksumOf: (BlockLocation, Pqt) -> nat)
    requires HoldsAll(before, entries, values, checksumOf)
    requires n.BlockFile? ==> !Listed(entries, n.location)
    ensures HoldsAll(before.Put(n, None), entries, values, checksumOf)
  {
    forall i | 0 <= i < |entries| ensures Holds(before.Put(n, None), entries[i], values[i], checksumOf) {
      assert Holds(before, entries[i], values[i], checksumOf);
      assert entries[i] in entries;
    }
  }

  lemma FilesThroughBlockWrite(start: Disk, before: Disk, d: Disk, i: nat, nodes: seq<BinaryNode>, levels: seq<nat>,
                               entries: seq<ManifestEntry>)
    requires |nodes| == |levels| && i < |nodes| && nodes[i].HasValues()
    requires !Listed(entries, Location(nodes[i], levels[i]))
    requires OnlyFrontierFiles(start, before, nodes, levels, entries)
    requires var l := Location(nodes[i], levels[i]); Between(before, d, BlockFile(l), BlockOf(l, nodes[i].v))
    ensures OnlyFrontierFiles(start, d, nodes, levels, entries)
  {
    var l := Location(nodes[i], levels[i]);
    forall n: FileName, o | !n.TempFile? && n != ManifestFile && o in d.After(n)
      ensures || o in start.After(n)
              || (exists k :: NewBlock(n, o, nodes, levels, entries, k))
              || (o == None && Superseded(n, nodes, levels, entries))
    {
      if o !in before.After(n) {
        assert n == BlockFile(l);
        assert NewBlock(n, o, nodes, levels, entries, i);
      }
    }
  }

  lemma FilesThroughManifestWrite(start: Disk, before: Disk, d: Disk, f: File, nodes: seq<BinaryNode>, levels: seq<nat>,
                                  entries: seq<ManifestEntry>)
    requires |nodes| == |levels| && OnlyFrontierFiles(start, before, nodes, levels, entries)
    requires Between(before, d, ManifestFile, f)
    ensures OnlyFrontierFiles(start, d, nodes, levels, entries)
  {
    forall n: FileName, o | !n.TempFile? && n != ManifestFile && o in d.After(n) ensures o in before.After(n) {
    }
  }

  lemma FilesThroughUnlink(start: Disk, before: Disk, l: BlockLocation, nodes: seq<BinaryNode>, levels: seq<nat>,
                           entries: seq<ManifestEntry>)
    requires |nodes| == |levels| && OnlyFrontierFiles(start, before, nodes, levels, entries)
    requires Superseded(BlockFile(l), nodes, levels, entries)
    ensures OnlyFrontierFiles(start, before.Put(BlockFile(l), None), nodes, levels, entries)
  {
    var d := before.Put(BlockFile(l), None);
    forall n: FileName, o | !n.TempFile? && n != ManifestFile && o in d.After(n)
      ensures o in before.After(n) || (n == BlockFile(l) && o == None)
    {
    }
  }

  // ---------- the new manifest ----------

  ghost predicate NamesNodes(es: seq<ManifestEntry>, nodes: seq<BinaryNode>, levels: seq<nat>) {
    && |es| == |nodes| == |levels|
    && forall i | 0 <= i < |nodes| :: es[i].location == Location(nodes[i], levels[i])
  }

  /** The structural gate only ever objects to a tree level. */
  lemma ExactWhenLevelsFit(es: seq<ManifestEntry>, nodes: seq<BinaryNode>, levels: seq<nat>, termCount: nat)
    requires NamesNodes(es, nodes, levels) && nodes != []
    requires forall i | 0 <= i < |es| :: es[i].completion == Complete
    requires LaidOut(nodes, |nodes|, termCount) && Cursor(nodes, |nodes|) == termCount
    ensures ExactFrontier(es, termCount) <==> forall i | 0 <= i < |nodes| :: levels[i] <= MaximumTreeLevel(termCount)
  {
    forall i | 0 <= i < |es|
      ensures es[i].location.Valid(termCount)
    {
      assert FitsAt(nodes, i, termCount);
    }
    forall i | 0 < i < |es| ensures Follows(es, i) {
      assert FitsAt(nodes, i, termCount);
    }
    assert es[|es| - 1].location == Location(nodes[|nodes| - 1], levels[|nodes| - 1]);
    assert FitsAt(nodes, 0, termCount);
    if forall i | 0 <= i < |nodes| :: levels[i] <= MaximumTreeLevel(termCount) {
      forall e | e in es ensures Eligible(e, termCount) {
        var i :| 0 <= i < |es| && es[i] == e;
      }
    }
    if ExactFrontier(es, termCount) {
      forall i | 0 <= i < |nodes| ensures levels[i] <= MaximumTreeLevel(termCount) {
        assert es[i] in es;
      }
    }
  }

  lemma LocationOnce(entries: seq<ManifestEntry>, e: ManifestEntry, termCount: nat)
    requires Disjoint(entries) && (forall x | x in entries :: x.location.Valid(termCount)) && e in entries
    ensures entries[IndexOf(entries, e.location)] == e
  {
    var k :| 0 <= k < |entries| && entries[k] == e;
    var m := IndexOf(entries, e.location);
    assert entries[m] in entries;
    assert k == m;
  }

  // ---------- the writer ----------

  class FrontierWriter {
    const fs: Filesystem
    const identity: Identity

    /** CRC32C of an encoded block. */
    const checksumOf: (BlockLocation, Pqt) -> nat

    var entries: seq<ManifestEntry>
    var lastCommit: bool
    var commitCount: nat
    var initialFrontierWork: Option<nat>

    /** What the published blocks hold, and whether they were durable when the writer was opened. A crash
        leaves a directory in which everything found is durable. */
    ghost var values: seq<Pqt>
    ghost const held: bool

    ghost predicate Valid()
      reads this, fs
    {
      && fs.Valid() && identity.Valid()
      && Disjoint(entries) && (forall e | e in entries :: AcceptableEntry(e, identity.termCount))
      && |values| == |entries| && (held ==> HoldsAll(fs.disk, entries, values, checksumOf))
    }

    constructor (fs: Filesystem, identity: Identity, entries: seq<ManifestEntry>,
                 checksumOf: (BlockLocation, Pqt) -> nat, ghost values: seq<Pqt>, ghost held: bool)
      requires fs.Valid() && identity.Valid() && Disjoint(entries)
      requires forall e | e in entries :: AcceptableEntry(e, identity.termCount)
      requires |values| == |entries| && (held ==> HoldsAll(fs.disk, entries, values, checksumOf))
      ensures this.held == held
      ensures Valid() && this.fs == fs && this.identity == identity && this.checksumOf == checksumOf
      ensures this.entries == entries && this.values == values && commitCount == 0 && !lastCommit
    {
      this.fs, this.identity, this.entries, this.checksumOf := fs, identity, entries, checksumOf;
      lastCommit, commitCount, initialFrontierWork := false, 0, None;
      this.values, this.held := values, held;
    }

    /** The commit of these nodes from the present state. */
    ghost predicate Starts(c: Commit, nodes: seq<BinaryNode>, levels: seq<nat>)
      reads this, fs
    {
      && c.start == fs.disk && c.nodes == nodes && c.levels == levels && c.entries == entries && c.values == values
      && c.checksumOf == checksumOf && c.held == held && c.WellFormed()
    }

    /** One new block, written atomically; what was held elsewhere stays held. */
    method SaveBlock(nodes: seq<BinaryNode>, levels: seq<nat>, index: nat, ghost c: Commit)
      returns (saved: bool, entry: ManifestEntry)
      requires fs.Valid() && c.WellFormed() && c.nodes == nodes && c.levels == levels && c.checksumOf == checksumOf
      requires index < |nodes| && nodes[index].HasValues()
      requires !Listed(c.entries, Location(nodes[index], levels[index])) && c.WritingBlocks(fs.disk)
      modifies fs
      ensures fs.Valid() && old(fs.history) <= fs.history && c.WritingBlocks(fs.disk)
      ensures forall i | |old(fs.history)| <= i < |fs.history| :: c.WritingBlocks(fs.history[i])
      ensures forall e: ManifestEntry, v | e.location != Location(nodes[index], levels[index]) && old(Holds(fs.disk, e, v, checksumOf)) ::
                Holds(fs.disk, e, v, checksumOf)
      ensures saved ==> entry.location == Location(nodes[index], levels[index])
                        && Holds(fs.disk, entry, nodes[index].v, checksumOf)
      ensures (old(fs.failed) ==> fs.failed) && (!saved ==> fs.failed)
    {
      var location, v := Location(nodes[index], levels[index]), nodes[index].v;
      entry := Placeholder(location);
      // creating the directory or encoding the block may throw
      var prepared := fs.Attempt();
      if !prepared {
        return false, entry;
      }
      ghost var before, k := fs.disk, |fs.history|;
      saved := Write(fs, BlockFile(location), Block(location, v), HEADER_SIZE + PayloadSize(v));
      HistoryKeepsPhase(c, before, fs.history, k, index);
      BlockWriteKeepsPhase(c, before, fs.disk, index);
      OthersHeld(before, fs.disk, location, v, checksumOf);
      entry := EntryOf(location, v, checksumOf);
    }

    /** The new blocks, one atomic write each. */
    method SaveBlocks(nodes: seq<BinaryNode>, levels: seq<nat>, candidate: Candidate, ghost c: Commit)
      returns (ok: bool, manifest: seq<ManifestEntry>)
      requires Valid() && Starts(c, nodes, levels) && LaidOut(nodes, |nodes|, identity.termCount)
      requires CandidateOf(candidate, nodes, levels, entries, |nodes|)
      modifies fs
      ensures Valid() && old(fs.history) <= fs.history
      ensures forall i | |old(fs.history)| <= i < |fs.history| :: c.WritingBlocks(fs.history[i])
      ensures c.WritingBlocks(fs.disk)
      ensures ok ==> |manifest| == |nodes| && forall i | 0 <= i < |nodes| ::
                if i in candidate.newNodes
                then Holds(fs.disk, manifest[i], nodes[i].v, checksumOf)
                     && manifest[i].location == Location(nodes[i], levels[i])
                else manifest[i] == candidate.entries[i]
      ensures (old(fs.failed) ==> fs.failed) && (!ok ==> fs.failed)
    {
      hide Holds, AcceptableEntry, Cursor;
      manifest := candidate.entries;
      for m := 0 to |candidate.newNodes|
        invariant fs.Valid() && old(fs.history) <= fs.history && |manifest| == |nodes|
        invariant forall i | |old(fs.history)| <= i < |fs.history| :: c.WritingBlocks(fs.history[i])
        invariant c.WritingBlocks(fs.disk)
        invariant forall i | 0 <= i < |nodes| && i !in candidate.newNodes[..m] :: manifest[i] == candidate.entries[i]
        invariant forall i | 0 <= i < |nodes| && i in candidate.newNodes[..m] ::
                    && Holds(fs.disk, manifest[i], nodes[i].v, checksumOf)
                    && manifest[i].location == Location(nodes[i], levels[i])
        invariant old(fs.failed) ==> fs.failed
      {
        var index := candidate.newNodes[m];
        var saved, entry := SaveBlock(nodes, levels, index, c);
        if !saved {
          return false, manifest;
        }
        forall i | 0 <= i < |nodes| && i in candidate.newNodes[..m] ensures nodes[i].start != nodes[index].start {
          DistinctStarts(nodes, i, index, identity.termCount);
        }
        manifest := manifest[index := entry];
      }
      ok := true;
    }

    /** The manifest switch, once every block it names is held. */
    method SaveManifest(manifest: seq<ManifestEntry>, ghost c: Commit) returns (ok: bool)
      requires fs.Valid() && c.WellFormed() && manifest == c.manifest
      requires c.WritingBlocks(fs.disk) && c.NewHeld(fs.disk)
      modifies fs
      ensures fs.Valid() && old(fs.history) <= fs.history
      ensures c.SafeSince(fs.history, |old(fs.history)|)
      ensures c.OldHeld(fs.disk)
      ensures ok ==> c.Published(fs.disk)
      ensures (old(fs.failed) ==> fs.failed) && (!ok ==> fs.failed)
    {
      // creating the directory or encoding the manifest may throw
      var prepared := fs.Attempt();
      if !prepared {
        return false;
      }
      ghost var before := fs.disk;
      var size: int := *;
      if size <= 0 {
        size := 1;
      }
      ok := Write(fs, ManifestFile, Content.Manifest(manifest), size);
      forall i | |old(fs.history)| <= i < |fs.history| ensures c.Switching(fs.history[i]) {
        ManifestWriteSwitches(c, before, fs.history[i]);
      }
      ManifestWriteSwitches(c, before, fs.disk);
    }

    /** Superseded blocks go, now that the new manifest is durable. */
    method RemoveSuperseded(manifest: seq<ManifestEntry>, ghost c: Commit)
      requires fs.Valid() && c.WellFormed() && manifest == c.manifest && entries == c.entries
      requires NamesNodes(manifest, c.nodes, c.levels)
      requires Disjoint(entries) && forall e | e in entries :: AcceptableEntry(e, identity.termCount)
      requires Disjoint(manifest) && forall e | e in manifest :: e.location.Valid(identity.termCount)
      requires c.Published(fs.disk)
      modifies fs
      ensures fs.Valid() && old(fs.history) <= fs.history
      ensures c.SafeSince(fs.history, |old(fs.history)|)
      ensures c.Published(fs.disk) && (old(fs.failed) ==> fs.failed)
    {
      var published := 0;
      for p := 0 to |entries|
        invariant fs.Valid() && old(fs.history) <= fs.history && published <= |manifest|
        invariant forall j | 0 <= j < published && p > 0 :: manifest[j].location.start < entries[p - 1].location.end
        invariant p == 0 ==> published == 0
        invariant forall i | |old(fs.history)| <= i < |fs.history| :: c.Published(fs.history[i])
        invariant c.Published(fs.disk) && (old(fs.failed) ==> fs.failed)
      {
        var previous := entries[p].location;
        assert entries[p] in entries;
        var found;
        published, found := Find(manifest, published, previous, identity.termCount);
        if found.None? {
          RemovalStep(c, fs.disk, entries[p]);
          var ignored := fs.Unlink(BlockFile(previous));
        }
      }
    }

    /** The published frontier becomes the writer's own. */
    method Adopt(manifest: seq<ManifestEntry>, ghost newValues: seq<Pqt>)
      requires fs.Valid() && identity.Valid()
      requires |newValues| == |manifest| && (held ==> HoldsAll(fs.disk, manifest, newValues, checksumOf))
      requires Disjoint(manifest) && forall e | e in manifest :: AcceptableEntry(e, identity.termCount)
      modifies this`entries, this`values, this`commitCount, this`lastCommit
      ensures Valid() && entries == manifest && values == newValues
      ensures commitCount == old(commitCount) + 1 && lastCommit
    {
      entries, values := manifest, newValues;
      lastCommit, commitCount := true, commitCount + 1;
    }

    /** Every block the new manifest names, held. */
    method StageBlocks(nodes: seq<BinaryNode>, levels: seq<nat>, candidate: Candidate, ghost c: Commit)
      returns (ok: bool, manifest: seq<ManifestEntry>)
      requires Valid() && Starts(c, nodes, levels) && LaidOut(nodes, |nodes|, identity.termCount)
      requires CandidateOf(candidate, nodes, levels, entries, |nodes|)
      modifies fs
      ensures Valid() && old(fs.history) <= fs.history
      ensures c.SafeSince(fs.history, |old(fs.history)|) && c.WritingBlocks(fs.disk)
      ensures ok ==> manifest == c.manifest && c.NewHeld(fs.disk)
      ensures (old(fs.failed) ==> fs.failed) && (!ok ==> fs.failed)
    {
      ok, manifest := SaveBlocks(nodes, levels, candidate, c);
      if ok {
        SavedIsNext(candidate, manifest, c);
      }
    }

    /** What follows the manifest switch: superseded blocks go, and the frontier is the writer's own. */
    method Conclude(manifest: seq<ManifestEntry>, ghost c: Commit)
      requires fs.Valid() && identity.Valid() && c.WellFormed() && c.checksumOf == checksumOf && c.held == held
      requires manifest == c.manifest && entries == c.entries && NamesNodes(manifest, c.nodes, c.levels)
      requires Disjoint(entries) && forall e | e in entries :: AcceptableEntry(e, identity.termCount)
      requires Disjoint(manifest) && forall e | e in manifest :: AcceptableEntry(e, identity.termCount)
      requires c.Published(fs.disk)
      modifies this`entries, this`values, this`commitCount, this`lastCommit, fs
      ensures Valid() && old(fs.history) <= fs.history
      ensures c.SafeSince(fs.history, |old(fs.history)|) && c.Published(fs.disk)
      ensures entries == manifest && values == c.newValues && commitCount == old(commitCount) + 1 && lastCommit
      ensures old(fs.failed) ==> fs.failed
    {
      RemoveSuperseded(manifest, c);
      Adopt(manifest, c.newValues);
    }

    /** The I/O half of a commit. */
    method WriteFrontier(nodes: seq<BinaryNode>, levels: seq<nat>, candidate: Candidate, ghost c: Commit)
      returns (outcome: CommitOutcome)
      requires Valid() && Starts(c, nodes, levels) && nodes != []
      requires LaidOut(nodes, |nodes|, identity.termCount) && Cursor(nodes, |nodes|) == identity.termCount
      requires forall i | 0 <= i < |nodes| :: levels[i] <= MaximumTreeLevel(identity.termCount)
      requires CandidateOf(candidate, nodes, levels, entries, |nodes|)
      modifies this`entries, this`values, this`commitCount, this`lastCommit, fs
      ensures Valid() && old(fs.history) <= fs.history
      ensures outcome.Committed? || outcome.IoFailed?
      ensures (old(fs.failed) ==> fs.failed) && (outcome.IoFailed? ==> fs.failed)
      ensures ExactFrontier(c.manifest, identity.termCount)
      ensures outcome.IoFailed? ==>
        entries == old(entries) && values == old(values) && commitCount == old(commitCount) && lastCommit == old(lastCommit)
      ensures c.SafeSince(fs.history, |old(fs.history)|)
      ensures outcome.Committed? ==>
        && ExactFrontier(entries, identity.termCount)
        && entries == c.manifest && values == c.newValues && c.Published(fs.disk)
        && commitCount == old(commitCount) + 1 && lastCommit
    {
      NextIsFrontier(c, identity.termCount);
      var staged, manifest := StageBlocks(nodes, levels, candidate, c);
      if !staged {
        return IoFailed;
      }
      var published := SaveManifest(manifest, c);
      if !published {
        return IoFailed;
      }
      Conclude(manifest, c);
      outcome := Committed;
    }

    /** The checks, the interval gate and the candidate manifest, before any I/O. */
    method Examine(nodes: seq<BinaryNode>, levels: seq<nat>) returns (early: Option<CommitOutcome>, candidate: Candidate)
      requires Valid()
      ensures early.Some? ==> early.value.Refused? || early.value.SkippedByInterval? || early.value.AlreadyPublished?
      ensures early == Some(Refused) ==> !Resumable(nodes, levels, entries, identity.termCount)
      ensures early == Some(SkippedByInterval) ==> |nodes| != 1 && lastCommit
      ensures early == Some(AlreadyPublished) ==>
        && commitCount != 0 && |nodes| == |levels| == |entries|
        && forall i | 0 <= i < |nodes| :: Listed(entries, Location(nodes[i], levels[i]))
      ensures early.None? ==>
        Resumable(nodes, levels, entries, identity.termCount) && CandidateOf(candidate, nodes, levels, entries, |nodes|)
    {
      candidate := Candidate([], []);
      if |nodes| != |levels| || nodes == [] {
        return Some(Refused), candidate;
      }
      var recent := *;
      if |nodes| != 1 && lastCommit && recent {
        return Some(SkippedByInterval), candidate;
      }
      var built := BuildCandidate(nodes, levels, entries, identity.termCount);
      if built.None? {
        return Some(Refused), candidate;
      }
      candidate := built.value;
      CandidateIsComplete(nodes, levels, candidate);
      if commitCount != 0 && candidate.newNodes == [] && |candidate.entries| == |entries| {
        return Some(AlreadyPublished), candidate;
      }
      var gate := ManifestValidator.Validate(CheckpointManifest(identity, candidate.entries), identity);
      ExactWhenLevelsFit(candidate.entries, nodes, levels, identity.termCount);
      early := if gate.IsAccepted() then None else Some(Refused);
    }

    /** `commitFrontier`: either nothing happens, or the frontier is written and every state on the way is safe. */
    method CommitFrontier(nodes: seq<BinaryNode>, levels: seq<nat>) returns (outcome: CommitOutcome, ghost c: Commit)
      requires Valid()
      modifies this, fs
      ensures Valid() && old(fs.history) <= fs.history
      ensures outcome.Refused? ==> !Resumable(nodes, levels, old(entries), identity.termCount)
      ensures outcome.SkippedByInterval? ==> |nodes| != 1 && old(lastCommit)
      ensures outcome.AlreadyPublished? ==>
        && old(commitCount) != 0 && |nodes| == |levels| == |entries|
        && forall i | 0 <= i < |nodes| :: Listed(entries, Location(nodes[i], levels[i]))
      ensures !outcome.Committed? && !outcome.IoFailed? ==> fs.history == old(fs.history)
      ensures (old(fs.failed) ==> fs.failed) && (outcome.IoFailed? ==> fs.failed)
      ensures !outcome.Committed? ==>
        entries == old(entries) && values == old(values) && commitCount == old(commitCount) && lastCommit == old(lastCommit)
      ensures |nodes| == |levels| ==> old(Starts(c, nodes, levels)) && c.SafeSince(fs.history, |old(fs.history)|)
      ensures outcome.Committed? || outcome.IoFailed? ==>
        Resumable(nodes, levels, old(entries), identity.termCount) && ExactFrontier(c.manifest, identity.termCount)
      ensures outcome.Committed? ==>
        && entries == c.manifest && values == c.newValues && c.Published(fs.disk)
        && commitCount == old(commitCount) + 1 && lastCommit
    {
      c := Commit(fs.disk, [], [], [], [], [], [], checksumOf, held);
      if |nodes| == |levels| {
        c := PlanCommit(fs.disk, nodes, levels, entries, values, checksumOf, held);
      }
      var early, candidate := Examine(nodes, levels);
      if early.Some? {
        return early.value, c;
      }
      if initialFrontierWork.None? {
        initialFrontierWork := Some(|candidate.newNodes|);
      }
      outcome := WriteFrontier(nodes, levels, candidate, c);
    }

    lemma CandidateIsComplete(nodes: seq<BinaryNode>, levels: seq<nat>, candidate: Candidate)
      requires Valid() && |nodes| == |levels| && CandidateOf(candidate, nodes, levels, entries, |nodes|)
      ensures NamesNodes(candidate.entries, nodes, levels)
      ensures forall i | 0 <= i < |nodes| :: candidate.entries[i].completion == Complete
      ensures forall i | 0 <= i < |nodes| ::
                nodes[i].HasValues() || Listed(entries, Location(nodes[i], levels[i]))
      ensures candidate.newNodes == [] ==> forall i | 0 <= i < |nodes| :: Listed(entries, Location(nodes[i], levels[i]))
    {
      forall i | 0 <= i < |nodes|
        ensures candidate.entries[i].location == Location(nodes[i], levels[i]) && candidate.entries[i].completion == Complete
        ensures nodes[i].HasValues() || Listed(entries, Location(nodes[i], levels[i]))
      {
        assert CandidateEntry(candidate.entries[i], nodes[i], levels[i], entries);
      }
    }

    lemma SavedIsNext(candidate: Candidate, manifest: seq<ManifestEntry>, c: Commit)
      requires Valid() && c.WellFormed() && c.entries == entries && c.values == values && c.checksumOf == checksumOf && c.held == held
      requires |manifest| == |c.nodes| && CandidateOf(candidate, c.nodes, c.levels, entries, |c.nodes|)
      requires forall i | 0 <= i < |c.nodes| ::
        if i in candidate.newNodes
        then Holds(fs.disk, manifest[i], c.nodes[i].v, checksumOf) && manifest[i].location == Location(c.nodes[i], c.levels[i])
        else manifest[i] == candidate.entries[i]
      ensures manifest == c.manifest && c.NewHeld(fs.disk) && NamesNodes(manifest, c.nodes, c.levels)
    {
      forall i | 0 <= i < |c.nodes|
        ensures manifest[i] == c.manifest[i] && (held ==> Holds(fs.disk, manifest[i], c.newValues[i], checksumOf))
        ensures manifest[i].location == Location(c.nodes[i], c.levels[i])
      {
        var l := Location(c.nodes[i], c.levels[i]);
        assert (c.manifest[i], c.newValues[i]) == Planned(c.nodes[i], c.levels[i], entries, values, checksumOf);
        assert CandidateEntry(candidate.entries[i], c.nodes[i], c.levels[i], entries);
        if Listed(entries, l) {
          LocationOnce(entries, manifest[i], identity.termCount);
          assert held ==> Holds(fs.disk, entries[IndexOf(entries, l)], values[IndexOf(entries, l)], checksumOf);
        }
      }
    }
  }

  lemma PlanCommit(start: Disk, nodes: seq<BinaryNode>, levels: seq<nat>, entries: seq<ManifestEntry>, values: seq<Pqt>,
                   checksumOf: (BlockLocation, Pqt) -> nat, held: bool) returns (c: Commit)
    requires |nodes| == |levels| && |entries| == |values|
    ensures c.start == start && c.nodes == nodes && c.levels == levels && c.entries == entries && c.values == values
    ensures c.checksumOf == checksumOf && c.held == held && c.WellFormed()
  {
    hide Planned;
    var manifest, newValues := [], [];
    for i := 0 to |nodes|
      invariant |manifest| == |newValues| == i
      invariant forall k | 0 <= k < i ::
                  (manifest[k], newValues[k]) == Planned(nodes[k], levels[k], entries, values, checksumOf)
    {
      var (e, v) := Planned(nodes[i], levels[i], entries, values, checksumOf);
      manifest, newValues := manifest + [e], newValues + [v];
    }
    c := Commit(start, nodes, levels, entries, values, manifest, newValues, checksumOf, held);
  }

  lemma PlannedEntry(node: BinaryNode, level: nat, entries: seq<ManifestEntry>, values: seq<Pqt>,
                     checksumOf: (BlockLocation, Pqt) -> nat, termCount: nat)
    requires |entries| == |values| && Location(node, level).Valid(termCount)
    requires forall e | e in entries :: AcceptableEntry(e, termCount)
    ensures var e := Planned(node, level, entries, values, checksumOf).0;
            e.location == Location(node, level) && AcceptableEntry(e, termCount)
  {
    var l := Location(node, level);
    if Listed(entries, l) {
      assert entries[IndexOf(entries, l)] in entries;
    }
  }

  lemma PlannedIsAcceptable(c: Commit, i: nat, termCount: nat)
    requires c.WellFormed() && i < |c.nodes| && FitsAt(c.nodes, i, termCount)
    requires forall e | e in c.entries :: AcceptableEntry(e, termCount)
    ensures c.manifest[i].location == Location(c.nodes[i], c.levels[i]) && AcceptableEntry(c.manifest[i], termCount)
  {
    hide Planned, AcceptableEntry, Cursor;
    PlannedEntry(c.nodes[i], c.levels[i], c.entries, c.values, c.checksumOf, termCount);
    assert (c.manifest[i], c.newValues[i]) == Planned(c.nodes[i], c.levels[i], c.entries, c.values, c.checksumOf);
  }

  lemma NextIsFrontier(c: Commit, termCount: nat)
    requires c.WellFormed() && c.nodes != [] && forall e | e in c.entries :: AcceptableEntry(e, termCount)
    requires LaidOut(c.nodes, |c.nodes|, termCount) && Cursor(c.nodes, |c.nodes|) == termCount
    requires forall i | 0 <= i < |c.nodes| :: c.levels[i] <= MaximumTreeLevel(termCount)
    ensures ExactFrontier(c.manifest, termCount) && Disjoint(c.manifest) && NamesNodes(c.manifest, c.nodes, c.levels)
    ensures forall e | e in c.manifest :: AcceptableEntry(e, termCount)
  {
    forall i | 0 <= i < |c.nodes|
      ensures c.manifest[i].location == Location(c.nodes[i], c.levels[i]) && AcceptableEntry(c.manifest[i], termCount)
    {
      PlannedIsAcceptable(c, i, termCount);
    }
    ExactWhenLevelsFit(c.manifest, c.nodes, c.levels, termCount);
    ExactIsDisjoint(c.manifest, termCount);
  }

  // ---------- one step of each phase ----------

  lemma BlockWriteKeepsPhase(c: Commit, before: Disk, d: Disk, i: nat)
    requires c.WellFormed() && i < |c.nodes| && c.nodes[i].HasValues()
    requires !Listed(c.entries, Location(c.nodes[i], c.levels[i]))
    requires c.WritingBlocks(before)
    requires var l := Location(c.nodes[i], c.levels[i]); Between(before, d, BlockFile(l), BlockOf(l, c.nodes[i].v))
    ensures c.WritingBlocks(d)
  {
    var l := Location(c.nodes[i], c.levels[i]);
    if c.held {
      AllHeldThroughWrite(before, d, BlockFile(l), BlockOf(l, c.nodes[i].v), c.entries, c.values, c.checksumOf);
    }
    ListedThroughWrite(c.start, before, d, BlockFile(l), BlockOf(l, c.nodes[i].v), c.entries);
    FilesThroughBlockWrite(c.start, before, d, i, c.nodes, c.levels, c.entries);
  }

  lemma HistoryKeepsPhase(c: Commit, before: Disk, history: seq<Disk>, k: nat, i: nat)
    requires c.WellFormed() && i < |c.nodes| && c.nodes[i].HasValues()
    requires !Listed(c.entries, Location(c.nodes[i], c.levels[i])) && c.WritingBlocks(before)
    requires forall j | k <= j < |history| ::
      Between(before, history[j], BlockFile(Location(c.nodes[i], c.levels[i])),
              BlockOf(Location(c.nodes[i], c.levels[i]), c.nodes[i].v))
    ensures forall j | k <= j < |history| :: c.WritingBlocks(history[j])
  {
    forall j | k <= j < |history| ensures c.WritingBlocks(history[j]) {
      BlockWriteKeepsPhase(c, before, history[j], i);
    }
  }

  lemma OthersHeld(before: Disk, d: Disk, l: BlockLocation, v: Pqt, checksumOf: (BlockLocation, Pqt) -> nat)
    requires Between(before, d, BlockFile(l), BlockOf(l, v))
    ensures forall e: ManifestEntry, w | e.location != l && Holds(before, e, w, checksumOf) :: Holds(d, e, w, checksumOf)
  {
    forall e: ManifestEntry, w | e.location != l && Holds(before, e, w, checksumOf) ensures Holds(d, e, w, checksumOf) {
      HeldThroughWrite(before, d, BlockFile(l), BlockOf(l, v), e, w, checksumOf);
    }
  }

  lemma ManifestWriteSwitches(c: Commit, before: Disk, d: Disk)
    requires c.WellFormed() && c.WritingBlocks(before) && c.NewHeld(before)
    requires Between(before, d, ManifestFile, ManifestOf(c.manifest))
    ensures c.Switching(d)
  {
    var f := ManifestOf(c.manifest);
    if c.held {
      AllHeldThroughWrite(before, d, ManifestFile, f, c.entries, c.values, c.checksumOf);
      AllHeldThroughWrite(before, d, ManifestFile, f, c.manifest, c.newValues, c.checksumOf);
    }
    ListedThroughWrite(c.start, before, d, ManifestFile, f, c.entries);
    FilesThroughManifestWrite(c.start, before, d, f, c.nodes, c.levels, c.entries);
  }

  lemma RemovalStep(c: Commit, d: Disk, previous: ManifestEntry)
    requires c.WellFormed() && NamesNodes(c.manifest, c.nodes, c.levels) && c.Published(d)
    requires previous in c.entries && !Listed(c.manifest, previous.location)
    ensures c.Published(d.Put(BlockFile(previous.location), None))
  {
    var n, manifest := BlockFile(previous.location), c.manifest;
    if c.held { AllHeldThroughUnlink(d, n, manifest, c.newValues, c.checksumOf); }
    forall i | 0 <= i < |c.nodes| ensures Location(c.nodes[i], c.levels[i]) != previous.location {
      assert manifest[i] in manifest;
    }
    FilesThroughUnlink(c.start, d, previous.location, c.nodes, c.levels, c.entries);
    assert d.Put(n, None).After(ManifestFile) == d.After(ManifestFile);
  }

  // ---------- opening a writer ----------

  /** The constructor's loop over the sorted entries. */
  method CheckEntries(entries: seq<ManifestEntry>, termCount: nat) returns (ok: bool)
    ensures ok <==> Disjoint(entries) && forall e | e in entries :: AcceptableEntry(e, termCount)
  {
    var cursor: nat := 0;
    for i := 0 to |entries|
      invariant forall j | 0 <= j < i :: AcceptableEntry(entries[j], termCount) && entries[j].location.end <= cursor
      invariant forall j, k | 0 <= j < k < i :: entries[j].location.end <= entries[k].location.start
      invariant cursor == 0 || exists j :: 0 <= j < i && entries[j].location.end == cursor
    {
      var entry := entries[i];
      assert entry in entries;
      if !entry.location.Valid(termCount) {
        return false;
      }
      if entry.location.start < cursor {
        return false;
      }
      if entry.completion != Complete || entry.filename != BlockFile(entry.location) {
        return false;
      }
      cursor := entry.location.end;
    }
    ok := true;
  }

  /** Listed once each, and no two share a term; in whatever order they come. */
  ghost predicate Apart(entries: seq<ManifestEntry>) {
    forall e | e in entries :: multiset(entries)[e] == 1 && ApartFrom(e, entries)
  }

  ghost predicate ApartFrom(e: ManifestEntry, entries: seq<ManifestEntry>) {
    forall f | f in entries && f != e :: !e.location.Overlaps(f.location)
  }

  lemma DisjointIsApart(sorted: seq<ManifestEntry>, i: nat, termCount: nat)
    requires Disjoint(sorted) && i < |sorted| && forall e | e in sorted :: AcceptableEntry(e, termCount)
    ensures forall k | 0 <= k < |sorted| && k != i :: sorted[k] != sorted[i]
    ensures ApartFrom(sorted[i], sorted)
  {
    forall k | 0 <= k < |sorted| && k != i
      ensures sorted[k] != sorted[i] && !sorted[i].location.Overlaps(sorted[k].location)
    {
      assert sorted[i] in sorted && sorted[k] in sorted;
    }
  }

  lemma DisjointAreApart(entries: seq<ManifestEntry>, termCount: nat)
    requires Disjoint(entries) && forall e | e in entries :: AcceptableEntry(e, termCount)
    ensures Apart(entries)
  {
    forall e | e in entries ensures multiset(entries)[e] == 1 && ApartFrom(e, entries) {
      var i :| 0 <= i < |entries| && entries[i] == e;
      CountElsewhere(entries, i);
      DisjointIsApart(entries, i, termCount);
    }
  }

  lemma ApartIsDisjointSorted(entries: seq<ManifestEntry>, sorted: seq<ManifestEntry>, termCount: nat)
    requires WeaklyOrdered(sorted) && multiset(sorted) == multiset(entries)
    requires forall e | e in entries :: AcceptableEntry(e, termCount)
    ensures Apart(entries) <==> Disjoint(sorted)
  {
    Sorting.SameElements(sorted, entries);
    assert Apart(entries) <==> Apart(sorted);
    if Apart(sorted) {
      forall i, j | 0 <= i < j < |sorted| ensures sorted[i].location.end <= sorted[j].location.start {
        assert sorted[i] in sorted && sorted[j] in sorted && !sorted[j].location.Less(sorted[i].location);
        CountElsewhere(sorted, i);
        assert ApartFrom(sorted[i], sorted);
      }
    }
    if Disjoint(sorted) {
      DisjointAreApart(sorted, termCount);
    }
  }

  /** The constructor: sorts the accepted entries and refuses overlaps, incomplete entries and names that
      are not the deterministic ones. */
  method Open(fs: Filesystem, identity: Identity, acceptedEntries: seq<ManifestEntry>,
              checksumOf: (BlockLocation, Pqt) -> nat, ghost acceptedValues: seq<Pqt>, ghost held: bool)
    returns (writer: FrontierWriter?)
    requires fs.Valid() && |acceptedValues| == |acceptedEntries|
    requires held ==> Disjoint(acceptedEntries) && HoldsAll(fs.disk, acceptedEntries, acceptedValues, checksumOf)
    ensures writer != null ==>
      && fresh(writer) && writer.Valid() && writer.fs == fs && writer.identity == identity
      && writer.checksumOf == checksumOf && writer.held == held && writer.commitCount == 0
      && multiset(writer.entries) == multiset(acceptedEntries)
    ensures writer != null <==>
      && identity.Valid() && Apart(acceptedEntries)
      && forall e | e in acceptedEntries :: AcceptableEntry(e, identity.termCount)
    ensures writer != null && Disjoint(acceptedEntries) ==> writer.entries == acceptedEntries && writer.values == acceptedValues
  {
    if !identity.Valid() {
      return null;
    }
    var entries := SortByKey(acceptedEntries);
    Sorting.SameElements(entries, acceptedEntries);
    var ok := CheckEntries(entries, identity.termCount);
    if forall e | e in acceptedEntries :: AcceptableEntry(e, identity.termCount) {
      ApartIsDisjointSorted(acceptedEntries, entries, identity.termCount);
    }
    if Disjoint(acceptedEntries) && forall e | e in acceptedEntries :: AcceptableEntry(e, identity.termCount) {
      DisjointIsOrdered(acceptedEntries, identity.termCount);
      SortedUnique(entries, acceptedEntries);
    }
    if !ok {
      return null;
    }
    writer := new FrontierWriter(fs, identity, entries, checksumOf, acceptedValues, held);
  }

  lemma DisjointIsOrdered(entries: seq<ManifestEntry>, termCount: nat)
    requires Disjoint(entries) && forall e | e in entries :: AcceptableEntry(e, termCount)
    ensures StrictlyOrdered(entries)
  {
    forall i, j | 0 <= i < j < |entries| ensures entries[i].location.Less(entries[j].location) {
      assert entries[i] in entries;
    }
  }
}
