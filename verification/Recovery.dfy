/** Whole computations: resume, split, crash, and resume again, until a run finishes
    (src/main.cpp, src/checkpoint/CheckpointResumePlanner.cpp, src/checkpoint/CheckpointFrontierWriter.cpp). */
module Recovery {
  import opened BinaryNodes
  import opened BinarySplitter
  import opened CheckpointSafety
  import opened CheckpointTypes
  import opened Chudnovsky
  import opened ComputationIdentity
  import opened Disk
  import opened FrontierWriter
  import opened GmpSerialization
  import opened ManifestValidator
  import opened ResumePlanner
  import opened SplitLayout
  import opened StorageManager
  import opened StorageMergeCoordinator
  import opened Widths
  import ModularVerifier

  // ---------- from a plan to a seed frontier and a writer ----------

  function SeedsOf(accepted: seq<Accepted>): (frontier: seq<FrontierNode>)
    ensures |frontier| == |accepted|
  {
    seq(|accepted|, i requires 0 <= i < |accepted| =>
      var l := accepted[i].entry.location;
      FrontierNode(BinaryNode(l.start, l.end, accepted[i].v), l.treeLevel))
  }

  lemma CurrentIsTrue(d: Disk, l: BlockLocation, v: Pqt, synced: bool)
    requires Truthful(d) && d.Current(BlockFile(l)) == Some(File(Block(l, v), synced)) && l.start < l.end
    ensures v == Split(l.start, l.end) && synced
  {
    var o := d.Current(BlockFile(l));
    assert o in d.After(BlockFile(l)) && o.value.synced && TrueContent(o.value.content);
  }

  /** What the checks of the planner and the truth of the directory give for an accepted block. */
  lemma SoundIsTrue(d: Disk, a: Accepted, identity: Identity, checksumOf: (BlockLocation, Pqt) -> nat)
    requires Truthful(d) && Sound(d, a.entry, a.v, identity, checksumOf)
    ensures a.entry.location.start < a.entry.location.end
    ensures a.v == Split(a.entry.location.start, a.entry.location.end)
    ensures AcceptableEntry(a.entry, identity.termCount) && a.entry.location.treeLevel <= MaximumTreeLevel(identity.termCount)
  {
    var n := BlockFile(a.entry.location);
    var synced :| d.Current(n) == Some(File(Block(a.entry.location, a.v), synced));
    CurrentIsTrue(d, a.entry.location, a.v, synced);
  }

  /** An accepted entry a writer takes, with the true value of its range. */
  ghost predicate TrueEntry(a: Accepted, termCount: nat) {
    && AcceptableEntry(a.entry, termCount) && a.entry.location.treeLevel <= MaximumTreeLevel(termCount)
    && a.v == Split(a.entry.location.start, a.entry.location.end)
  }

  ghost predicate TrueEntries(accepted: seq<Accepted>, termCount: nat) {
    forall i | 0 <= i < |accepted| :: TrueEntry(accepted[i], termCount)
  }

  lemma AcceptedAreTrue(d: Disk, accepted: seq<Accepted>, identity: Identity, checksumOf: (BlockLocation, Pqt) -> nat)
    requires Truthful(d) && forall a | a in accepted :: Sound(d, a.entry, a.v, identity, checksumOf)
    ensures TrueEntries(accepted, identity.termCount)
  {
    forall i | 0 <= i < |accepted| ensures TrueEntry(accepted[i], identity.termCount) {
      assert accepted[i] in accepted;
      SoundIsTrue(d, accepted[i], identity, checksumOf);
    }
  }

  lemma PlannedSeedAt(accepted: seq<Accepted>, termCount: nat, i: nat)
    requires TrueEntries(accepted, termCount) && Disjoint(Entries(accepted)) && i < |accepted|
    ensures SeedsOf(accepted)[i].node.IsSplit() && SeedAt(SeedsOf(accepted), 0, termCount, i)
    ensures SeedsOf(accepted)[i].treeLevel <= MaximumTreeLevel(termCount)
    ensures AcceptableEntry(Entries(accepted)[i], termCount)
  {
    assert TrueEntry(accepted[i], termCount);
    SplitHasValues(SeedsOf(accepted)[i].node);
    if i > 0 {
      assert Entries(accepted)[i - 1].location.end <= Entries(accepted)[i].location.start;
    }
  }

  lemma PlannedSeeds(accepted: seq<Accepted>, termCount: nat)
    requires TrueEntries(accepted, termCount) && Disjoint(Entries(accepted))
    ensures TrueSeeds(SeedsOf(accepted)) && ValidFrontier(SeedsOf(accepted), 0, termCount)
    ensures SeedLevelsAtMost(SeedsOf(accepted), MaximumTreeLevel(termCount))
    ensures forall e | e in Entries(accepted) :: AcceptableEntry(e, termCount)
  {
    var frontier, entries := SeedsOf(accepted), Entries(accepted);
    forall i | 0 <= i < |accepted|
      ensures frontier[i].node.IsSplit() && SeedAt(frontier, 0, termCount, i)
      ensures frontier[i].treeLevel <= MaximumTreeLevel(termCount) && AcceptableEntry(entries[i], termCount)
    {
      PlannedSeedAt(accepted, termCount, i);
    }
    assert multiset(frontier) == multiset(frontier) && Seeds(frontier, 0, termCount);
  }

  /** The manifest and the accepted blocks are durable. Temporary files, unlisted blocks and deletions may be
      anything. */
  ghost predicate SettledFor(d: Disk, accepted: seq<Accepted>) {
    && d.Durable(ManifestFile, d.Current(ManifestFile))
    && forall a | a in accepted :: d.Durable(BlockFile(a.entry.location), d.Current(BlockFile(a.entry.location)))
  }

  lemma FileIsHeld(start: Disk, d: Disk, removed: set<FileName>, final: Disk, n: FileName, f: File)
    requires start.Durable(n, start.Current(n)) && Truthful(start)
    requires Kept(start, d, removed) && Kept(start, final, removed)
    requires n !in removed && !n.TempFile? && final.Current(n) == Some(f)
    ensures d.Durable(n, Some(f)) && f.synced
  {
    assert final.Current(n) == start.Current(n);
    assert start.Current(n) in start.After(n);
    assert d.After(n) <= start.After(n) && d.Current(n) in d.After(n);
  }

  /** An accepted block whose name is settled is durable throughout the planning. */
  lemma AcceptedIsHeld(start: Disk, d: Disk, removed: set<FileName>, a: Accepted, final: Disk,
                       identity: Identity, checksumOf: (BlockLocation, Pqt) -> nat)
    requires var n := BlockFile(a.entry.location); start.Durable(n, start.Current(n))
    requires Truthful(start) && Kept(start, d, removed) && Kept(start, final, removed)
    requires Sound(final, a.entry, a.v, identity, checksumOf) && a.entry.filename !in removed
    ensures Holds(d, a.entry, a.v, checksumOf)
  {
    var n := BlockFile(a.entry.location);
    var synced :| final.Current(n) == Some(File(Block(a.entry.location, a.v), synced));
    FileIsHeld(start, d, removed, final, n, File(Block(a.entry.location, a.v), synced));
  }

  lemma AcceptedAreHeld(start: Disk, d: Disk, removed: set<FileName>, accepted: seq<Accepted>, final: Disk,
                        identity: Identity, checksumOf: (BlockLocation, Pqt) -> nat)
    requires SettledFor(start, accepted) && Truthful(start) && Kept(start, d, removed) && Kept(start, final, removed)
    requires forall a | a in accepted :: Sound(final, a.entry, a.v, identity, checksumOf) && a.entry.filename !in removed
    ensures HoldsAll(d, Entries(accepted), Values(accepted), checksumOf)
  {
    var entries, values := Entries(accepted), Values(accepted);
    forall i | 0 <= i < |entries| ensures Holds(d, entries[i], values[i], checksumOf) {
      assert accepted[i] in accepted;
      AcceptedIsHeld(start, d, removed, accepted[i], final, identity, checksumOf);
    }
  }

  lemma KeptIsTruthful(start: Disk, d: Disk, removed: set<FileName>)
    requires Truthful(start) && Kept(start, d, removed)
    ensures Truthful(d)
  {
    forall n: FileName, o | !n.TempFile? && o in d.After(n) && o.Some? ensures o in start.After(n) {
      assert d.After(n) <= start.After(n) + {None};
    }
  }

  lemma KeptIsRecoverable(o: Origin, d: Disk)
    requires HoldsAll(d, o.entries, o.values, o.checksumOf) && d.After(ManifestFile) <= o.manifests
    ensures Recoverable(o, d)
  {
  }

  // ---------- one run ----------

  /** The out-of-core side of a run: what an earlier run left behind, and the budget. */
  datatype Storage = Storage(memoryBudgetBytes: nat, async: bool, files: map<BlockLocation, ChunkFile>,
                             index: map<BlockLocation, ChunkMetadata>)

  datatype Setup = Setup(identity: Identity, checksumOf: (BlockLocation, Pqt) -> nat, storedSizeOf: Pqt -> nat,
                         executor: Executor, options: ParallelSplitOptions)

  predicate UsableSetup(setup: Setup) {
    setup.identity.Valid() && setup.options.sequentialCutoff > 0 && setup.options.tasksPerWorker > 0
  }

  /** The store has a budget and an empty index, takes every node as a chunk, and the payloads of a level add up
      below 2^64. */
  ghost predicate EnoughRoom(setup: Setup, storage: Storage) {
    && storage.memoryBudgetBytes > 0 && storage.index == map[]
    && setup.identity.termCount * MAX_CHUNK_PAYLOAD_BYTES <= U64_MAX
    && forall a: nat, b: nat | a < b <= setup.identity.termCount ::
         var v := Chudnovsky.Split(a, b);
         PayloadSize(v) <= MAX_CHUNK_PAYLOAD_BYTES && setup.storedSizeOf(v) <= MAX_CHUNK_PAYLOAD_BYTES
  }

  method OpenCoordinator(setup: Setup, storage: Option<Storage>) returns (coordinator: StorageMergeCoordinator?)
    ensures coordinator != null ==> coordinator.Ready() && fresh(coordinator) && fresh(coordinator.manager)
    ensures coordinator == null <==> storage.None?
    ensures storage.None? || EnoughRoom(setup, storage.value) ==> Roomy(coordinator, 0, setup.identity.termCount)
  {
    hide Chudnovsky.Split;
    if storage.None? {
      return null;
    }
    var s := storage.value;
    var manager := new StorageManager(setup.identity.termCount, s.memoryBudgetBytes, setup.storedSizeOf, setup.checksumOf,
                                      s.files, s.index);
    coordinator := new StorageMergeCoordinator(manager, s.async);
  }

  /** Where a run starts: the manifest found, and what the planner accepted of it. */
  ghost predicate OriginOf(o: Origin, start: Disk, accepted: seq<Accepted>, setup: Setup) {
    && o == Origin(start.After(ManifestFile), Entries(accepted), Values(accepted), setup.identity.termCount, setup.checksumOf)
    && TrueEntries(accepted, setup.identity.termCount) && Disjoint(Entries(accepted))
    && exists manifest :: AcceptedOn(start, accepted, setup.identity, setup.checksumOf, manifest)
  }

  /** A plan for this directory: the accepted entries are isolated in the manifest and sound, and all that could be
      accepted are. */
  ghost predicate AcceptedOn(start: Disk, accepted: seq<Accepted>, identity: Identity,
                             checksumOf: (BlockLocation, Pqt) -> nat, manifest: seq<ManifestEntry>)
  {
    && ManifestOn(start, identity, manifest)
    && (forall a | a in accepted ::
          Isolated(a.entry, manifest, identity.termCount) && Sound(start, a.entry, a.v, identity, checksumOf))
    && (forall e, v | Isolated(e, manifest, identity.termCount) && OwnName(e, manifest)
                      && Sound(start, e, v, identity, checksumOf) :: Accepted(e, v) in accepted)
  }

  /** What is sound after planning was so before. */
  lemma SoundBefore(start: Disk, d: Disk, removed: set<FileName>, a: Accepted, identity: Identity,
                    checksumOf: (BlockLocation, Pqt) -> nat)
    requires Kept(start, d, removed) && Sound(d, a.entry, a.v, identity, checksumOf)
    ensures Sound(start, a.entry, a.v, identity, checksumOf)
  {
    hide Chudnovsky.Split, EntryOf, Identity.Valid, ModularVerifier.CongruentNodes;
    var n := BlockFile(a.entry.location);
    var synced :| d.Current(n) == Some(File(Block(a.entry.location, a.v), synced));
    assert start.Current(n) == d.Current(n);
  }

  /** No listed file name is the manifest's own. */
  ghost predicate ManifestNotListed(start: Disk, identity: Identity) {
    LoadedManifest(start, identity).Some? ==> !Names(LoadedManifest(start, identity).value, ManifestFile)
  }

  /** Resume: the plan, and the writer opened on it. */
  method Resume(fs: Filesystem, setup: Setup)
    returns (frontier: seq<FrontierNode>, writer: FrontierWriter, ghost o: Origin, ghost accepted: seq<Accepted>)
    requires UsableSetup(setup) && fs.Valid() && Truthful(fs.disk)
    modifies fs
    ensures fs.Valid() && old(fs.history) <= fs.history
    ensures forall i | |old(fs.history)| <= i < |fs.history| :: Truthful(fs.history[i])
    ensures fresh(writer) && writer.fs == fs && WriterOn(writer, o) && writer.identity == setup.identity
    ensures TrueSeeds(frontier) && ValidFrontier(frontier, 0, setup.identity.termCount)
    ensures SeedLevelsAtMost(frontier, MaximumTreeLevel(setup.identity.termCount))
    ensures OriginOf(o, old(fs.disk), accepted, setup)
    ensures SettledFor(old(fs.disk), accepted) && ManifestNotListed(old(fs.disk), setup.identity) ==>
      writer.held && forall i | |old(fs.history)| <= i < |fs.history| :: Recoverable(o, fs.history[i])
  {
    ghost var start, k := fs.disk, |fs.history|;
    var plan;
    ghost var removed, manifest;
    plan, removed, manifest := Create(fs, setup.identity, setup.checksumOf);
    accepted := plan.accepted;
    ghost var held := SettledFor(start, accepted) && ManifestFile !in removed;
    o := Origin(start.After(ManifestFile), Entries(accepted), Values(accepted), setup.identity.termCount, setup.checksumOf);
    KeptIsTruthful(start, fs.disk, removed);
    AcceptedAreTrue(fs.disk, accepted, setup.identity, setup.checksumOf);
    PlannedSeeds(accepted, setup.identity.termCount);
    forall a | a in accepted ensures Sound(start, a.entry, a.v, setup.identity, setup.checksumOf) {
      SoundBefore(start, fs.disk, removed, a, setup.identity, setup.checksumOf);
    }
    assert AcceptedOn(start, accepted, setup.identity, setup.checksumOf, manifest);
    PlanningIsSafe(start, fs.history, k, removed, accepted, fs.disk, setup, o, held);
    if held {
      AcceptedAreHeld(start, fs.disk, removed, accepted, fs.disk, setup.identity, setup.checksumOf);
    }
    frontier := SeedsOf(plan.accepted);
    DisjointAreApart(Entries(accepted), setup.identity.termCount);
    var result := Open(fs, setup.identity, Entries(plan.accepted), setup.checksumOf, Values(accepted), held);
    writer := result;
  }

  lemma PlanningIsSafe(start: Disk, history: seq<Disk>, k: nat, removed: set<FileName>, accepted: seq<Accepted>,
                       final: Disk, setup: Setup, o: Origin, held: bool)
    requires Truthful(start) && KeptSince(start, history, k, removed) && Kept(start, final, removed)
    requires forall a | a in accepted :: Sound(final, a.entry, a.v, setup.identity, setup.checksumOf)
                                         && a.entry.filename !in removed
    requires o.manifests == start.After(ManifestFile) && o.entries == Entries(accepted) && o.values == Values(accepted)
    requires o.checksumOf == setup.checksumOf
    requires held ==> SettledFor(start, accepted) && ManifestFile !in removed
    ensures forall i | k <= i < |history| :: Truthful(history[i]) && (held ==> Recoverable(o, history[i]))
  {
    forall i | k <= i < |history| ensures Truthful(history[i]) && (held ==> Recoverable(o, history[i])) {
      KeptIsTruthful(start, history[i], removed);
      if held {
        AcceptedAreHeld(start, history[i], removed, accepted, final, setup.identity, setup.checksumOf);
        KeptIsRecoverable(o, history[i]);
      }
    }
  }

  lemma TermsOfSetup(setup: Setup)
    requires UsableSetup(setup)
    ensures 0 < setup.identity.termCount
  {
    ValidIsPlanned(setup.identity);
  }

  /** One process: resume and split. If a node comes back it is the node of plain recursion for the whole
      computation, and it does come back unless a call fails or the chunk store has no room; the writer never refuses a frontier; and every directory state is free of wrong blocks. */
  method RunOnce(fs: Filesystem, setup: Setup, storage: Option<Storage>)
    returns (result: SplitResult, ghost o: Origin, ghost accepted: seq<Accepted>, ghost coordinator: StorageMergeCoordinator?)
    requires UsableSetup(setup) && fs.Valid() && Truthful(fs.disk)
    modifies fs
    ensures coordinator == null <==> storage.None?
    ensures (storage.None? || EnoughRoom(setup, storage.value)) && Undisturbed(coordinator, null) && !fs.failed ==> result.Whole?
    ensures result.Whole? ==>
      result.node == BinaryNode(0, setup.identity.termCount, Chudnovsky.Split(0, setup.identity.termCount))
    ensures !result.InvalidArgument? && result != Failed(CommitRefused)
    ensures fs.Valid() && Truthful(fs.disk) && old(fs.history) <= fs.history
    ensures forall i | |old(fs.history)| <= i < |fs.history| :: Truthful(fs.history[i])
    ensures OriginOf(o, old(fs.disk), accepted, setup)
    ensures SettledFor(old(fs.disk), accepted) && ManifestNotListed(old(fs.disk), setup.identity) ==>
      forall i | |old(fs.history)| <= i < |fs.history| :: Recoverable(o, fs.history[i])
  {
    hide Truthful, Recoverable, OriginOf, Identity.Valid, EnoughRoom, Roomy, SettledFor, ManifestNotListed, TrueSeeds,
         ValidFrontier, SeedLevelsAtMost;
    TermsOfSetup(setup);
    var frontier, writer;
    frontier, writer, o, accepted := Resume(fs, setup);
    var store := OpenCoordinator(setup, storage);
    coordinator := store;
    var credited;
    result, credited := SplitParallel(0, setup.identity.termCount, setup.executor, setup.options, store, frontier, writer, o);
  }

  // ---------- no crash loses a term ----------

  /** No other entry of a manifest uses the file name of one that covers the term. */
  ghost predicate NamedApart(manifest: seq<ManifestEntry>, term: nat) {
    forall e | e in manifest && e.location.start <= term < e.location.end :: OwnName(e, manifest)
  }

  /** A complete frontier has an entry for every term. */
  lemma {:induction false} FrontierCovers(es: seq<ManifestEntry>, termCount: nat, term: nat, n: nat) returns (i: nat)
    requires ExactFrontier(es, termCount) && 0 < n <= |es| && term < es[n - 1].location.end
    ensures i < n && es[i].location.start <= term < es[i].location.end
    decreases n
  {
    if term >= es[n - 1].location.start {
      i := n - 1;
    } else {
      assert Follows(es, n - 1);
      i := FrontierCovers(es, termCount, term, n - 1);
    }
  }

  lemma FrontierEntryIsolated(es: seq<ManifestEntry>, i: nat, termCount: nat)
    requires ExactFrontier(es, termCount) && i < |es| && forall e | e in es :: e.filename == BlockFile(e.location)
    ensures Isolated(es[i], es, termCount) && OwnName(es[i], es)
  {
    ExactIsDisjoint(es, termCount);
    forall j | 0 <= j < |es| && j != i ensures es[j] != es[i] && !es[i].location.Overlaps(es[j].location) {
      assert es[i] in es && es[j] in es;
    }
    CountElsewhere(es, i);
    forall f | f in es && f != es[i] ensures f.filename != es[i].filename && !es[i].location.Overlaps(f.location) {
      var j :| 0 <= j < |es| && es[j] == f;
      assert es[i] in es;
    }
  }

  /** A held block with a true value passes every check of the planner after a crash. */
  lemma HeldIsSound(d: Disk, after: Disk, e: ManifestEntry, v: Pqt, identity: Identity, checksumOf: (BlockLocation, Pqt) -> nat)
    requires CrashOf(d, after) && Truthful(d) && Holds(d, e, v, checksumOf) && identity.Valid()
    requires e.location.Valid(identity.termCount) && e.location.treeLevel <= MaximumTreeLevel(identity.termCount)
    ensures Sound(after, e, v, identity, checksumOf)
  {
    hide Identity.Valid, ModularVerifier.CongruentNodes, MaximumTreeLevel, Chudnovsky.Split;
    var n := BlockFile(e.location);
    DurableSurvives(d, after, n, BlockOf(e.location, v));
    assert after.Current(n) in after.After(n);
    assert after.Current(n) == Some(File(Block(e.location, v), true));
    assert d.Current(n) in d.After(n);
    CurrentIsTrue(d, e.location, v, true);
    ModularVerifier.TruthIsAccepted(v);
  }

  /** The manifest that comes up after a crash is one that could have been found before. */
  lemma ManifestAfterCrash(d: Disk, after: Disk, identity: Identity) returns (m: Option<File>)
    requires CrashOf(d, after) && Truthful(d) && identity.Valid()
    ensures m in d.After(ManifestFile)
    ensures forall es :: m == Some(ManifestOf(es)) ==> LoadedManifest(after, identity) == Some(es)
    ensures forall before: Disk :: before.Current(ManifestFile) == m ==>
              LoadedManifest(after, identity) == LoadedManifest(before, identity)
  {
    m := CrashPicks(d, after, ManifestFile);
  }

  lemma AcceptedAgain(d: Disk, after: Disk, a: Accepted, accepted1: seq<Accepted>, setup: Setup, manifest: seq<ManifestEntry>)
    requires UsableSetup(setup) && CrashOf(d, after) && Truthful(d)
    requires AcceptedOn(after, accepted1, setup.identity, setup.checksumOf, manifest)
    requires Isolated(a.entry, manifest, setup.identity.termCount) && OwnName(a.entry, manifest)
    requires Holds(d, a.entry, a.v, setup.checksumOf)
    ensures a in accepted1
  {
    HeldIsSound(d, after, a.entry, a.v, setup.identity, setup.checksumOf);
    assert a == Accepted(a.entry, a.v);
  }

  /** At every moment of a run that found its manifest and blocks durable, and whatever a crash at that moment
      leaves: a term that was covered by an accepted block when the run began is covered again. */
  lemma CrashLosesNoTerm(o: Origin, start: Disk, accepted: seq<Accepted>, setup: Setup, d: Disk, after: Disk,
                         manifest1: seq<ManifestEntry>, accepted1: seq<Accepted>, term: nat)
    requires UsableSetup(setup) && OriginOf(o, start, accepted, setup) && SettledFor(start, accepted)
    requires forall manifest | ManifestOn(start, setup.identity, manifest) :: NamedApart(manifest, term)
    requires Recoverable(o, d) && Truthful(d) && CrashOf(d, after)
    requires AcceptedOn(after, accepted1, setup.identity, setup.checksumOf, manifest1)
    requires Covered(accepted, term)
    ensures Covered(accepted1, term)
  {
    hide MaximumTreeLevel;
    var a :| a in accepted && Covers(a, term);
    var i :| 0 <= i < |accepted| && accepted[i] == a;
    var manifest :| AcceptedOn(start, accepted, setup.identity, setup.checksumOf, manifest);
    assert TrueEntry(a, setup.identity.termCount);
    assert start.Durable(ManifestFile, start.Current(ManifestFile));
    var m := ManifestAfterCrash(d, after, setup.identity);
    if m in o.manifests && HoldsAll(d, o.entries, o.values, o.checksumOf) {
      assert m == start.Current(ManifestFile) && manifest1 == manifest;
      assert Holds(d, o.entries[i], o.values[i], o.checksumOf);
      assert Isolated(a.entry, manifest, setup.identity.termCount);
      assert a.entry in multiset(manifest);
      assert OwnName(a.entry, manifest);
      AcceptedAgain(d, after, a, accepted1, setup, manifest);
    } else {
      var es, vs :| CompleteFrontier(o, d, m, es, vs);
      assert manifest1 == es;
      CompleteIsAccepted(o, d, after, setup, m, es, vs, accepted1, term);
    }
  }

  lemma CompleteIsAccepted(o: Origin, d: Disk, after: Disk, setup: Setup, m: Option<File>, es: seq<ManifestEntry>,
                           vs: seq<Pqt>, accepted1: seq<Accepted>, term: nat)
    requires UsableSetup(setup) && o.termCount == setup.identity.termCount && o.checksumOf == setup.checksumOf
    requires Truthful(d) && CrashOf(d, after) && CompleteFrontier(o, d, m, es, vs)
    requires AcceptedOn(after, accepted1, setup.identity, setup.checksumOf, es)
    requires term < o.termCount
    ensures Covered(accepted1, term)
  {
    var i := FrontierCovers(es, o.termCount, term, |es|);
    forall e | e in es ensures e.filename == BlockFile(e.location) {
      var j :| 0 <= j < |es| && es[j] == e;
      assert Holds(d, es[j], vs[j], o.checksumOf);
    }
    FrontierEntryIsolated(es, i, o.termCount);
    assert Holds(d, es[i], vs[i], o.checksumOf);
    AcceptedAgain(d, after, Accepted(es[i], vs[i]), accepted1, setup, es);
    assert Covers(Accepted(es[i], vs[i]), term);
  }

  // ---------- any number of runs ----------

  /** Files lost or damaged between runs; a damaged file is one no reader accepts. */
  function Damaged(d: Disk, lost: set<FileName>, damaged: set<FileName>): Disk {
    Disk(map n | n in d.now && n !in lost :: if n in damaged then File(Garbage, true) else d.now[n],
         map n | n in d.maybe && n !in lost && n !in damaged :: d.maybe[n])
  }

  lemma DamagedIsDamage(d: Disk, lost: set<FileName>, damaged: set<FileName>)
    ensures DamageOf(d, Damaged(d, lost, damaged))
  {
  }

  /** What the next process finds: the directory as it was left, or as a crash at some moment left it, and
      then perhaps damaged. */
  method NextStart(fs: Filesystem) returns (next: Disk)
    requires fs.Valid() && forall i | 0 <= i < |fs.history| :: Truthful(fs.history[i])
    ensures Truthful(next)
  {
    next := fs.disk;
    var crashed, moment, after: Disk := *, *, *;
    if crashed && 0 <= moment < |fs.history| && CrashOf(fs.history[moment], after) {
      CrashKeepsTruth(fs.history[moment], after);
      next := after;
    }
    var lost: set<FileName>, damaged: set<FileName> := *, *;
    DamagedIsDamage(next, lost, damaged);
    DamageKeepsTruth(next, Damaged(next, lost, damaged));
    next := Damaged(next, lost, damaged);
  }

  /** Runs, each cut short by a crash at any moment or by a failure, or not at all, each resumed through the
      planner. The first that finishes answers with plain recursion. */
  method RunUntilDone(disk: Disk, setup: Setup, attempts: nat) returns (answer: Option<BinaryNode>)
    requires UsableSetup(setup) && Truthful(disk)
    ensures answer.Some? ==>
      answer.value == BinaryNode(0, setup.identity.termCount, Chudnovsky.Split(0, setup.identity.termCount))
  {
    var found := disk;
    for attempt := 0 to attempts
      invariant Truthful(found)
    {
      var sequence: int := *;
      var fs := new Filesystem(found, if sequence < 0 then 0 else sequence);
      var storage: Option<Storage> := *;
      var result, origin, accepted, coordinator := RunOnce(fs, setup, storage);
      var died := *;
      if result.Whole? && !died {
        return Some(result.node);
      }
      found := NextStart(fs);
    }
    answer := None;
  }
}
