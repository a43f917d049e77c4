/** When a crash can cost finished work: which directories a run may start from so that none is lost, a
    directory from which some is, and exactly when a crash at the start loses a term
    (src/checkpoint/AtomicFileCommit.cpp, src/checkpoint/CheckpointResumePlanner.cpp). */
module CrashLoss {
  import opened CheckpointSafety
  import opened CheckpointTypes
  import opened Chudnovsky
  import opened ComputationIdentity
  import opened Disk
  import opened FrontierWriter
  import opened GmpSerialization
  import opened ManifestValidator
  import opened Recovery
  import opened ResumePlanner
  import ModularVerifier

  // ---------- directories that are settled for the next run ----------

  /** A power failure settles everything that it leaves. */
  lemma CrashIsSettled(d: Disk, after: Disk, accepted: seq<Accepted>)
    requires CrashOf(d, after)
    ensures SettledFor(after, accepted)
  {
    forall n ensures after.Durable(n, after.Current(n)) {
      var o := CrashPicks(d, after, n);
    }
  }

  /** So does a commit: a process that ends after one, in whatever way, leaves the next run a settled
      directory, temporary files and half-done deletions included. */
  lemma PublishedIsSettled(c: Commit, d: Disk, accepted: seq<Accepted>, setup: Setup, manifest: seq<ManifestEntry>)
    requires UsableSetup(setup) && c.WellFormed() && c.held && c.Published(d)
    requires AcceptedOn(d, accepted, setup.identity, setup.checksumOf, manifest)
    ensures SettledFor(d, accepted)
  {
    PublishedManifest(c, d, setup);
    assert manifest == c.manifest;
    assert forall a | a in accepted :: Isolated(a.entry, manifest, setup.identity.termCount);
    forall a | a in accepted ensures a.entry in c.manifest {
      IsolatedIsListed(a.entry, manifest, setup.identity.termCount);
    }
    EntriesAreSettled(d, c.manifest, c.newValues, c.checksumOf, accepted);
  }

  /** And so does a process that ends while blocks are being written, for what was published before: a manifest that
      was durable when the commit began still is, and with it the blocks it lists. */
  lemma WritingIsSettled(c: Commit, d: Disk, accepted: seq<Accepted>)
    requires c.WellFormed() && c.held && c.WritingBlocks(d)
    requires c.start.Durable(ManifestFile, c.start.Current(ManifestFile))
    requires forall a | a in accepted :: a.entry in c.entries
    ensures SettledFor(d, accepted)
  {
    hide Split, OnlyFrontierFiles, ListedKept, Planned;
    assert d.Current(ManifestFile) in d.After(ManifestFile);
    hide HoldsAll;
    EntriesAreSettled(d, c.entries, c.values, c.checksumOf, accepted);
  }

  lemma PublishedManifest(c: Commit, d: Disk, setup: Setup)
    requires UsableSetup(setup) && c.WellFormed() && c.held && c.Published(d)
    ensures LoadedManifest(d, setup.identity) == Some(c.manifest)
    ensures d.Durable(ManifestFile, d.Current(ManifestFile)) && HoldsAll(d, c.manifest, c.newValues, c.checksumOf)
  {
    assert d.Current(ManifestFile) in d.After(ManifestFile);
  }

  lemma HeldIsDurable(d: Disk, e: ManifestEntry, v: Pqt, checksumOf: (BlockLocation, Pqt) -> nat)
    requires Holds(d, e, v, checksumOf)
    ensures d.Durable(BlockFile(e.location), d.Current(BlockFile(e.location)))
  {
    hide EntryOf;
    assert d.Current(BlockFile(e.location)) in d.After(BlockFile(e.location));
  }

  lemma EntriesAreSettled(d: Disk, entries: seq<ManifestEntry>, values: seq<Pqt>, checksumOf: (BlockLocation, Pqt) -> nat,
                          accepted: seq<Accepted>)
    requires d.Durable(ManifestFile, d.Current(ManifestFile)) && HoldsAll(d, entries, values, checksumOf)
    requires forall a | a in accepted :: a.entry in entries
    ensures SettledFor(d, accepted)
  {
    hide Holds, Disk.Durable;
    forall a | a in accepted ensures d.Durable(BlockFile(a.entry.location), d.Current(BlockFile(a.entry.location))) {
      var i :| 0 <= i < |entries| && entries[i] == a.entry;
      HeldIsDurable(d, entries[i], values[i], checksumOf);
    }
  }

  // ---------- a directory from which work is lost ----------

  lemma OneEntrySound(d: Disk, e: ManifestEntry, v: Pqt, setup: Setup)
    requires UsableSetup(setup) && e.location.Valid(setup.identity.termCount)
    requires e.location.treeLevel == 0 && v == Split(e.location.start, e.location.end)
    requires e == EntryOf(e.location, v, setup.checksumOf)
    requires d.Current(BlockFile(e.location)) == Some(BlockOf(e.location, v))
    ensures Sound(d, e, v, setup.identity, setup.checksumOf)
  {
    hide Split, EntryOf, Identity.Valid, ModularVerifier.CongruentNodes;
    ModularVerifier.TruthIsAccepted(v);
    assert d.Current(BlockFile(e.location)) == Some(File(Block(e.location, v), true));
  }

  /** A manifest of one entry, and a directory that shows its block. */
  lemma OneEntryAccepted(d: Disk, e: ManifestEntry, v: Pqt, setup: Setup)
    requires UsableSetup(setup) && Truthful(d) && e.location.Valid(setup.identity.termCount)
    requires e.location.treeLevel == 0 && v == Split(e.location.start, e.location.end)
    requires e == EntryOf(e.location, v, setup.checksumOf) && d.Current(ManifestFile) == Some(ManifestOf([e]))
    requires d.Current(BlockFile(e.location)) == Some(BlockOf(e.location, v))
    ensures AcceptedOn(d, [Accepted(e, v)], setup.identity, setup.checksumOf, [e])
  {
    hide Split, Identity.Valid, PayloadSize, Sound;
    OneEntrySound(d, e, v, setup);
    var n := setup.identity.termCount;
    assert multiset([e])[e] == 1 && Isolated(e, [e], n);
    forall f, w | Isolated(f, [e], n) && OwnName(f, [e]) && Sound(d, f, w, setup.identity, setup.checksumOf)
      ensures Accepted(f, w) in [Accepted(e, v)]
    {
      IsolatedIsListed(f, [e], n);
      OneValue(d, setup, e, v, w);
    }
  }

  lemma NothingListed(d: Disk, setup: Setup)
    requires d.Current(ManifestFile) == None
    ensures AcceptedOn(d, [], setup.identity, setup.checksumOf, [])
  {
    assert forall f :: !Isolated(f, [], setup.identity.termCount);
  }

  function Renamed(block: File, l: BlockLocation, manifest: File): Disk {
    Disk(map[ManifestFile := manifest, BlockFile(l) := block], map[ManifestFile := {None}])
  }

  function TakenBack(block: File, l: BlockLocation): Disk {
    Disk(map[BlockFile(l) := block], map[])
  }

  lemma RenameTakenBack(e: ManifestEntry, v: Pqt)
    requires e.location.start < e.location.end && v == Split(e.location.start, e.location.end)
    ensures var l := e.location; var start := Renamed(BlockOf(l, v), l, ManifestOf([e]));
            Truthful(start) && CrashOf(start, TakenBack(BlockOf(l, v), l)) && None in start.After(ManifestFile)
  {
    var l := e.location;
    var start, after := Renamed(BlockOf(l, v), l, ManifestOf([e])), TakenBack(BlockOf(l, v), l);
    assert None in start.After(ManifestFile) && Survives(None, after.Current(ManifestFile));
    assert start.Current(BlockFile(l)) in start.After(BlockFile(l));
  }

  /** The first manifest has been renamed into place, the directory sync failed, and the process was
      started again: what it finds is accepted, but a power failure takes the manifest back. */
  lemma UnsettledLosesWork(setup: Setup)
    returns (start: Disk, accepted: seq<Accepted>, after: Disk, accepted1: seq<Accepted>)
    requires UsableSetup(setup)
    ensures Truthful(start) && AcceptedOn(start, accepted, setup.identity, setup.checksumOf, Entries(accepted))
    ensures CrashOf(start, after) && AcceptedOn(after, accepted1, setup.identity, setup.checksumOf, [])
    ensures Covered(accepted, 0) && !Covered(accepted1, 0) && !SettledFor(start, accepted)
  {
    ValidIsPlanned(setup.identity);
    hide Split, AcceptedOn, Identity.Valid, MaximumTreeLevel, CrashOf, Truthful;
    var n := setup.identity.termCount;
    var l, v := BlockLocation(0, n, 0), Split(0, n);
    var e := EntryOf(l, v, setup.checksumOf);
    start, after := Renamed(BlockOf(l, v), l, ManifestOf([e])), TakenBack(BlockOf(l, v), l);
    accepted, accepted1 := [Accepted(e, v)], [];
    RenameTakenBack(e, v);
    assert Entries(accepted) == [e];
    OneEntryAccepted(start, e, v, setup);
    NothingListed(after, setup);
    assert Covers(accepted[0], 0);
  }

  // ---------- exactly when ----------

  /** The planner would accept a block for the term. */
  ghost predicate Coverable(d: Disk, setup: Setup, term: nat) {
    exists e, v :: CoverableBy(d, setup, term, e, v)
  }

  ghost predicate CoverableBy(d: Disk, setup: Setup, term: nat, e: ManifestEntry, v: Pqt) {
    && LoadedManifest(d, setup.identity).Some?
    && ListedFor(LoadedManifest(d, setup.identity).value, setup, term, e)
    && Sound(d, e, v, setup.identity, setup.checksumOf)
  }

  /** An entry that the sweep accepts and whose name is its own covers the term. */
  ghost predicate ListedFor(manifest: seq<ManifestEntry>, setup: Setup, term: nat, e: ManifestEntry) {
    && Isolated(e, manifest, setup.identity.termCount) && OwnName(e, manifest)
    && e.location.start <= term < e.location.end
  }

  /** This manifest lists a block for the term, and that block is durable. */
  ghost predicate ListsDurably(d: Disk, m: Option<File>, setup: Setup, term: nat) {
    exists es, e :: ListsDurablyBy(d, m, setup, term, es, e)
  }

  ghost predicate ListsDurablyBy(d: Disk, m: Option<File>, setup: Setup, term: nat, es: seq<ManifestEntry>, e: ManifestEntry) {
    && m == Some(ManifestOf(es)) && ListedFor(es, setup, term, e)
    && Holds(d, e, Split(e.location.start, e.location.end), setup.checksumOf)
  }

  /** No manifest that may come up has two entries with one file name for the term. */
  ghost predicate AllNamedApart(d: Disk, term: nat) {
    forall es | Some(ManifestOf(es)) in d.After(ManifestFile) :: NamedApart(es, term)
  }

  /** What a plan covers is what is coverable. */
  lemma CoveredIsCoverable(d: Disk, accepted: seq<Accepted>, setup: Setup, manifest: seq<ManifestEntry>, term: nat)
    requires UsableSetup(setup) && NamedApart(manifest, term)
    requires AcceptedOn(d, accepted, setup.identity, setup.checksumOf, manifest)
    ensures Covered(accepted, term) <==> Coverable(d, setup, term)
  {
    hide Sound, OwnName, Identity.Valid;
    if Coverable(d, setup, term) {
      var e, v :| CoverableBy(d, setup, term, e, v);
      assert Accepted(e, v) in accepted && Covers(Accepted(e, v), term);
    }
    if Covered(accepted, term) {
      var a :| a in accepted && Covers(a, term);
      assert a.entry in multiset(manifest);
      assert a.entry in manifest && OwnName(a.entry, manifest);
      assert CoverableBy(d, setup, term, a.entry, a.v);
    }
  }

  /** Every directory has a plan. */
  lemma PlanExists(d: Disk, setup: Setup) returns (accepted: seq<Accepted>, manifest: seq<ManifestEntry>)
    requires UsableSetup(setup)
    ensures AcceptedOn(d, accepted, setup.identity, setup.checksumOf, manifest)
  {
    hide Sound, Isolated, OwnName;
    manifest := if LoadedManifest(d, setup.identity).Some? then LoadedManifest(d, setup.identity).value else [];
    accepted := [];
    for i := 0 to |manifest|
      invariant forall a | a in accepted :: Plannable(d, setup, manifest, a.entry, a.v)
      invariant forall j, v | 0 <= j < i && Plannable(d, setup, manifest, manifest[j], v) :: Accepted(manifest[j], v) in accepted
    {
      if v :| Plannable(d, setup, manifest, manifest[i], v) {
        accepted := accepted + [Accepted(manifest[i], v)];
        forall w | Plannable(d, setup, manifest, manifest[i], w) ensures w == v {
          OneValue(d, setup, manifest[i], v, w);
        }
      }
    }
    forall e, v | Isolated(e, manifest, setup.identity.termCount) && OwnName(e, manifest)
                  && Sound(d, e, v, setup.identity, setup.checksumOf)
      ensures Accepted(e, v) in accepted
    {
      IsolatedIsListed(e, manifest, setup.identity.termCount);
      var j :| 0 <= j < |manifest| && manifest[j] == e;
      assert Plannable(d, setup, manifest, manifest[j], v);
    }
  }

  ghost predicate Plannable(d: Disk, setup: Setup, manifest: seq<ManifestEntry>, e: ManifestEntry, v: Pqt) {
    Isolated(e, manifest, setup.identity.termCount) && Sound(d, e, v, setup.identity, setup.checksumOf)
  }

  lemma OneValue(d: Disk, setup: Setup, e: ManifestEntry, v: Pqt, w: Pqt)
    requires Sound(d, e, v, setup.identity, setup.checksumOf) && Sound(d, e, w, setup.identity, setup.checksumOf)
    ensures v == w
  {
    hide Split, EntryOf, Identity.Valid, ModularVerifier.CongruentNodes;
    var s :| d.Current(BlockFile(e.location)) == Some(File(Block(e.location, v), s));
    var t :| d.Current(BlockFile(e.location)) == Some(File(Block(e.location, w), t));
  }

  lemma IsolatedIsListed(e: ManifestEntry, manifest: seq<ManifestEntry>, termCount: nat)
    requires Isolated(e, manifest, termCount)
    ensures e in manifest
  {
    assert e in multiset(manifest);
  }

  /** Two accepted entries do not share a term. */
  lemma OneEntryForATerm(manifest: seq<ManifestEntry>, setup: Setup, term: nat, e: ManifestEntry, f: ManifestEntry)
    requires ListedFor(manifest, setup, term, e) && ListedFor(manifest, setup, term, f)
    ensures e == f
  {
    assert f in multiset(manifest);
    assert f == e || !e.location.Overlaps(f.location);
  }

  /** The directory a crash leaves if it decides as told, and otherwise keeps what is visible. */
  function Crashed(d: Disk, pick: map<FileName, Option<File>>): Disk {
    Disk(map n | n in d.now.Keys + pick.Keys && (if n in pick then pick[n].Some? else n in d.now)
           :: File((if n in pick then pick[n].value else d.now[n]).content, true), map[])
  }

  lemma CrashedIsCrash(d: Disk, pick: map<FileName, Option<File>>)
    requires forall n | n in pick :: pick[n] in d.After(n)
    ensures CrashOf(d, Crashed(d, pick))
    ensures forall n :: Survives(if n in pick then pick[n] else d.Current(n), Crashed(d, pick).Current(n))
  {
    var after := Crashed(d, pick);
    forall n ensures Survives(if n in pick then pick[n] else d.Current(n), after.Current(n)) {
    }
    forall n | n in d.now.Keys + d.maybe.Keys + after.now.Keys
      ensures exists o | o in d.After(n) :: Survives(o, after.Current(n))
    {
      var o := if n in pick then pick[n] else d.Current(n);
      assert o in d.After(n) && Survives(o, after.Current(n));
    }
  }

  /** A durable block listed by the manifest that comes up is accepted. */
  lemma DurableIsCoverable(start: Disk, after: Disk, setup: Setup, term: nat)
    requires UsableSetup(setup) && Truthful(start) && CrashOf(start, after)
    requires forall m | m in start.After(ManifestFile) :: ListsDurably(start, m, setup, term)
    ensures Coverable(after, setup, term)
  {
    var m := ManifestAfterCrash(start, after, setup.identity);
    var es, e :| ListsDurablyBy(start, m, setup, term, es, e);
    var v := Split(e.location.start, e.location.end);
    assert Isolated(e, es, setup.identity.termCount);
    HeldIsSound(start, after, e, v, setup.identity, setup.checksumOf);
    assert CoverableBy(after, setup, term, e, v);
  }

  /** What would make an entry acceptable once more: its block, as it was recorded. */
  ghost predicate Recorded(e: ManifestEntry, setup: Setup) {
    e.location.start < e.location.end
    && e == EntryOf(e.location, Split(e.location.start, e.location.end), setup.checksumOf)
  }

  /** A sound entry is recorded, and its block is the true one. */
  lemma SoundIsRecorded(d: Disk, e: ManifestEntry, v: Pqt, setup: Setup)
    requires Truthful(d) && Sound(d, e, v, setup.identity, setup.checksumOf)
    ensures Recorded(e, setup) && v == Split(e.location.start, e.location.end)
    ensures d.Current(BlockFile(e.location)) == Some(BlockOf(e.location, v))
  {
    SoundIsTrue(d, Accepted(e, v), setup.identity, setup.checksumOf);
    var synced :| d.Current(BlockFile(e.location)) == Some(File(Block(e.location, v), synced));
    CurrentIsTrue(d, e.location, v, synced);
  }

  /** Whatever is coverable after a crash was listed by the manifest that came up, and recorded. */
  lemma ComesFromTheList(start: Disk, after: Disk, m: Option<File>, setup: Setup, term: nat, f: ManifestEntry, v: Pqt)
    returns (es: seq<ManifestEntry>)
    requires Truthful(start) && Truthful(after) && m in start.After(ManifestFile)
    requires Survives(m, after.Current(ManifestFile)) && CoverableBy(after, setup, term, f, v)
    ensures m == Some(ManifestOf(es)) && ListedFor(es, setup, term, f) && Recorded(f, setup)
    ensures after.Current(BlockFile(f.location)) == Some(BlockOf(f.location, Split(f.location.start, f.location.end)))
  {
    SoundIsRecorded(after, f, v, setup);
    es := LoadedManifest(after, setup.identity).value;
    assert m.value.synced;
  }

  /** If the listed entry is coverable, its block came back right. */
  lemma ComesBackRight(start: Disk, after: Disk, es: seq<ManifestEntry>, setup: Setup, term: nat, e: ManifestEntry,
                       o: Option<File>, f: ManifestEntry, v: Pqt)
    requires Truthful(start) && Truthful(after) && Some(ManifestOf(es)) in start.After(ManifestFile)
    requires Survives(Some(ManifestOf(es)), after.Current(ManifestFile)) && CoverableBy(after, setup, term, f, v)
    requires ListedFor(es, setup, term, e) && o in start.After(BlockFile(e.location))
    requires Survives(o, after.Current(BlockFile(e.location)))
    ensures o == Some(BlockOf(e.location, Split(e.location.start, e.location.end)))
  {
    var fs := ComesFromTheList(start, after, Some(ManifestOf(es)), setup, term, f, v);
    OneEntryForATerm(es, setup, term, e, f);
    assert o.value.synced;
  }

  /** The block may come up otherwise than recorded. */
  lemma OtherState(start: Disk, e: ManifestEntry, setup: Setup) returns (o: Option<File>)
    requires Recorded(e, setup) && !Holds(start, e, Split(e.location.start, e.location.end), setup.checksumOf)
    ensures o in start.After(BlockFile(e.location)) && o != Some(BlockOf(e.location, Split(e.location.start, e.location.end)))
  {
    hide Split, PayloadSize;
    var n := BlockFile(e.location);
    assert start.Current(n) in start.After(n);
    o :| o in start.After(n) && o != Some(BlockOf(e.location, Split(e.location.start, e.location.end)));
  }

  /** The block that the manifest lists for the term may not come back right. */
  lemma BlockMayBeLost(start: Disk, es: seq<ManifestEntry>, setup: Setup, term: nat, e: ManifestEntry) returns (after: Disk)
    requires Truthful(start) && Some(ManifestOf(es)) in start.After(ManifestFile)
    requires ListedFor(es, setup, term, e) && Recorded(e, setup)
    requires !Holds(start, e, Split(e.location.start, e.location.end), setup.checksumOf)
    ensures CrashOf(start, after) && !Coverable(after, setup, term)
  {
    hide Split, Sound, Holds, Recorded, ListedFor, CoverableBy, Crashed, Truthful, CrashOf;
    var o := OtherState(start, e, setup);
    var pick: map<FileName, Option<File>> := map[ManifestFile := Some(ManifestOf(es)), BlockFile(e.location) := o];
    CrashedIsCrash(start, pick);
    after := Crashed(start, pick);
    CrashKeepsTruth(start, after);
    assert Survives(o, after.Current(BlockFile(e.location))) && Survives(Some(ManifestOf(es)), after.Current(ManifestFile));
    forall f, v ensures !CoverableBy(after, setup, term, f, v) {
      if CoverableBy(after, setup, term, f, v) {
        ComesBackRight(start, after, es, setup, term, e, o, f, v);
      }
    }
  }

  /** The manifest lists nothing recorded for the term. */
  lemma ManifestWithoutTerm(start: Disk, m: Option<File>, setup: Setup, term: nat) returns (after: Disk)
    requires Truthful(start) && m in start.After(ManifestFile)
    requires !exists es, e :: m == Some(ManifestOf(es)) && ListedFor(es, setup, term, e) && Recorded(e, setup)
    ensures CrashOf(start, after) && !Coverable(after, setup, term)
  {
    hide Split, Sound;
    var pick: map<FileName, Option<File>> := map[ManifestFile := m];
    CrashedIsCrash(start, pick);
    after := Crashed(start, pick);
    CrashKeepsTruth(start, after);
    assert Survives(m, after.Current(ManifestFile));
    hide CoverableBy, Crashed;
    forall f, v ensures !CoverableBy(after, setup, term, f, v) {
      if CoverableBy(after, setup, term, f, v) {
        var es := ComesFromTheList(start, after, m, setup, term, f, v);
      }
    }
  }

  /** A manifest that may come up without a durable block for the term leads to a crash that loses it. */
  lemma UnlistedIsLost(start: Disk, m: Option<File>, setup: Setup, term: nat) returns (after: Disk)
    requires Truthful(start) && m in start.After(ManifestFile) && !ListsDurably(start, m, setup, term)
    ensures CrashOf(start, after) && !Coverable(after, setup, term)
  {
    hide ListedFor, Recorded, Coverable, CrashOf;
    if es, e :| m == Some(ManifestOf(es)) && ListedFor(es, setup, term, e) && Recorded(e, setup) {
      assert !ListsDurablyBy(start, m, setup, term, es, e);
      after := BlockMayBeLost(start, es, setup, term, e);
    } else {
      after := ManifestWithoutTerm(start, m, setup, term);
    }
  }

  /** Which manifest a crash brings up, and what its names are like. */
  lemma NamedApartAfterCrash(start: Disk, after: Disk, setup: Setup, manifest: seq<ManifestEntry>, term: nat)
    requires UsableSetup(setup) && Truthful(start) && CrashOf(start, after) && AllNamedApart(start, term)
    requires ManifestOn(after, setup.identity, manifest)
    ensures NamedApart(manifest, term)
  {
    if LoadedManifest(after, setup.identity).Some? {
      var m := ManifestAfterCrash(start, after, setup.identity);
      var o := CrashPicks(start, after, ManifestFile);
      assert o == Some(ManifestOf(manifest));
    }
  }

  /** Whatever a crash leaves and however it is planned, the term is covered. */
  ghost predicate NeverLost(start: Disk, setup: Setup, term: nat) {
    forall after, accepted, manifest |
      CrashOf(start, after) && AcceptedOn(after, accepted, setup.identity, setup.checksumOf, manifest) ::
      Covered(accepted, term)
  }

  /** From a directory without wrong blocks no crash loses a term, whichever way it decides, if and only if every
      manifest that may come up lists a durable block for it. */
  lemma LostExactlyWhen(start: Disk, setup: Setup, term: nat)
    requires UsableSetup(setup) && Truthful(start) && AllNamedApart(start, term)
    ensures NeverLost(start, setup, term)
            <==> (forall m | m in start.After(ManifestFile) :: ListsDurably(start, m, setup, term))
  {
    hide AcceptedOn, Coverable, CrashOf, ListsDurably, NamedApart, AllNamedApart, Truthful, Covered;
    if forall m | m in start.After(ManifestFile) :: ListsDurably(start, m, setup, term) {
      forall after, accepted, manifest |
        CrashOf(start, after) && AcceptedOn(after, accepted, setup.identity, setup.checksumOf, manifest)
        ensures Covered(accepted, term)
      {
        DurableIsCoverable(start, after, setup, term);
        PlanIsOnManifest(after, accepted, setup, manifest);
        NamedApartAfterCrash(start, after, setup, manifest, term);
        CoveredIsCoverable(after, accepted, setup, manifest, term);
      }
    } else {
      var m :| m in start.After(ManifestFile) && !ListsDurably(start, m, setup, term);
      var after := UnlistedIsLost(start, m, setup, term);
      var accepted, manifest := PlanExists(after, setup);
      PlanIsOnManifest(after, accepted, setup, manifest);
      NamedApartAfterCrash(start, after, setup, manifest, term);
      CoveredIsCoverable(after, accepted, setup, manifest, term);
    }
  }

  lemma PlanIsOnManifest(d: Disk, accepted: seq<Accepted>, setup: Setup, manifest: seq<ManifestEntry>)
    requires AcceptedOn(d, accepted, setup.identity, setup.checksumOf, manifest)
    ensures ManifestOn(d, setup.identity, manifest)
  {
  }
}
