/** What a checkpoint directory guarantees at every moment of a run: no block that could be read holds
    anything but the node of plain recursion, and no crash loses what was accepted or published. */
module CheckpointSafety {
  import opened BinaryNodes
  import opened CheckpointTypes
  import opened Chudnovsky
  import opened Disk
  import opened FrontierWriter
  import opened ManifestValidator

  // ---------- no wrong block, ever ----------

  /** A block file holds the node of plain recursion for its range. */
  predicate TrueContent(content: Content) {
    content.Block? && content.location.start < content.location.end ==>
      content.v == Split(content.location.start, content.location.end)
  }

  /** Whatever a crash may leave under a final name is synced and, if it is a block, true. */
  ghost predicate Truthful(d: Disk) {
    forall n: FileName, o | !n.TempFile? && o in d.After(n) && o.Some? :: o.value.synced && TrueContent(o.value.content)
  }

  lemma CrashKeepsTruth(d: Disk, after: Disk)
    requires Truthful(d) && CrashOf(d, after)
    ensures Truthful(after)
  {
    forall n: FileName, o | !n.TempFile? && o in after.After(n) && o.Some?
      ensures o.value.synced && TrueContent(o.value.content)
    {
      var before := CrashPicks(d, after, n);
      assert o == after.Current(n);
    }
  }

  /** A damaged file is one whose content no reader accepts. */
  ghost predicate DamageOf(d: Disk, after: Disk) {
    forall n: FileName, o | !n.TempFile? && o in after.After(n) ::
      o in d.After(n) || o == None || o == Some(File(Garbage, true))
  }

  lemma DamageKeepsTruth(d: Disk, after: Disk)
    requires Truthful(d) && DamageOf(d, after)
    ensures Truthful(after)
  {
  }

  ghost predicate TrueNodes(nodes: seq<BinaryNode>) {
    forall i | 0 <= i < |nodes| && nodes[i].HasValues() && nodes[i].start < nodes[i].end :: nodes[i].IsSplit()
  }

  lemma CommitKeepsTruth(c: Commit, d: Disk)
    requires c.WellFormed() && c.Safe(d) && Truthful(c.start) && TrueNodes(c.nodes)
    ensures Truthful(d)
  {
    forall n: FileName, o | !n.TempFile? && o in d.After(n) && o.Some?
      ensures o.value.synced && TrueContent(o.value.content)
    {
      if n == ManifestFile {
        assert o in c.start.After(n) || o == Some(ManifestOf(c.manifest));
      } else if o !in c.start.After(n) {
        var i :| NewBlock(n, o, c.nodes, c.levels, c.entries, i);
      }
    }
  }

  // ---------- no lost work ----------

  /** Where a run started: the manifests that could be found, and the accepted entries with their values. */
  datatype Origin = Origin(manifests: set<Option<File>>, entries: seq<ManifestEntry>, values: seq<Pqt>, termCount: nat,
                           checksumOf: (BlockLocation, Pqt) -> nat)

  /** Whichever manifest a crash brings up, it is the one the run started with, and the accepted blocks are
      there; or it is a complete frontier, and all its blocks are there. */
  ghost predicate Recoverable(o: Origin, d: Disk) {
    forall m | m in d.After(ManifestFile) ::
      || (m in o.manifests && HoldsAll(d, o.entries, o.values, o.checksumOf))
      || (exists es, vs :: CompleteFrontier(o, d, m, es, vs))
  }

  ghost predicate CompleteFrontier(o: Origin, d: Disk, m: Option<File>, es: seq<ManifestEntry>, vs: seq<Pqt>) {
    m == Some(ManifestOf(es)) && ExactFrontier(es, o.termCount) && HoldsAll(d, es, vs, o.checksumOf)
  }

  /** What the writer last published, or where the run started. */
  ghost predicate Anchored(o: Origin, d: Disk, entries: seq<ManifestEntry>, values: seq<Pqt>) {
    && HoldsAll(d, entries, values, o.checksumOf)
    && (|| (d.After(ManifestFile) <= o.manifests && entries == o.entries && values == o.values)
        || (d.Durable(ManifestFile, Some(ManifestOf(entries))) && ExactFrontier(entries, o.termCount)))
  }

  /** At every step and crash point of a commit nothing is lost. */
  lemma CommitIsRecoverable(o: Origin, c: Commit, d: Disk)
    requires c.WellFormed() && c.held && c.Safe(d) && c.checksumOf == o.checksumOf
    requires Anchored(o, c.start, c.entries, c.values) && ExactFrontier(c.manifest, o.termCount)
    ensures Recoverable(o, d)
    ensures c.Published(d) ==> Anchored(o, d, c.manifest, c.newValues)
  {
    hide OnlyFrontierFiles, Planned, HoldsAll, ExactFrontier;
    forall m | m in d.After(ManifestFile)
      ensures (m in o.manifests && HoldsAll(d, o.entries, o.values, o.checksumOf))
              || (exists es, vs :: CompleteFrontier(o, d, m, es, vs))
    {
      if m == Some(ManifestOf(c.manifest)) && c.NewHeld(d) {
        assert CompleteFrontier(o, d, m, c.manifest, c.newValues);
      } else {
        assert m in c.start.After(ManifestFile) && c.OldHeld(d);
        if c.start.Durable(ManifestFile, Some(ManifestOf(c.entries))) && ExactFrontier(c.entries, o.termCount) {
          assert CompleteFrontier(o, d, m, c.entries, c.values);
        }
      }
    }
  }
}
