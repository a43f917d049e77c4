/** Rebuilding a frontier from a checkpoint directory: load and validate the manifest, inspect every block
    it lists, move what is rejected or unexpected to quarantine, and list what has to be computed again
    (src/checkpoint/CheckpointResumePlanner.cpp). */
module ResumePlanner {
  import opened CheckpointTypes
  import opened Chudnovsky
  import opened ComputationIdentity
  import opened Disk
  import opened FrontierWriter
  import opened GmpSerialization
  import opened ManifestValidator
  import opened Sequences
  import ModularVerifier
  import Sorting

  datatype Accepted = Accepted(entry: ManifestEntry, v: Pqt)

  datatype ResumePlan = ResumePlan(accepted: seq<Accepted>, rejected: seq<FileName>, ignoredTemporary: set<FileName>,
                                   rangesToRecalculate: seq<MissingRange>)

  function Entries(accepted: seq<Accepted>): (entries: seq<ManifestEntry>)
    ensures |entries| == |accepted|
    ensures forall i | 0 <= i < |accepted| :: entries[i] == accepted[i].entry
  {
    if accepted == [] then [] else Entries(accepted[..|accepted| - 1]) + [accepted[|accepted| - 1].entry]
  }

  function Values(accepted: seq<Accepted>): (values: seq<Pqt>)
    ensures |values| == |accepted|
    ensures forall i | 0 <= i < |accepted| :: values[i] == accepted[i].v
  {
    if accepted == [] then [] else Values(accepted[..|accepted| - 1]) + [accepted[|accepted| - 1].v]
  }

  /** The manifest a directory holds for this computation. */
  function LoadedManifest(d: Disk, identity: Identity): Option<seq<ManifestEntry>> {
    match d.Current(ManifestFile)
    case Some(File(Manifest(entries), _)) => if identity.Valid() then Some(entries) else None
    case _ => None
  }

  /** The file is a block of the right place, its entry describes it, and its residues are right. */
  ghost predicate Sound(d: Disk, e: ManifestEntry, v: Pqt, identity: Identity, checksumOf: (BlockLocation, Pqt) -> nat) {
    && e == EntryOf(e.location, v, checksumOf)
    && identity.Valid() && e.location.Valid(identity.termCount)
    && e.location.treeLevel <= MaximumTreeLevel(identity.termCount)
    && (exists synced :: d.Current(BlockFile(e.location)) == Some(File(Block(e.location, v), synced)))
    && ModularVerifier.CongruentNodes(v, Split(e.location.start, e.location.end),
         ModularVerifier.PRIME_A * ModularVerifier.PRIME_B * ModularVerifier.PRIME_C)
  }

  /** Only names in `removed` may have lost their file. */
  ghost predicate Kept(before: Disk, d: Disk, removed: set<FileName>) {
    && (forall n | n !in removed :: d.Current(n) == before.Current(n) && d.After(n) <= before.After(n))
    && (forall n | n in removed ::
          (d.Current(n) == before.Current(n) || d.Current(n) == None) && d.After(n) <= before.After(n) + {None})
  }

  ghost predicate KeptSince(before: Disk, history: seq<Disk>, k: nat, removed: set<FileName>) {
    forall i | k <= i < |history| :: Kept(before, history[i], removed)
  }

  lemma KeptLater(before: Disk, middle: Disk, d: Disk, removed: set<FileName>, more: set<FileName>)
    requires Kept(before, middle, removed) && Kept(middle, d, more)
    ensures Kept(before, d, removed + more)
  {
  }

  // ---------- one file ----------

  /** `CheckpointFileInspector`, `ManifestEntryValidator` and `ModularPQTVerifier` in turn. */
  method Inspect(fs: Filesystem, e: ManifestEntry, identity: Identity, checksumOf: (BlockLocation, Pqt) -> nat)
    returns (v: Option<Pqt>)
    ensures v.Some? ==> Sound(fs.disk, e, v.value, identity, checksumOf)
    ensures forall w :: Sound(fs.disk, e, w, identity, checksumOf) ==> v == Some(w)
  {
    var path := e.filename;
    if !path.BlockFile? || path !in fs.disk.now || !fs.disk.now[path].content.Block? {
      return None;
    }
    var location, block := fs.disk.now[path].content.location, fs.disk.now[path].content.v;
    if !identity.Valid() || !location.Valid(identity.termCount)
       || location.treeLevel > MaximumTreeLevel(identity.termCount) {
      return None;
    }
    if location != e.location || path != BlockFile(e.location) {
      return None;
    }
    if e.payloadSize != PayloadSize(block) || e.checksum != checksumOf(location, block) || e.completion != Complete {
      return None;
    }
    var modular := ModularVerifier.Validate(identity, location, block);
    if !modular {
      return None;
    }
    assert fs.disk.Current(path) == Some(File(Block(location, block), fs.disk.now[path].synced));
    v := Some(block);
  }

  /** `CheckpointQuarantine`: a rename out of the directory and a directory sync; temporary names are left alone. */
  method Quarantine(fs: Filesystem, path: FileName) returns (gone: bool)
    requires fs.Valid()
    modifies fs`disk, fs`history, fs`failed
    ensures fs.Valid() && old(fs.history) <= fs.history
    ensures KeptSince(old(fs.disk), fs.history, |old(fs.history)|, if gone then {path} else {})
    ensures Kept(old(fs.disk), fs.disk, if gone then {path} else {})
    ensures gone ==> fs.disk.Current(path).None?
  {
    if path.TempFile? || path !in fs.disk.now {
      return false;
    }
    // writing the diagnostic next to the destination may throw
    var prepared := *;
    if !prepared {
      return false;
    }
    gone := fs.Unlink(path);
    if gone {
      var synced := fs.SyncDirectory();
    }
  }

  /** `rejectFile`: each path at most once. */
  method RejectFile(fs: Filesystem, path: FileName, processed: set<FileName>) returns (gone: bool)
    requires fs.Valid()
    modifies fs`disk, fs`history, fs`failed
    ensures fs.Valid() && old(fs.history) <= fs.history
    ensures KeptSince(old(fs.disk), fs.history, |old(fs.history)|, if gone then {path} else {})
    ensures Kept(old(fs.disk), fs.disk, if gone then {path} else {})
    ensures gone ==> fs.disk.Current(path).None? && path !in processed
    ensures path in processed ==> fs.disk == old(fs.disk)
  {
    if path in processed {
      return false;
    }
    gone := Quarantine(fs, path);
  }

  // ---------- the three walks ----------

  /** One more rejection extends what is known since the start. */
  lemma KeptExtends(start: Disk, middle: Disk, last: Disk, history: seq<Disk>, k: nat, m: nat,
                    removed: set<FileName>, more: set<FileName>)
    requires k <= m <= |history|
    requires KeptSince(start, history[..m], k, removed) && Kept(start, middle, removed)
    requires KeptSince(middle, history, m, more) && Kept(middle, last, more)
    ensures KeptSince(start, history, k, removed + more) && Kept(start, last, removed + more)
  {
    forall i | k <= i < |history| ensures Kept(start, history[i], removed + more) {
      if i < m {
        assert history[..m][i] == history[i];
      } else {
        KeptLater(start, middle, history[i], removed, more);
      }
    }
    KeptLater(start, middle, last, removed, more);
  }

  ghost predicate Names(entries: seq<ManifestEntry>, n: FileName) {
    exists e :: e in entries && e.filename == n
  }

  /** Entries the manifest validator did not accept. */
  method RejectListed(fs: Filesystem, entries: seq<ManifestEntry>, accepted: seq<ManifestEntry>)
    returns (processed: set<FileName>, rejected: seq<FileName>, ghost removed: set<FileName>)
    requires fs.Valid()
    modifies fs`disk, fs`history, fs`failed
    ensures fs.Valid() && old(fs.history) <= fs.history
    ensures KeptSince(old(fs.disk), fs.history, |old(fs.history)|, removed) && Kept(old(fs.disk), fs.disk, removed)
    ensures removed <= processed && Gone(fs.disk, removed)
    ensures forall n | n in processed :: exists e :: e in entries && e !in accepted && e.filename == n
  {
    processed, rejected, removed := {}, [], {};
    ghost var start, k := fs.disk, |fs.history|;
    for i := 0 to |entries|
      invariant fs.Valid() && old(fs.history) <= fs.history
      invariant KeptSince(start, fs.history, k, removed) && Kept(start, fs.disk, removed)
      invariant removed <= processed && Gone(fs.disk, removed)
      invariant forall n | n in processed :: exists e :: e in entries && e !in accepted && e.filename == n
    {
      if entries[i] !in accepted {
        var path := entries[i].filename;
        ghost var middle, m := fs.disk, |fs.history|;
        ghost var before := fs.history;
        var gone := RejectFile(fs, path, processed);
        assert fs.history[..m] == before;
        KeptExtends(start, middle, fs.disk, fs.history, k, m, removed, if gone then {path} else {});
        removed := removed + if gone then {path} else {};
        processed, rejected := processed + {path}, rejected + [path];
      }
    }
  }

  ghost predicate Unshared(entries: seq<ManifestEntry>, i: nat)
    requires i < |entries|
  {
    forall j | 0 <= j < |entries| && j != i :: entries[j].filename != entries[i].filename
  }

  ghost predicate Gone(d: Disk, removed: set<FileName>) {
    forall n | n in removed :: d.Current(n) == None
  }

  lemma StillGone(before: Disk, d: Disk, removed: set<FileName>, more: set<FileName>)
    requires Gone(before, removed) && Kept(before, d, more) && Gone(d, more)
    ensures Gone(d, removed + more)
  {
  }

  lemma StillAccepted(before: Disk, d: Disk, accepted: seq<Accepted>, more: set<FileName>, identity: Identity,
                      checksumOf: (BlockLocation, Pqt) -> nat)
    requires Kept(before, d, more)
    requires forall a | a in accepted :: Sound(before, a.entry, a.v, identity, checksumOf) && a.entry.filename !in more
    ensures forall a | a in accepted :: Sound(d, a.entry, a.v, identity, checksumOf)
  {
  }

  lemma GrowDisjoint(accepted: seq<Accepted>, next: Accepted, entries: seq<ManifestEntry>, i: nat)
    requires Disjoint(entries) && i < |entries| && next.entry == entries[i] && Disjoint(Entries(accepted))
    requires forall a | a in accepted :: exists j :: 0 <= j < i && entries[j] == a.entry
    ensures Disjoint(Entries(accepted + [next]))
  {
    var grown := Entries(accepted + [next]);
    forall p, q | 0 <= p < q < |grown| ensures grown[p].location.end <= grown[q].location.start {
      if q < |accepted| {
        assert Entries(accepted)[p] == grown[p] && Entries(accepted)[q] == grown[q];
      } else {
        assert accepted[p] in accepted;
      }
    }
  }

  /** The walk after i entries: what it accepted is sound and still there, and it has accepted every sound
      block whose name nobody else uses. */
  ghost predicate Walked(start: Disk, d: Disk, entries: seq<ManifestEntry>, i: nat, processed0: set<FileName>,
                         accepted: seq<Accepted>, processed: set<FileName>, removed: set<FileName>,
                         identity: Identity, checksumOf: (BlockLocation, Pqt) -> nat)
    requires i <= |entries|
  {
    && Kept(start, d, removed) && removed <= processed && Gone(d, removed)
    && (forall n | n in processed :: n in processed0 || Names(entries[..i], n))
    && Disjoint(Entries(accepted))
    && (forall a | a in accepted :: a.entry in entries[..i] && a.entry.filename in processed && a.entry.filename !in removed)
    && (forall a | a in accepted :: Sound(d, a.entry, a.v, identity, checksumOf))
    && MissedNone(start, entries, i, processed0, accepted, identity, checksumOf)
  }

  ghost predicate MissedNone(start: Disk, entries: seq<ManifestEntry>, i: nat, processed0: set<FileName>,
                             accepted: seq<Accepted>, identity: Identity, checksumOf: (BlockLocation, Pqt) -> nat)
    requires i <= |entries|
  {
    forall j, v | 0 <= j < i && Sound(start, entries[j], v, identity, checksumOf)
                  && entries[j].filename !in processed0 && Unshared(entries, j) ::
      Accepted(entries[j], v) in accepted
  }

  lemma UntouchedUntilItsTurn(start: Disk, d: Disk, entries: seq<ManifestEntry>, i: nat, processed0: set<FileName>,
                              accepted: seq<Accepted>, processed: set<FileName>, removed: set<FileName>,
                              identity: Identity, checksumOf: (BlockLocation, Pqt) -> nat, v: Pqt)
    requires i < |entries| && Walked(start, d, entries, i, processed0, accepted, processed, removed, identity, checksumOf)
    requires Sound(start, entries[i], v, identity, checksumOf)
    requires entries[i].filename !in processed0 && Unshared(entries, i)
    ensures Sound(d, entries[i], v, identity, checksumOf)
  {
    assert entries[i].filename !in processed;
    assert d.Current(entries[i].filename) == start.Current(entries[i].filename);
  }

  lemma NamesGrow(entries: seq<ManifestEntry>, i: nat, n: FileName)
    requires i < |entries|
    ensures Names(entries[..i + 1], n) <==> Names(entries[..i], n) || n == entries[i].filename
  {
    assert entries[..i + 1] == entries[..i] + [entries[i]];
    if n == entries[i].filename { assert entries[i] in entries[..i + 1]; }
    if Names(entries[..i], n) {
      var e :| e in entries[..i] && e.filename == n;
      assert e in entries[..i + 1];
    }
  }

  lemma NamesOfWalked(entries: seq<ManifestEntry>, i: nat, processed0: set<FileName>, processed: set<FileName>)
    requires i < |entries| && forall n | n in processed :: n in processed0 || Names(entries[..i], n)
    ensures forall n | n in processed + {entries[i].filename} :: n in processed0 || Names(entries[..i + 1], n)
  {
    forall n | n in processed + {entries[i].filename} ensures n in processed0 || Names(entries[..i + 1], n) {
      NamesGrow(entries, i, n);
    }
  }

  lemma WalkRejects(start: Disk, before: Disk, d: Disk, entries: seq<ManifestEntry>, i: nat, processed0: set<FileName>,
                    accepted: seq<Accepted>, processed: set<FileName>, removed: set<FileName>, more: set<FileName>,
                    identity: Identity, checksumOf: (BlockLocation, Pqt) -> nat)
    requires i < |entries| && Walked(start, before, entries, i, processed0, accepted, processed, removed, identity, checksumOf)
    requires forall w :: !Sound(before, entries[i], w, identity, checksumOf)
    requires Kept(before, d, more) && Gone(d, more) && more <= {entries[i].filename} && more !! processed
    ensures Walked(start, d, entries, i + 1, processed0, accepted, processed + {entries[i].filename}, removed + more,
                   identity, checksumOf)
  {
    KeptLater(start, before, d, removed, more);
    StillGone(before, d, removed, more);
    StillAccepted(before, d, accepted, more, identity, checksumOf);
    PrefixStep(entries, i);
    NamesOfWalked(entries, i, processed0, processed);
    forall j, v | 0 <= j < i + 1 && Sound(start, entries[j], v, identity, checksumOf)
                  && entries[j].filename !in processed0 && Unshared(entries, j)
      ensures Accepted(entries[j], v) in accepted
    {
      if j == i {
        UntouchedUntilItsTurn(start, before, entries, i, processed0, accepted, processed, removed, identity, checksumOf, v);
      }
    }
  }

  lemma AcceptMissesNone(start: Disk, d: Disk, entries: seq<ManifestEntry>, i: nat, processed0: set<FileName>,
                         accepted: seq<Accepted>, processed: set<FileName>, removed: set<FileName>, v: Pqt,
                         identity: Identity, checksumOf: (BlockLocation, Pqt) -> nat)
    requires i < |entries| && Walked(start, d, entries, i, processed0, accepted, processed, removed, identity, checksumOf)
    requires forall w :: Sound(d, entries[i], w, identity, checksumOf) ==> w == v
    ensures MissedNone(start, entries, i + 1, processed0, accepted + [Accepted(entries[i], v)], identity, checksumOf)
  {
    forall j, w | 0 <= j < i + 1 && Sound(start, entries[j], w, identity, checksumOf)
                  && entries[j].filename !in processed0 && Unshared(entries, j)
      ensures Accepted(entries[j], w) in accepted + [Accepted(entries[i], v)]
    {
      if j == i {
        UntouchedUntilItsTurn(start, d, entries, i, processed0, accepted, processed, removed, identity, checksumOf, w);
      }
    }
  }

  lemma SoundIsThere(d: Disk, removed: set<FileName>, e: ManifestEntry, v: Pqt, identity: Identity,
                     checksumOf: (BlockLocation, Pqt) -> nat)
    requires Gone(d, removed) && Sound(d, e, v, identity, checksumOf)
    ensures e.filename !in removed
  {
  }

  /** What holds of the accepted entries holds of one more. */
  lemma AcceptOne(d: Disk, entries: seq<ManifestEntry>, i: nat, accepted: seq<Accepted>, processed: set<FileName>,
                  removed: set<FileName>, v: Pqt, identity: Identity, checksumOf: (BlockLocation, Pqt) -> nat)
    requires i < |entries| && Disjoint(entries) && Gone(d, removed) && Disjoint(Entries(accepted))
    requires forall a | a in accepted ::
               a.entry in entries[..i] && a.entry.filename in processed && a.entry.filename !in removed
    requires forall a | a in accepted :: Sound(d, a.entry, a.v, identity, checksumOf)
    requires Sound(d, entries[i], v, identity, checksumOf)
    ensures var all, done := accepted + [Accepted(entries[i], v)], processed + {entries[i].filename};
            && Disjoint(Entries(all))
            && (forall a | a in all :: a.entry in entries[..i + 1] && a.entry.filename in done && a.entry.filename !in removed)
            && (forall a | a in all :: Sound(d, a.entry, a.v, identity, checksumOf))
  {
    SoundIsThere(d, removed, entries[i], v, identity, checksumOf);
    hide Sound, Gone, Disjoint;
    PrefixStep(entries, i);
    forall a | a in accepted ensures exists j :: 0 <= j < i && entries[j] == a.entry {
      assert a.entry in entries[..i];
    }
    GrowDisjoint(accepted, Accepted(entries[i], v), entries, i);
  }

  lemma WalkAccepts(start: Disk, d: Disk, entries: seq<ManifestEntry>, i: nat, processed0: set<FileName>,
                    accepted: seq<Accepted>, processed: set<FileName>, removed: set<FileName>, v: Pqt,
                    identity: Identity, checksumOf: (BlockLocation, Pqt) -> nat)
    requires i < |entries| && Walked(start, d, entries, i, processed0, accepted, processed, removed, identity, checksumOf)
    requires Disjoint(entries) && Sound(d, entries[i], v, identity, checksumOf)
    requires forall w :: Sound(d, entries[i], w, identity, checksumOf) ==> w == v
    ensures Walked(start, d, entries, i + 1, processed0, accepted + [Accepted(entries[i], v)],
                   processed + {entries[i].filename}, removed, identity, checksumOf)
  {
    hide Sound, Gone, Disjoint, Kept, MissedNone, Names;
    NamesOfWalked(entries, i, processed0, processed);
    AcceptOne(d, entries, i, accepted, processed, removed, v, identity, checksumOf);
    AcceptMissesNone(start, d, entries, i, processed0, accepted, processed, removed, v, identity, checksumOf);
  }

  /** The blocks of accepted entries. */
  method InspectAccepted(fs: Filesystem, entries: seq<ManifestEntry>, processed0: set<FileName>, identity: Identity,
                         checksumOf: (BlockLocation, Pqt) -> nat)
    returns (accepted: seq<Accepted>, processed: set<FileName>, rejected: seq<FileName>, ghost removed: set<FileName>)
    requires fs.Valid() && Disjoint(entries)
    modifies fs`disk, fs`history, fs`failed
    ensures fs.Valid() && old(fs.history) <= fs.history
    ensures KeptSince(old(fs.disk), fs.history, |old(fs.history)|, removed)
    ensures Walked(old(fs.disk), fs.disk, entries, |entries|, processed0, accepted, processed, removed, identity, checksumOf)
  {
    accepted, processed, rejected, removed := [], processed0, [], {};
    ghost var start, k := fs.disk, |fs.history|;
    for i := 0 to |entries|
      invariant fs.Valid() && old(fs.history) <= fs.history
      invariant KeptSince(start, fs.history, k, removed)
      invariant Walked(start, fs.disk, entries, i, processed0, accepted, processed, removed, identity, checksumOf)
    {
      var path := entries[i].filename;
      var v := Inspect(fs, entries[i], identity, checksumOf);
      if v.None? {
        ghost var middle, m, before := fs.disk, |fs.history|, fs.history;
        var gone := RejectFile(fs, path, processed);
        ghost var more := if gone then {path} else {};
        assert fs.history[..m] == before;
        KeptExtends(start, middle, fs.disk, fs.history, k, m, removed, more);
        WalkRejects(start, middle, fs.disk, entries, i, processed0, accepted, processed, removed, more, identity, checksumOf);
        removed := removed + more;
        processed, rejected := processed + {path}, rejected + [path];
      } else {
        WalkAccepts(start, fs.disk, entries, i, processed0, accepted, processed, removed, v.value, identity, checksumOf);
        accepted := accepted + [Accepted(entries[i], v.value)];
        processed := processed + {path};
      }
    }
  }

  /** Temporary files are ignored, block files no entry names are rejected. The listing has no order. */
  method RejectUnexpected(fs: Filesystem, entries: seq<ManifestEntry>, processed0: set<FileName>)
    returns (rejected: seq<FileName>, temporary: set<FileName>, ghost removed: set<FileName>)
    requires fs.Valid()
    modifies fs`disk, fs`history, fs`failed
    ensures fs.Valid() && old(fs.history) <= fs.history
    ensures KeptSince(old(fs.disk), fs.history, |old(fs.history)|, removed) && Kept(old(fs.disk), fs.disk, removed)
    ensures forall n | n in removed :: n.BlockFile? && n !in processed0 && !Names(entries, n)
    ensures temporary == set n | n in old(fs.disk).now && n.TempFile?
  {
    rejected, temporary, removed := [], {}, {};
    var processed := processed0;
    ghost var start, k := fs.disk, |fs.history|;
    var candidates := fs.disk.now.Keys;
    while candidates != {}
      invariant fs.Valid() && old(fs.history) <= fs.history
      invariant KeptSince(start, fs.history, k, removed) && Kept(start, fs.disk, removed)
      invariant forall n | n in removed :: n.BlockFile? && n !in processed0 && !Names(entries, n)
      invariant processed0 <= processed && candidates <= start.now.Keys
      invariant temporary == set n | n in start.now && n !in candidates && n.TempFile?
      decreases candidates
    {
      var path :| path in candidates;
      candidates := candidates - {path};
      if path.TempFile? {
        temporary := temporary + {path};
      } else if path.BlockFile? && path !in (set e | e in entries :: e.filename) {
        ghost var middle, m, before := fs.disk, |fs.history|, fs.history;
        var gone := RejectFile(fs, path, processed);
        assert fs.history[..m] == before;
        KeptExtends(start, middle, fs.disk, fs.history, k, m, removed, if gone then {path} else {});
        removed := removed + if gone then {path} else {};
        processed, rejected := processed + {path}, rejected + [path];
      }
    }
  }

  function Max(a: nat, b: nat): nat {
    if a < b then b else a
  }

  ghost predicate Covers(a: Accepted, term: nat) {
    a.entry.location.start <= term < a.entry.location.end
  }

  ghost predicate Covered(accepted: seq<Accepted>, term: nat) {
    exists a :: a in accepted && Covers(a, term)
  }

  ghost predicate InSome(ranges: seq<MissingRange>, term: nat) {
    exists m :: m in ranges && m.start <= term < m.end
  }

  /** Non-empty ranges in order, with something between any two. */
  ghost predicate Separate(ranges: seq<MissingRange>) {
    && (forall m | m in ranges :: m.start < m.end)
    && (forall i, j | 0 <= i < j < |ranges| :: ranges[i].end < ranges[j].start)
  }

  predicate StartsFirst(a: Accepted, b: Accepted) {
    a.entry.location.start <= b.entry.location.start
  }

  /** The missing ranges below the cursor; a block may still begin where the last one ends. */
  ghost predicate MissingBelow(missing: seq<MissingRange>, done: seq<Accepted>, cursor: nat) {
    && Separate(missing)
    && (forall m | m in missing :: m.end < cursor)
    && (forall a | a in done :: a.entry.location.end <= cursor)
    && (forall term: nat | term < cursor :: InSome(missing, term) <==> !Covered(done, term))
  }

  lemma OneMoreBlock(missing: seq<MissingRange>, done: seq<Accepted>, cursor: nat, next: Accepted)
    requires MissingBelow(missing, done, cursor) && next.entry.location.start < next.entry.location.end
    requires forall m | m in missing :: m.end <= next.entry.location.start
    ensures var l := next.entry.location;
            MissingBelow(if cursor < l.start then missing + [MissingRange(cursor, l.start)] else missing,
                         done + [next], Max(cursor, l.end))
  {
    var l := next.entry.location;
    var grown := if cursor < l.start then missing + [MissingRange(cursor, l.start)] else missing;
    forall term: nat | term < Max(cursor, l.end) ensures InSome(grown, term) <==> !Covered(done + [next], term) {
      assert Covered(done + [next], term) <==> Covered(done, term) || Covers(next, term) by {
        assert next in done + [next];
      }
      if cursor < l.start {
        assert MissingRange(cursor, l.start) in grown;
      }
      assert InSome(grown, term) <==> InSome(missing, term) || (cursor < l.start && cursor <= term < l.start);
    }
  }

  /** `complement`, with its running maximum: the ranges that no accepted block covers, whatever the order of the
      blocks and however they overlap. */
  method Complement(accepted: seq<Accepted>, termCount: nat) returns (missing: seq<MissingRange>)
    requires forall a | a in accepted :: a.entry.location.Valid(termCount)
    ensures Separate(missing)
    ensures forall term: nat :: InSome(missing, term) <==> term < termCount && !Covered(accepted, term)
  {
    var sorted := Sorting.Sort(accepted, StartsFirst);
    Sorting.SameElements(sorted, accepted);
    missing := [];
    var cursor: nat := 0;
    for i := 0 to |sorted|
      invariant cursor <= termCount && MissingBelow(missing, sorted[..i], cursor)
      invariant forall m, j | m in missing && i <= j < |sorted| :: m.end <= sorted[j].entry.location.start
    {
      var location := sorted[i].entry.location;
      assert sorted[i] in sorted && sorted[..i + 1] == sorted[..i] + [sorted[i]];
      OneMoreBlock(missing, sorted[..i], cursor, sorted[i]);
      if cursor < location.start {
        missing := missing + [MissingRange(cursor, location.start)];
      }
      cursor := Max(cursor, location.end);
    }
    assert sorted[..|sorted|] == sorted;
    assert forall term: nat :: Covered(sorted, term) <==> Covered(accepted, term);
    if cursor < termCount {
      LastGap(missing, sorted, cursor, termCount);
      missing := missing + [MissingRange(cursor, termCount)];
    }
  }

  lemma LastGap(missing: seq<MissingRange>, done: seq<Accepted>, cursor: nat, termCount: nat)
    requires MissingBelow(missing, done, cursor) && cursor < termCount
    ensures var all := missing + [MissingRange(cursor, termCount)];
            Separate(all) && forall term: nat :: InSome(all, term) <==> term < termCount && !Covered(done, term)
  {
    var last := MissingRange(cursor, termCount);
    var all := missing + [last];
    forall term: nat ensures InSome(all, term) <==> term < termCount && !Covered(done, term) {
      assert last in all;
      assert InSome(all, term) <==> InSome(missing, term) || cursor <= term < termCount;
    }
  }

  /** No other entry of the manifest uses its file name. */
  ghost predicate OwnName(e: ManifestEntry, manifest: seq<ManifestEntry>) {
    forall f | f in manifest && f != e :: f.filename != e.filename
  }

  ghost predicate ManifestOn(d: Disk, identity: Identity, manifest: seq<ManifestEntry>) {
    manifest == if LoadedManifest(d, identity).Some? then LoadedManifest(d, identity).value else []
  }

  lemma IsolatedIsInspected(manifest: seq<ManifestEntry>, validated: seq<ManifestEntry>, e: ManifestEntry,
                            processed: set<FileName>, termCount: nat) returns (j: nat)
    requires AcceptedOf(validated, manifest, termCount) && Isolated(e, manifest, termCount) && OwnName(e, manifest)
    requires forall n | n in processed :: exists f :: f in manifest && f !in validated && f.filename == n
    ensures j < |validated| && validated[j] == e && Unshared(validated, j) && e.filename !in processed
  {
    assert e in validated;
    j :| 0 <= j < |validated| && validated[j] == e;
    forall k | 0 <= k < |validated| && k != j ensures validated[k].filename != e.filename {
      assert validated[k] in validated;
      assert Isolated(validated[k], manifest, termCount);
      assert validated[k] in multiset(manifest);
    }
  }

  /** What a plan promises about the directory it was made from. */
  ghost predicate AcceptedFrom(accepted: seq<Accepted>, before: Disk, after: Disk, removed: set<FileName>,
                               identity: Identity, checksumOf: (BlockLocation, Pqt) -> nat, manifest: seq<ManifestEntry>)
  {
    && Kept(before, after, removed)
    && Disjoint(Entries(accepted))
    && (forall a | a in accepted :: Isolated(a.entry, manifest, identity.termCount) && a.entry.filename !in removed)
    && (forall a | a in accepted :: Sound(after, a.entry, a.v, identity, checksumOf))
    && (forall e, v | Isolated(e, manifest, identity.termCount) && OwnName(e, manifest)
                      && Sound(before, e, v, identity, checksumOf) :: Accepted(e, v) in accepted)
  }

  lemma WalkedIsAcceptedFrom(start: Disk, middle: Disk, d: Disk, manifest: seq<ManifestEntry>, validated: seq<ManifestEntry>,
                             accepted: seq<Accepted>, processed0: set<FileName>, processed: set<FileName>,
                             removed0: set<FileName>, removed: set<FileName>,
                             identity: Identity, checksumOf: (BlockLocation, Pqt) -> nat)
    requires AcceptedOf(validated, manifest, identity.termCount)
    requires Kept(start, middle, removed0) && Gone(middle, removed0) && removed0 <= processed0
    requires forall n | n in processed0 :: exists f :: f in manifest && f !in validated && f.filename == n
    requires Walked(middle, d, validated, |validated|, processed0, accepted, processed, removed, identity, checksumOf)
    ensures AcceptedFrom(accepted, start, d, removed0 + removed, identity, checksumOf, manifest)
    ensures forall n | n in removed0 + removed :: Names(manifest, n)
  {
    KeptLater(start, middle, d, removed0, removed);
    assert validated[..|validated|] == validated;
    forall a | a in accepted
      ensures Isolated(a.entry, manifest, identity.termCount) && a.entry.filename !in removed0 + removed
    {
      assert a.entry in validated && Sound(d, a.entry, a.v, identity, checksumOf);
    }
    forall e, v | Isolated(e, manifest, identity.termCount) && OwnName(e, manifest)
                  && Sound(start, e, v, identity, checksumOf)
      ensures Accepted(e, v) in accepted
    {
      var j := IsolatedIsInspected(manifest, validated, e, processed0, identity.termCount);
      assert middle.Current(e.filename) == start.Current(e.filename);
      assert Sound(middle, validated[j], v, identity, checksumOf);
    }
    forall n | n in removed0 + removed ensures Names(manifest, n) {
      if n !in processed0 {
        assert Names(validated[..|validated|], n);
        var e :| e in validated && e.filename == n;
        assert Isolated(e, manifest, identity.termCount);
        assert e in multiset(manifest);
      }
    }
  }

  /** The two walks over the manifest. */
  method AcceptBlocks(fs: Filesystem, manifest: seq<ManifestEntry>, validated: seq<ManifestEntry>, identity: Identity,
                      checksumOf: (BlockLocation, Pqt) -> nat)
    returns (accepted: seq<Accepted>, processed: set<FileName>, rejected: seq<FileName>, ghost removed: set<FileName>)
    requires fs.Valid() && AcceptedOf(validated, manifest, identity.termCount)
    modifies fs`disk, fs`history, fs`failed
    ensures fs.Valid() && old(fs.history) <= fs.history
    ensures KeptSince(old(fs.disk), fs.history, |old(fs.history)|, removed)
    ensures AcceptedFrom(accepted, old(fs.disk), fs.disk, removed, identity, checksumOf, manifest)
    ensures forall n | n in removed :: Names(manifest, n)
  {
    ghost var start, k := fs.disk, |fs.history|;
    var listed;
    ghost var removed0;
    processed, listed, removed0 := RejectListed(fs, manifest, validated);
    ghost var middle, m, before, processed0 := fs.disk, |fs.history|, fs.history, processed;
    accepted, processed, rejected, removed := InspectAccepted(fs, validated, processed, identity, checksumOf);
    rejected := listed + rejected;
    assert fs.history[..m] == before;
    KeptExtends(start, middle, fs.disk, fs.history, k, m, removed0, removed);
    WalkedIsAcceptedFrom(start, middle, fs.disk, manifest, validated, accepted, processed0, processed, removed0, removed,
                         identity, checksumOf);
    removed := removed0 + removed;
  }

  lemma StraysDoNotMatter(accepted: seq<Accepted>, before: Disk, middle: Disk, d: Disk, removed: set<FileName>,
                          strays: set<FileName>, identity: Identity, checksumOf: (BlockLocation, Pqt) -> nat,
                          manifest: seq<ManifestEntry>)
    requires AcceptedFrom(accepted, before, middle, removed, identity, checksumOf, manifest)
    requires Kept(middle, d, strays) && forall n | n in strays :: !Names(manifest, n)
    ensures AcceptedFrom(accepted, before, d, removed + strays, identity, checksumOf, manifest)
  {
    KeptLater(before, middle, d, removed, strays);
    forall a | a in accepted ensures a.entry.filename !in strays {
      assert a.entry in multiset(manifest);
      assert Names(manifest, a.entry.filename);
    }
    StillAccepted(middle, d, accepted, strays, identity, checksumOf);
  }

  /** `create`. Everything accepted is sound and stays in place; every sound block of the frontier is
      accepted; nothing but rejected files leaves the directory, at any moment. */
  method Create(fs: Filesystem, identity: Identity, checksumOf: (BlockLocation, Pqt) -> nat)
    returns (plan: ResumePlan, ghost removed: set<FileName>, ghost manifest: seq<ManifestEntry>)
    requires fs.Valid()
    modifies fs`disk, fs`history, fs`failed
    ensures fs.Valid() && old(fs.history) <= fs.history
    ensures ManifestOn(old(fs.disk), identity, manifest)
    ensures KeptSince(old(fs.disk), fs.history, |old(fs.history)|, removed)
    ensures AcceptedFrom(plan.accepted, old(fs.disk), fs.disk, removed, identity, checksumOf, manifest)
    ensures ManifestFile in removed ==> Names(manifest, ManifestFile)
    ensures Separate(plan.rangesToRecalculate)
    ensures forall term: nat ::
      InSome(plan.rangesToRecalculate, term) <==> term < identity.termCount && !Covered(plan.accepted, term)
  {
    ghost var start, k := fs.disk, |fs.history|;
    var loaded := LoadedManifest(fs.disk, identity);
    var entries := if loaded.Some? then loaded.value else [];
    manifest := entries;
    var validation := ManifestValidator.Validate(CheckpointManifest(identity, entries), identity);
    assert AcceptedOf(validation.acceptedEntries, entries, identity.termCount);
    var accepted, processed, rejected;
    accepted, processed, rejected, removed := AcceptBlocks(fs, entries, validation.acceptedEntries, identity, checksumOf);
    ghost var middle, m, before := fs.disk, |fs.history|, fs.history;
    var strayFiles, temporary;
    ghost var strays;
    strayFiles, temporary, strays := RejectUnexpected(fs, entries, processed);
    assert fs.history[..m] == before;
    KeptExtends(start, middle, fs.disk, fs.history, k, m, removed, strays);
    StraysDoNotMatter(accepted, start, middle, fs.disk, removed, strays, identity, checksumOf, entries);
    removed := removed + strays;
    forall a | a in accepted ensures a.entry.location.Valid(identity.termCount) {
      assert Sound(fs.disk, a.entry, a.v, identity, checksumOf);
    }
    var missing := Complement(accepted, identity.termCount);
    plan := ResumePlan(accepted, rejected + strayFiles, temporary, missing);
  }
}
