/** Replacing a file atomically: temporary file, write, file sync, close, rename, directory sync
    (src/checkpoint/AtomicFileCommit.cpp). */
module AtomicFileCommit {
  import opened CheckpointTypes
  import opened Disk

  const MAXIMUM_ATTEMPTS: nat := 128

  /** Nothing but temporary names differs. */
  ghost predicate FinalNamesKept(before: Disk, d: Disk) {
    forall n: FileName | !n.TempFile? :: d.Current(n) == before.Current(n) && d.After(n) == before.After(n)
  }

  /** A directory state met while `destination` is being replaced, seen from the state before: the
      destination is as before or completely new, every other final name is untouched. */
  ghost predicate Between(before: Disk, d: Disk, destination: FileName, f: File) {
    && (d.Current(destination) == before.Current(destination) || d.Current(destination) == Some(f))
    && d.After(destination) <= before.After(destination) + {Some(f)}
    && forall n: FileName | n != destination && !n.TempFile? ::
         d.Current(n) == before.Current(n) && d.After(n) <= before.After(n)
  }

  /** The replacement is durable, and with it every earlier directory change. */
  ghost predicate Replaced(before: Disk, d: Disk, destination: FileName, f: File) {
    && d.Durable(destination, Some(f))
    && forall n: FileName | n != destination && !n.TempFile? :: d.Durable(n, before.Current(n))
  }

  /** `createTempPath`: a name nobody uses, within 128 attempts. */
  method CreateTempPath(fs: Filesystem) returns (temp: Option<FileName>)
    requires fs.Valid()
    modifies fs
    ensures fs.Valid() && old(fs.history) <= fs.history && FinalNamesKept(old(fs.disk), fs.disk)
    ensures forall i | |old(fs.history)| <= i < |fs.history| :: FinalNamesKept(old(fs.disk), fs.history[i])
    ensures temp.Some? ==> temp.value.TempFile? && temp.value in fs.disk.now
    ensures (old(fs.failed) ==> fs.failed) && (temp.None? ==> fs.failed)
  {
    var attempt := 0;
    while attempt < MAXIMUM_ATTEMPTS
      invariant fs.Valid() && old(fs.history) <= fs.history && FinalNamesKept(old(fs.disk), fs.disk)
      invariant forall i | |old(fs.history)| <= i < |fs.history| :: FinalNamesKept(old(fs.disk), fs.history[i])
      invariant old(fs.failed) ==> fs.failed
    {
      var candidate := TempFile(fs.tempSequence);
      fs.tempSequence := fs.tempSequence + 1;
      var created, taken := fs.CreateExclusive(candidate);
      if created {
        return Some(candidate);
      }
      if !taken {
        return None;
      }
      attempt := attempt + 1;
    }
    temp := None;
    fs.failed := true;
  }

  /** `writeAll`: every byte, or a failure. */
  method WriteAll(fs: Filesystem, temp: FileName, content: Content, size: nat) returns (ok: bool)
    requires fs.Valid() && temp.TempFile? && temp in fs.disk.now && size > 0
    modifies fs`disk, fs`history, fs`failed
    ensures fs.Valid() && old(fs.history) <= fs.history && FinalNamesKept(old(fs.disk), fs.disk)
    ensures forall i | |old(fs.history)| <= i < |fs.history| :: FinalNamesKept(old(fs.disk), fs.history[i])
    ensures temp in fs.disk.now && (ok ==> fs.disk.now[temp].content == content)
    ensures (old(fs.failed) ==> fs.failed) && (!ok ==> fs.failed)
  {
    var offset := 0;
    while offset < size
      invariant 0 <= offset <= size && temp in fs.disk.now
      invariant offset == size ==> fs.disk.now[temp].content == content
      invariant fs.Valid() && old(fs.history) <= fs.history && FinalNamesKept(old(fs.disk), fs.disk)
      invariant forall i | |old(fs.history)| <= i < |fs.history| :: FinalNamesKept(old(fs.disk), fs.history[i])
      invariant old(fs.failed) ==> fs.failed
    {
      var written := fs.WriteSome(temp, content, offset, size);
      if written <= 0 {
        return false;
      }
      offset := offset + written;
      assert fs.disk.Current(temp).Some?;
    }
    ok := true;
  }

  /** Everything up to the rename happens under the temporary name. */
  method Stage(fs: Filesystem, content: Content, size: nat) returns (temp: Option<FileName>, ok: bool)
    requires fs.Valid() && size > 0
    modifies fs
    ensures fs.Valid() && old(fs.history) <= fs.history && FinalNamesKept(old(fs.disk), fs.disk)
    ensures forall i | |old(fs.history)| <= i < |fs.history| :: FinalNamesKept(old(fs.disk), fs.history[i])
    ensures temp.Some? ==> temp.value.TempFile? && temp.value in fs.disk.now
    ensures ok ==> temp.Some? && fs.disk.now[temp.value] == File(content, true)
    ensures (old(fs.failed) ==> fs.failed) && (!ok ==> fs.failed)
  {
    temp := CreateTempPath(fs);
    if temp.None? {
      return None, false;
    }
    ok := WriteAll(fs, temp.value, content, size);
    if ok {
      ok := fs.SyncFile(temp.value);
      assert fs.disk.Current(temp.value).Some?;
    }
    if ok {
      // close may report a deferred error
      ok := fs.Attempt();
    }
  }

  /** Rename and directory sync. */
  method Publish(fs: Filesystem, temp: FileName, destination: FileName) returns (renamed: bool, ok: bool)
    requires fs.Valid() && temp.TempFile? && !destination.TempFile? && temp in fs.disk.now
    modifies fs`disk, fs`history, fs`failed
    ensures fs.Valid() && old(fs.history) <= fs.history
    ensures forall i | |old(fs.history)| <= i < |fs.history| ::
              Between(old(fs.disk), fs.history[i], destination, old(fs.disk).now[temp])
    ensures Between(old(fs.disk), fs.disk, destination, old(fs.disk).now[temp])
    ensures ok ==> renamed && Replaced(old(fs.disk), fs.disk, destination, old(fs.disk).now[temp])
    ensures (old(fs.failed) ==> fs.failed) && (!ok ==> fs.failed)
  {
    ghost var f := fs.disk.now[temp];
    ok := fs.Rename(temp, destination);
    renamed := ok;
    if ok {
      ok := fs.SyncDirectory();
    }
  }

  lemma BetweenLater(before: Disk, middle: Disk, d: Disk, destination: FileName, f: File)
    requires !destination.TempFile? && FinalNamesKept(before, middle) && Between(middle, d, destination, f)
    ensures Between(before, d, destination, f)
    ensures Replaced(middle, d, destination, f) ==> Replaced(before, d, destination, f)
  {
  }

  lemma KeptIsBetween(before: Disk, d: Disk, destination: FileName, f: File)
    requires !destination.TempFile? && FinalNamesKept(before, d)
    ensures Between(before, d, destination, f)
  {
  }

  lemma BetweenThenKept(before: Disk, middle: Disk, d: Disk, destination: FileName, f: File)
    requires !destination.TempFile? && Between(before, middle, destination, f) && FinalNamesKept(middle, d)
    ensures Between(before, d, destination, f)
  {
  }

  /** `AtomicFileCommit::write`. Whatever fails and wherever the power goes, the destination is either
      untouched or complete, no other final name changes, and success means durable. */
  method Write(fs: Filesystem, destination: FileName, content: Content, size: nat) returns (ok: bool)
    requires fs.Valid() && !destination.TempFile? && size > 0
    modifies fs
    ensures fs.Valid() && old(fs.history) <= fs.history
    ensures forall i | |old(fs.history)| <= i < |fs.history| ::
              Between(old(fs.disk), fs.history[i], destination, File(content, true))
    ensures Between(old(fs.disk), fs.disk, destination, File(content, true))
    ensures ok ==> Replaced(old(fs.disk), fs.disk, destination, File(content, true))
    ensures (old(fs.failed) ==> fs.failed) && (!ok ==> fs.failed)
  {
    ghost var f, before := File(content, true), fs.disk;
    var temp, staged := Stage(fs, content, size);
    ghost var middle, k := fs.disk, |fs.history|;
    forall i | |old(fs.history)| <= i < k ensures Between(before, fs.history[i], destination, f) {
      KeptIsBetween(before, fs.history[i], destination, f);
    }
    KeptIsBetween(before, fs.disk, destination, f);
    ok := false;
    var renamed := false;
    if staged {
      renamed, ok := Publish(fs, temp.value, destination);
      forall i | k <= i < |fs.history| ensures Between(before, fs.history[i], destination, f) {
        BetweenLater(before, middle, fs.history[i], destination, f);
      }
      BetweenLater(before, middle, fs.disk, destination, f);
    }
    if !ok && !renamed && temp.Some? {
      ghost var last := fs.disk;
      var removed := fs.Unlink(temp.value);
      BetweenThenKept(before, last, fs.disk, destination, f);
    }
  }

  /** After a crash in the middle, the destination holds what it could have held before, or the whole
      new file. */
  lemma AtomicAfterCrash(before: Disk, d: Disk, after: Disk, destination: FileName, f: File)
    requires Between(before, d, destination, f) && f.synced && CrashOf(d, after)
    ensures after.Durable(destination, Some(f))
            || exists o :: o in before.After(destination) && Survives(o, after.Current(destination))
  {
    var o := CrashPicks(d, after, destination);
    assert o in before.After(destination) || o == Some(f);
  }
}
