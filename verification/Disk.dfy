/** A checkpoint directory that can lose power. `now` is what a running process sees; `maybe` are the
    earlier states of a name that a crash may bring back, because no directory sync has followed. */
module Disk {
  import opened Chudnovsky
  import opened CheckpointTypes

  /** What readers make of a file: a decodable block, a decodable manifest, or neither. */
  datatype Content = Block(location: BlockLocation, v: Pqt) | Manifest(entries: seq<ManifestEntry>) | Garbage

  /** Synced data survives a crash; unsynced data may come back as anything. */
  datatype File = File(content: Content, synced: bool)

  datatype Disk = Disk(now: map<FileName, File>, maybe: map<FileName, set<Option<File>>>) {

    function Current(n: FileName): Option<File> {
      if n in now then Some(now[n]) else None
    }

    /** Every directory state of a name that a crash at this moment may leave. */
    function After(n: FileName): (states: set<Option<File>>)
      ensures Current(n) in states
    {
      {Current(n)} + (if n in maybe then maybe[n] else {})
    }

    /** Only one outcome is possible for this name. */
    predicate Durable(n: FileName, f: Option<File>) {
      After(n) == {f}
    }

    /** One name changes; its earlier states stay possible. */
    function Put(n: FileName, f: Option<File>): (d: Disk)
      ensures d.Current(n) == f && d.After(n) == After(n) + {f}
      ensures forall m | m != n :: d.Current(m) == Current(m) && d.After(m) == After(m)
    {
      Disk(if f.Some? then now[n := f.value] else now - {n}, maybe[n := After(n)])
    }

    /** A directory sync: the visible names are now the only possible ones. */
    function Settled(): (d: Disk)
      ensures forall n :: d.Current(n) == Current(n) && d.Durable(n, Current(n))
    {
      Disk(now, map[])
    }
  }

  /** What becomes of one directory state when the power fails. */
  predicate Survives(before: Option<File>, after: Option<File>) {
    match before
    case None => after.None?
    case Some(f) => after.Some? && after.value.synced && (f.synced ==> after.value.content == f.content)
  }

  /** A crash decides every name on its own. */
  predicate CrashOf(d: Disk, after: Disk) {
    && after.maybe == map[]
    && forall n | n in d.now.Keys + d.maybe.Keys + after.now.Keys ::
         exists o | o in d.After(n) :: Survives(o, after.Current(n))
  }

  lemma CrashPicks(d: Disk, after: Disk, n: FileName) returns (o: Option<File>)
    requires CrashOf(d, after)
    ensures o in d.After(n) && Survives(o, after.Current(n))
    ensures after.Durable(n, after.Current(n))
  {
    if n in d.now.Keys + d.maybe.Keys + after.now.Keys {
      o :| o in d.After(n) && Survives(o, after.Current(n));
    } else {
      o := None;
    }
  }

  /** A durable, synced file comes back unchanged from any crash. */
  lemma DurableSurvives(d: Disk, after: Disk, n: FileName, f: File)
    requires CrashOf(d, after) && d.Durable(n, Some(f)) && f.synced
    ensures after.Durable(n, Some(f))
  {
    var o := CrashPicks(d, after, n);
    assert o == Some(f);
  }

  /** The system calls, each of them one state of the directory. Any of them may fail. */
  class Filesystem {
    var disk: Disk

    /** The process-wide counter behind temporary names. */
    var tempSequence: nat

    /** Every state since the process started, the present one last: a crash may strike at any of them. */
    var history: seq<Disk>

    /** A system call has failed, or no free temporary name was found. */
    ghost var failed: bool

    ghost predicate Valid()
      reads this
    {
      history != [] && history[|history| - 1] == disk
    }

    constructor (disk: Disk, tempSequence: nat)
      ensures Valid() && this.disk == disk && history == [disk] && !failed
    {
      this.disk, this.tempSequence, this.history := disk, tempSequence, [disk];
      this.failed := false;
    }

    method Step(next: Disk)
      requires Valid()
      modifies this`disk, this`history
      ensures Valid() && disk == next && history == old(history) + [next]
    {
      disk := next;
      history := history + [next];
    }

    /** open with O_CREAT and O_EXCL. */
    method CreateExclusive(n: FileName) returns (created: bool, taken: bool)
      requires Valid()
      modifies this`disk, this`history, this`failed
      ensures Valid() && history == old(history) + [disk]
      ensures created ==> n !in old(disk).now && disk == old(disk).Put(n, Some(File(Garbage, false)))
      ensures !created ==> disk == old(disk)
      ensures failed <==> old(failed) || (!created && !taken)
    {
      var denied := *;
      if n in disk.now || denied {
        created, taken := false, n in disk.now;
        failed := failed || !taken;
        Step(disk);
      } else {
        created, taken := true, false;
        Step(disk.Put(n, Some(File(Garbage, false))));
      }
    }

    /** write: part of the remaining bytes, nothing, or an error (negative). */
    method WriteSome(n: FileName, content: Content, offset: nat, size: nat) returns (written: int)
      requires Valid() && n in disk.now && offset < size
      modifies this`disk, this`history, this`failed
      ensures Valid() && history == old(history) + [disk]
      ensures written <= size - offset
      ensures written <= 0 ==> disk == old(disk)
      ensures written > 0 ==>
        disk == old(disk).Put(n, Some(File(if offset + written == size then content else Garbage, false)))
      ensures failed <==> old(failed) || written <= 0
    {
      written := *;
      if written > size - offset {
        written := size - offset;
      }
      if written > 0 {
        Step(disk.Put(n, Some(File(if offset + written == size then content else Garbage, false))));
      } else {
        failed := true;
        Step(disk);
      }
    }

    method SyncFile(n: FileName) returns (ok: bool)
      requires Valid() && n in disk.now
      modifies this`disk, this`history, this`failed
      ensures Valid() && history == old(history) + [disk]
      ensures disk == if ok then old(disk).Put(n, Some(old(disk).now[n].(synced := true))) else old(disk)
      ensures failed <==> old(failed) || !ok
    {
      ok := *;
      if ok {
        Step(disk.Put(n, Some(disk.now[n].(synced := true))));
      } else {
        failed := true;
        Step(disk);
      }
    }

    method Rename(source: FileName, destination: FileName) returns (ok: bool)
      requires Valid() && source in disk.now
      modifies this`disk, this`history, this`failed
      ensures Valid() && history == old(history) + [disk]
      ensures disk == if ok then old(disk).Put(destination, Some(old(disk).now[source])).Put(source, None)
                      else old(disk)
      ensures failed <==> old(failed) || !ok
    {
      ok := *;
      if ok {
        Step(disk.Put(destination, Some(disk.now[source])).Put(source, None));
      } else {
        failed := true;
        Step(disk);
      }
    }

    method SyncDirectory() returns (ok: bool)
      requires Valid()
      modifies this`disk, this`history, this`failed
      ensures Valid() && history == old(history) + [disk]
      ensures disk == if ok then old(disk).Settled() else old(disk)
      ensures failed <==> old(failed) || !ok
    {
      ok := *;
      if ok {
        Step(disk.Settled());
      } else {
        failed := true;
        Step(disk);
      }
    }

    /** Any other call on the way: mkdir, close, or memory for an encoding. */
    method Attempt() returns (ok: bool)
      modifies this`failed
      ensures failed <==> old(failed) || !ok
    {
      ok := *;
      failed := failed || !ok;
    }

    /** unlink, or a rename to another directory. */
    method Unlink(n: FileName) returns (ok: bool)
      requires Valid()
      modifies this`disk, this`history, this`failed
      ensures Valid() && history == old(history) + [disk]
      ensures disk == if ok then old(disk).Put(n, None) else old(disk)
      ensures failed <==> old(failed) || !ok
    {
      ok := *;
      if ok {
        Step(disk.Put(n, None));
      } else {
        failed := true;
        Step(disk);
      }
    }
  }
}
