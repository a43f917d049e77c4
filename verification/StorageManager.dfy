/** The chunk store behind out-of-core merging: chunk files, the chunk index, and the set of stores
    in flight (src/storage/StorageManager.cpp, src/storage/ChunkIndex.cpp, src/storage/ChunkStore.cpp).
    One computation; a chunk is identified by its location, whose tree level is the merge level. */
module StorageManager {
  import opened Chudnovsky
  import opened CheckpointTypes
  import opened GmpSerialization

  const MAX_CHUNK_PAYLOAD_BYTES: nat := 0x4000_0000

  datatype ChunkMetadata = ChunkMetadata(uncompressedSize: nat, storedSize: nat, checksum: nat)

  datatype Chunk = Chunk(location: BlockLocation, v: Pqt, metadata: ChunkMetadata)

  /** A chunk file: complete, or something every reader refuses. */
  datatype ChunkFile = Intact(chunk: Chunk) | Damaged

  /** `ChunkIndex::add` accepts a location that is not indexed and overlaps no indexed chunk of its level. */
  predicate Accepts(indexed: set<BlockLocation>, termCount: nat, l: BlockLocation) {
    && l.Valid(termCount)
    && l !in indexed
    && forall other | other in indexed :: !(other.treeLevel == l.treeLevel && other.Overlaps(l))
  }

  /** A shorter index accepts no less, and entries apart from the location do not matter. */
  lemma AcceptsWithout(indexed: set<BlockLocation>, more: set<BlockLocation>, termCount: nat, l: BlockLocation)
    requires indexed <= more
    ensures Accepts(more, termCount, l) ==> Accepts(indexed, termCount, l)
    ensures (forall other | other in more - indexed :: other != l && !other.Overlaps(l)) ==>
              (Accepts(more, termCount, l) <==> Accepts(indexed, termCount, l))
  {
    assert forall other | other in more :: other in indexed || other in more - indexed;
  }

  datatype LoadResult = Absent | Loaded(v: Pqt) | LoadThrew

  class StorageManager {
    const termCount: nat
    const memoryBudgetBytes: nat

    /** Compressed size and CRC32C of a chunk: any functions of what the chunk holds. */
    const storedSizeOf: Pqt -> nat
    const checksumOf: (BlockLocation, Pqt) -> nat

    /** `PayloadSize`, as a value: all that matters here is that only a node without values has none. */
    const payloadSizeOf: Pqt -> nat

    var files: map<BlockLocation, ChunkFile>
    var index: map<BlockLocation, ChunkMetadata>
    var inFlight: set<BlockLocation>

    /** What an intact file under an indexed name holds. */
    ghost var contents: map<BlockLocation, Pqt>

    /** A write has failed, or was called off, for a reason other than what the index says. */
    ghost var interrupted: bool

    /** An indexed chunk has lost its intact file, or reading or removing one has failed. */
    ghost var disturbed: bool

    ghost predicate Valid()
      reads this
    {
      && contents.Keys == index.Keys
      && inFlight !! index.Keys
      && (forall l | l in index && l in files && files[l].Intact? && Matches(files[l].chunk, l) ::
            files[l].chunk.v == contents[l])
      && (!disturbed ==> AllIntact())
      && forall v :: payloadSizeOf(v) > 0 <==> v.p != 0 || v.q != 0 || v.t != 0
    }

    /** Every indexed chunk can be read. */
    ghost predicate AllIntact()
      reads this
    {
      forall l | l in index :: l in files && files[l].Intact? && Matches(files[l].chunk, l)
    }

    /** What `load` compares between the file it read and the index entry. */
    predicate Matches(chunk: Chunk, l: BlockLocation)
      requires l in index
      reads this
    {
      && chunk.location == l
      && chunk.metadata.storedSize == index[l].storedSize
      && chunk.metadata.checksum == index[l].checksum
    }

    function CreateMetadata(location: BlockLocation, v: Pqt): ChunkMetadata {
      ChunkMetadata(payloadSizeOf(v), storedSizeOf(v), checksumOf(location, v))
    }

    predicate SizeFits(v: Pqt) {
      payloadSizeOf(v) <= MAX_CHUNK_PAYLOAD_BYTES && storedSizeOf(v) <= MAX_CHUNK_PAYLOAD_BYTES
    }

    predicate IndexAccepts(l: BlockLocation)
      reads this
    {
      Accepts(index.Keys, termCount, l)
    }

    /** A manager opened on a directory: the index file and the chunk files of earlier runs come along. */
    constructor (termCount: nat, memoryBudgetBytes: nat, storedSizeOf: Pqt -> nat,
                 checksumOf: (BlockLocation, Pqt) -> nat,
                 files: map<BlockLocation, ChunkFile>, index: map<BlockLocation, ChunkMetadata>)
      ensures Valid()
      ensures this.termCount == termCount && this.memoryBudgetBytes == memoryBudgetBytes
      ensures this.storedSizeOf == storedSizeOf && this.checksumOf == checksumOf
      ensures forall v :: payloadSizeOf(v) == PayloadSize(v)
      ensures this.files == files && this.index == index && inFlight == {} && !interrupted
      ensures index == map[] ==> !disturbed
    {
      this.termCount, this.memoryBudgetBytes := termCount, memoryBudgetBytes;
      this.storedSizeOf, this.checksumOf, this.payloadSizeOf := storedSizeOf, checksumOf, PayloadSize;
      this.files, this.index, this.inFlight := files, index, {};
      this.interrupted := false;
      this.contents := map l | l in index ::
        if l in files && files[l].Intact? then files[l].chunk.v else Pqt(0, 0, 0);
      new;
      disturbed := !AllIntact();
    }

    // ---------- the three steps of a store; other threads may run between them ----------

    /** First critical section: refuse a duplicate, otherwise claim the name. */
    method BeginStore(l: BlockLocation) returns (ok: bool)
      requires Valid()
      modifies this`inFlight
      ensures Valid()
      ensures ok <==> l !in index && l !in old(inFlight)
      ensures inFlight == if ok then old(inFlight) + {l} else old(inFlight)
    {
      if l in index || l in inFlight {
        return false;
      }
      inFlight := inFlight + {l};
      ok := true;
    }

    /** The file write, outside the lock. A failed write may leave the old or the new file. */
    method WriteChunk(chunk: Chunk) returns (ok: bool)
      requires Valid() && chunk.location in inFlight
      modifies this`files, this`interrupted
      ensures Valid() && (interrupted <==> old(interrupted) || !ok)
      ensures ok ==> files == old(files)[chunk.location := Intact(chunk)]
      ensures !ok ==> files == old(files) || files == old(files)[chunk.location := Intact(chunk)]
    {
      var wrote, synced := *, *;
      if wrote {
        files := files[chunk.location := Intact(chunk)];
      }
      ok := wrote && synced;
      interrupted := interrupted || !ok;
    }

    /** Second critical section: add to the index, publish it, release the name. */
    method PublishStore(chunk: Chunk) returns (ok: bool)
      requires Valid() && chunk.location in inFlight
      requires chunk.location in files && files[chunk.location].Intact? ==> files[chunk.location].chunk == chunk
      modifies this`index, this`inFlight, this`contents, this`interrupted, this`disturbed
      ensures Valid() && (old(interrupted) ==> interrupted) && (old(disturbed) ==> disturbed)
      ensures !ok && !interrupted ==> !old(IndexAccepts(chunk.location))
      ensures ok ==>
        && old(IndexAccepts(chunk.location))
        && index == old(index)[chunk.location := chunk.metadata]
        && contents == old(contents)[chunk.location := chunk.v]
        && inFlight == old(inFlight) - {chunk.location}
      ensures !ok ==> index == old(index) && contents == old(contents) && inFlight == old(inFlight)
      ensures !ok || (chunk.location in files && files[chunk.location].Intact?) ==> disturbed == old(disturbed)
    {
      var saved := *;
      if !IndexAccepts(chunk.location) {
        return false;
      }
      if !saved {
        interrupted := true;
        return false;
      }
      index := index[chunk.location := chunk.metadata];
      contents := contents[chunk.location := chunk.v];
      inFlight := inFlight - {chunk.location};
      disturbed := disturbed || !AllIntact();
      ok := true;
    }

    /** The catch block: drop the file if that is possible, release the name. */
    method AbortStore(l: BlockLocation)
      requires Valid() && l in inFlight
      modifies this`files, this`inFlight
      ensures Valid()
      ensures inFlight == old(inFlight) - {l}
      ensures files == old(files) || files == old(files) - {l}
    {
      var removed := *;
      if removed {
        files := files - {l};
      }
      inFlight := inFlight - {l};
    }

    /** `store` by one thread. */
    method Store(chunk: Chunk) returns (ok: bool)
      requires Valid()
      modifies this
      ensures Valid() && inFlight == old(inFlight) && (old(interrupted) ==> interrupted)
      ensures disturbed == old(disturbed)
      ensures !ok && !interrupted ==> !old(IndexAccepts(chunk.location)) || chunk.location in old(inFlight)
      ensures ok ==>
        && old(IndexAccepts(chunk.location)) && chunk.location !in old(inFlight)
        && index == old(index)[chunk.location := chunk.metadata]
        && contents == old(contents)[chunk.location := chunk.v]
        && files == old(files)[chunk.location := Intact(chunk)]
      ensures !ok ==>
        && index == old(index) && contents == old(contents)
        && files - {chunk.location} == old(files) - {chunk.location}
      ensures forall l | l != chunk.location :: l in files <==> l in old(files)
    {
      ghost var here, files0 := chunk.location, files;
      ok := BeginStore(chunk.location);
      if !ok {
        return;
      }
      ok := WriteChunk(chunk);
      if ok {
        ok := PublishStore(chunk);
      }
      if !ok {
        AbortStore(chunk.location);
      }
      forall l | l != here ensures l in files <==> l in files0 {
        assert l in files - {here} <==> l in files0 - {here};
      }
    }

    // ---------- reading and removing ----------

    /** `load`: an indexed name whose file is complete, is this chunk, and matches the index entry. */
    method Load(l: BlockLocation) returns (r: LoadResult, ghost unreadable: bool)
      requires Valid()
      ensures l !in index ==> r.Absent?
      ensures r.Loaded? ==> l in index && r.v == contents[l]
      ensures l in index && l !in files ==> r.Absent?
      ensures l in index && !disturbed && !unreadable ==> r.Loaded?
    {
      unreadable := false;
      if l !in index {
        return Absent, unreadable;
      }
      if l !in files {
        return Absent, unreadable;
      }
      var readable := *;
      unreadable := !readable;
      if !readable || files[l].Damaged? {
        return LoadThrew, unreadable;
      }
      var chunk := files[l].chunk;
      if chunk.location != l {
        return LoadThrew, unreadable;
      }
      if chunk.metadata.storedSize != index[l].storedSize || chunk.metadata.checksum != index[l].checksum {
        return LoadThrew, unreadable;
      }
      r := Loaded(chunk.v);
    }

    predicate Contains(l: BlockLocation)
      reads this
    {
      l in index && l in files
    }

    /** `remove`: the file first, then the index entry. An exception may leave the entry behind. */
    method Remove(l: BlockLocation) returns (ok: bool)
      requires Valid()
      modifies this`files, this`index, this`contents, this`disturbed
      ensures Valid() && (disturbed <==> old(disturbed) || (!ok && old(Contains(l))))
      ensures ok ==>
        && old(Contains(l)) && files == old(files) - {l} && index == old(index) - {l}
        && contents == old(contents) - {l}
      ensures !ok ==>
        && index == old(index) && contents == old(contents)
        && (files == old(files) || files == old(files) - {l})
    {
      if l !in index || l !in files {
        return false;
      }
      var removed, published := *, *;
      if !removed {
        disturbed := true;
        return false;
      }
      files := files - {l};
      if !published {
        disturbed := true;
        return false;
      }
      index := index - {l};
      contents := contents - {l};
      ok := true;
    }

    /** The environment may damage or delete chunk files at any time. */
    method Disturb()
      requires Valid()
      modifies this`files, this`disturbed
      ensures Valid() && (old(disturbed) ==> disturbed)
      ensures forall l | l in files :: l in old(files) && (files[l] == old(files)[l] || files[l].Damaged?)
    {
      var lost: set<BlockLocation>, damaged: set<BlockLocation> := *, *;
      files := map l | l in files && l !in lost :: if l in damaged then Damaged else files[l];
      disturbed := disturbed || !AllIntact();
    }
  }
}
