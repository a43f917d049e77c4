/** Where the integrity layer and the recovery meet: what a reader makes of the bytes of a block file, so that
    the contents, sizes and checksums the checkpoint modules speak of are those of actual bytes
    (src/checkpoint/CheckpointFileInspector.cpp, src/checkpoint/ManifestEntryValidator.cpp). */
module BlockFiles {
  import opened BlockFormat
  import opened BlockIntegrity
  import opened BlockValidator
  import opened ByteFields
  import opened CheckpointTypes
  import opened Chudnovsky
  import opened ComputationIdentity
  import opened GmpSerialization
  import opened Widths
  import C = Crc32c
  import D = Disk
  import F = FrontierWriter
  import P = ResumePlanner
  import Safety = CheckpointSafety
  import ModularVerifier

  /** A block file whose bytes the validator takes is that block; any other is of no use. */
  function Reading(bytes: seq<byte>, identity: Identity): D.Content {
    if Acceptable(bytes, identity) then D.Block(LocationIn(bytes), BlockIn(bytes).v) else D.Garbage
  }

  /** The checksum an entry records: that of the encoded block. */
  function ChecksumOf(identity: Identity): (BlockLocation, Pqt) -> nat {
    (l, v) => Crc(BeforeChecksum(CheckpointBlock(identity, l, v)) + [0, 0, 0, 0] + AfterChecksum(v))
  }

  lemma MagnitudesAreCounted(v: Pqt)
    ensures |Payload(v)| == PayloadSize(v)
  {
    SizeIsMinimal(v.p);
    SizeIsMinimal(v.q);
    SizeIsMinimal(v.t);
  }

  lemma {:induction false} Pow2OfBytes(width: nat)
    ensures Pow2(8 * width) == Pow256(width)
  {
    if width > 0 {
      Pow2OfBytes(width - 1);
      C.Pow2Sum(8, 8 * (width - 1));
      assert Pow2(8) == 256;
    }
  }

  lemma LevelsAreNarrow(termCount: nat)
    requires termCount <= U64_MAX
    ensures MaximumTreeLevel(termCount) <= 64
  {
    var level := MaximumTreeLevel(termCount);
    if level > 64 {
      Pow256Widths();
      Pow2OfBytes(8);
      Pow2Monotone(64, level - 1);
    }
  }

  /** What is written for a node of a frontier reads back as that block, with the recorded size and checksum. */
  lemma WrittenReadsBack(identity: Identity, l: BlockLocation, v: Pqt)
    requires identity.Valid() && l.Valid(identity.termCount) && l.treeLevel <= MaximumTreeLevel(identity.termCount)
    requires CheckpointBlock(identity, l, v).Storable()
    ensures var bytes := Encoding(CheckpointBlock(identity, l, v));
      && Reading(bytes, identity) == D.Block(l, v)
      && Field(bytes, 80, 4) == ChecksumOf(identity)(l, v) && |bytes| - HEADER_SIZE == PayloadSize(v)
  {
    var block := CheckpointBlock(identity, l, v);
    ValidIsPlanned(identity);
    LevelsAreNarrow(identity.termCount);
    EncodingIsAccepted(block);
    AcceptableDescribes(Encoding(block), identity);
  }

  /** Bytes that the validator takes carry the size and checksum of the block they say. */
  lemma AcceptableDescribes(bytes: seq<byte>, identity: Identity)
    requires Acceptable(bytes, identity)
    ensures Field(bytes, 80, 4) == ChecksumOf(identity)(LocationIn(bytes), BlockIn(bytes).v)
    ensures |bytes| - HEADER_SIZE == PayloadSize(BlockIn(bytes).v)
  {
    var block := BlockIn(bytes);
    AcceptedIsEncoding(bytes);
    EncodingInPieces(block);
    assert Covered(bytes) == BeforeChecksum(block) + [0, 0, 0, 0] + AfterChecksum(block.v);
    MagnitudesAreCounted(block.v);
  }

  /** The entry records this location, and what the validator reports of the bytes. */
  predicate Describes(e: ManifestEntry, bytes: seq<byte>) {
    && |bytes| >= HEADER_SIZE && e.location == LocationIn(bytes) && e.filename == BlockFile(e.location)
    && e.payloadSize == |bytes| - HEADER_SIZE && e.checksum == Field(bytes, 80, 4) && e.completion == Complete
  }

  /** The bytes stand under the name of their block. */
  ghost predicate StoredAs(d: D.Disk, n: FileName, bytes: seq<byte>, identity: Identity) {
    exists synced :: d.Current(n) == Some(D.File(Reading(bytes, identity), synced))
  }

  /** The residues of a block are those of its range. */
  predicate RightResidues(v: Pqt, l: BlockLocation) {
    l.start < l.end && ModularVerifier.CongruentNodes(v, Split(l.start, l.end),
      ModularVerifier.PRIME_A * ModularVerifier.PRIME_B * ModularVerifier.PRIME_C)
  }

  lemma SoundMeans(d: D.Disk, e: ManifestEntry, v: Pqt, identity: Identity)
    ensures P.Sound(d, e, v, identity, ChecksumOf(identity)) <==>
      && e == F.EntryOf(e.location, v, ChecksumOf(identity))
      && identity.Valid() && e.location.Valid(identity.termCount)
      && e.location.treeLevel <= MaximumTreeLevel(identity.termCount)
      && (exists synced :: d.Current(BlockFile(e.location)) == Some(D.File(D.Block(e.location, v), synced)))
      && RightResidues(v, e.location)
  {
    hide F.EntryOf, Identity.Valid, ModularVerifier.CongruentNodes, MaximumTreeLevel, Split;
  }

  /** The planner's notion of a sound entry, in terms of the bytes of its file: they pass the validator, the entry
      describes them, and P, Q and T have the right residues. */
  lemma SoundIsOfBytes(d: D.Disk, e: ManifestEntry, bytes: seq<byte>, v: Pqt, identity: Identity)
    requires StoredAs(d, BlockFile(e.location), bytes, identity)
    ensures P.Sound(d, e, v, identity, ChecksumOf(identity)) <==>
      Acceptable(bytes, identity) && Describes(e, bytes) && v == BlockIn(bytes).v && RightResidues(v, e.location)
  {
    hide RightResidues, Accepted, BlockIn, LocationIn, PayloadSize, ChecksumOf, Identity.Valid, P.Sound;
    SoundMeans(d, e, v, identity);
    if Acceptable(bytes, identity) {
      AcceptableDescribes(bytes, identity);
      LocationIsValid(bytes);
    }
  }

  lemma LocationIsValid(bytes: seq<byte>)
    requires Accepted(bytes)
    ensures LocationIn(bytes).Valid(IdentityIn(bytes).termCount)
  {
  }

  /** No altered byte of a sound block file goes unnoticed: nothing is sound there any more. */
  lemma AlteredIsUnsound(d: D.Disk, e: ManifestEntry, bytes: seq<byte>, i: nat, b: byte, v: Pqt, identity: Identity)
    requires Acceptable(bytes, identity) && i < |bytes| && b != bytes[i]
    requires StoredAs(d, BlockFile(e.location), bytes[i := b], identity)
    ensures !P.Sound(d, e, v, identity, ChecksumOf(identity))
  {
    AlteredByteIsRejected(bytes, i, b);
    SoundIsOfBytes(d, e, bytes[i := b], v, identity);
  }

  /** And altering up to four neighbouring bytes of a block file is damage in the sense of the recovery: the
      directory still holds no wrong block. */
  lemma AlterationKeepsTruth(d: D.Disk, n: FileName, bytes: seq<byte>, altered: seq<byte>, from: nat, to: nat, identity: Identity)
    requires Safety.Truthful(d) && Acceptable(bytes, identity) && d.Current(n) == Some(D.File(Reading(bytes, identity), true))
    requires AgreeOutside(bytes, altered, from, to) && altered != bytes && to - from <= 4 && (to <= 84 || 84 <= from)
    ensures Safety.Truthful(D.Disk(d.now[n := D.File(Reading(altered, identity), true)], d.maybe))
  {
    AlteredIsRejected(bytes, altered, from, to);
    var after := D.Disk(d.now[n := D.File(Reading(altered, identity), true)], d.maybe);
    assert Safety.DamageOf(d, after);
    Safety.DamageKeepsTruth(d, after);
  }
}
