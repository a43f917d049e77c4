/** The second parser of the block format: it looks every field up at its offset, checks the structure
    before the checksum, and asks the decoder last
    (src/checkpoint/CheckpointBlockValidator.cpp). */
module BlockValidator {
  import opened BlockFormat
  import opened ByteFields
  import opened CheckpointTypes
  import opened GmpSerialization
  import opened Widths
  import Codec = BlockCodec
  import I = ComputationIdentity

  datatype RejectionReason =
      InvalidIdentity | InvalidPayloadLength | InvalidMagic | UnsupportedVersion | MalformedBlock | InvalidRange
    | InvalidTreeLevel | TrailingBytes | NonCanonicalInteger | ChecksumMetadataMismatch | ChecksumMismatch

  datatype Validation =
      Validated(fileSize: nat, payloadSize: nat, checksum: nat, block: CheckpointBlock)
    | Rejected(reason: RejectionReason)

  /** The sum of the stored lengths. */
  function StoredLengths(bytes: seq<byte>): nat
    requires |bytes| >= HEADER_SIZE
  {
    Field(bytes, 88, 8) + Field(bytes, 96, 8) + Field(bytes, 104, 8)
  }

  /** What each reason says is wrong. */
  predicate Justified(bytes: seq<byte>, expected: I.Identity, reason: RejectionReason) {
    match reason
    case InvalidIdentity => !expected.Valid() || (Accepted(bytes) && IdentityIn(bytes) != expected)
    case InvalidPayloadLength => |bytes| < HEADER_SIZE || StoredLengths(bytes) > |bytes| - HEADER_SIZE
    case InvalidMagic => |bytes| >= HEADER_SIZE && bytes[..8] != MAGIC
    case UnsupportedVersion =>
      |bytes| >= HEADER_SIZE && (Field(bytes, 8, 2) != FORMAT_VERSION || Field(bytes, 10, 2) != HEADER_SIZE)
    case MalformedBlock =>
      && |bytes| >= HEADER_SIZE
      && (Field(bytes, 12, 4) != 0 || Field(bytes, 22, 2) != 0 || Field(bytes, 36, 4) != 0 || bytes[87] != 0
          || !IdentityIn(bytes).Valid())
    case InvalidRange => |bytes| >= HEADER_SIZE && !LocationIn(bytes).Valid(IdentityIn(bytes).termCount)
    case InvalidTreeLevel =>
      |bytes| >= HEADER_SIZE && LocationIn(bytes).treeLevel > MaximumTreeLevel(IdentityIn(bytes).termCount)
    case TrailingBytes => |bytes| >= HEADER_SIZE && StoredLengths(bytes) < |bytes| - HEADER_SIZE
    case NonCanonicalInteger => |bytes| >= HEADER_SIZE && PayloadFits(bytes) && !Canonical(bytes)
    case ChecksumMetadataMismatch =>
      |bytes| >= HEADER_SIZE && (Field(bytes, 76, 2) != CRC32C_ALGORITHM || Field(bytes, 78, 2) != CHECKSUM_SIZE)
    case ChecksumMismatch => |bytes| >= HEADER_SIZE && !ChecksumHolds(bytes)
  }

  /** What the validator promises: the format, the expected identity, and a possible tree level. */
  predicate Acceptable(bytes: seq<byte>, expected: I.Identity) {
    && expected.Valid()
    && Accepted(bytes)
    && IdentityIn(bytes) == expected
    && LocationIn(bytes).treeLevel <= MaximumTreeLevel(expected.termCount)
  }

  lemma JustifiedIsFatal(bytes: seq<byte>, expected: I.Identity, reason: RejectionReason)
    requires Justified(bytes, expected, reason)
    ensures !Acceptable(bytes, expected)
  {
  }

  /** The bytes of a valid block pass exactly when its tree level is possible: the encoder does not check it. */
  lemma EncodingIsAcceptable(block: CheckpointBlock)
    requires block.Valid() && block.InWidth() && block.Storable()
    ensures Acceptable(Encoding(block), block.identity)
            <==> block.location.treeLevel <= MaximumTreeLevel(block.identity.termCount)
  {
    EncodingIsAccepted(block);
  }

  /** `readU16`, `readU32`, `readU64` */
  method ReadNumber(bytes: seq<byte>, offset: nat, width: nat) returns (value: nat)
    requires offset + width <= |bytes|
    ensures value == Field(bytes, offset, width)
  {
    value := 0;
    for index := 0 to width
      invariant value == BigEndian(bytes[offset..offset + index])
    {
      assert bytes[offset..offset + index + 1][..index] == bytes[offset..offset + index];
      value := value * 256 + bytes[offset + index];
    }
  }

  /** The fixed fields at the start of the header. */
  method CheckHeader(bytes: seq<byte>) returns (fault: Option<RejectionReason>)
    ensures fault.Some? ==> fault.value in {InvalidPayloadLength, InvalidMagic, UnsupportedVersion, MalformedBlock}
    ensures fault.Some? ==> forall expected :: Justified(bytes, expected, fault.value)
    ensures fault.None? ==>
      && |bytes| >= HEADER_SIZE && bytes[..8] == MAGIC
      && Field(bytes, 8, 2) == FORMAT_VERSION && Field(bytes, 10, 2) == HEADER_SIZE
      && Field(bytes, 12, 4) == 0 && Field(bytes, 22, 2) == 0 && Field(bytes, 36, 4) == 0 && bytes[87] == 0
  {
    if |bytes| < HEADER_SIZE {
      return Some(InvalidPayloadLength);
    }
    if bytes[..8] != MAGIC {
      return Some(InvalidMagic);
    }
    var version := ReadNumber(bytes, 8, 2);
    var headerSize := ReadNumber(bytes, 10, 2);
    if version != FORMAT_VERSION || headerSize != HEADER_SIZE {
      return Some(UnsupportedVersion);
    }
    var flags := ReadNumber(bytes, 12, 4);
    var first := ReadNumber(bytes, 22, 2);
    var second := ReadNumber(bytes, 36, 4);
    if flags != 0 || first != 0 || second != 0 || bytes[87] != 0 {
      return Some(MalformedBlock);
    }
    fault := None;
  }

  /** The range and the tree level against the stored term count. */
  method CheckLocation(bytes: seq<byte>) returns (fault: Option<RejectionReason>)
    requires |bytes| >= HEADER_SIZE
    ensures fault.Some? ==> forall expected :: Justified(bytes, expected, fault.value)
    ensures fault.None? ==>
      && LocationIn(bytes).Valid(IdentityIn(bytes).termCount)
      && LocationIn(bytes).treeLevel <= MaximumTreeLevel(IdentityIn(bytes).termCount)
  {
    var termCount := ReadNumber(bytes, 48, 8);
    var start := ReadNumber(bytes, 56, 8);
    var end := ReadNumber(bytes, 64, 8);
    var treeLevel := ReadNumber(bytes, 72, 4);
    if start >= end || end > termCount {
      return Some(InvalidRange);
    }
    BytesOfValue(bytes[48..56]);
    Pow256Widths();
    var deepest := ComputeMaximumTreeLevel(termCount);
    if termCount == 0 || treeLevel > deepest {
      return Some(InvalidTreeLevel);
    }
    fault := None;
  }

  /** The lengths, added up with a guard against overflow, against the size of the file. */
  method CheckLengths(bytes: seq<byte>) returns (fault: Option<RejectionReason>, payloadSize: nat, lengths: seq<nat>)
    requires HEADER_SIZE <= |bytes| <= U64_MAX
    ensures fault.Some? ==> forall expected :: Justified(bytes, expected, fault.value)
    ensures fault.None? ==> PayloadFits(bytes) && payloadSize == StoredLengths(bytes) == |bytes| - HEADER_SIZE
    ensures fault.None? ==> lengths == [Field(bytes, 88, 8), Field(bytes, 96, 8), Field(bytes, 104, 8)]
  {
    var pLength := ReadNumber(bytes, 88, 8);
    var qLength := ReadNumber(bytes, 96, 8);
    var tLength := ReadNumber(bytes, 104, 8);
    lengths, payloadSize := [pLength, qLength, tLength], 0;
    for index := 0 to 3
      invariant lengths == [pLength, qLength, tLength]
      invariant payloadSize == PartStart(lengths, index) <= U64_MAX
    {
      if lengths[index] > U64_MAX - payloadSize {
        return Some(InvalidPayloadLength), payloadSize, lengths;
      }
      payloadSize := payloadSize + lengths[index];
    }
    var remaining := |bytes| - HEADER_SIZE;
    if payloadSize > remaining {
      return Some(InvalidPayloadLength), payloadSize, lengths;
    }
    if payloadSize < remaining {
      return Some(TrailingBytes), payloadSize, lengths;
    }
    fault := None;
  }

  /** The lengths before a part. */
  function PartStart(lengths: seq<nat>, index: nat): nat
    requires |lengths| == 3 && index <= 3
  {
    (if index > 0 then lengths[0] else 0) + (if index > 1 then lengths[1] else 0) + (if index > 2 then lengths[2] else 0)
  }

  /** One signed magnitude, looked at where it lies. */
  predicate CanonicalAt(bytes: seq<byte>, sign: byte, offset: nat, length: nat)
    requires offset + length <= |bytes|
  {
    Decode(sign, bytes[offset..offset + length]).Decoded?
  }

  method CheckIntegers(bytes: seq<byte>, lengths: seq<nat>) returns (fault: Option<RejectionReason>)
    requires |bytes| >= HEADER_SIZE && PayloadFits(bytes)
    requires lengths == [Field(bytes, 88, 8), Field(bytes, 96, 8), Field(bytes, 104, 8)]
    ensures fault == if Canonical(bytes) then None else Some(NonCanonicalInteger)
  {
    PartsInPlace(bytes, lengths);
    var payloadOffset := HEADER_SIZE;
    for index := 0 to 3
      invariant payloadOffset == HEADER_SIZE + PartStart(lengths, index) <= |bytes|
      invariant forall k | 0 <= k < index :: PartIsCanonical(bytes, lengths, k)
    {
      var sign := bytes[84 + index];
      var zero := sign == 0;
      var nonZero := sign == 1 || sign == 2;
      if (!zero && !nonZero) || (zero && lengths[index] != 0) || (nonZero && lengths[index] == 0)
         || (lengths[index] != 0 && bytes[payloadOffset] == 0)
      {
        assert !PartIsCanonical(bytes, lengths, index);
        return Some(NonCanonicalInteger);
      }
      assert PartIsCanonical(bytes, lengths, index);
      payloadOffset := payloadOffset + lengths[index];
    }
    fault := None;
  }

  predicate PartIsCanonical(bytes: seq<byte>, lengths: seq<nat>, k: nat)
    requires |bytes| >= HEADER_SIZE && |lengths| == 3 && HEADER_SIZE + PartStart(lengths, 3) == |bytes| && k < 3
  {
    CanonicalAt(bytes, bytes[84 + k], HEADER_SIZE + PartStart(lengths, k), lengths[k])
  }

  lemma PartsInPlace(bytes: seq<byte>, lengths: seq<nat>)
    requires |bytes| >= HEADER_SIZE && PayloadFits(bytes)
    requires lengths == [Field(bytes, 88, 8), Field(bytes, 96, 8), Field(bytes, 104, 8)]
    ensures HEADER_SIZE + PartStart(lengths, 3) == |bytes|
    ensures Canonical(bytes) <==>
      PartIsCanonical(bytes, lengths, 0) && PartIsCanonical(bytes, lengths, 1) && PartIsCanonical(bytes, lengths, 2)
  {
    var p, q, t := lengths[0], lengths[1], lengths[2];
    TakeOfDrop(bytes, 112 + p, q);
    assert PIn(bytes) == bytes[112..112 + p];
    assert QIn(bytes) == bytes[112 + p..112 + p + q];
    assert TIn(bytes) == bytes[112 + p + q..112 + p + q + t];
  }

  lemma TakeOfDrop(bytes: seq<byte>, from: nat, count: nat)
    requires from + count <= |bytes|
    ensures bytes[from..][..count] == bytes[from..from + count]
  {
  }

  method CheckChecksum(bytes: seq<byte>) returns (fault: Option<RejectionReason>, stored: nat)
    requires |bytes| >= HEADER_SIZE
    ensures fault.Some? ==> forall expected :: Justified(bytes, expected, fault.value)
    ensures fault.None? ==>
      && Field(bytes, 76, 2) == CRC32C_ALGORITHM && Field(bytes, 78, 2) == CHECKSUM_SIZE
      && ChecksumHolds(bytes) && stored == Field(bytes, 80, 4)
  {
    var algorithm := ReadNumber(bytes, 76, 2);
    var length := ReadNumber(bytes, 78, 2);
    stored := ReadNumber(bytes, CHECKSUM_OFFSET, 4);
    if algorithm != CRC32C_ALGORITHM || length != CHECKSUM_SIZE {
      return Some(ChecksumMetadataMismatch), stored;
    }
    var checksum := Codec.BlockChecksum(bytes);
    if stored != checksum.value {
      return Some(ChecksumMismatch), stored;
    }
    fault := None;
  }

  /** `validate`: accepts exactly what the decoder accepts with the expected identity and a tree level within
      the maximum; a reason given is true of the bytes. */
  method Validate(bytes: seq<byte>, expected: I.Identity) returns (r: Validation)
    requires |bytes| <= U64_MAX
    ensures r.Validated? <==> Acceptable(bytes, expected)
    ensures r.Validated? ==> r == Validated(|bytes|, StoredLengths(bytes), Field(bytes, 80, 4), BlockIn(bytes))
    ensures r.Rejected? ==> Justified(bytes, expected, r.reason)
  {
    if !expected.Valid() {
      return Rejected(InvalidIdentity);
    }
    var fault := CheckHeader(bytes);
    if fault.Some? {
      JustifiedIsFatal(bytes, expected, fault.value);
      return Rejected(fault.value);
    }
    fault := CheckLocation(bytes);
    if fault.Some? {
      JustifiedIsFatal(bytes, expected, fault.value);
      return Rejected(fault.value);
    }
    var payloadSize: nat, lengths: seq<nat>, stored: nat;
    fault, payloadSize, lengths := CheckLengths(bytes);
    if fault.Some? {
      JustifiedIsFatal(bytes, expected, fault.value);
      return Rejected(fault.value);
    }
    fault := CheckIntegers(bytes, lengths);
    if fault.Some? {
      return Rejected(fault.value);
    }
    fault, stored := CheckChecksum(bytes);
    if fault.Some? {
      JustifiedIsFatal(bytes, expected, fault.value);
      return Rejected(fault.value);
    }
    var decoded := Codec.Decode(bytes);
    if decoded.Failed? {
      return Rejected(MalformedBlock);
    }
    if decoded.value.identity != expected {
      return Rejected(InvalidIdentity);
    }
    r := Validated(|bytes|, payloadSize, stored, decoded.value);
  }
}
