/** Writing and reading checkpoint blocks: the encoder that appends field after field, and the decoder
    that reads them back one after another, stopping at the first defect
    (src/checkpoint/CheckpointBlockCodec.cpp). */
module BlockCodec {
  import opened BlockFormat
  import opened ByteFields
  import opened CheckpointTypes
  import opened Chudnovsky
  import opened GmpSerialization
  import opened Sequences
  import opened Widths
  import C = Crc32c
  import I = ComputationIdentity

  datatype DecodeError =
      Truncated | InvalidMagic | UnsupportedVersion | UnsupportedFlags | NonZeroReserved | InvalidIdentity
    | InvalidLocation | UnsupportedChecksum | ChecksumMismatch | LengthMismatch | NonCanonicalInteger

  datatype Reading<+T> = Read(value: T) | Failed(error: DecodeError) {

    predicate IsFailure() {
      Failed?
    }

    function PropagateFailure<U>(): Reading<U>
      requires Failed?
    {
      Failed(error)
    }

    function Extract(): T
      requires Read?
    {
      value
    }
  }

  datatype EncodeResult =
      Encoded(bytes: seq<byte>, payloadSize: nat, checksum: nat)
    | InvalidBlock
    | SizeOverflow

  // ---------- the checksum of a block ----------

  /** `blockChecksum`: three calculations in a row, on whatever processor. */
  method BlockChecksum(bytes: seq<byte>) returns (r: Reading<nat>)
    ensures r.Read? <==> |bytes| >= HEADER_SIZE
    ensures r == if |bytes| < HEADER_SIZE then Failed(Truncated) else Read(Crc(Covered(bytes)))
  {
    if |bytes| < HEADER_SIZE {
      return Failed(Truncated);
    }
    var instruction: bool, wide: bool := *, *;
    var checksum := C.Calculate(bytes[..CHECKSUM_OFFSET], C.Zeros(32), instruction, wide);
    checksum := C.Calculate([0, 0, 0, 0], checksum, instruction, wide);
    checksum := C.Calculate(bytes[CHECKSUM_OFFSET + CHECKSUM_SIZE..], checksum, instruction, wide);
    C.ChecksumOfParts(bytes[..80], [0, 0, 0, 0], C.Zeros(32));
    C.ChecksumOfParts(bytes[..80] + [0, 0, 0, 0], bytes[84..], C.Zeros(32));
    r := Read(C.NumberOf(checksum));
  }

  // ---------- encoding ----------

  /** The next field of a layout is appended: what is still missing from the target is the rest. */
  method AppendField(output: seq<byte>, width: nat, value: nat, ghost layout: Layout, ghost target: seq<byte>)
    returns (longer: seq<byte>, ghost rest: Layout)
    requires layout.Part? && layout.width == width && layout.value == value && target == output + Render(layout)
    ensures rest == layout.rest && target == longer + Render(rest)
  {
    longer := Append(output, value, width);
    rest := layout.rest;
    Associative(output, Bytes(value, width), Render(rest));
  }

  method AppendIdentity(output: seq<byte>, id: I.Identity) returns (longer: seq<byte>)
    ensures longer == output + Render(IdentityLayout(id))
  {
    ghost var rest := IdentityLayout(id);
    ghost var target := output + Render(rest);
    longer, rest := AppendField(output, 2, FORMAT_VERSION, rest, target);
    longer, rest := AppendField(longer, 2, HEADER_SIZE, rest, target);
    longer, rest := AppendField(longer, 4, 0, rest, target);
    longer, rest := AppendField(longer, 2, id.algorithm, rest, target);
    longer, rest := AppendField(longer, 2, id.arithmeticVersion, rest, target);
    longer, rest := AppendField(longer, 2, id.formulaVersion, rest, target);
    longer, rest := AppendField(longer, 2, 0, rest, target);
    longer, rest := AppendField(longer, 8, id.requestedDigits, rest, target);
    longer, rest := AppendField(longer, 4, id.guardDigits, rest, target);
    longer, rest := AppendField(longer, 4, 0, rest, target);
    longer, rest := AppendField(longer, 8, id.workingDigits, rest, target);
    longer, rest := AppendField(longer, 8, id.termCount, rest, target);
  }

  method AppendLocation(output: seq<byte>, location: BlockLocation) returns (longer: seq<byte>)
    ensures longer == output + Render(LocationLayout(location))
  {
    ghost var rest := LocationLayout(location);
    ghost var target := output + Render(rest);
    longer, rest := AppendField(output, 8, location.start, rest, target);
    longer, rest := AppendField(longer, 8, location.end, rest, target);
    longer, rest := AppendField(longer, 4, location.treeLevel, rest, target);
    longer, rest := AppendField(longer, 2, CRC32C_ALGORITHM, rest, target);
    longer, rest := AppendField(longer, 2, CHECKSUM_SIZE, rest, target);
  }

  method AppendSigns(output: seq<byte>, p: byte, q: byte, t: byte) returns (longer: seq<byte>)
    ensures longer == output + Render(SignsLayout(p, q, t))
  {
    ghost var rest := SignsLayout(p, q, t);
    ghost var target := output + Render(rest);
    longer, rest := AppendField(output, 1, p, rest, target);
    longer, rest := AppendField(longer, 1, q, rest, target);
    longer, rest := AppendField(longer, 1, t, rest, target);
    longer, rest := AppendField(longer, 1, 0, rest, target);
  }

  method AppendLengths(output: seq<byte>, p: nat, q: nat, t: nat) returns (longer: seq<byte>)
    ensures longer == output + Render(LengthsLayout(p, q, t))
  {
    ghost var rest := LengthsLayout(p, q, t);
    ghost var target := output + Render(rest);
    longer, rest := AppendField(output, 8, p, rest, target);
    longer, rest := AppendField(longer, 8, q, rest, target);
    longer, rest := AppendField(longer, 8, t, rest, target);
  }

  /** `checkedPayloadSize`: the sum, unless header and payload would not fit a size. */
  method CheckedPayloadSize(sizes: seq<nat>) returns (total: Option<nat>)
    requires |sizes| == 3
    ensures var sum := sizes[0] + sizes[1] + sizes[2];
            total == if HEADER_SIZE + sum <= U64_MAX then Some(sum) else None
  {
    var sum := 0;
    for i := 0 to 3
      invariant sum == (if i > 0 then sizes[0] else 0) + (if i > 1 then sizes[1] else 0) + (if i > 2 then sizes[2] else 0)
      invariant HEADER_SIZE + sum <= U64_MAX
    {
      if sizes[i] > U64_MAX - HEADER_SIZE - sum {
        return None;
      }
      sum := sum + sizes[i];
    }
    total := Some(sum);
  }

  method AppendPayload(output: seq<byte>, v: Pqt) returns (longer: seq<byte>)
    ensures longer == output + Payload(v)
  {
    var p, q, t := new byte[MagnitudeSize(v.p)](_ => 0), new byte[MagnitudeSize(v.q)](_ => 0), new byte[MagnitudeSize(v.t)](_ => 0);
    SizeIsMinimal(v.p);
    SizeIsMinimal(v.q);
    SizeIsMinimal(v.t);
    ExportMagnitude(v.p, p);
    ExportMagnitude(v.q, q);
    ExportMagnitude(v.t, t);
    longer := output + p[..] + q[..] + t[..];
    Associative(output, Magnitude(Abs(v.p)), Magnitude(Abs(v.q)));
    Associative(output, Magnitude(Abs(v.p)) + Magnitude(Abs(v.q)), Magnitude(Abs(v.t)));
  }

  /** Everything after the checksum slot. */
  method AppendTail(output: seq<byte>, v: Pqt) returns (longer: seq<byte>)
    ensures longer == output + AfterChecksum(v)
  {
    SizeIsMinimal(v.p);
    SizeIsMinimal(v.q);
    SizeIsMinimal(v.t);
    longer := AppendSigns(output, SignByte(SignOf(v.p)), SignByte(SignOf(v.q)), SignByte(SignOf(v.t)));
    longer := AppendLengths(longer, MagnitudeSize(v.p), MagnitudeSize(v.q), MagnitudeSize(v.t));
    longer := AppendPayload(longer, v);
    Associative(output, Render(Signs(v)), Render(Lengths(v)));
    Associative(output, Render(Signs(v)) + Render(Lengths(v)), Payload(v));
  }

  /** `storeU32`: the four bytes at the offset, from the highest. */
  method StoreU32(output: seq<byte>, offset: nat, value: nat) returns (stored: seq<byte>)
    requires offset + 4 <= |output|
    ensures stored == output[..offset] + Bytes(value, 4) + output[offset + 4..]
  {
    stored := output;
    var at, shift := offset, 4;
    while shift > 0
      invariant 0 <= shift <= 4 && at == offset + 4 - shift
      invariant stored == output[..offset] + Bytes(Shifted(value, shift), 4 - shift) + output[at..]
    {
      shift := shift - 1;
      ghost var before := stored;
      stored := stored[at := Shifted(value, shift) % 256];
      Replaced(output[..offset] + Bytes(Shifted(value, shift + 1), 3 - shift), output[at..], Shifted(value, shift) % 256);
      assert output[at..][1..] == output[at + 1..];
      Associative(output[..offset], Bytes(Shifted(value, shift + 1), 3 - shift), [Shifted(value, shift) % 256]);
      at := at + 1;
    }
  }

  lemma Replaced(front: seq<byte>, back: seq<byte>, b: byte)
    requires back != []
    ensures (front + back)[|front| := b] == front + [b] + back[1..]
  {
  }

  /** `encode`: refuses an invalid block; otherwise the one encoding, with its payload size and checksum. */
  method Encode(block: CheckpointBlock) returns (r: EncodeResult)
    requires block.InWidth()
    ensures r.InvalidBlock? <==> !block.Valid()
    ensures r.SizeOverflow? <==> block.Valid() && !block.Storable()
    ensures r.Encoded? ==> r.bytes == Encoding(block) && r.payloadSize == |Payload(block.v)|
                           && r.checksum == Crc(Covered(r.bytes))
  {
    if !block.identity.Valid() || !block.location.Valid(block.identity.termCount) {
      return InvalidBlock;
    }
    var v := block.v;
    SizeIsMinimal(v.p);
    SizeIsMinimal(v.q);
    SizeIsMinimal(v.t);
    var payloadSize := CheckedPayloadSize([MagnitudeSize(v.p), MagnitudeSize(v.q), MagnitudeSize(v.t)]);
    if payloadSize.None? {
      return SizeOverflow;
    }
    var output := AppendIdentity(MAGIC, block.identity);
    output := AppendLocation(output, block.location);
    ghost var head := output;
    output := Append(output, 0, 4);
    output := AppendTail(output, v);
    var checksum := BlockChecksum(output);
    EncodedParts(output, head, AfterChecksum(v), block);
    output := StoreU32(output, CHECKSUM_OFFSET, checksum.value);
    r := Encoded(output, payloadSize.value, checksum.value);
  }

  lemma EncodedParts(output: seq<byte>, head: seq<byte>, tail: seq<byte>, block: CheckpointBlock)
    requires head == BeforeChecksum(block) && tail == AfterChecksum(block.v)
    requires output == head + Bytes(0, 4) + tail
    ensures |output| >= HEADER_SIZE && Covered(output) == head + [0, 0, 0, 0] + tail
    ensures output[..80] == head && output[84..] == tail
    ensures Covered(Encoding(block)) == Covered(output)
  {
    Middle(head, Bytes(0, 4), tail);
    EncodingInPieces(block);
  }

  // ---------- decoding ----------

  /** What each error says is wrong with the bytes. */
  predicate HasDefect(bytes: seq<byte>, error: DecodeError) {
    match error
    case Truncated => |bytes| < HEADER_SIZE
    case InvalidMagic => |bytes| >= 8 && bytes[..8] != MAGIC
    case UnsupportedVersion =>
      (|bytes| >= 10 && Field(bytes, 8, 2) != FORMAT_VERSION) || (|bytes| >= 12 && Field(bytes, 10, 2) != HEADER_SIZE)
    case UnsupportedFlags => |bytes| >= 16 && Field(bytes, 12, 4) != 0
    case NonZeroReserved =>
      || (|bytes| >= 24 && Field(bytes, 22, 2) != 0)
      || (|bytes| >= 40 && Field(bytes, 36, 4) != 0)
      || (|bytes| >= 88 && bytes[87] != 0)
    case InvalidIdentity => |bytes| >= 56 && !IdentityIn(bytes).Valid()
    case InvalidLocation => |bytes| >= 76 && !LocationIn(bytes).Valid(IdentityIn(bytes).termCount)
    case UnsupportedChecksum =>
      |bytes| >= 80 && (Field(bytes, 76, 2) != CRC32C_ALGORITHM || Field(bytes, 78, 2) != CHECKSUM_SIZE)
    case ChecksumMismatch => |bytes| >= HEADER_SIZE && !ChecksumHolds(bytes)
    case LengthMismatch => |bytes| >= HEADER_SIZE && !PayloadFits(bytes)
    case NonCanonicalInteger => |bytes| >= HEADER_SIZE && PayloadFits(bytes) && !Canonical(bytes)
  }

  /** `Reader`: a position in the bytes; every read checks that enough is left and moves on. */
  class Reader {
    const bytes: seq<byte>
    var position: nat

    ghost predicate Valid()
      reads this
    {
      position <= |bytes|
    }

    constructor (bytes: seq<byte>)
      ensures this.bytes == bytes && position == 0 && Valid()
    {
      this.bytes := bytes;
      position := 0;
    }

    method Take(count: nat) returns (r: Reading<seq<byte>>)
      requires Valid()
      modifies this
      ensures Valid()
      ensures r == if old(position) + count <= |bytes| then Read(bytes[old(position)..old(position) + count])
                   else Failed(Truncated)
      ensures position == old(position) + if r.Read? then count else 0
    {
      if count > |bytes| - position {
        return Failed(Truncated);
      }
      r := Read(bytes[position..position + count]);
      position := position + count;
    }

    /** `readU8`, `readU16`, `readU32`, `readU64` */
    method ReadNumber(width: nat) returns (r: Reading<nat>)
      requires Valid()
      modifies this
      ensures Valid()
      ensures r == if old(position) + width <= |bytes| then Read(Field(bytes, old(position), width)) else Failed(Truncated)
      ensures position == old(position) + if r.Read? then width else 0
    {
      var data :- Take(width);
      var value: nat := 0;
      for i := 0 to |data|
        invariant value == BigEndian(data[..i])
      {
        assert data[..i + 1][..i] == data[..i];
        value := value * 256 + data[i];
      }
      assert data[..|data|] == data;
      r := Read(value);
    }

    function Remaining(): nat
      reads this
      requires Valid()
    {
      |bytes| - position
    }
  }

  /** Up to the identity: the first 56 bytes. */
  method DecodeIdentity(reader: Reader) returns (r: Reading<I.Identity>)
    requires reader.Valid() && reader.position == 0
    modifies reader
    ensures reader.Valid()
    ensures var bytes := reader.bytes;
      && (r.Failed? ==> HasDefect(bytes, r.error))
      && (r.Read? ==>
            && reader.position == 56 && r.value == IdentityIn(bytes) && r.value.Valid()
            && bytes[..8] == MAGIC && Field(bytes, 8, 2) == FORMAT_VERSION && Field(bytes, 10, 2) == HEADER_SIZE
            && Field(bytes, 12, 4) == 0 && Field(bytes, 22, 2) == 0 && Field(bytes, 36, 4) == 0)
  {
    hide Field, I.Identity.Valid;
    var magic :- reader.Take(8);
    if magic != MAGIC {
      return Failed(InvalidMagic);
    }
    var version :- reader.ReadNumber(2);
    if version != FORMAT_VERSION {
      return Failed(UnsupportedVersion);
    }
    var headerSize :- reader.ReadNumber(2);
    if headerSize != HEADER_SIZE {
      return Failed(UnsupportedVersion);
    }
    var flags :- reader.ReadNumber(4);
    if flags != 0 {
      return Failed(UnsupportedFlags);
    }
    var algorithm :- reader.ReadNumber(2);
    var arithmeticVersion :- reader.ReadNumber(2);
    var formulaVersion :- reader.ReadNumber(2);
    var reserved :- reader.ReadNumber(2);
    if reserved != 0 {
      return Failed(NonZeroReserved);
    }
    var requestedDigits :- reader.ReadNumber(8);
    var guardDigits :- reader.ReadNumber(4);
    reserved :- reader.ReadNumber(4);
    if reserved != 0 {
      return Failed(NonZeroReserved);
    }
    var workingDigits :- reader.ReadNumber(8);
    var termCount :- reader.ReadNumber(8);
    var identity := I.Identity(algorithm, arithmeticVersion, formulaVersion, requestedDigits, guardDigits,
                               workingDigits, termCount);
    if !identity.Valid() {
      return Failed(InvalidIdentity);
    }
    r := Read(identity);
  }

  /** Location and checksum: up to byte 84. */
  method DecodeLocation(reader: Reader, identity: I.Identity) returns (r: Reading<BlockLocation>)
    requires reader.Valid() && reader.position == 56 && identity == IdentityIn(reader.bytes)
    modifies reader
    ensures reader.Valid()
    ensures var bytes := reader.bytes;
      && (r.Failed? ==> HasDefect(bytes, r.error))
      && (r.Read? ==>
            && reader.position == 84 && |bytes| >= HEADER_SIZE
            && r.value == LocationIn(bytes) && r.value.Valid(identity.termCount)
            && Field(bytes, 76, 2) == CRC32C_ALGORITHM && Field(bytes, 78, 2) == CHECKSUM_SIZE && ChecksumHolds(bytes))
  {
    var start :- reader.ReadNumber(8);
    var end :- reader.ReadNumber(8);
    var treeLevel :- reader.ReadNumber(4);
    var location := BlockLocation(start, end, treeLevel);
    if !location.Valid(identity.termCount) {
      return Failed(InvalidLocation);
    }
    var algorithm :- reader.ReadNumber(2);
    var length :- reader.ReadNumber(2);
    var stored :- reader.ReadNumber(4);
    if algorithm != CRC32C_ALGORITHM || length != CHECKSUM_SIZE {
      return Failed(UnsupportedChecksum);
    }
    var checksum :- BlockChecksum(reader.bytes);
    if stored != checksum {
      return Failed(ChecksumMismatch);
    }
    r := Read(location);
  }

  /** The three lengths: their sum must not overflow and must be what is left. */
  method DecodeLengths(reader: Reader) returns (r: Reading<(nat, nat, nat)>)
    requires reader.Valid() && reader.position == 88 && |reader.bytes| <= U64_MAX
    modifies reader
    ensures reader.Valid()
    ensures var bytes := reader.bytes;
      && (r.Failed? ==> HasDefect(bytes, r.error))
      && (r.Read? ==> reader.position == 112 <= |bytes| && PayloadFits(bytes)
                      && r.value == (Field(bytes, 88, 8), Field(bytes, 96, 8), Field(bytes, 104, 8)))
  {
    var pLength :- reader.ReadNumber(8);
    var qLength :- reader.ReadNumber(8);
    var tLength :- reader.ReadNumber(8);
    var payloadLength := pLength;
    if qLength > U64_MAX - payloadLength {
      return Failed(LengthMismatch);
    }
    payloadLength := payloadLength + qLength;
    if tLength > U64_MAX - payloadLength {
      return Failed(LengthMismatch);
    }
    payloadLength := payloadLength + tLength;
    if payloadLength != reader.Remaining() {
      return Failed(LengthMismatch);
    }
    r := Read((pLength, qLength, tLength));
  }

  /** The three magnitudes, one after another. */
  method TakeMagnitudes(reader: Reader, p: nat, q: nat, t: nat)
    returns (pMagnitude: seq<byte>, qMagnitude: seq<byte>, tMagnitude: seq<byte>)
    requires reader.Valid() && reader.position == 112 && PayloadFits(reader.bytes)
    requires (p, q, t) == (Field(reader.bytes, 88, 8), Field(reader.bytes, 96, 8), Field(reader.bytes, 104, 8))
    modifies reader
    ensures reader.Valid()
    ensures pMagnitude == PIn(reader.bytes) && qMagnitude == QIn(reader.bytes) && tMagnitude == TIn(reader.bytes)
  {
    var taken := reader.Take(p);
    pMagnitude := taken.value;
    taken := reader.Take(q);
    qMagnitude := taken.value;
    taken := reader.Take(t);
    tMagnitude := taken.value;
    ghost var bytes := reader.bytes;
    assert bytes[112 + p..][..q] == bytes[112 + p..112 + p + q];
    assert bytes[112 + p + q..] == bytes[112 + p + q..112 + p + q + t];
  }

  /** Signs, lengths and magnitudes: the rest. */
  method DecodeValues(reader: Reader) returns (r: Reading<Pqt>)
    requires reader.Valid() && reader.position == 84 && |reader.bytes| <= U64_MAX
    modifies reader
    ensures reader.Valid()
    ensures var bytes := reader.bytes;
      && (r.Failed? ==> HasDefect(bytes, r.error))
      && (r.Read? ==>
            && |bytes| >= HEADER_SIZE && bytes[87] == 0 && PayloadFits(bytes) && Canonical(bytes)
            && r.value == Pqt(GmpSerialization.Decode(bytes[84], PIn(bytes)).value,
                              GmpSerialization.Decode(bytes[85], QIn(bytes)).value,
                              GmpSerialization.Decode(bytes[86], TIn(bytes)).value))
  {
    var pSign :- reader.Take(1);
    var qSign :- reader.Take(1);
    var tSign :- reader.Take(1);
    var reserved :- reader.Take(1);
    if reserved[0] != 0 {
      return Failed(NonZeroReserved);
    }
    var lengths :- DecodeLengths(reader);
    var pMagnitude, qMagnitude, tMagnitude := TakeMagnitudes(reader, lengths.0, lengths.1, lengths.2);
    var p := GmpSerialization.Decode(pSign[0], pMagnitude);
    var q := GmpSerialization.Decode(qSign[0], qMagnitude);
    var t := GmpSerialization.Decode(tSign[0], tMagnitude);
    if p.Malformed? || q.Malformed? || t.Malformed? {
      return Failed(NonCanonicalInteger);
    }
    r := Read(Pqt(p.value, q.value, t.value));
  }

  /** `decode`: accepts exactly the byte strings of the format and returns the block they say; an error
      names a defect the bytes have. */
  method Decode(bytes: seq<byte>) returns (r: Reading<CheckpointBlock>)
    requires |bytes| <= U64_MAX
    ensures r.Read? <==> Accepted(bytes)
    ensures r.Read? ==> r.value == BlockIn(bytes)
    ensures r.Failed? ==> HasDefect(bytes, r.error)
  {
    var reader := new Reader(bytes);
    var identity :- DecodeIdentity(reader);
    var location :- DecodeLocation(reader, identity);
    var values :- DecodeValues(reader);
    r := Read(CheckpointBlock(identity, location, values));
  }

  /** Encode, then decode: the block comes back. */
  method DecodeEncoded(block: CheckpointBlock) returns (r: Reading<CheckpointBlock>)
    requires block.Valid() && block.InWidth() && block.Storable()
    ensures r == Read(block)
  {
    var encoded := Encode(block);
    EncodingIsAccepted(block);
    r := Decode(encoded.bytes);
  }

  /** Decode, then encode: the bytes come back. */
  method EncodeDecoded(bytes: seq<byte>) returns (r: Reading<seq<byte>>)
    requires |bytes| <= U64_MAX
    ensures r.Read? <==> Accepted(bytes)
    ensures r.Read? ==> r.value == bytes
  {
    var block :- Decode(bytes);
    AcceptedIsEncoding(bytes);
    var encoded := Encode(block);
    r := Read(encoded.bytes);
  }
}
