/** The canonical block format, version 1: a 112-byte big-endian header and the three magnitudes. What a
    byte string says, field by field, and the one byte string that says it
    (src/checkpoint/CheckpointBlockCodec.cpp). */
module BlockFormat {
  import opened ByteFields
  import opened CheckpointTypes
  import opened Chudnovsky
  import opened GmpSerialization
  import opened Widths
  import C = Crc32c
  import I = ComputationIdentity

  /** "GMPIPQT" and a zero byte. */
  const MAGIC: seq<byte> := [71, 77, 80, 73, 80, 81, 84, 0]
  const FORMAT_VERSION: nat := 1
  const CRC32C_ALGORITHM: nat := 1
  const CHECKSUM_OFFSET: nat := 80
  const CHECKSUM_SIZE: nat := 4

  datatype CheckpointBlock = CheckpointBlock(identity: I.Identity, location: BlockLocation, v: Pqt) {

    predicate Valid() {
      identity.Valid() && location.Valid(identity.termCount)
    }

    /** The tree level is a 32-bit number; the other fields of a valid block fit their widths anyway. */
    predicate InWidth() {
      location.treeLevel <= U32_MAX
    }

    /** Header and payload together have a representable size. */
    predicate Storable() {
      HEADER_SIZE + |Payload(v)| <= U64_MAX
    }
  }

  // ---------- what the bytes say ----------

  /** The checksum is taken with its own slot cleared. */
  function Covered(bytes: seq<byte>): seq<byte>
    requires |bytes| >= HEADER_SIZE
  {
    bytes[..80] + [0, 0, 0, 0] + bytes[84..]
  }

  function Crc(bytes: seq<byte>): nat {
    C.NumberOf(C.Checksum(bytes, C.Zeros(32)))
  }

  predicate FixedFields(bytes: seq<byte>)
    requires |bytes| >= HEADER_SIZE
  {
    && bytes[..8] == MAGIC
    && Field(bytes, 8, 2) == FORMAT_VERSION && Field(bytes, 10, 2) == HEADER_SIZE
    && Field(bytes, 12, 4) == 0 && Field(bytes, 22, 2) == 0 && Field(bytes, 36, 4) == 0 && bytes[87] == 0
    && Field(bytes, 76, 2) == CRC32C_ALGORITHM && Field(bytes, 78, 2) == CHECKSUM_SIZE
  }

  function IdentityIn(bytes: seq<byte>): I.Identity
    requires |bytes| >= 56
  {
    I.Identity(Field(bytes, 16, 2), Field(bytes, 18, 2), Field(bytes, 20, 2), Field(bytes, 24, 8),
               Field(bytes, 32, 4), Field(bytes, 40, 8), Field(bytes, 48, 8))
  }

  function LocationIn(bytes: seq<byte>): BlockLocation
    requires |bytes| >= 76
  {
    BlockLocation(Field(bytes, 56, 8), Field(bytes, 64, 8), Field(bytes, 72, 4))
  }

  predicate ChecksumHolds(bytes: seq<byte>)
    requires |bytes| >= HEADER_SIZE
  {
    Field(bytes, 80, 4) == Crc(Covered(bytes))
  }

  predicate PayloadFits(bytes: seq<byte>)
    requires |bytes| >= HEADER_SIZE
  {
    Field(bytes, 88, 8) + Field(bytes, 96, 8) + Field(bytes, 104, 8) == |bytes| - HEADER_SIZE
  }

  /** The three magnitudes. */
  function PIn(bytes: seq<byte>): seq<byte>
    requires |bytes| >= HEADER_SIZE && PayloadFits(bytes)
  {
    bytes[112..112 + Field(bytes, 88, 8)]
  }

  function QIn(bytes: seq<byte>): seq<byte>
    requires |bytes| >= HEADER_SIZE && PayloadFits(bytes)
  {
    bytes[112 + Field(bytes, 88, 8)..][..Field(bytes, 96, 8)]
  }

  function TIn(bytes: seq<byte>): seq<byte>
    requires |bytes| >= HEADER_SIZE && PayloadFits(bytes)
  {
    bytes[112 + Field(bytes, 88, 8) + Field(bytes, 96, 8)..]
  }

  predicate Canonical(bytes: seq<byte>)
    requires |bytes| >= HEADER_SIZE && PayloadFits(bytes)
  {
    Decode(bytes[84], PIn(bytes)).Decoded? && Decode(bytes[85], QIn(bytes)).Decoded? && Decode(bytes[86], TIn(bytes)).Decoded?
  }

  /** The byte strings of the format. */
  predicate Accepted(bytes: seq<byte>) {
    && |bytes| >= HEADER_SIZE
    && FixedFields(bytes)
    && IdentityIn(bytes).Valid()
    && LocationIn(bytes).Valid(IdentityIn(bytes).termCount)
    && ChecksumHolds(bytes)
    && PayloadFits(bytes)
    && Canonical(bytes)
  }

  function BlockIn(bytes: seq<byte>): CheckpointBlock
    requires Accepted(bytes)
  {
    CheckpointBlock(IdentityIn(bytes), LocationIn(bytes),
                    Pqt(Decode(bytes[84], PIn(bytes)).value, Decode(bytes[85], QIn(bytes)).value,
                        Decode(bytes[86], TIn(bytes)).value))
  }

  // ---------- the bytes of a block ----------

  function IdentityLayout(id: I.Identity): Layout {
    Then(2, FORMAT_VERSION, Then(2, HEADER_SIZE, Then(4, 0, Then(2, id.algorithm, Then(2, id.arithmeticVersion,
    Then(2, id.formulaVersion, Then(2, 0, Then(8, id.requestedDigits, Then(4, id.guardDigits, Then(4, 0,
    Then(8, id.workingDigits, Then(8, id.termCount, End))))))))))))
  }

  function LocationLayout(location: BlockLocation): Layout {
    Then(8, location.start, Then(8, location.end, Then(4, location.treeLevel, Then(2, CRC32C_ALGORITHM,
    Then(2, CHECKSUM_SIZE, End)))))
  }

  function SignsLayout(p: byte, q: byte, t: byte): Layout {
    Then(1, p, Then(1, q, Then(1, t, Then(1, 0, End))))
  }

  function LengthsLayout(p: nat, q: nat, t: nat): Layout {
    Then(8, p, Then(8, q, Then(8, t, End)))
  }

  function Signs(v: Pqt): Layout {
    SignsLayout(SignByte(SignOf(v.p)), SignByte(SignOf(v.q)), SignByte(SignOf(v.t)))
  }

  function Lengths(v: Pqt): Layout {
    LengthsLayout(|Magnitude(Abs(v.p))|, |Magnitude(Abs(v.q))|, |Magnitude(Abs(v.t))|)
  }

  function Payload(v: Pqt): seq<byte> {
    Magnitude(Abs(v.p)) + Magnitude(Abs(v.q)) + Magnitude(Abs(v.t))
  }

  function BeforeChecksum(block: CheckpointBlock): (head: seq<byte>)
    ensures |head| == 80
  {
    MAGIC + Render(IdentityLayout(block.identity)) + Render(LocationLayout(block.location))
  }

  function AfterChecksum(v: Pqt): (tail: seq<byte>)
    ensures |tail| == 28 + |Payload(v)|
  {
    Render(Signs(v)) + Render(Lengths(v)) + Payload(v)
  }

  function Encoding(block: CheckpointBlock): (bytes: seq<byte>)
    ensures |bytes| == HEADER_SIZE + |Payload(block.v)|
  {
    var head, tail := BeforeChecksum(block), AfterChecksum(block.v);
    head + Bytes(Crc(head + [0, 0, 0, 0] + tail), 4) + tail
  }

  // ---------- the two agree, part by part ----------

  lemma IdentityHolds(id: I.Identity, bytes: seq<byte>)
    requires |bytes| >= HEADER_SIZE
    ensures Holds(IdentityLayout(id), bytes, 8) <==>
      && Field(bytes, 8, 2) == FORMAT_VERSION && Field(bytes, 10, 2) == HEADER_SIZE
      && Field(bytes, 12, 4) == 0 && Field(bytes, 22, 2) == 0 && Field(bytes, 36, 4) == 0
      && IdentityIn(bytes) == id
  {
  }

  lemma LocationHolds(location: BlockLocation, bytes: seq<byte>)
    requires |bytes| >= HEADER_SIZE
    ensures Holds(LocationLayout(location), bytes, 56) <==>
      Field(bytes, 76, 2) == CRC32C_ALGORITHM && Field(bytes, 78, 2) == CHECKSUM_SIZE && LocationIn(bytes) == location
  {
  }

  lemma OneByteField(bytes: seq<byte>, offset: nat)
    requires offset < |bytes|
    ensures Field(bytes, offset, 1) == bytes[offset]
  {
    var one := bytes[offset..offset + 1];
    assert one[..|one| - 1] == [] && BigEndian(one[..|one| - 1]) == 0;
    assert one[|one| - 1] == bytes[offset];
  }

  lemma SignsHold(p: byte, q: byte, t: byte, bytes: seq<byte>)
    requires |bytes| >= HEADER_SIZE
    ensures Holds(SignsLayout(p, q, t), bytes, 84) <==> bytes[84] == p && bytes[85] == q && bytes[86] == t && bytes[87] == 0
  {
    OneByteField(bytes, 84);
    OneByteField(bytes, 85);
    OneByteField(bytes, 86);
    OneByteField(bytes, 87);
  }

  lemma LengthsHold(p: nat, q: nat, t: nat, bytes: seq<byte>)
    requires |bytes| >= HEADER_SIZE
    ensures Holds(LengthsLayout(p, q, t), bytes, 88) <==>
      Field(bytes, 88, 8) == p && Field(bytes, 96, 8) == q && Field(bytes, 104, 8) == t
  {
  }

  lemma IdentityFits(id: I.Identity)
    requires id.Valid()
    ensures Fits(IdentityLayout(id)) && id.termCount <= U64_MAX
  {
    I.ValidIsPlanned(id);
    Pow256Widths();
  }

  lemma LocationFits(location: BlockLocation, termCount: nat)
    requires location.Valid(termCount) && termCount <= U64_MAX && location.treeLevel <= U32_MAX
    ensures Fits(LocationLayout(location))
  {
    Pow256Widths();
  }

  lemma SizesFit(v: Pqt)
    requires HEADER_SIZE + |Payload(v)| <= U64_MAX
    ensures Fits(Signs(v)) && Fits(Lengths(v))
  {
    Pow256Widths();
  }

  // ---------- every valid block has accepted bytes, and they say the block ----------

  lemma Middle(before: seq<byte>, middle: seq<byte>, after: seq<byte>)
    ensures var s := before + middle + after;
      s[..|before|] == before && s[|before|..|before| + |middle|] == middle && s[|before| + |middle|..] == after
  {
  }

  lemma EncodingInPieces(block: CheckpointBlock)
    ensures var bytes := Encoding(block);
      && bytes[..80] == BeforeChecksum(block) && bytes[84..] == AfterChecksum(block.v)
      && bytes[80..84] == Bytes(Crc(BeforeChecksum(block) + [0, 0, 0, 0] + AfterChecksum(block.v)), 4)
  {
    var head, tail := BeforeChecksum(block), AfterChecksum(block.v);
    Middle(head, Bytes(Crc(head + [0, 0, 0, 0] + tail), 4), tail);
  }

  lemma HeadInPieces(bytes: seq<byte>, identity: seq<byte>, location: seq<byte>)
    requires |bytes| >= HEADER_SIZE && |identity| == 48 && |location| == 24
    requires bytes[..80] == MAGIC + identity + location
    ensures bytes[..8] == MAGIC && bytes[8..56] == identity && bytes[56..80] == location
  {
    Middle(MAGIC, identity, location);
    assert bytes[..8] == bytes[..80][..8] && bytes[8..56] == bytes[..80][8..56] && bytes[56..80] == bytes[..80][56..];
  }

  lemma TailInPieces(bytes: seq<byte>, signs: seq<byte>, lengths: seq<byte>, payload: seq<byte>)
    requires |bytes| >= HEADER_SIZE && |signs| == 4 && |lengths| == 24
    requires bytes[84..] == signs + lengths + payload
    ensures bytes[84..88] == signs && bytes[88..112] == lengths && bytes[112..] == payload
  {
    Middle(signs, lengths, payload);
    assert bytes[84..88] == bytes[84..][..4] && bytes[88..112] == bytes[84..][4..28] && bytes[112..] == bytes[84..][28..];
  }

  lemma HeadSays(bytes: seq<byte>, id: I.Identity, location: BlockLocation)
    requires |bytes| >= HEADER_SIZE && id.Valid() && location.Valid(id.termCount) && location.treeLevel <= U32_MAX
    requires bytes[..80] == MAGIC + Render(IdentityLayout(id)) + Render(LocationLayout(location))
    ensures bytes[87] == 0 ==> FixedFields(bytes)
    ensures IdentityIn(bytes) == id && LocationIn(bytes) == location
  {
    IdentityFits(id);
    LocationFits(location, id.termCount);
    HeadInPieces(bytes, Render(IdentityLayout(id)), Render(LocationLayout(location)));
    RenderHolds(IdentityLayout(id), bytes, 8);
    RenderHolds(LocationLayout(location), bytes, 56);
    IdentityHolds(id, bytes);
    LocationHolds(location, bytes);
  }

  lemma TailSays(bytes: seq<byte>, v: Pqt)
    requires |bytes| >= HEADER_SIZE && HEADER_SIZE + |Payload(v)| <= U64_MAX && bytes[84..] == AfterChecksum(v)
    ensures bytes[87] == 0 && PayloadFits(bytes) && Canonical(bytes)
    ensures v == Pqt(Decode(bytes[84], PIn(bytes)).value, Decode(bytes[85], QIn(bytes)).value,
                     Decode(bytes[86], TIn(bytes)).value)
  {
    SizesFit(v);
    TailInPieces(bytes, Render(Signs(v)), Render(Lengths(v)), Payload(v));
    RenderHolds(Signs(v), bytes, 84);
    RenderHolds(Lengths(v), bytes, 88);
    SignsHold(SignByte(SignOf(v.p)), SignByte(SignOf(v.q)), SignByte(SignOf(v.t)), bytes);
    LengthsHold(|Magnitude(Abs(v.p))|, |Magnitude(Abs(v.q))|, |Magnitude(Abs(v.t))|, bytes);
    Slices(bytes, Magnitude(Abs(v.p)), Magnitude(Abs(v.q)), Magnitude(Abs(v.t)));
    DecodeEncode(v.p);
    DecodeEncode(v.q);
    DecodeEncode(v.t);
  }

  lemma Slices(bytes: seq<byte>, p: seq<byte>, q: seq<byte>, t: seq<byte>)
    requires |bytes| >= HEADER_SIZE && bytes[112..] == p + q + t
    requires Field(bytes, 88, 8) == |p| && Field(bytes, 96, 8) == |q| && Field(bytes, 104, 8) == |t|
    ensures PayloadFits(bytes) && PIn(bytes) == p && QIn(bytes) == q && TIn(bytes) == t
  {
    assert |bytes[112..]| == |bytes| - 112;
    var payload := bytes[112..];
    Middle(p, q, t);
    assert PIn(bytes) == payload[..|p|] && QIn(bytes) == payload[|p|..][..|q|] && TIn(bytes) == payload[|p| + |q|..];
    assert payload[|p|..][..|q|] == payload[|p|..|p| + |q|];
  }

  lemma ChecksumSays(bytes: seq<byte>, head: seq<byte>, tail: seq<byte>)
    requires |bytes| >= HEADER_SIZE && bytes[..80] == head && bytes[84..] == tail
    requires bytes[80..84] == Bytes(Crc(head + [0, 0, 0, 0] + tail), 4)
    ensures ChecksumHolds(bytes)
  {
    C.ChecksumRange(head + [0, 0, 0, 0] + tail, C.Zeros(32));
    Pow256Widths();
    ValueOfBytes(Crc(head + [0, 0, 0, 0] + tail), 4);
  }

  /** Decoding what was encoded: the bytes of a valid block are accepted and say that block. */
  lemma EncodingIsAccepted(block: CheckpointBlock)
    requires block.Valid() && block.InWidth() && block.Storable()
    ensures Accepted(Encoding(block)) && BlockIn(Encoding(block)) == block
  {
    var bytes := Encoding(block);
    EncodingInPieces(block);
    HeadSays(bytes, block.identity, block.location);
    ChecksumSays(bytes, BeforeChecksum(block), AfterChecksum(block.v));
    TailSays(bytes, block.v);
  }

  // ---------- accepted bytes are the bytes of the block they say ----------

  lemma CutInThree(s: seq<byte>, i: nat, j: nat, k: nat)
    requires i <= j <= k <= |s|
    ensures s[..k] == s[..i] + s[i..j] + s[j..k] && s[i..] == s[i..j] + s[j..k] + s[k..]
  {
  }

  lemma HeaderIsEncoded(bytes: seq<byte>, identity: Layout, location: Layout)
    requires |bytes| >= HEADER_SIZE && bytes[..8] == MAGIC
    requires Holds(identity, bytes, 8) && Width(identity) == 48 && Holds(location, bytes, 56) && Width(location) == 24
    ensures bytes[..80] == MAGIC + Render(identity) + Render(location)
  {
    HoldsIsRender(identity, bytes, 8);
    HoldsIsRender(location, bytes, 56);
    CutInThree(bytes, 8, 56, 80);
  }

  lemma SizesAreEncoded(bytes: seq<byte>, signs: Layout, lengths: Layout)
    requires |bytes| >= HEADER_SIZE
    requires Holds(signs, bytes, 84) && Width(signs) == 4 && Holds(lengths, bytes, 88) && Width(lengths) == 24
    ensures bytes[84..] == Render(signs) + Render(lengths) + bytes[112..]
  {
    HoldsIsRender(signs, bytes, 84);
    HoldsIsRender(lengths, bytes, 88);
    CutInThree(bytes, 84, 88, 112);
  }

  lemma PayloadSplits(bytes: seq<byte>)
    requires |bytes| >= HEADER_SIZE && PayloadFits(bytes)
    ensures bytes[112..] == PIn(bytes) + QIn(bytes) + TIn(bytes)
    ensures Field(bytes, 88, 8) == |PIn(bytes)| && Field(bytes, 96, 8) == |QIn(bytes)| && Field(bytes, 104, 8) == |TIn(bytes)|
  {
    SplitsInThree(bytes[112..], Field(bytes, 88, 8), Field(bytes, 96, 8));
    var p, q := Field(bytes, 88, 8), Field(bytes, 96, 8);
    assert PIn(bytes) == bytes[112..][..p] && QIn(bytes) == bytes[112..][p..][..q] && TIn(bytes) == bytes[112..][p + q..];
  }

  lemma SplitsInThree(payload: seq<byte>, p: nat, q: nat)
    requires p + q <= |payload|
    ensures payload == payload[..p] + payload[p..][..q] + payload[p + q..]
  {
  }

  /** Canonical signs and magnitudes are those of the integers they say. */
  lemma PayloadIsEncoded(bytes: seq<byte>, v: Pqt)
    requires |bytes| >= HEADER_SIZE && PayloadFits(bytes) && Canonical(bytes) && bytes[87] == 0
    requires v == Pqt(Decode(bytes[84], PIn(bytes)).value, Decode(bytes[85], QIn(bytes)).value,
                      Decode(bytes[86], TIn(bytes)).value)
    ensures bytes[84..] == AfterChecksum(v)
  {
    var p, q, t := PIn(bytes), QIn(bytes), TIn(bytes);
    PayloadSplits(bytes);
    EncodeDecode(bytes[84], p);
    EncodeDecode(bytes[85], q);
    EncodeDecode(bytes[86], t);
    SignsHold(bytes[84], bytes[85], bytes[86], bytes);
    LengthsHold(|p|, |q|, |t|, bytes);
    SizesAreEncoded(bytes, SignsLayout(bytes[84], bytes[85], bytes[86]), LengthsLayout(|p|, |q|, |t|));
  }

  lemma Reassembled(bytes: seq<byte>, head: seq<byte>, tail: seq<byte>)
    requires |bytes| >= HEADER_SIZE && bytes[..80] == head && bytes[84..] == tail && ChecksumHolds(bytes)
    ensures bytes == head + Bytes(Crc(head + [0, 0, 0, 0] + tail), 4) + tail
  {
    BytesOfValue(bytes[80..84]);
    assert bytes == bytes[..80] + bytes[80..84] + bytes[84..];
  }

  /** Encoding what was decoded: accepted bytes are the one encoding of a valid block. */
  lemma AcceptedIsEncoding(bytes: seq<byte>)
    requires Accepted(bytes)
    ensures BlockIn(bytes).Valid() && Encoding(BlockIn(bytes)) == bytes
    ensures BlockIn(bytes).InWidth() && |bytes| == HEADER_SIZE + |Payload(BlockIn(bytes).v)|
  {
    var block := BlockIn(bytes);
    IdentityHolds(block.identity, bytes);
    LocationHolds(block.location, bytes);
    HeaderIsEncoded(bytes, IdentityLayout(block.identity), LocationLayout(block.location));
    PayloadIsEncoded(bytes, block.v);
    Reassembled(bytes, BeforeChecksum(block), AfterChecksum(block.v));
    LevelInWidth(bytes);
  }

  lemma LevelInWidth(bytes: seq<byte>)
    requires |bytes| >= HEADER_SIZE
    ensures LocationIn(bytes).treeLevel <= U32_MAX
  {
    BytesOfValue(bytes[72..76]);
    Pow256Widths();
  }
}
