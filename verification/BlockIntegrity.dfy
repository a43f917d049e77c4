/** What the block checksum is for: an accepted block altered in a byte, or in up to four neighbouring
    bytes on one side of the end of the checksum slot, is not accepted any more
    (src/checkpoint/CheckpointBlockCodec.cpp). */
module BlockIntegrity {
  import opened BlockFormat
  import opened ByteFields
  import opened GmpSerialization
  import opened Widths
  import C = Crc32c

  lemma CrcIsChecksum(a: seq<byte>, b: seq<byte>)
    requires Crc(a) == Crc(b)
    ensures C.Checksum(a, C.Zeros(32)) == C.Checksum(b, C.Zeros(32))
  {
    C.BitsOfNumber(C.Checksum(a, C.Zeros(32)));
    C.BitsOfNumber(C.Checksum(b, C.Zeros(32)));
  }

  lemma SameField(a: seq<byte>, b: seq<byte>, from: nat, to: nat)
    requires from <= to <= |a| && to <= |b| && BigEndian(a[from..to]) == BigEndian(b[from..to])
    ensures a[from..to] == b[from..to]
  {
    BytesOfValue(a[from..to]);
    BytesOfValue(b[from..to]);
  }

  /** Two byte strings agree outside a stretch. */
  predicate AgreeOutside(a: seq<byte>, b: seq<byte>, from: nat, to: nat) {
    |a| == |b| && from <= to <= |a| && a[..from] == b[..from] && a[to..] == b[to..]
  }

  lemma Cut(s: seq<byte>, from: nat, to: nat)
    requires from <= to <= |s|
    ensures s == s[..from] + s[from..to] + s[to..]
  {
  }

  lemma WindowChangesCrc(a: seq<byte>, b: seq<byte>, from: nat, to: nat)
    requires AgreeOutside(a, b, from, to) && to - from <= 4 && a != b
    ensures Crc(a) != Crc(b)
  {
    Cut(a, from, to);
    Cut(b, from, to);
    if Crc(a) == Crc(b) {
      CrcIsChecksum(a, b);
      C.FourBytesChangeChecksum(a[..from], a[from..to], b[from..to], a[to..], C.Zeros(32));
    }
  }

  lemma CoveredAgrees(a: seq<byte>, b: seq<byte>, from: nat, to: nat)
    requires AgreeOutside(a, b, from, to) && |a| >= HEADER_SIZE && (to <= 80 || 84 <= from)
    ensures AgreeOutside(Covered(a), Covered(b), from, to)
    ensures a[80..84] == b[80..84] && (Covered(a) == Covered(b) ==> a == b)
  {
    var x, y := Covered(a), Covered(b);
    assert forall i | 0 <= i < 80 :: x[i] == a[i] && y[i] == b[i];
    assert forall i | 80 <= i < 84 :: x[i] == 0 && y[i] == 0;
    assert forall i | 84 <= i < |a| :: x[i] == a[i] && y[i] == b[i];
    assert forall i | 0 <= i < from :: a[i] == a[..from][i] && b[i] == b[..from][i];
    assert forall i | to <= i < |a| :: a[i] == a[to..][i - to] && b[i] == b[to..][i - to];
    if x == y {
      assert forall i | 0 <= i < |a| :: a[i] == b[i];
    }
  }

  lemma SamePieces(a: seq<byte>, b: seq<byte>, from: nat, to: nat)
    requires AgreeOutside(a, b, from, to) && |a| >= HEADER_SIZE && 76 <= from && to <= 84
    requires a[76..78] == b[76..78] && a[78..80] == b[78..80]
    ensures a[..80] == b[..80] && a[84..] == b[84..]
  {
    assert a[..76] == a[..from][..76] && b[..76] == b[..from][..76];
    assert a[..80] == a[..76] + a[76..78] + a[78..80] && b[..80] == b[..76] + b[76..78] + b[78..80];
    assert a[84..] == a[to..][84 - to..] && b[84..] == b[to..][84 - to..];
  }

  /** Next to the slot are two fields with only one allowed value each. */
  lemma SlotOnly(a: seq<byte>, b: seq<byte>, from: nat, to: nat)
    requires AgreeOutside(a, b, from, to) && |a| >= HEADER_SIZE && 76 <= from && to <= 84
    requires Field(a, 76, 2) == Field(b, 76, 2) && Field(a, 78, 2) == Field(b, 78, 2)
    requires ChecksumHolds(a) && ChecksumHolds(b)
    ensures a == b
  {
    SameField(a, b, 76, 78);
    SameField(a, b, 78, 80);
    SamePieces(a, b, from, to);
    SameField(a, b, 80, 84);
    Cut(a, 80, 84);
    Cut(b, 80, 84);
  }

  /** Altering up to four neighbouring bytes of an accepted block makes it unacceptable. */
  lemma AlteredIsRejected(bytes: seq<byte>, altered: seq<byte>, from: nat, to: nat)
    requires Accepted(bytes) && AgreeOutside(bytes, altered, from, to) && altered != bytes
    requires to - from <= 4 && (to <= 84 || 84 <= from)
    ensures !Accepted(altered)
  {
    if Accepted(altered) {
      if 80 < to <= 84 {
        SlotOnly(bytes, altered, from, to);
      } else {
        CoveredAgrees(bytes, altered, from, to);
        WindowChangesCrc(Covered(bytes), Covered(altered), from, to);
      }
    }
  }

  /** In particular every altered byte is noticed. */
  lemma AlteredByteIsRejected(bytes: seq<byte>, i: nat, b: byte)
    requires Accepted(bytes) && i < |bytes| && b != bytes[i]
    ensures !Accepted(bytes[i := b])
  {
    var altered := bytes[i := b];
    assert altered[i] != bytes[i];
    AlteredIsRejected(bytes, altered, i, i + 1);
  }
}
