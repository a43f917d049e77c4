/** Streaming SHA-256: however a message is cut into updates, the digest is the one FIPS 180-4 defines for
    the whole message, padded as in section 5.1.1 and hashed block by block as in section 6.2.2
    (src/verification/SHA256.cpp). */
module Sha256 {
  import opened ByteFields
  import opened CheckpointTypes
  import opened GmpSerialization
  import opened Sequences
  import opened Sha256Words
  import opened Widths

  const MAXIMUM_BYTES: nat := U64_MAX / 8

  // ---------- the standard ----------

  function ZeroBytes(n: nat): (z: seq<byte>)
    ensures |z| == n && forall i | 0 <= i < n :: z[i] == 0
  {
    seq(n, _ => 0)
  }

  /** The zero bytes between the first padding byte and the length: as few as fill the last block. */
  function PaddingZeros(length: nat): (zeros: nat)
    ensures zeros < 64 && (length + 1 + zeros + 8) % 64 == 0
  {
    if length % 64 < 56 then 55 - length % 64 else 119 - length % 64
  }

  /** Section 5.1.1, for messages of whole bytes. */
  function Padded(message: seq<byte>): (padded: seq<byte>)
    ensures |padded| % 64 == 0
  {
    message + [0x80] + ZeroBytes(PaddingZeros(|message|)) + Bytes(8 * |message|, 8)
  }

  /** The first n blocks, one after another. */
  function HashRun(s: State, bytes: seq<byte>, n: nat): State
    requires |bytes| == 64 * n
    decreases n
  {
    if n == 0 then s else HashRun(Compress(s, bytes[..64]), bytes[64..], n - 1)
  }

  function HashBlocks(s: State, bytes: seq<byte>): State
    requires |bytes| % 64 == 0
  {
    HashRun(s, bytes, |bytes| / 64)
  }

  function DigestBytes(s: State): (digest: seq<byte>)
    ensures |digest| == 32
  {
    Bytes(s.a, 4) + Bytes(s.b, 4) + Bytes(s.c, 4) + Bytes(s.d, 4) + Bytes(s.e, 4) + Bytes(s.f, 4) + Bytes(s.g, 4) + Bytes(s.h, 4)
  }

  function Digest(message: seq<byte>): (digest: seq<byte>)
    ensures |digest| == 32
  {
    DigestBytes(HashBlocks(INITIAL, Padded(message)))
  }

  // ---------- blocks in two steps ----------

  lemma {:induction false} RunAppend(s: State, a: seq<byte>, m: nat, b: seq<byte>, n: nat)
    requires |a| == 64 * m && |b| == 64 * n
    ensures HashRun(s, a + b, m + n) == HashRun(HashRun(s, a, m), b, n)
    decreases m
  {
    hide Compress;
    if m == 0 {
      assert a + b == b;
    } else {
      assert (a + b)[..64] == a[..64] && (a + b)[64..] == a[64..] + b;
      RunAppend(Compress(s, a[..64]), a[64..], m - 1, b, n);
    }
  }

  lemma RunOne(s: State, block: seq<byte>)
    requires |block| == 64
    ensures HashRun(s, block, 1) == Compress(s, block)
  {
    hide Compress;
    assert block[..64] == block && block[64..] == [];
    assert HashRun(Compress(s, block), [], 0) == Compress(s, block);
  }

  /** One more block after whole blocks. */
  lemma HashNext(s: State, a: seq<byte>, block: seq<byte>)
    requires |a| % 64 == 0 && |block| == 64
    ensures |a + block| % 64 == 0 && HashBlocks(s, a + block) == Compress(HashBlocks(s, a), block)
  {
    hide Compress;
    RunAppend(s, a, |a| / 64, block, 1);
    RunOne(HashBlocks(s, a), block);
  }

  // ---------- different messages are padded differently ----------

  lemma PaddedOneToOne(m: seq<byte>, n: seq<byte>)
    requires |m| <= MAXIMUM_BYTES && |n| <= MAXIMUM_BYTES && Padded(m) == Padded(n)
    ensures m == n
  {
    var padded := Padded(m);
    Pow256Widths();
    ValueOfBytes(8 * |m|, 8);
    ValueOfBytes(8 * |n|, 8);
    assert padded[|padded| - 8..] == Bytes(8 * |m|, 8) == Bytes(8 * |n|, 8);
    assert m == padded[..|m|] == padded[..|n|] == n;
  }

  // ---------- what the context has absorbed ----------

  /** Whole blocks of the message are in the state, the rest is in the buffer. */
  ghost predicate Absorbed(state: State, buffer: seq<byte>, bufferSize: nat, message: seq<byte>) {
    && |buffer| == 64 && bufferSize <= |message| && bufferSize <= 64
    && (|message| - bufferSize) % 64 == 0
    && state == HashBlocks(INITIAL, message[..|message| - bufferSize])
    && buffer[..bufferSize] == message[|message| - bufferSize..]
  }

  lemma AbsorbPart(state: State, before: seq<byte>, after: seq<byte>, size: nat, message: seq<byte>, part: seq<byte>)
    requires Absorbed(state, before, size, message) && size + |part| <= 64
    requires after == before[..size] + part + before[size + |part|..]
    ensures Absorbed(state, after, size + |part|, message + part)
  {
    hide Compress;
    var longer, hashed := message + part, |message| - size;
    assert |longer| - (size + |part|) == hashed;
    assert longer[..hashed] == message[..hashed] && longer[hashed..] == message[hashed..] + part;
    assert after[..size + |part|] == before[..size] + part;
  }

  lemma AbsorbBlock(state: State, buffer: seq<byte>, message: seq<byte>)
    requires Absorbed(state, buffer, 64, message)
    ensures Absorbed(Compress(state, buffer), buffer, 0, message)
  {
    hide Compress;
    var hashed := message[..|message| - 64];
    assert buffer[..64] == buffer;
    assert message == hashed + buffer && message[..|message| - 0] == message;
    HashNext(INITIAL, hashed, buffer);
  }

  lemma AbsorbWhole(state: State, buffer: seq<byte>, message: seq<byte>, block: seq<byte>)
    requires Absorbed(state, buffer, 0, message) && |block| == 64
    ensures Absorbed(Compress(state, block), buffer, 0, message + block)
  {
    hide Compress;
    assert message[..|message| - 0] == message && (message + block)[..|message + block| - 0] == message + block;
    HashNext(INITIAL, message, block);
  }

  // ---------- the padding in the buffer ----------

  lemma ZerosSplit(m: nat, n: nat)
    ensures ZeroBytes(m + n) == ZeroBytes(m) + ZeroBytes(n)
  {
  }

  lemma GroupLast<T>(start: seq<T>, left: seq<T>, x: seq<T>, z: seq<T>, l: seq<T>)
    ensures start + left + x + z + l == start + (left + x + z + l)
  {
    Associative(start, left, x);
    Associative(start, left + x, z);
    Associative(start, left + x + z, l);
  }

  lemma GroupTwo<T>(start: seq<T>, left: seq<T>, x: seq<T>, y: seq<T>, z: seq<T>, l: seq<T>)
    ensures start + left + x + (y + z) + l == start + (left + x + y) + (z + l)
  {
    Associative(start + left + x, y, z);
    GroupLast(start, left, x, y, z + l);
    Associative(start + left + x + y, z, l);
    Associative(start, left + x + y, z + l);
  }

  /** The part that does not fill a block decides the padding. */
  lemma ZerosNeeded(start: nat, left: nat)
    requires start % 64 == 0 && left < 64
    ensures PaddingZeros(start + left) == if left < 56 then 55 - left else 119 - left
  {
    assert (start + left) % 64 == left;
  }

  lemma OneBlockPadding(start: seq<byte>, left: seq<byte>)
    requires |start| % 64 == 0 && |left| < 56
    ensures Padded(start + left) == start + (left + [0x80] + ZeroBytes(55 - |left|) + Bytes(8 * |start + left|, 8))
  {
    hide Bytes, PaddingZeros;
    ZerosNeeded(|start|, |left|);
    GroupLast(start, left, [0x80], ZeroBytes(55 - |left|), Bytes(8 * |start + left|, 8));
  }

  lemma TwoBlockPadding(start: seq<byte>, left: seq<byte>)
    requires |start| % 64 == 0 && 56 <= |left| < 64
    ensures Padded(start + left) == start + (left + [0x80] + ZeroBytes(63 - |left|))
              + (ZeroBytes(56) + Bytes(8 * |start + left|, 8))
  {
    hide Bytes, PaddingZeros;
    ZerosNeeded(|start|, |left|);
    ZerosSplit(63 - |left|, 56);
    GroupTwo(start, left, [0x80], ZeroBytes(63 - |left|), ZeroBytes(56), Bytes(8 * |start + left|, 8));
  }

  // ---------- filling the buffer ----------

  method CopyIn(buffer: array<byte>, at: nat, bytes: seq<byte>)
    requires at + |bytes| <= buffer.Length
    modifies buffer
    ensures buffer[..] == old(buffer[..at]) + bytes + old(buffer[at + |bytes|..])
  {
    for i := 0 to |bytes|
      invariant buffer[..at] == old(buffer[..at]) && buffer[at..at + i] == bytes[..i]
      invariant buffer[at + |bytes|..] == old(buffer[at + |bytes|..])
    {
      buffer[at + i] := bytes[i];
      assert buffer[at..at + i + 1] == buffer[at..at + i] + [bytes[i]];
    }
    assert buffer[..] == buffer[..at] + buffer[at..at + |bytes|] + buffer[at + |bytes|..];
  }

  method FillZeros(buffer: array<byte>, from: nat, to: nat)
    requires from <= to <= buffer.Length
    modifies buffer
    ensures buffer[..] == old(buffer[..from]) + ZeroBytes(to - from) + old(buffer[to..])
  {
    CopyIn(buffer, from, ZeroBytes(to - from));
  }

  /** The bit length goes into the last eight bytes, from the last to the first. */
  method StoreLength(buffer: array<byte>, bitLength: nat)
    requires buffer.Length == 64
    modifies buffer
    ensures buffer[..] == old(buffer[..56]) + Bytes(bitLength, 8)
  {
    for index := 0 to 8
      invariant buffer[..56] == old(buffer[..56])
      invariant Bytes(bitLength, 8) == Bytes(Shifted(bitLength, index), 8 - index) + buffer[64 - index..]
    {
      var b := Shifted(bitLength, index) % 256;
      buffer[63 - index] := b;
      assert buffer[63 - index..] == [b] + buffer[64 - index..];
      Associative(Bytes(Shifted(bitLength, index + 1), 7 - index), [b], buffer[64 - index..]);
    }
    assert buffer[..] == buffer[..56] + buffer[56..];
  }

  /** The hash value as bytes, word by word from the highest byte. */
  method StoreDigest(s: State) returns (digest: seq<byte>)
    ensures digest == DigestBytes(s)
  {
    digest := Append([], s.a, 4);
    digest := Append(digest, s.b, 4);
    digest := Append(digest, s.c, 4);
    digest := Append(digest, s.d, 4);
    digest := Append(digest, s.e, 4);
    digest := Append(digest, s.f, 4);
    digest := Append(digest, s.g, 4);
    digest := Append(digest, s.h, 4);
    assert [] + Bytes(s.a, 4) == Bytes(s.a, 4);
  }

  // ---------- the context ----------

  datatype UpdateResult = Updated | AlreadyFinalized | TooLong

  /** The last block of the padded message, when the length fits behind what is left. */
  lemma LastOfOne(start: seq<byte>, left: seq<byte>, block: seq<byte>)
    requires |start| % 64 == 0 && |left| < 56
    requires block == left + [0x80] + ZeroBytes(55 - |left|) + Bytes(8 * |start + left|, 8)
    ensures HashBlocks(INITIAL, Padded(start + left)) == Compress(HashBlocks(INITIAL, start), block)
  {
    hide Compress, Bytes;
    OneBlockPadding(start, left);
    HashNext(INITIAL, start, block);
  }

  /** And when it takes another block. */
  lemma LastOfTwo(start: seq<byte>, left: seq<byte>, first: seq<byte>, block: seq<byte>)
    requires |start| % 64 == 0 && 56 <= |left| < 64
    requires first == left + [0x80] + ZeroBytes(63 - |left|)
    requires block == ZeroBytes(56) + Bytes(8 * |start + left|, 8)
    ensures HashBlocks(INITIAL, Padded(start + left)) == Compress(Compress(HashBlocks(INITIAL, start), first), block)
  {
    hide Compress, Bytes;
    TwoBlockPadding(start, left);
    HashNext(INITIAL, start, first);
    HashNext(INITIAL, start + first, block);
  }

  class Context {
    var state: State
    const buffer: array<byte>
    var bufferSize: nat
    var totalBytes: nat
    var finalized: bool
    var digest: seq<byte>
    /** What has been fed so far. */
    ghost var message: seq<byte>

    ghost predicate Valid()
      reads this, buffer
    {
      && buffer.Length == 64
      && totalBytes == |message| <= MAXIMUM_BYTES
      && (finalized ==> digest == Digest(message))
      && (!finalized ==> bufferSize < 64 && Absorbed(state, buffer[..], bufferSize, message))
    }

    constructor ()
      ensures Valid() && fresh(buffer) && !finalized && message == []
    {
      state := INITIAL;
      buffer := new byte[64](_ => 0);
      bufferSize := 0;
      totalBytes := 0;
      finalized := false;
      digest := [];
      message := [];
      new;
      assert buffer[..0] == [];
    }

    /** The first piece of the input, into a buffer that is not empty. */
    method FillBuffer(bytes: seq<byte>) returns (offset: nat)
      requires buffer.Length == 64 && 0 < bufferSize < 64 && Absorbed(state, buffer[..], bufferSize, message)
      modifies `state, `bufferSize, `message, buffer
      ensures offset <= |bytes| && message == old(message) + bytes[..offset]
      ensures bufferSize < 64 && Absorbed(state, buffer[..], bufferSize, message)
      ensures bufferSize != 0 ==> offset == |bytes|
    {
      hide Compress;
      offset := if |bytes| < 64 - bufferSize then |bytes| else 64 - bufferSize;
      CopyIn(buffer, bufferSize, bytes[..offset]);
      AbsorbPart(state, old(buffer[..]), buffer[..], bufferSize, message, bytes[..offset]);
      message := message + bytes[..offset];
      bufferSize := bufferSize + offset;
      if bufferSize == 64 {
        AbsorbBlock(state, buffer[..], message);
        state := Transform(state, buffer[..]);
        bufferSize := 0;
      }
    }

    /** Whole blocks straight from the input, once the buffer is empty. */
    method HashWholeBlocks(bytes: seq<byte>, start: nat, ghost before: seq<byte>) returns (offset: nat)
      requires start <= |bytes| && message == before + bytes[..start]
      requires bufferSize < 64 && Absorbed(state, buffer[..], bufferSize, message)
      requires bufferSize != 0 ==> start == |bytes|
      modifies `state, `message
      ensures start <= offset <= |bytes| && |bytes| - offset < 64 && message == before + bytes[..offset]
      ensures Absorbed(state, buffer[..], bufferSize, message)
      ensures bufferSize != 0 ==> offset == |bytes|
    {
      hide Compress;
      offset := start;
      while |bytes| - offset >= 64
        invariant start <= offset <= |bytes| && message == before + bytes[..offset]
        invariant Absorbed(state, buffer[..], bufferSize, message)
        invariant bufferSize != 0 ==> offset == |bytes|
      {
        var block := bytes[offset..offset + 64];
        AbsorbWhole(state, buffer[..], message, block);
        assert bytes[..offset + 64] == bytes[..offset] + block;
        Associative(before, bytes[..offset], block);
        state := Transform(state, block);
        message := message + block;
        offset := offset + 64;
      }
    }

    /** What is left waits in the buffer. */
    method KeepRest(rest: seq<byte>)
      requires |rest| < 64 && bufferSize == 0 && Absorbed(state, buffer[..], 0, message)
      modifies `bufferSize, `message, buffer
      ensures message == old(message) + rest && bufferSize == |rest| && Absorbed(state, buffer[..], bufferSize, message)
    {
      hide Compress;
      CopyIn(buffer, 0, rest);
      AbsorbPart(state, old(buffer[..]), buffer[..], 0, message, rest);
      bufferSize := |rest|;
      message := message + rest;
    }

    /** Adds bytes. Refused after finalization, or when the bit length would not fit 64 bits; a refusal
        changes nothing. */
    method Update(bytes: seq<byte>) returns (r: UpdateResult)
      requires Valid()
      modifies this, buffer
      ensures Valid() && finalized == old(finalized) && digest == old(digest)
      ensures r == if old(finalized) then AlreadyFinalized
                   else if old(|message|) + |bytes| > MAXIMUM_BYTES then TooLong
                   else Updated
      ensures message == if r.Updated? then old(message) + bytes else old(message)
    {
      hide Compress;
      if finalized {
        return AlreadyFinalized;
      }
      if |bytes| > MAXIMUM_BYTES - totalBytes {
        return TooLong;
      }
      totalBytes := totalBytes + |bytes|;
      var offset := 0;
      assert old(message) + bytes[..0] == old(message);
      if bufferSize != 0 {
        offset := FillBuffer(bytes);
      }
      offset := HashWholeBlocks(bytes, offset, old(message));
      if offset < |bytes| {
        KeepRest(bytes[offset..]);
        assert bytes == bytes[..offset] + bytes[offset..];
        Associative(old(message), bytes[..offset], bytes[offset..]);
      } else {
        assert bytes[..offset] == bytes;
      }
      r := Updated;
    }

    /** The padding goes into the buffer, which may have to be hashed before the length fits. */
    method PadAndHash(bitLength: nat)
      requires bufferSize < 64 && Absorbed(state, buffer[..], bufferSize, message) && bitLength == 8 * |message|
      modifies `state, `bufferSize, buffer
      ensures state == HashBlocks(INITIAL, Padded(message))
    {
      hide Compress;
      ghost var hashed := |message| - bufferSize;
      ghost var start, left := message[..hashed], message[hashed..];
      assert message == start + left;
      CloseMessage(left);
      ghost var first: seq<byte> := [];
      if bufferSize > 56 {
        FillZeros(buffer, bufferSize, 64);
        first := buffer[..];
        assert first == left + [0x80] + ZeroBytes(63 - |left|);
        state := Transform(state, buffer[..]);
        bufferSize := 0;
      }
      FillZeros(buffer, bufferSize, 56);
      StoreLength(buffer, bitLength);
      if first == [] {
        LastOfOne(start, left, buffer[..]);
      } else {
        LastOfTwo(start, left, first, buffer[..]);
      }
      state := Transform(state, buffer[..]);
    }

    /** The bit that ends the message. */
    method CloseMessage(ghost left: seq<byte>)
      requires buffer.Length == 64 && bufferSize < 64 && left == buffer[..bufferSize]
      modifies `bufferSize, buffer
      ensures bufferSize == old(bufferSize) + 1 && buffer[..bufferSize] == left + [0x80]
    {
      buffer[bufferSize] := 0x80;
      bufferSize := bufferSize + 1;
    }

    /** Pads, hashes the last one or two blocks, and from then on returns that digest. */
    method Finalize() returns (result: seq<byte>)
      requires Valid()
      modifies this, buffer
      ensures Valid() && finalized && message == old(message)
      ensures result == digest == Digest(message)
    {
      hide Compress;
      if finalized {
        return digest;
      }
      PadAndHash(totalBytes * 8);
      bufferSize := 0;
      digest := StoreDigest(state);
      finalized := true;
      result := digest;
    }
  }

  /** Every way of cutting a message into updates gives the digest of the whole message. */
  method HashParts(parts: seq<seq<byte>>) returns (result: seq<byte>)
    requires |Joined(parts)| <= MAXIMUM_BYTES
    ensures result == Digest(Joined(parts))
  {
    var context := new Context();
    for i := 0 to |parts|
      invariant fresh(context) && fresh(context.buffer) && context.Valid() && !context.finalized
      invariant context.message == Joined(parts[..i])
    {
      JoinedStep(parts, i);
      JoinedPrefix(parts, i + 1);
      var r := context.Update(parts[i]);
    }
    assert parts[..|parts|] == parts;
    result := context.Finalize();
  }

  function Joined(parts: seq<seq<byte>>): seq<byte> {
    if parts == [] then [] else Joined(parts[..|parts| - 1]) + parts[|parts| - 1]
  }

  lemma JoinedStep(parts: seq<seq<byte>>, i: nat)
    requires i < |parts|
    ensures Joined(parts[..i + 1]) == Joined(parts[..i]) + parts[i]
  {
    assert parts[..i + 1][..i] == parts[..i];
  }

  lemma {:induction false} JoinedPrefix(parts: seq<seq<byte>>, i: nat)
    requires i <= |parts|
    ensures |Joined(parts[..i])| <= |Joined(parts)|
    decreases |parts| - i
  {
    if i == |parts| {
      assert parts[..i] == parts;
    } else {
      JoinedStep(parts, i);
      JoinedPrefix(parts, i + 1);
    }
  }
}
