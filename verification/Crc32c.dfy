/** CRC32C (section 12.1 of RFC 3720) three ways: the table-driven loop, the word-at-a-time loop on the
    processor's CRC step, and the bit-serial definition (src/checkpoint/CRC32C.cpp). They agree on every
    input and every cut, and any change within 32 consecutive message bits changes the checksum.

    A 32-bit register is the list of its bits, lowest first, so a message is simply the bits of its bytes,
    and a little-endian word of it is a stretch of that list. */
module Crc32c {
  import opened CheckpointTypes
  import opened GmpSerialization
  import opened Sequences

  type Bits = seq<bool>

  function Zeros(n: nat): (z: Bits)
    ensures |z| == n && forall i | 0 <= i < n :: !z[i]
  {
    seq(n, _ => false)
  }

  function Xor(a: Bits, b: Bits): (c: Bits)
    requires |a| == |b|
    ensures |c| == |a| && forall i | 0 <= i < |a| :: c[i] == (a[i] != b[i])
  {
    seq(|a|, i requires 0 <= i < |a| => a[i] != b[i])
  }

  /** r >> 1 */
  function ShiftRight(r: Bits): (s: Bits)
    requires r != []
    ensures |s| == |r|
  {
    r[1..] + [false]
  }

  /** The bits of a number, lowest first, and back. */
  function BitsOf(n: nat, width: nat): (bits: Bits)
    ensures |bits| == width
  {
    if width == 0 then [] else [n % 2 == 1] + BitsOf(n / 2, width - 1)
  }

  function NumberOf(bits: Bits): nat {
    if bits == [] then 0 else (if bits[0] then 1 else 0) + 2 * NumberOf(bits[1..])
  }

  lemma {:induction false} BitsOfNumber(bits: Bits)
    ensures BitsOf(NumberOf(bits), |bits|) == bits && NumberOf(bits) < Pow2(|bits|)
  {
    if bits != [] {
      BitsOfNumber(bits[1..]);
    }
  }

  lemma {:induction false} NumberOfBits(n: nat, width: nat)
    requires n < Pow2(width)
    ensures NumberOf(BitsOf(n, width)) == n
  {
    if width > 0 {
      NumberOfBits(n / 2, width - 1);
      assert BitsOf(n, width)[1..] == BitsOf(n / 2, width - 1);
    }
  }

  // ---------- the bit-serial definition ----------

  const POLYNOMIAL: Bits := BitsOf(0x82F63B78, 32)

  lemma {:induction false} TopBit(n: nat, width: nat)
    requires width > 0 && Pow2(width - 1) <= n < Pow2(width)
    ensures BitsOf(n, width)[width - 1]
  {
    if width > 1 { TopBit(n / 2, width - 1); }
  }

  lemma {:induction false} Pow2Sum(m: nat, n: nat)
    ensures Pow2(m + n) == Pow2(m) * Pow2(n)
  {
    if m > 0 { Pow2Sum(m - 1, n); }
  }

  lemma Pow2Widths()
    ensures Pow2(8) == 256 && Pow2(31) == 0x8000_0000 && Pow2(32) == 0x1_0000_0000
  {
    assert Pow2(4) == 16 && Pow2(3) == 8;
    Pow2Sum(4, 4);
    Pow2Sum(8, 8);
    Pow2Sum(16, 16);
  }

  lemma PolynomialTop()
    ensures POLYNOMIAL[31]
  {
    Pow2Widths();
    TopBit(0x82F63B78, 32);
  }

  /** One bit of the reflected division. */
  function BitStep(r: Bits): (s: Bits)
    requires |r| == 32
    ensures |s| == 32
  {
    if r[0] then Xor(ShiftRight(r), POLYNOMIAL) else ShiftRight(r)
  }

  /** One message bit enters at the low end. */
  function FeedBit(r: Bits, b: bool): (s: Bits)
    requires |r| == 32
    ensures |s| == 32
  {
    BitStep(r[0 := r[0] != b])
  }

  function Feed(r: Bits, message: Bits): (s: Bits)
    requires |r| == 32
    ensures |s| == 32
    decreases |message|
  {
    if message == [] then r else Feed(FeedBit(r, message[0]), message[1..])
  }

  function MessageBits(bytes: seq<byte>): (bits: Bits)
    ensures |bits| == 8 * |bytes|
  {
    if bytes == [] then [] else BitsOf(bytes[0], 8) + MessageBits(bytes[1..])
  }

  function Inverted(r: Bits): (s: Bits)
    ensures |s| == |r| && forall i | 0 <= i < |r| :: s[i] == !r[i]
  {
    seq(|r|, i requires 0 <= i < |r| => !r[i])
  }

  /** The checksum of the bytes, continuing from that of what came before. */
  function Checksum(bytes: seq<byte>, previous: Bits): (c: Bits)
    requires |previous| == 32
    ensures |c| == 32
  {
    Inverted(Feed(Inverted(previous), MessageBits(bytes)))
  }

  // ---------- feeding in parts ----------

  lemma {:induction false} FeedAppend(r: Bits, a: Bits, b: Bits)
    requires |r| == 32
    ensures Feed(r, a + b) == Feed(Feed(r, a), b)
    decreases |a|
  {
    if a == [] {
      assert a + b == b;
    } else {
      assert (a + b)[1..] == a[1..] + b;
      FeedAppend(FeedBit(r, a[0]), a[1..], b);
    }
  }

  lemma {:induction false} MessageAppend(a: seq<byte>, b: seq<byte>)
    ensures MessageBits(a + b) == MessageBits(a) + MessageBits(b)
  {
    if a == [] {
      assert a + b == b;
    } else {
      assert (a + b)[1..] == a[1..] + b && (a + b)[0] == a[0];
      MessageAppend(a[1..], b);
      Associative(BitsOf(a[0], 8), MessageBits(a[1..]), MessageBits(b));
    }
  }

  lemma MessageOne(b: byte)
    ensures MessageBits([b]) == BitsOf(b, 8)
  {
    assert [b][1..] == [];
    assert MessageBits([b]) == BitsOf(b, 8) + [];
  }

  /** Cutting the input anywhere and continuing from the checksum so far gives the checksum of the whole. */
  lemma ChecksumOfParts(a: seq<byte>, b: seq<byte>, previous: Bits)
    requires |previous| == 32
    ensures Checksum(b, Checksum(a, previous)) == Checksum(a + b, previous)
  {
    var r := Feed(Inverted(previous), MessageBits(a));
    assert Inverted(Inverted(r)) == r;
    MessageAppend(a, b);
    FeedAppend(Inverted(previous), MessageBits(a), MessageBits(b));
  }

  // ---------- many steps without new bits ----------

  function Many(r: Bits, n: nat): (s: Bits)
    requires |r| == 32
    ensures |s| == 32
    decreases n
  {
    if n == 0 then r else Many(BitStep(r), n - 1)
  }

  /** What is above the lowest bit only shifts down. */
  lemma StepAbove(x: Bits, y: Bits)
    requires |x| == |y| == 32 && !y[0]
    ensures BitStep(Xor(x, y)) == Xor(BitStep(x), ShiftRight(y))
  {
  }

  lemma OneBitAhead(r: Bits, bits: Bits)
    requires |r| == 32 && 0 < |bits| <= 32
    ensures BitStep(Xor(r, bits + Zeros(32 - |bits|))) == Xor(FeedBit(r, bits[0]), bits[1..] + Zeros(32 - |bits[1..]|))
  {
    var flipped := r[0 := r[0] != bits[0]];
    var above := [false] + bits[1..] + Zeros(32 - |bits|);
    assert Xor(flipped, above) == Xor(r, bits + Zeros(32 - |bits|));
    StepAbove(flipped, above);
    assert ShiftRight(above) == bits[1..] + Zeros(32 - |bits[1..]|);
  }

  /** Up to 32 bits may enter one by one, or all at once before the steps: what the table and the
      processor's word step rely on. */
  lemma {:induction false} FeedIsMany(r: Bits, bits: Bits)
    requires |r| == 32 && |bits| <= 32
    ensures Feed(r, bits) == Many(Xor(r, bits + Zeros(32 - |bits|)), |bits|)
    decreases |bits|
  {
    if bits == [] {
      assert Xor(r, bits + Zeros(32)) == r;
    } else {
      OneBitAhead(r, bits);
      FeedIsMany(FeedBit(r, bits[0]), bits[1..]);
    }
  }

  /** n steps on a register whose low n bits are clear only shift. */
  lemma {:induction false} ManyAbove(x: Bits, y: Bits, n: nat)
    requires |x| == |y| == 32 && n <= 32 && forall i | 0 <= i < n :: !y[i]
    ensures Many(Xor(x, y), n) == Xor(Many(x, n), y[n..] + Zeros(n))
    decreases n
  {
    if n == 0 {
      assert y[0..] + Zeros(0) == y;
    } else {
      StepAbove(x, y);
      ManyAbove(BitStep(x), ShiftRight(y), n - 1);
      assert ShiftRight(y)[n - 1..] + Zeros(n - 1) == y[n..] + Zeros(n);
    }
  }

  // ---------- a byte at a time, by the table ----------

  lemma {:induction false} BitsOfLow(bits: Bits, width: nat)
    requires |bits| <= width
    ensures BitsOf(NumberOf(bits), width) == bits + Zeros(width - |bits|)
    decreases width
  {
    if bits != [] {
      BitsOfLow(bits[1..], width - 1);
      assert bits == [bits[0]] + bits[1..];
      Associative([bits[0]], bits[1..], Zeros(width - |bits|));
    } else if width > 0 {
      BitsOfLow([], width - 1);
      assert [false] + Zeros(width - 1) == Zeros(width);
      assert [] + Zeros(width) == Zeros(width);
      assert [] + Zeros(width - 1) == Zeros(width - 1);
    }
  }

  lemma EightStepsSplit(r: Bits, bits: Bits)
    requires |r| == 32 && |bits| == 8
    ensures Many(Xor(r, bits + Zeros(24)), 8) == Xor(Many(Xor(r[..8], bits) + Zeros(24), 8), r[8..] + Zeros(8))
  {
    var low, above := Xor(r[..8], bits) + Zeros(24), Zeros(8) + r[8..];
    assert Xor(low, above) == Xor(r, bits + Zeros(24));
    ManyAbove(low, above, 8);
    assert above[8..] == r[8..];
  }

  /** One byte: eight bits fed are one table entry, chosen by the low byte, over the register shifted down. */
  lemma ByteByTable(r: Bits, b: byte)
    requires |r| == 32
    ensures var index := NumberOf(Xor(r[..8], BitsOf(b, 8)));
            index < 256 && Feed(r, BitsOf(b, 8)) == Xor(Many(BitsOf(index, 32), 8), r[8..] + Zeros(8))
  {
    var bits := BitsOf(b, 8);
    var low := Xor(r[..8], bits);
    BitsOfNumber(low);
    Pow2Widths();
    BitsOfLow(low, 32);
    FeedIsMany(r, bits);
    EightStepsSplit(r, bits);
  }

  ghost predicate IsTable(table: seq<Bits>) {
    |table| == 256 && forall index | 0 <= index < 256 :: table[index] == Many(BitsOf(index, 32), 8)
  }

  lemma ManyStep(r: Bits, n: nat)
    requires |r| == 32
    ensures Many(r, n + 1) == BitStep(Many(r, n))
    decreases n
  {
    if n > 0 { ManyStep(BitStep(r), n - 1); }
  }

  method CreateTable() returns (table: array<Bits>)
    ensures fresh(table) && IsTable(table[..])
  {
    table := new Bits[256](_ => []);
    for index := 0 to 256
      invariant forall k | 0 <= k < index :: table[k] == Many(BitsOf(k, 32), 8)
    {
      var remainder := BitsOf(index, 32);
      for bit := 0 to 8
        invariant |remainder| == 32 && remainder == Many(BitsOf(index, 32), bit)
        invariant forall k | 0 <= k < index :: table[k] == Many(BitsOf(k, 32), 8)
      {
        ManyStep(BitsOf(index, 32), bit);
        remainder := if remainder[0] then Xor(ShiftRight(remainder), POLYNOMIAL) else ShiftRight(remainder);
      }
      table[index] := remainder;
    }
  }

  /** The loop for processors without the CRC instruction. */
  method CalculateByTable(table: seq<Bits>, bytes: seq<byte>, previous: Bits) returns (result: Bits)
    requires IsTable(table) && |previous| == 32
    ensures result == Checksum(bytes, previous)
  {
    var checksum := Inverted(previous);
    for i := 0 to |bytes|
      invariant |checksum| == 32 && checksum == Feed(Inverted(previous), MessageBits(bytes[..i]))
    {
      var index := NumberOf(Xor(checksum[..8], BitsOf(bytes[i], 8)));
      ByteByTable(checksum, bytes[i]);
      FeedNext(Inverted(previous), bytes, i, i + 1);
      MessageOne(bytes[i]);
      assert bytes[i..i + 1] == [bytes[i]];
      checksum := Xor(table[index], checksum[8..] + Zeros(8));
    }
    assert bytes[..|bytes|] == bytes;
    result := Inverted(checksum);
  }

  lemma FeedNext(r: Bits, bytes: seq<byte>, i: nat, j: nat)
    requires |r| == 32 && i <= j <= |bytes|
    ensures Feed(r, MessageBits(bytes[..j])) == Feed(Feed(r, MessageBits(bytes[..i])), MessageBits(bytes[i..j]))
  {
    hide Feed, MessageBits;
    assert bytes[..j] == bytes[..i] + bytes[i..j];
    MessageAppend(bytes[..i], bytes[i..j]);
    FeedAppend(r, MessageBits(bytes[..i]), MessageBits(bytes[i..j]));
  }

  // ---------- a word at a time, by the processor ----------

  /** What memcpy into an integer reads on the little-endian machines that have the instruction. */
  function LittleEndian(bytes: seq<byte>): nat {
    if bytes == [] then 0 else bytes[0] + 256 * LittleEndian(bytes[1..])
  }

  /** The crc32 instruction on a word of the given width. */
  function CrcInstruction(r: Bits, word: nat, width: nat): (s: Bits)
    requires |r| == 32
    ensures |s| == 32
  {
    Feed(r, BitsOf(word, width))
  }

  lemma {:induction false} BitsOfSum(low: nat, k: nat, high: nat, width: nat)
    requires low < Pow2(k)
    ensures BitsOf(low + Pow2(k) * high, k + width) == BitsOf(low, k) + BitsOf(high, width)
    decreases k
  {
    if k == 0 {
      assert [] + BitsOf(high, width) == BitsOf(high, width);
    } else {
      var n := low + Pow2(k) * high;
      assert n == low + 2 * (Pow2(k - 1) * high);
      assert n % 2 == low % 2 && n / 2 == low / 2 + Pow2(k - 1) * high;
      BitsOfSum(low / 2, k - 1, high, width);
      Associative([low % 2 == 1], BitsOf(low / 2, k - 1), BitsOf(high, width));
    }
  }

  /** The bits of a little-endian word are the message bits of its bytes. */
  lemma {:induction false} WordBits(bytes: seq<byte>)
    ensures BitsOf(LittleEndian(bytes), 8 * |bytes|) == MessageBits(bytes)
  {
    if bytes != [] {
      WordBits(bytes[1..]);
      Pow2Widths();
      BitsOfSum(bytes[0], 8, LittleEndian(bytes[1..]), 8 * |bytes[1..]|);
    }
  }

  /** The loops for processors with the instruction: words of 8 (where there are any so wide), then 4, 2 and 1. */
  method CalculateByWords(bytes: seq<byte>, previous: Bits, wide: bool) returns (result: Bits)
    requires |previous| == 32
    ensures result == Checksum(bytes, previous)
  {
    var checksum, offset := Inverted(previous), 0;
    if wide {
      checksum, offset := FeedWords(bytes, checksum, offset, 8, Inverted(previous));
    }
    checksum, offset := FeedWords(bytes, checksum, offset, 4, Inverted(previous));
    checksum, offset := FeedWords(bytes, checksum, offset, 2, Inverted(previous));
    checksum, offset := FeedWords(bytes, checksum, offset, 1, Inverted(previous));
    assert bytes[..offset] == bytes;
    result := Inverted(checksum);
  }

  /** One of those loops. */
  method FeedWords(bytes: seq<byte>, begun: Bits, start: nat, size: nat, ghost first: Bits)
    returns (checksum: Bits, offset: nat)
    requires |begun| == |first| == 32 && start <= |bytes| && size > 0
    requires begun == Feed(first, MessageBits(bytes[..start]))
    ensures |checksum| == 32 && start <= offset <= |bytes| && |bytes| - offset < size
    ensures checksum == Feed(first, MessageBits(bytes[..offset]))
  {
    checksum, offset := begun, start;
    while |bytes| - offset >= size
      invariant |checksum| == 32 && start <= offset <= |bytes|
      invariant checksum == Feed(first, MessageBits(bytes[..offset]))
    {
      var word := LittleEndian(bytes[offset..offset + size]);
      WordBits(bytes[offset..offset + size]);
      FeedNext(first, bytes, offset, offset + size);
      checksum := CrcInstruction(checksum, word, 8 * size);
      offset := offset + size;
    }
  }

  /** `calculate`: with or without the instruction, with or without 64-bit words, the same checksum. */
  method Calculate(bytes: seq<byte>, previous: Bits, instruction: bool, wide: bool) returns (result: Bits)
    requires |previous| == 32
    ensures result == Checksum(bytes, previous)
  {
    if instruction {
      result := CalculateByWords(bytes, previous, wide);
    } else {
      var table := CreateTable();
      result := CalculateByTable(table[..], bytes, previous);
    }
  }

  /** However it is computed, the result is one number. */
  lemma ChecksumRange(bytes: seq<byte>, previous: Bits)
    requires |previous| == 32
    ensures NumberOf(Checksum(bytes, previous)) < 0x1_0000_0000
  {
    BitsOfNumber(Checksum(bytes, previous));
    Pow2Widths();
  }

  // ---------- changes are noticed ----------

  /** The bit that left comes back at the top, and the others moved down can be told from it. */
  lemma BitsAfterStep(x: Bits)
    requires |x| == 32
    ensures BitStep(x)[31] == x[0]
    ensures forall i | 0 <= i < 31 :: BitStep(x)[i] == (x[i + 1] != (x[0] && POLYNOMIAL[i]))
  {
    PolynomialTop();
    var s := ShiftRight(x);
    assert !s[31] && forall i | 0 <= i < 31 :: s[i] == x[i + 1];
  }

  lemma BitStepOneToOne(x: Bits, y: Bits)
    requires |x| == |y| == 32 && BitStep(x) == BitStep(y)
    ensures x == y
  {
    hide BitStep, BitsOf;
    BitsAfterStep(x);
    BitsAfterStep(y);
    var s := BitStep(x);
    forall i | 1 <= i < 32
      ensures x[i] == y[i]
    {
      var j := i - 1;
      assert s[j] == (x[j + 1] != (x[0] && POLYNOMIAL[j]));
      assert s[j] == (y[j + 1] != (y[0] && POLYNOMIAL[j]));
    }
  }

  lemma {:induction false} ManyOneToOne(x: Bits, y: Bits, n: nat)
    requires |x| == |y| == 32 && Many(x, n) == Many(y, n)
    ensures x == y
    decreases n
  {
    if n > 0 {
      ManyOneToOne(BitStep(x), BitStep(y), n - 1);
      BitStepOneToOne(x, y);
    }
  }

  /** The same bits keep different registers different. */
  lemma {:induction false} FeedOneToOne(x: Bits, y: Bits, message: Bits)
    requires |x| == |y| == 32 && Feed(x, message) == Feed(y, message)
    ensures x == y
    decreases |message|
  {
    if message != [] {
      var b := message[0];
      FeedOneToOne(FeedBit(x, b), FeedBit(y, b), message[1..]);
      var x', y' := x[0 := x[0] != b], y[0 := y[0] != b];
      BitStepOneToOne(x', y');
      assert forall i | 0 <= i < 32 :: x'[i] == y'[i];
    }
  }

  /** Up to 32 different bits lead to different registers. */
  lemma WindowOneToOne(r: Bits, v: Bits, w: Bits)
    requires |r| == 32 && |v| == |w| <= 32 && Feed(r, v) == Feed(r, w)
    ensures v == w
  {
    FeedIsMany(r, v);
    FeedIsMany(r, w);
    var v', w' := v + Zeros(32 - |v|), w + Zeros(32 - |w|);
    ManyOneToOne(Xor(r, v'), Xor(r, w'), |v|);
    forall i | 0 <= i < |v|
      ensures v[i] == w[i]
    {
      assert Xor(r, v')[i] == (r[i] != v'[i]) && Xor(r, w')[i] == (r[i] != w'[i]);
    }
  }

  /** A change confined to 32 consecutive bits of the message changes the checksum. */
  lemma BurstChangesChecksum(a: seq<byte>, b: seq<byte>, from: nat, to: nat, previous: Bits)
    requires |a| == |b| && a != b && |previous| == 32
    requires from <= to <= 8 * |a| && to - from <= 32
    requires MessageBits(a)[..from] == MessageBits(b)[..from] && MessageBits(a)[to..] == MessageBits(b)[to..]
    ensures Checksum(a, previous) != Checksum(b, previous)
  {
    var r := Inverted(previous);
    FeedThreeParts(r, MessageBits(a), from, to);
    FeedThreeParts(r, MessageBits(b), from, to);
    var start := Feed(r, MessageBits(a)[..from]);
    if Checksum(a, previous) == Checksum(b, previous) {
      InvertedOneToOne(Feed(r, MessageBits(a)), Feed(r, MessageBits(b)));
      FeedOneToOne(Feed(start, MessageBits(a)[from..to]), Feed(start, MessageBits(b)[from..to]), MessageBits(a)[to..]);
      WindowOneToOne(start, MessageBits(a)[from..to], MessageBits(b)[from..to]);
      ThreeParts(MessageBits(a), MessageBits(b), from, to);
      MessageOneToOne(a, b);
    }
  }

  lemma InvertedOneToOne(x: Bits, y: Bits)
    requires |x| == |y| && Inverted(x) == Inverted(y)
    ensures x == y
  {
    assert forall i | 0 <= i < |x| :: Inverted(x)[i] == Inverted(y)[i];
  }

  lemma ThreeParts(x: Bits, y: Bits, from: nat, to: nat)
    requires |x| == |y| && from <= to <= |x|
    requires x[..from] == y[..from] && x[from..to] == y[from..to] && x[to..] == y[to..]
    ensures x == y
  {
    assert x == x[..from] + x[from..to] + x[to..] && y == y[..from] + y[from..to] + y[to..];
  }

  lemma FeedThreeParts(r: Bits, message: Bits, from: nat, to: nat)
    requires |r| == 32 && from <= to <= |message|
    ensures Feed(r, message) == Feed(Feed(Feed(r, message[..from]), message[from..to]), message[to..])
  {
    assert message == message[..from] + message[from..] && message[from..] == message[from..to] + message[to..];
    FeedAppend(r, message[..from], message[from..]);
    FeedAppend(Feed(r, message[..from]), message[from..to], message[to..]);
  }

  lemma {:induction false} MessageOneToOne(a: seq<byte>, b: seq<byte>)
    requires |a| == |b| && MessageBits(a) == MessageBits(b)
    ensures a == b
  {
    if a != [] {
      assert BitsOf(a[0], 8) == MessageBits(a)[..8] && MessageBits(a[1..]) == MessageBits(a)[8..];
      assert BitsOf(b[0], 8) == MessageBits(b)[..8] && MessageBits(b[1..]) == MessageBits(b)[8..];
      Pow2Widths();
      NumberOfBits(a[0], 8);
      NumberOfBits(b[0], 8);
      MessageOneToOne(a[1..], b[1..]);
    }
  }

  /** In particular a change within four consecutive bytes does. */
  lemma FourBytesChangeChecksum(head: seq<byte>, v: seq<byte>, w: seq<byte>, tail: seq<byte>, previous: Bits)
    requires |v| == |w| <= 4 && v != w && |previous| == 32
    ensures Checksum(head + v + tail, previous) != Checksum(head + w + tail, previous)
  {
    var a, b := head + v + tail, head + w + tail;
    assert v == a[|head|..|head| + |v|] && w == b[|head|..|head| + |v|];
    MessageAppend(head + v, tail);
    MessageAppend(head + w, tail);
    MessageAppend(head, v);
    MessageAppend(head, w);
    BurstChangesChecksum(a, b, 8 * |head|, 8 * |head| + 8 * |v|, previous);
  }
}
