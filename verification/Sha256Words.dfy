/** The compression function of SHA-256: 32-bit words, the message schedule and the 64 rounds, as the
    transform computes them and as section 6.2.2 of FIPS 180-4 defines them
    (src/verification/SHA256.cpp). */
module Sha256Words {
  import opened ByteFields
  import opened Crc32c
  import opened GmpSerialization

  type word = x: int | 0 <= x < 0x1_0000_0000

  function FromBits(bits: Bits): word
    requires |bits| == 32
  {
    BitsOfNumber(bits);
    Pow2Widths();
    NumberOf(bits)
  }

  /** Addition modulo 2^32. */
  function Plus(x: word, y: word): word {
    if x + y < 0x1_0000_0000 then x + y else x + y - 0x1_0000_0000
  }

  function XorWords(x: word, y: word): word {
    FromBits(Xor(BitsOf(x, 32), BitsOf(y, 32)))
  }

  function AndWords(x: word, y: word): word {
    var a, b := BitsOf(x, 32), BitsOf(y, 32);
    FromBits(seq(32, i requires 0 <= i < 32 => a[i] && b[i]))
  }

  function Not(x: word): word {
    FromBits(Inverted(BitsOf(x, 32)))
  }

  function RotateRight(x: word, n: nat): word
    requires n < 32
  {
    FromBits(BitsOf(x, 32)[n..] + BitsOf(x, 32)[..n])
  }

  function ShiftDown(x: word, n: nat): word
    requires n < 32
  {
    FromBits(BitsOf(x, 32)[n..] + Zeros(n))
  }

  // ---------- section 4.1.2: the functions ----------

  function Choice(x: word, y: word, z: word): word {
    XorWords(AndWords(x, y), AndWords(Not(x), z))
  }

  function Majority(x: word, y: word, z: word): word {
    XorWords(XorWords(AndWords(x, y), AndWords(x, z)), AndWords(y, z))
  }

  function BigSigma0(x: word): word {
    XorWords(XorWords(RotateRight(x, 2), RotateRight(x, 13)), RotateRight(x, 22))
  }

  function BigSigma1(x: word): word {
    XorWords(XorWords(RotateRight(x, 6), RotateRight(x, 11)), RotateRight(x, 25))
  }

  function SmallSigma0(x: word): word {
    XorWords(XorWords(RotateRight(x, 7), RotateRight(x, 18)), ShiftDown(x, 3))
  }

  function SmallSigma1(x: word): word {
    XorWords(XorWords(RotateRight(x, 17), RotateRight(x, 19)), ShiftDown(x, 10))
  }

  const ROUND_CONSTANTS: seq<word> :=
    [0x428a2f98, 0x71374491, 0xb5c0fbcf, 0xe9b5dba5, 0x3956c25b, 0x59f111f1, 0x923f82a4, 0xab1c5ed5,
     0xd807aa98, 0x12835b01, 0x243185be, 0x550c7dc3, 0x72be5d74, 0x80deb1fe, 0x9bdc06a7, 0xc19bf174,
     0xe49b69c1, 0xefbe4786, 0x0fc19dc6, 0x240ca1cc, 0x2de92c6f, 0x4a7484aa, 0x5cb0a9dc, 0x76f988da,
     0x983e5152, 0xa831c66d, 0xb00327c8, 0xbf597fc7, 0xc6e00bf3, 0xd5a79147, 0x06ca6351, 0x14292967,
     0x27b70a85, 0x2e1b2138, 0x4d2c6dfc, 0x53380d13, 0x650a7354, 0x766a0abb, 0x81c2c92e, 0x92722c85,
     0xa2bfe8a1, 0xa81a664b, 0xc24b8b70, 0xc76c51a3, 0xd192e819, 0xd6990624, 0xf40e3585, 0x106aa070,
     0x19a4c116, 0x1e376c08, 0x2748774c, 0x34b0bcb5, 0x391c0cb3, 0x4ed8aa4a, 0x5b9cca4f, 0x682e6ff3,
     0x748f82ee, 0x78a5636f, 0x84c87814, 0x8cc70208, 0x90befffa, 0xa4506ceb, 0xbef9a3f7, 0xc67178f2]

  datatype State = State(a: word, b: word, c: word, d: word, e: word, f: word, g: word, h: word)

  /** Section 5.3.3. */
  const INITIAL: State := State(0x6a09e667, 0xbb67ae85, 0x3c6ef372, 0xa54ff53a,
                                0x510e527f, 0x9b05688c, 0x1f83d9ab, 0x5be0cd19)

  // ---------- section 6.2.2: the schedule and the rounds ----------

  /** W_t, as a recurrence. */
  function Schedule(block: seq<byte>, t: nat): word
    requires |block| == 64 && t < 64
  {
    if t < 16 then
      WordAt(block, 4 * t)
    else
      Plus(Plus(Plus(SmallSigma1(Schedule(block, t - 2)), Schedule(block, t - 7)), SmallSigma0(Schedule(block, t - 15))),
           Schedule(block, t - 16))
  }

  function WordAt(block: seq<byte>, offset: nat): word
    requires offset + 4 <= |block|
  {
    BytesOfValue(block[offset..offset + 4]);
    Pow256Widths();
    Field(block, offset, 4)
  }

  function Round(s: State, constant: word, w: word): State {
    var t1 := Plus(Plus(Plus(Plus(s.h, BigSigma1(s.e)), Choice(s.e, s.f, s.g)), constant), w);
    var t2 := Plus(BigSigma0(s.a), Majority(s.a, s.b, s.c));
    State(Plus(t1, t2), s.a, s.b, s.c, Plus(s.d, t1), s.e, s.f, s.g)
  }

  function Rounds(s: State, block: seq<byte>, t: nat): State
    requires |block| == 64 && t <= 64
  {
    if t == 0 then s else Round(Rounds(s, block, t - 1), ROUND_CONSTANTS[t - 1], Schedule(block, t - 1))
  }

  function AddStates(s: State, r: State): State {
    State(Plus(s.a, r.a), Plus(s.b, r.b), Plus(s.c, r.c), Plus(s.d, r.d),
          Plus(s.e, r.e), Plus(s.f, r.f), Plus(s.g, r.g), Plus(s.h, r.h))
  }

  /** One block into the hash value. */
  function Compress(s: State, block: seq<byte>): State
    requires |block| == 64
  {
    AddStates(s, Rounds(s, block, |ROUND_CONSTANTS|))
  }

  // ---------- the transform ----------

  lemma PlusAssociative(x: word, y: word, z: word)
    ensures Plus(Plus(x, y), z) == Plus(x, Plus(y, z))
  {
  }

  lemma PlusInAnyOrder(a: word, b: word, c: word, d: word)
    ensures Plus(Plus(Plus(a, b), c), d) == Plus(Plus(Plus(d, c), b), a)
  {
    assert Plus(Plus(Plus(a, b), c), d) == Plus(d, Plus(c, Plus(b, a)));
    PlusAssociative(d, c, Plus(b, a));
    PlusAssociative(Plus(d, c), b, a);
  }

  method LoadBigEndian(bytes: seq<byte>, offset: nat) returns (w: word)
    requires offset + 4 <= |bytes|
    ensures w == WordAt(bytes, offset)
  {
    var b0: int, b1: int, b2: int, b3: int := bytes[offset], bytes[offset + 1], bytes[offset + 2], bytes[offset + 3];
    w := b0 * 0x100_0000 + b1 * 0x1_0000 + b2 * 0x100 + b3;
    var four := bytes[offset..offset + 4];
    assert four[..3][..2][..1][..0] == [];
    assert four[..3][..2][..1] == [four[0]] && four[..3][..2] == [four[0], four[1]];
    assert four[..3] == [four[0], four[1], four[2]];
    assert BigEndian(four[..3][..2][..1]) == b0;
    assert BigEndian(four[..3][..2]) == b0 * 0x100 + b1;
    assert BigEndian(four[..3]) == (b0 * 0x100 + b1) * 0x100 + b2;
  }

  /** The two sums of the schedule, added in the order of the source. */
  method NextWord(back2: word, back7: word, back15: word, back16: word) returns (w: word)
    ensures w == Plus(Plus(Plus(SmallSigma1(back2), back7), SmallSigma0(back15)), back16)
  {
    var s0 := XorWords(XorWords(RotateRight(back15, 7), RotateRight(back15, 18)), ShiftDown(back15, 3));
    var s1 := XorWords(XorWords(RotateRight(back2, 17), RotateRight(back2, 19)), ShiftDown(back2, 10));
    PlusInAnyOrder(back16, s0, back7, s1);
    w := Plus(Plus(Plus(back16, s0), back7), s1);
  }

  /** The recurrence, stated for the words as a list. */
  predicate Recurs(words: seq<word>, block: seq<byte>, t: nat)
    requires |words| == 64 && |block| == 64 && t < 64
  {
    words[t] ==
      if t < 16 then WordAt(block, 4 * t)
      else Plus(Plus(Plus(SmallSigma1(words[t - 2]), words[t - 7]), SmallSigma0(words[t - 15])), words[t - 16])
  }

  lemma ScheduleRecurs(block: seq<byte>) returns (words: seq<word>)
    requires |block| == 64
    ensures |words| == 64 && forall t | 0 <= t < 64 :: words[t] == Schedule(block, t)
    ensures forall t | 0 <= t < 64 :: Recurs(words, block, t)
  {
    words := seq(64, t requires 0 <= t < 64 => Schedule(block, t));
  }

  /** The first 16 words come from the block. */
  method FillFromBlock(block: seq<byte>, schedule: array<word>, ghost words: seq<word>)
    requires |block| == 64 && schedule.Length == 64 == |words|
    requires forall t | 0 <= t < 64 :: Recurs(words, block, t)
    modifies schedule
    ensures forall k | 0 <= k < 16 :: schedule[k] == words[k]
  {
    for index := 0 to 16
      invariant forall k | 0 <= k < index :: schedule[k] == words[k]
    {
      assert Recurs(words, block, index);
      schedule[index] := LoadBigEndian(block, index * 4);
    }
  }

  /** The others come from earlier ones. */
  method FillFromItself(block: seq<byte>, schedule: array<word>, ghost words: seq<word>)
    requires |block| == 64 && schedule.Length == 64 == |words|
    requires forall t | 0 <= t < 64 :: Recurs(words, block, t)
    requires forall k | 0 <= k < 16 :: schedule[k] == words[k]
    modifies schedule
    ensures schedule[..] == words
  {
    for index := 16 to 64
      invariant forall k | 0 <= k < index :: schedule[k] == words[k]
    {
      assert Recurs(words, block, index);
      var w := NextWord(schedule[index - 2], schedule[index - 7], schedule[index - 15], schedule[index - 16]);
      assert w == words[index];
      schedule[index] := w;
    }
  }

  /** `transform`, with its eight working variables. */
  method Transform(s: State, block: seq<byte>) returns (r: State)
    requires |block| == 64
    ensures r == Compress(s, block)
  {
    var schedule := new word[64](_ => 0);
    ghost var words := ScheduleRecurs(block);
    FillFromBlock(block, schedule, words);
    FillFromItself(block, schedule, words);
    var a, b, c, d, e, f, g, h := s.a, s.b, s.c, s.d, s.e, s.f, s.g, s.h;
    for index := 0 to 64
      invariant State(a, b, c, d, e, f, g, h) == Rounds(s, block, index) && schedule[..] == words
    {
      assert schedule[..][index] == Schedule(block, index);
      var sum1 := XorWords(XorWords(RotateRight(e, 6), RotateRight(e, 11)), RotateRight(e, 25));
      var choice := XorWords(AndWords(e, f), AndWords(Not(e), g));
      var temporary1 := Plus(Plus(Plus(Plus(h, sum1), choice), ROUND_CONSTANTS[index]), schedule[index]);
      var sum0 := XorWords(XorWords(RotateRight(a, 2), RotateRight(a, 13)), RotateRight(a, 22));
      var majority := XorWords(XorWords(AndWords(a, b), AndWords(a, c)), AndWords(b, c));
      var temporary2 := Plus(sum0, majority);
      h := g;
      g := f;
      f := e;
      e := Plus(d, temporary1);
      d := c;
      c := b;
      b := a;
      a := Plus(temporary1, temporary2);
    }
    r := State(Plus(s.a, a), Plus(s.b, b), Plus(s.c, c), Plus(s.d, d),
               Plus(s.e, e), Plus(s.f, f), Plus(s.g, g), Plus(s.h, h));
  }
}
