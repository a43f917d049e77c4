/** Canonical signed magnitudes: a sign byte and the minimal big-endian bytes of |value|
    (src/checkpoint/GMPSerialization.cpp). */
module GmpSerialization {
  import opened Chudnovsky

  type byte = x: int | 0 <= x < 256

  datatype IntegerSign = Zero | Positive | Negative

  datatype Decoded = Decoded(value: int) | Malformed

  datatype SerializedGmpInteger = SerializedGmpInteger(sign: IntegerSign, magnitude: seq<byte>)

  function Abs(x: int): nat {
    if x < 0 then -x else x
  }

  function SignOf(value: int): IntegerSign {
    if value == 0 then Zero else if value > 0 then Positive else Negative
  }

  /** The byte stored for a sign. */
  function SignByte(sign: IntegerSign): byte {
    match sign case Zero => 0 case Positive => 1 case Negative => 2
  }

  /** Big-endian value of a byte string. */
  function BigEndian(bytes: seq<byte>): nat {
    if bytes == [] then 0 else BigEndian(bytes[..|bytes| - 1]) * 256 + bytes[|bytes| - 1]
  }

  /** The minimal big-endian bytes of n: what mpz_export writes. */
  function Magnitude(n: nat): seq<byte> {
    if n == 0 then [] else Magnitude(n / 256) + [n % 256]
  }

  /** mpz_sizeinbase(n, 2) for n > 0: the exact bit count. */
  function BitLength(n: nat): nat {
    if n == 0 then 0 else 1 + BitLength(n / 2)
  }

  function MagnitudeSize(value: int): nat {
    if value == 0 then 0 else (BitLength(Abs(value)) + 7) / 8
  }

  /** The payload of a node: its three canonical magnitudes, nothing between them. */
  function PayloadSize(v: Pqt): nat {
    MagnitudeSize(v.p) + MagnitudeSize(v.q) + MagnitudeSize(v.t)
  }

  /** `encode`, with the buffer sized by the bit count and then filled. */
  method Encode(value: int) returns (s: SerializedGmpInteger)
    ensures s == SerializedGmpInteger(SignOf(value), Magnitude(Abs(value)))
  {
    var magnitude := new byte[MagnitudeSize(value)](_ => 0);
    SizeIsMinimal(value);
    ExportMagnitude(value, magnitude);
    s := SerializedGmpInteger(SignOf(value), magnitude[..]);
  }

  /** Fills the destination from its last byte to its first. */
  method ExportMagnitude(value: int, destination: array<byte>)
    requires destination.Length == |Magnitude(Abs(value))|
    modifies destination
    ensures destination[..] == Magnitude(Abs(value))
  {
    var rest, offset := Abs(value), destination.Length;
    while rest > 0
      invariant 0 <= offset <= destination.Length
      invariant |Magnitude(rest)| == offset
      invariant Magnitude(rest) + destination[offset..] == Magnitude(Abs(value))
      decreases rest
    {
      offset := offset - 1;
      destination[offset] := rest % 256;
      assert destination[offset..] == [rest % 256] + destination[offset + 1..];
      rest := rest / 256;
    }
  }

  /** `decode`: rejects every non-canonical sign and magnitude. The sign is the raw byte. */
  function Decode(sign: byte, magnitude: seq<byte>): Decoded {
    if sign == 0 then
      if magnitude != [] then Malformed else Decoded(0)
    else if sign == 1 || sign == 2 then
      if magnitude == [] || magnitude[0] == 0 then Malformed
      else
        var value: int := BigEndian(magnitude);
        Decoded(if sign == 2 then -value else value)
    else Malformed
  }

  // ---------- magnitudes and values are inverse ----------

  lemma {:induction false} MagnitudeValue(n: nat)
    ensures BigEndian(Magnitude(n)) == n
    ensures n > 0 ==> Magnitude(n) != [] && Magnitude(n)[0] != 0
  {
    if n > 0 {
      MagnitudeValue(n / 256);
      assert Magnitude(n)[..|Magnitude(n)| - 1] == Magnitude(n / 256);
    }
  }

  lemma {:induction false} ValueMagnitude(bytes: seq<byte>)
    requires bytes != [] ==> bytes[0] != 0
    ensures Magnitude(BigEndian(bytes)) == bytes
    ensures bytes != [] ==> BigEndian(bytes) > 0
  {
    if bytes != [] {
      var front, last := bytes[..|bytes| - 1], bytes[|bytes| - 1];
      ValueMagnitude(front);
      assert bytes == front + [last];
      assert BigEndian(bytes) / 256 == BigEndian(front) && BigEndian(bytes) % 256 == last;
      if front == [] { assert BigEndian(front) == 0; }
    }
  }

  /** Decoding what was encoded gives the value back. */
  lemma DecodeEncode(value: int)
    ensures Decode(SignByte(SignOf(value)), Magnitude(Abs(value))) == Decoded(value)
  {
    MagnitudeValue(Abs(value));
  }

  /** Only canonical encodings are accepted: an accepted sign and magnitude is the encoding of its value. */
  lemma EncodeDecode(sign: byte, magnitude: seq<byte>)
    requires Decode(sign, magnitude).Decoded?
    ensures var value := Decode(sign, magnitude).value;
            sign == SignByte(SignOf(value)) && magnitude == Magnitude(Abs(value))
  {
    if sign != 0 { ValueMagnitude(magnitude); }
  }

  // ---------- the bit count gives the minimal byte count ----------

  lemma BitLengthByte(n: nat)
    requires n >= 256
    ensures BitLength(n) == 8 + BitLength(n / 256)
  {
    var a, b, c, d := n / 2, n / 4, n / 8, n / 16;
    var e, f, g, h := n / 32, n / 64, n / 128, n / 256;
    assert a / 2 == b && b / 2 == c && c / 2 == d && d / 2 == e && e / 2 == f && f / 2 == g && g / 2 == h;
    assert BitLength(n) == 1 + BitLength(a);
    assert BitLength(a) == 1 + BitLength(b);
    assert BitLength(b) == 1 + BitLength(c);
    assert BitLength(c) == 1 + BitLength(d);
    assert BitLength(d) == 1 + BitLength(e);
    assert BitLength(e) == 1 + BitLength(f);
    assert BitLength(f) == 1 + BitLength(g);
    assert BitLength(g) == 1 + BitLength(h);
  }

  lemma {:induction false} BitLengthAtMost(n: nat, bits: nat, bound: nat)
    requires n < bound
    requires (bits == 0 && bound == 1) || (bits == 1 && bound == 2) || (bits == 2 && bound == 4) || (bits == 3 && bound == 8)
          || (bits == 4 && bound == 16) || (bits == 5 && bound == 32) || (bits == 6 && bound == 64)
          || (bits == 7 && bound == 128) || (bits == 8 && bound == 256)
    ensures BitLength(n) <= bits
  {
    if n > 0 { BitLengthAtMost(n / 2, bits - 1, bound / 2); }
  }

  lemma {:induction false} SizeOfMagnitude(n: nat)
    requires n > 0
    ensures |Magnitude(n)| == (BitLength(n) + 7) / 8
  {
    if n < 256 {
      BitLengthAtMost(n, 8, 256);
      assert Magnitude(n / 256) == [];
    } else {
      SizeOfMagnitude(n / 256);
      BitLengthByte(n);
    }
  }

  lemma SizeIsMinimal(value: int)
    ensures MagnitudeSize(value) == |Magnitude(Abs(value))|
  {
    if value != 0 { SizeOfMagnitude(Abs(value)); }
  }
}
