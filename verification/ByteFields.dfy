/** Fixed-width big-endian fields, one after another: how the binary headers are written and read. */
module ByteFields {
  import opened GmpSerialization

  /** The big-endian bytes of a number, cut to the given width. */
  function Bytes(value: nat, width: nat): (bytes: seq<byte>)
    ensures |bytes| == width
  {
    if width == 0 then [] else Bytes(value / 256, width - 1) + [value % 256]
  }

  /** The number stored at an offset. */
  function Field(bytes: seq<byte>, offset: nat, width: nat): nat
    requires offset + width <= |bytes|
  {
    BigEndian(bytes[offset..offset + width])
  }

  function Pow256(n: nat): (power: nat)
    ensures power > 0
  {
    if n == 0 then 1 else 256 * Pow256(n - 1)
  }

  lemma Pow256Widths()
    ensures Pow256(1) == 256 && Pow256(2) == 0x1_0000 && Pow256(4) == 0x1_0000_0000
    ensures Pow256(8) == 0x1_0000_0000_0000_0000
  {
    assert Pow256(3) == 0x100_0000;
    assert Pow256(5) == 0x100_0000_0000;
    assert Pow256(6) == 0x1_0000_0000_0000;
    assert Pow256(7) == 0x100_0000_0000_0000;
  }

  // ---------- one field ----------

  lemma {:induction false} ValueOfBytes(value: nat, width: nat)
    requires value < Pow256(width)
    ensures BigEndian(Bytes(value, width)) == value
  {
    if width > 0 {
      ValueOfBytes(value / 256, width - 1);
      assert Bytes(value, width)[..width - 1] == Bytes(value / 256, width - 1);
    }
  }

  lemma {:induction false} BytesOfValue(bytes: seq<byte>)
    ensures BigEndian(bytes) < Pow256(|bytes|) && Bytes(BigEndian(bytes), |bytes|) == bytes
  {
    if bytes != [] {
      var front, last := bytes[..|bytes| - 1], bytes[|bytes| - 1];
      BytesOfValue(front);
      assert bytes == front + [last];
      assert BigEndian(bytes) / 256 == BigEndian(front) && BigEndian(bytes) % 256 == last;
    }
  }

  /** The number without its lowest bytes: a shift by 8 * dropped. */
  function Shifted(value: nat, dropped: nat): nat {
    if dropped == 0 then value else Shifted(value, dropped - 1) / 256
  }

  /** `appendU16`, `appendU32`, `appendU64`: the bytes from the highest to the lowest. */
  method Append(output: seq<byte>, value: nat, width: nat) returns (longer: seq<byte>)
    ensures longer == output + Bytes(value, width)
  {
    longer := output;
    var shift := width;
    while shift > 0
      invariant 0 <= shift <= width
      invariant longer == output + Bytes(Shifted(value, shift), width - shift)
    {
      shift := shift - 1;
      longer := longer + [Shifted(value, shift) % 256];
    }
  }

  // ---------- a run of fields ----------

  datatype Layout = End | Part(width: nat, value: nat, rest: Layout)

  function Width(layout: Layout): nat {
    if layout.End? then 0 else layout.width + Width(layout.rest)
  }

  /** A field in front of others. */
  function Then(width: nat, value: nat, rest: Layout): (layout: Layout)
    ensures Width(layout) == width + Width(rest)
    ensures value < Pow256(width) && Fits(rest) ==> Fits(layout)
    ensures forall bytes, offset: nat ::
      Holds(layout, bytes, offset) <==> Holds(rest, bytes, offset + width) && HoldsOne(bytes, offset, width, value)
  {
    Part(width, value, rest)
  }

  predicate HoldsOne(bytes: seq<byte>, offset: nat, width: nat, value: nat) {
    offset + width <= |bytes| && Field(bytes, offset, width) == value
  }

  predicate Fits(layout: Layout) {
    layout.Part? ==> layout.value < Pow256(layout.width) && Fits(layout.rest)
  }

  function Render(layout: Layout): (bytes: seq<byte>)
    ensures |bytes| == Width(layout)
  {
    if layout.End? then [] else Bytes(layout.value, layout.width) + Render(layout.rest)
  }

  /** Every field of the layout holds its value, the first of them at the given offset. */
  predicate Holds(layout: Layout, bytes: seq<byte>, offset: nat) {
    layout.Part? ==>
      offset + layout.width <= |bytes| && Field(bytes, offset, layout.width) == layout.value
      && Holds(layout.rest, bytes, offset + layout.width)
  }

  /** Rendered bytes hold the values. */
  lemma {:induction false} RenderHolds(layout: Layout, bytes: seq<byte>, offset: nat)
    requires Fits(layout) && offset + Width(layout) <= |bytes|
    requires bytes[offset..offset + Width(layout)] == Render(layout)
    ensures Holds(layout, bytes, offset)
  {
    if layout.Part? {
      var middle, end := offset + layout.width, offset + Width(layout);
      var first, others := Bytes(layout.value, layout.width), Render(layout.rest);
      assert bytes[offset..middle] == bytes[offset..end][..layout.width] == first;
      assert bytes[middle..end] == bytes[offset..end][layout.width..] == others;
      RenderHolds(layout.rest, bytes, middle);
      ValueOfBytes(layout.value, layout.width);
    }
  }

  /** Only the rendered bytes hold the values. */
  lemma {:induction false} HoldsIsRender(layout: Layout, bytes: seq<byte>, offset: nat)
    requires Holds(layout, bytes, offset) && offset <= |bytes|
    ensures offset + Width(layout) <= |bytes| && bytes[offset..offset + Width(layout)] == Render(layout)
    ensures Fits(layout)
  {
    if layout.Part? {
      var middle := offset + layout.width;
      HoldsIsRender(layout.rest, bytes, middle);
      BytesOfValue(bytes[offset..middle]);
      assert bytes[offset..offset + Width(layout)] == bytes[offset..middle] + bytes[middle..middle + Width(layout.rest)];
    }
  }
}
