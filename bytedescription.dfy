/**
 * Layouts of a single byte: a field is given by the positions of its most
 * and least significant bits, 7 down to 0.
 */
module ByteLayout {
  import opened Bits
  import opened Coding
  import opened CodingProofs
  import opened Embedding
  import opened Adapting
  import opened Storage

  /** `ByteDescription.byteWidth`: a mutable `static var` that the library never assigns, so a constant here. */
  const BYTE_WIDTH: int := 1

  /** The coder coordinates of bits `msb` down to `lsb`: each position divided by 8 gives its byte and its offset. */
  function PositionRange(msb: int, lsb: int, signed: bool): BitRange
  {
    BitRange(Quotient8(msb), Remainder8(msb), Quotient8(lsb), Remainder8(lsb), signed, false)
  }

  /** The assertions of `Position.init`. */
  predicate PositionAsserts(msb: int, lsb: int)
  {
    0 <= msb < BYTE_WIDTH * 8 && 0 <= lsb < BYTE_WIDTH * 8 && msb >= lsb
  }

  /**
   * Positions the assertions accept always pass the coder's validation, so
   * the `try!` never traps: the field lies in byte 0 with its offsets
   * unchanged, is big-endian, and holds `msb - lsb + 1` bits.
   */
  lemma PositionRangeValid(msb: int, lsb: int, signed: bool)
    requires PositionAsserts(msb, lsb)
    ensures var r := PositionRange(msb, lsb, signed);
      r == BitRange(0, msb, 0, lsb, signed, false) && Validate(r).Success? &&
      BitCount(r) == msb - lsb + 1 && EncodedWidth(r) == msb - lsb + 1 && MaxIndex(r) == 0
  {
  }

  /** Exact placement: the field's bits are bits `lsb ..= msb` of byte 0, and value bit `j - lsb` is bit `j`. */
  lemma PositionBits(msb: int, lsb: int, signed: bool, i: int, j: int)
    requires PositionAsserts(msb, lsb)
    ensures WellFormed(PositionRange(msb, lsb, signed))
    ensures InField(PositionRange(msb, lsb, signed), i, j) <==> i == 0 && lsb <= j <= msb
    ensures InField(PositionRange(msb, lsb, signed), i, j) ==> ValueBitIndex(PositionRange(msb, lsb, signed), i, j) == j - lsb
  {
  }

  /**
   * `Position.init(wrappedValue:msb:lsb:signed:)`: a field of the layout
   * being built, bound to the slot's message, which it writes `initial` into.
   */
  method NewPosition(builder: Builder, initial: Value, msb: int, lsb: int, signed: bool) returns (p: Position)
    requires PositionAsserts(msb, lsb)
    requires WriteAllowed(PositionRange(msb, lsb, signed), EncodedWide(PositionRange(msb, lsb, signed), initial))
    modifies builder.current
    ensures fresh(p) && fresh(p.coder) && p.kind == KindOf(initial)
    ensures p.coder.range == PositionRange(msb, lsb, signed) && p.coder.storage == builder.current
    ensures builder.current.bytes ==
      Written(p.coder.range, old(builder.current.bytes), Stripped(p.coder.range, EncodedWide(p.coder.range, initial)))
  {
    assert Validate(PositionRange(msb, lsb, signed)).Success? by {
      PositionRangeValid(msb, lsb, signed);
    }
    p := NewPositionAt(builder, initial, PositionRange(msb, lsb, signed));
  }

  /** `Position.init(wrappedValue:bit:)`: exactly the field `msb: bit, lsb: bit`, unsigned. */
  method NewBitPosition(builder: Builder, initial: Value, bit: int) returns (p: Position)
    requires PositionAsserts(bit, bit)
    requires WriteAllowed(PositionRange(bit, bit, false), EncodedWide(PositionRange(bit, bit, false), initial))
    modifies builder.current
    ensures fresh(p) && fresh(p.coder) && p.kind == KindOf(initial)
    ensures p.coder.range == PositionRange(bit, bit, false) && p.coder.storage == builder.current
    ensures builder.current.bytes ==
      Written(p.coder.range, old(builder.current.bytes), Stripped(p.coder.range, EncodedWide(p.coder.range, initial)))
  {
    p := NewPosition(builder, initial, bit, bit, false);
  }
}
