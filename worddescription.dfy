/**
 * Layouts of a big-endian 16-bit word: a field is given by the positions of
 * its most and least significant bits within the word, 15 down to 0; bits
 * 15 to 8 are stored first.
 */
module WordLayout {
  import opened Bits
  import opened Coding
  import opened CodingProofs
  import opened Embedding
  import opened Adapting
  import opened Storage

  /** `WordDescription.byteWidth`: a mutable `static var` that the library never assigns, so a constant here. */
  const BYTE_WIDTH: int := 2

  /**
   * The coder coordinates of word bits `msb` down to `lsb`: each position
   * divided by 8 gives its distance from the last byte and its offset.
   */
  function PositionRange(msb: int, lsb: int, extendNegativeBit: bool): BitRange
  {
    BitRange(BYTE_WIDTH - Quotient8(msb) - 1, Remainder8(msb), BYTE_WIDTH - Quotient8(lsb) - 1, Remainder8(lsb), extendNegativeBit, false)
  }

  /** The assertions of `Position.init`. */
  predicate PositionAsserts(msb: int, lsb: int)
  {
    0 <= msb < BYTE_WIDTH * 8 && 0 <= lsb < BYTE_WIDTH * 8 && msb >= lsb
  }

  /**
   * Positions the assertions accept always pass the coder's validation, so
   * the `try!` never traps: word bit `k` is bit `k % 8` of byte `1 - k / 8`,
   * the field is big-endian and holds `msb - lsb + 1` bits.
   */
  lemma PositionRangeValid(msb: int, lsb: int, signed: bool)
    requires PositionAsserts(msb, lsb)
    ensures var r := PositionRange(msb, lsb, signed);
      r == BitRange(1 - msb / 8, msb % 8, 1 - lsb / 8, lsb % 8, signed, false) && Validate(r).Success? &&
      BitCount(r) == msb - lsb + 1 && EncodedWidth(r) == msb - lsb + 1 && MaxIndex(r) == 1 - lsb / 8
  {
  }

  /** Exact placement: bit `j` of byte `i` belongs to the field exactly when word bit `8 * (1 - i) + j` does, and it holds value bit `8 * (1 - i) + j - lsb`. */
  lemma PositionBits(msb: int, lsb: int, signed: bool, i: int, j: int)
    requires PositionAsserts(msb, lsb) && 0 <= j < 8
    ensures WellFormed(PositionRange(msb, lsb, signed))
    ensures InField(PositionRange(msb, lsb, signed), i, j) <==> 0 <= i < 2 && lsb <= 8 * (1 - i) + j <= msb
    ensures InField(PositionRange(msb, lsb, signed), i, j) ==>
      ValueBitIndex(PositionRange(msb, lsb, signed), i, j) == 8 * (1 - i) + j - lsb
  {
  }

  /**
   * `Position.init(wrappedValue:msb:lsb:extendNegativeBit:)`: a field of the layout
   * being built, bound to the slot's message, which it writes `initial` into.
   */
  method NewPosition(builder: Builder, initial: Value, msb: int, lsb: int, extendNegativeBit: bool) returns (p: Position)
    requires PositionAsserts(msb, lsb)
    requires WriteAllowed(PositionRange(msb, lsb, extendNegativeBit), EncodedWide(PositionRange(msb, lsb, extendNegativeBit), initial))
    modifies builder.current
    ensures fresh(p) && fresh(p.coder) && p.kind == KindOf(initial)
    ensures p.coder.range == PositionRange(msb, lsb, extendNegativeBit) && p.coder.storage == builder.current
    ensures builder.current.bytes ==
      Written(p.coder.range, old(builder.current.bytes), Stripped(p.coder.range, EncodedWide(p.coder.range, initial)))
  {
    assert Validate(PositionRange(msb, lsb, extendNegativeBit)).Success? by {
      PositionRangeValid(msb, lsb, extendNegativeBit);
    }
    p := NewPositionAt(builder, initial, PositionRange(msb, lsb, extendNegativeBit));
  }

  /** `Position.init(wrappedValue:bit:)`: exactly the field `msb: bit, lsb: bit`, unsigned. */
  method NewBitPosition(builder: Builder, initial: Value, bit: int) returns (p: Position)
    requires PositionAsserts(bit, bit)
    requires WriteAllowed(PositionRange(bit, bit, false), EncodedWide(PositionRange(bit, bit, false), initial))
    modifies builder.current
    ensures fresh(p) && fresh(p.coder) && p.kind == KindOf(initial)
    ensures p.coder.range == PositionRange(bit, bit, false) && p.coder.storage == builder.current
    ensures builder.current.bytes ==
      Written(p.coder.range, old(builder.current.bytes), Stripped(p.coder.range, EncodedWide(p.coder.range, initial)))
  {
    p := NewPosition(builder, initial, bit, bit, false);
  }
}
