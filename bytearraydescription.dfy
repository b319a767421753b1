/**
 * Layouts of a run of bytes, numbered from 1: a field is given by the byte
 * and bit of its most significant bit and the byte and bit of its least
 * significant one, big-endian.
 */
module ByteArrayLayout {
  import opened Bits
  import opened Coding
  import opened CodingProofs
  import opened Embedding
  import opened Adapting
  import opened Storage
  import opened ByteCoder
  import opened Wrappers

  /** The coder coordinates of a field: byte positions count from 1, buffer indices from 0; the bit offsets are passed on. */
  function PositionRange(significantByte: int, msb: int, minorByte: int, lsb: int, extendNegativeBit: bool): BitRange
  {
    BitRange(significantByte - 1, msb, minorByte - 1, lsb, extendNegativeBit, false)
  }

  /**
   * When the `try!` of `Position.init` does not trap: both byte positions
   * from 1 up in order, the bits in order within a single byte, and both
   * offsets within a byte. A byte position of 0 or less is refused as a bad
   * byte index.
   */
  lemma PositionRangeValid(significantByte: int, msb: int, minorByte: int, lsb: int, extendNegativeBit: bool)
    ensures var r := PositionRange(significantByte, msb, minorByte, lsb, extendNegativeBit);
      Validate(r).Success? <==>
        1 <= significantByte <= minorByte && (significantByte < minorByte || msb >= lsb) &&
        0 <= msb < 8 && 0 <= lsb < 8
    ensures significantByte <= 0 || minorByte <= 0 ==>
      Validate(PositionRange(significantByte, msb, minorByte, lsb, extendNegativeBit)) == Failure(BadByteIndex)
    ensures var r := PositionRange(significantByte, msb, minorByte, lsb, extendNegativeBit);
      WellFormed(r) ==> BitCount(r) == 8 * (minorByte - significantByte) + msb - lsb + 1 && MaxIndex(r) == minorByte - 1
  {
  }

  /** `Position.init(wrappedValue:significantByte:msb:minorByte:lsb:extendNegativeBit:)`. */
  method NewPosition(builder: Builder, initial: Value, significantByte: int, msb: int, minorByte: int, lsb: int,
                     extendNegativeBit: bool) returns (p: Position)
    requires Validate(PositionRange(significantByte, msb, minorByte, lsb, extendNegativeBit)).Success?
    requires var r := PositionRange(significantByte, msb, minorByte, lsb, extendNegativeBit);
      WriteAllowed(r, EncodedWide(r, initial))
    modifies builder.current
    ensures fresh(p) && fresh(p.coder) && p.kind == KindOf(initial)
    ensures p.coder.range == PositionRange(significantByte, msb, minorByte, lsb, extendNegativeBit)
    ensures p.coder.storage == builder.current
    ensures builder.current.bytes ==
      Written(p.coder.range, old(builder.current.bytes), Stripped(p.coder.range, EncodedWide(p.coder.range, initial)))
  {
    p := NewPositionAt(builder, initial, PositionRange(significantByte, msb, minorByte, lsb, extendNegativeBit));
  }

  /** `Position.init(wrappedValue:ofByte:msb:lsb:extendNegativeBit:)`: both byte positions are `ofByte`. */
  method NewBytePosition(builder: Builder, initial: Value, ofByte: int, msb: int, lsb: int, extendNegativeBit: bool)
    returns (p: Position)
    requires Validate(PositionRange(ofByte, msb, ofByte, lsb, extendNegativeBit)).Success?
    requires var r := PositionRange(ofByte, msb, ofByte, lsb, extendNegativeBit);
      WriteAllowed(r, EncodedWide(r, initial))
    modifies builder.current
    ensures fresh(p) && fresh(p.coder) && p.kind == KindOf(initial)
    ensures p.coder.range == PositionRange(ofByte, msb, ofByte, lsb, extendNegativeBit)
    ensures p.coder.storage == builder.current
    ensures builder.current.bytes ==
      Written(p.coder.range, old(builder.current.bytes), Stripped(p.coder.range, EncodedWide(p.coder.range, initial)))
  {
    p := NewPosition(builder, initial, ofByte, msb, ofByte, lsb, extendNegativeBit);
  }

  /** `Position.init(wrappedValue:ofByte:bit:)`: the unsigned field of the one bit `bit` of byte `ofByte`. */
  method NewBitPosition(builder: Builder, initial: Value, ofByte: int, bit: int) returns (p: Position)
    requires Validate(PositionRange(ofByte, bit, ofByte, bit, false)).Success?
    requires var r := PositionRange(ofByte, bit, ofByte, bit, false);
      WriteAllowed(r, EncodedWide(r, initial))
    modifies builder.current
    ensures fresh(p) && fresh(p.coder) && p.kind == KindOf(initial)
    ensures p.coder.range == PositionRange(ofByte, bit, ofByte, bit, false)
    ensures p.coder.storage == builder.current
    ensures builder.current.bytes ==
      Written(p.coder.range, old(builder.current.bytes), Stripped(p.coder.range, EncodedWide(p.coder.range, initial)))
  {
    p := NewBytePosition(builder, initial, ofByte, bit, bit, false);
  }
}
