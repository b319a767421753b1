/**
 * The SMBus word: a 16-bit little-endian layout with its own message, whose
 * fields are given by the positions of their most and least significant bits
 * within the word, 15 down to 0.
 */
module SMBus {
  import opened Bits
  import opened Coding
  import opened CodingProofs
  import opened Embedding
  import opened Adapting
  import opened Storage
  import opened ByteCoder
  import opened Wrappers

  /** `SMBusWord.byteWidth`: a mutable `static var` that the library never assigns, so a constant here. */
  const BYTE_WIDTH: int := 2

  /** A layout instance; it takes over the slot's message exactly as `BitStorageCore` does. */
  class SMBusWord {
    const storage: AssembledMessage

    constructor (builder: Builder)
      modifies builder
      ensures storage == old(builder.current) && storage.bytes == old(builder.current.bytes)
      ensures fresh(builder.current) && builder.current.bytes == [] && builder.current != storage
    {
      var frozen := builder.FreezeAndRotateStorage();
      storage := frozen;
    }
  }

  /**
   * The coder coordinates of word bits `msb` down to `lsb`: each byte index
   * is `byteWidth` minus the position divided by 8 (not minus one more, as in
   * the big-endian word), and the field is little-endian.
   */
  function PositionRange(msb: int, lsb: int, extendNegativeBit: bool): BitRange
  {
    BitRange(BYTE_WIDTH - Quotient8(msb), Remainder8(msb), BYTE_WIDTH - Quotient8(lsb), Remainder8(lsb), extendNegativeBit, true)
  }

  /** The assertions of `position.init`: the first two both bound `lsb`, so `msb` has no upper bound. */
  predicate PositionAsserts(msb: int, lsb: int)
  {
    0 <= lsb <= 15 && 0 <= lsb <= 15 && msb >= lsb
  }

  /**
   * Of the positions the assertions accept, the coder validates exactly those
   * within one byte of the word, at index 2 for bits 7 to 0 and at index 1 for
   * bits 15 to 8. A field across the two bytes, or reaching above bit 15, gets
   * its significant index below its minor one (or below zero) and is refused
   * as a bad byte index, so the `try!` traps.
   */
  lemma PositionRangeValid(msb: int, lsb: int, extendNegativeBit: bool)
    requires PositionAsserts(msb, lsb)
    ensures var r := PositionRange(msb, lsb, extendNegativeBit);
      Validate(r).Success? <==> msb / 8 == lsb / 8
    ensures msb / 8 != lsb / 8 ==> Validate(PositionRange(msb, lsb, extendNegativeBit)) == Failure(BadByteIndex)
    ensures var r := PositionRange(msb, lsb, extendNegativeBit);
      msb / 8 == lsb / 8 ==>
        r == BitRange(2 - lsb / 8, msb % 8, 2 - lsb / 8, lsb % 8, extendNegativeBit, true) &&
        BitCount(r) == msb - lsb + 1 && EncodedWidth(r) == msb - lsb + 1 && MaxIndex(r) == 2 - lsb / 8
  {
  }

  /** `position.init(wrappedValue:msb:lsb:_:)`; `extendNegativeBit` stands for the option of that name. */
  method NewPosition(builder: Builder, initial: Value, msb: int, lsb: int, extendNegativeBit: bool) returns (p: Position)
    requires PositionAsserts(msb, lsb)
    requires Validate(PositionRange(msb, lsb, extendNegativeBit)).Success?
    requires WriteAllowed(PositionRange(msb, lsb, extendNegativeBit), EncodedWide(PositionRange(msb, lsb, extendNegativeBit), initial))
    modifies builder.current
    ensures fresh(p) && fresh(p.coder) && p.kind == KindOf(initial)
    ensures p.coder.range == PositionRange(msb, lsb, extendNegativeBit) && p.coder.storage == builder.current
    ensures builder.current.bytes ==
      Written(p.coder.range, old(builder.current.bytes), Stripped(p.coder.range, EncodedWide(p.coder.range, initial)))
  {
    p := NewPositionAt(builder, initial, PositionRange(msb, lsb, extendNegativeBit));
  }

  /** `position.init(wrappedValue:bit:)`: exactly the field `msb: bit, lsb: bit`, without options. */
  method NewBitPosition(builder: Builder, initial: Value, bit: int) returns (p: Position)
    requires PositionAsserts(bit, bit)
    requires Validate(PositionRange(bit, bit, false)).Success?
    requires WriteAllowed(PositionRange(bit, bit, false), EncodedWide(PositionRange(bit, bit, false), initial))
    modifies builder.current
    ensures fresh(p) && fresh(p.coder) && p.kind == KindOf(initial)
    ensures p.coder.range == PositionRange(bit, bit, false) && p.coder.storage == builder.current
    ensures builder.current.bytes ==
      Written(p.coder.range, old(builder.current.bytes), Stripped(p.coder.range, EncodedWide(p.coder.range, initial)))
  {
    p := NewPosition(builder, initial, bit, bit, false);
  }
}
