/**
 * The coder on the fields its unit tests and its edge cases use, worked out
 * on concrete coordinates and values.
 */
module CoderExamples {
  import opened Bits
  import opened Coding
  import opened CodingProofs

  /**
   * A big-endian field from bit 4 of byte 2 to bit 7 of byte 5 holds 22 bits:
   * an empty buffer grows to 6 bytes, one past the highest index, and every
   * value below 2^22 reads back.
   */
  lemma ThreeByteSpan(v: UInt)
    ensures Validate(BitRange(2, 4, 5, 7, false, false)).Success?
    ensures |Written(BitRange(2, 4, 5, 7, false, false), [], v)| == 6
    ensures v < 0x40_0000 ==>
      Decoded(BitRange(2, 4, 5, 7, false, false), Written(BitRange(2, 4, 5, 7, false, false), [], v)) == v
  {
    var r: ValidRange := BitRange(2, 4, 5, 7, false, false);
    assert BitCount(r) == 22;
    Pow2Byte();
    Pow2Add(8, 8);
    Pow2Add(16, 6);
    if v < 0x40_0000 {
      UnsignedRoundTrip(r, [], v);
    }
  }

  /**
   * A big-endian field from bit 2 of byte 1 to bit 7 of byte 2: writing
   * 0b1101 into an empty buffer leaves its top three bits in the low bits of
   * byte 1, its lowest bit in bit 7 of byte 2, and byte 0 zero.
   */
  lemma AdjacentSpan(r: ValidRange, v: UInt)
    requires r == BitRange(1, 2, 2, 7, false, false) && v == 13
    ensures var w := Written(r, [], v);
      |w| == 3 && w[0] == 0 && w[1] == 6 && w[2] == 0x80
  {
    AdjacentUntouched(r, v);
    AdjacentHigh(r, v);
    AdjacentLow(r, v);
  }

  lemma AdjacentUntouched(r: ValidRange, v: UInt)
    requires r == BitRange(1, 2, 2, 7, false, false) && v == 13
    ensures var w := Written(r, [], v);
      |w| == 3 && w[0] == 0
  {
    WriteFrame(r, [], v);
  }

  lemma AdjacentHigh(r: ValidRange, v: UInt)
    requires r == BitRange(1, 2, 2, 7, false, false) && v == 13
    ensures var w := Written(r, [], v);
      |w| == 3 && w[1] == 6
  {
    WriteFrame(r, [], v);
    WrittenInSpan(r, [], v, 1);
    AdjacentHighChunk();
  }

  lemma AdjacentLow(r: ValidRange, v: UInt)
    requires r == BitRange(1, 2, 2, 7, false, false) && v == 13
    ensures var w := Written(r, [], v);
      |w| == 3 && w[2] == 0x80
  {
    WriteFrame(r, [], v);
    WrittenInSpan(r, [], v, 2);
    AdjacentLowChunk();
  }

  lemma AdjacentHighChunk()
    ensures WrittenByte(BitRange(1, 2, 2, 7, false, false), 0, 13, 1) == 6
  {
    assert ChunkLsb(BitRange(1, 2, 2, 7, false, false), 1) == 0;
    assert ChunkWidth(BitRange(1, 2, 2, 7, false, false), 1) == 3;
    assert Remaining(BitRange(1, 2, 2, 7, false, false), 13, 1) == 6;
    PlaceByParts(0, 0, 3, 6, 3, 0, 0, 6, 6, 6, 0);
  }

  lemma AdjacentLowChunk()
    ensures WrittenByte(BitRange(1, 2, 2, 7, false, false), 0, 13, 0) == 128
  {
    assert ChunkLsb(BitRange(1, 2, 2, 7, false, false), 0) == 7;
    assert ChunkWidth(BitRange(1, 2, 2, 7, false, false), 0) == 1;
    assert Remaining(BitRange(1, 2, 2, 7, false, false), 13, 0) == 13;
    PlaceByParts(0, 7, 1, 13, 8, 0, 0, 1, 1, 128, 0);
  }

  /** A big-endian field of bits 3 to 0 of byte 2: the buffer grows to 3 bytes and every value below 16 reads back. */
  lemma SingleByte(v: UInt)
    ensures Validate(BitRange(2, 3, 2, 0, false, false)).Success?
    ensures |Written(BitRange(2, 3, 2, 0, false, false), [], v)| == 3
    ensures v < 16 ==>
      Decoded(BitRange(2, 3, 2, 0, false, false), Written(BitRange(2, 3, 2, 0, false, false), [], v)) == v
  {
    var r: ValidRange := BitRange(2, 3, 2, 0, false, false);
    assert BitCount(r) == 4;
    if v < 16 {
      UnsignedRoundTrip(r, [], v);
    }
  }

  /**
   * The setter's guard lets through a positive word that a signed field
   * cannot hold: a signed 4-bit field accepts 8 and reads it back as -8, the
   * word 2^64 - 8.
   */
  lemma SignedGuardSlack(r: ValidRange, v: UInt)
    requires r == BitRange(0, 3, 0, 0, true, false) && v == 8
    ensures WriteAllowed(r, v)
    ensures Decoded(r, Written(r, [], Stripped(r, v))) == WORD - 8
  {
    assert Pow2(3) == 8 && Pow2(4) == 16;
    assert EncodedWidth(r) == 4 && BitCount(r) == 4 && ExcessStart(r) == 4;
    assert !TestBit(v, 63) by {
      TopBit(v);
    }
    assert WriteAllowed(r, v) by {
      WriteAllowedIff(r, v);
    }
    var b := Written(r, [], v);
    assert Assembled(r, b, 0) == 8 by {
      ReadWritten(r, [], v);
    }
    ReadValue(r, b);
    assert HighMask(4) == WORD - 16;
  }

  /**
   * The natural little-endian 16-bit field, bit 7 of byte 1 down to bit 0 of
   * byte 0, gets a width of zero: every bit is an excess bit, and the setter
   * accepts only the word 0.
   */
  lemma LittleEndianWord(r: ValidRange, v: UInt)
    requires r == BitRange(1, 7, 0, 0, false, true)
    ensures EncodedWidth(r) == 0 && ExcessMask(r) == WORD - 1 && BitCount(r) == 16
    ensures WriteAllowed(r, v) <==> v == 0
  {
    WriteAllowedIff(r, v);
    TopBit(v);
    EncodedWidthValue(r);
  }

  /**
   * The same field, signed: besides 0 the setter accepts the all-ones word,
   * because its excess bits are all set, and stores it as 0.
   */
  lemma LittleEndianSignedWord(r: ValidRange, v: UInt)
    requires r == BitRange(1, 7, 0, 0, true, true)
    ensures EncodedWidth(r) == 0 && ExcessMask(r) == WORD - 1
    ensures WriteAllowed(r, v) <==> v == 0 || v == WORD - 1
    ensures Stripped(r, WORD - 1) == 0
  {
    WriteAllowedIff(r, v);
    TopBit(v);
    TopBit(WORD - 1);
    EncodedWidthValue(r);
    Pow2Word();
  }

  /**
   * A little-endian field of 15 bits, bit 6 of byte 1 down to bit 0 of
   * byte 0, gets a width of -1 and an empty excess mask, so the setter accepts
   * 2^15 although it does not fit.
   */
  lemma LittleEndianOverflow(r: ValidRange, v: UInt)
    requires r == BitRange(1, 6, 0, 0, false, true) && v == 0x8000
    ensures EncodedWidth(r) == -1 && ExcessMask(r) == 0 && BitCount(r) == 15
    ensures WriteAllowed(r, v)
  {
    WriteAllowedIff(r, v);
    EncodedWidthValue(r);
    Pow2Word();
  }

  /** The 15-bit little-endian field reads less than 2^15 from any buffer, so the word just accepted does not read back. */
  lemma LittleEndianOverflowRead(r: ValidRange, bytes: seq<UInt8>)
    requires r == BitRange(1, 6, 0, 0, false, true) && MaxIndex(r) < |bytes|
    ensures Decoded(r, bytes) < 0x8000
  {
    AssembledBound(r, bytes, 0);
    BitsFromValue(r, 0);
    assert BitCount(r) == 15;
    assert Pow2(15) == 0x8000;
  }
}
