/**
 * What the coder's read and write do to a buffer, proved about the functions
 * `Decoded` and `Written` that its getter and setter are proved to compute:
 * the bits a write changes and where it puts them, how far it grows the
 * buffer, the round trips between reading and writing, and the signed cases.
 */
module CodingProofs {
  import opened Bits
  import opened Coding

  // ---------------------------------------------------------------------------
  // Geometry

  /** The chunks below chunk `k` use `8k - lsb` bits, and all chunks together use the field's bit count. */
  lemma {:induction false} ChunkOffsetValue(r: ValidRange, k: nat)
    requires k <= ByteCount(r)
    ensures ChunkOffset(r, k) ==
      if k == 0 then 0 else if k < ByteCount(r) then 8 * k - r.lsb else BitCount(r)
  {
    if k > 0 {
      ChunkOffsetValue(r, k - 1);
    }
  }

  /** The field is big-endian, or lies within one byte: then the coder's width is its real bit count. */
  predicate WidthExact(r: ValidRange)
  {
    !r.littleEndian || r.significantByte == r.minorByte
  }

  /**
   * The coder's width is the field's bit count unless the field is
   * little-endian and spans several bytes; then the width is zero or less,
   * so the excess mask is empty or, at width zero, every bit.
   */
  lemma EncodedWidthValue(r: ValidRange)
    ensures WidthExact(r) ==> EncodedWidth(r) == BitCount(r) && EncodedWidth(r) >= 1
    ensures !WidthExact(r) ==> EncodedWidth(r) <= 0 && BitCount(r) >= 2
    ensures !WidthExact(r) ==> EncodedWidth(r) == BitCount(r) - 16 * (ByteCount(r) - 1)
    ensures ExcessMask(r) == if EncodedWidth(r) < 0 then 0 else HighMask(ExcessStart(r))
  {
    ExcessMaskIsHighMask(r);
    Pow2Word();
  }

  /** A bit of byte `i` lies in the field: from `lsb` up in the least significant byte, up to `msb` in the most significant one, all of every byte between. */
  predicate InField(r: ValidRange, i: int, j: int)
  {
    InSpan(r, i) &&
    (i != r.minorByte || r.lsb <= j) &&
    (i != r.significantByte || j <= r.msb) &&
    0 <= j < 8
  }

  /** The field's bits of a byte are exactly its chunk's bits. */
  lemma InFieldChunk(r: ValidRange, i: int, j: int)
    requires InSpan(r, i)
    ensures var k := ChunkOf(r, i);
      InField(r, i, j) <==> ChunkLsb(r, k) <= j < ChunkLsb(r, k) + ChunkWidth(r, k)
  {
  }

  /** What is left of `v` for chunk `k` is `v` shifted right past the chunks below it. */
  lemma {:induction false} RemainingIsShift(r: ValidRange, v: nat, k: nat)
    requires k <= ByteCount(r)
    ensures Remaining(r, v, k) == Shr(v, ChunkOffset(r, k))
  {
    if k > 0 {
      RemainingIsShift(r, v, k - 1);
      ShrShr(v, ChunkOffset(r, k - 1), ChunkWidth(r, k - 1));
    }
  }

  // ---------------------------------------------------------------------------
  // What a write changes

  /**
   * A write grows the buffer with zero bytes until the field's highest byte
   * exists and never shrinks it; a byte outside the field keeps its old
   * value, or is a new zero byte.
   */
  lemma WriteFrame(r: ValidRange, bytes: seq<UInt8>, v: nat)
    ensures var w := Written(r, bytes, v);
      |w| == (if |bytes| > MaxIndex(r) then |bytes| else MaxIndex(r) + 1)
    ensures var w := Written(r, bytes, v);
      forall i :: 0 <= i < |w| && !InSpan(r, i) ==> w[i] == if i < |bytes| then bytes[i] else 0
  {
  }

  /** Byte `i` of the field after a write is the byte that was there, or a new zero byte, with its chunk placed in it. */
  lemma WrittenInSpan(r: ValidRange, bytes: seq<UInt8>, v: nat, i: nat)
    requires InSpan(r, i)
    ensures var before := if i < |bytes| then bytes[i] else 0;
      i < |Written(r, bytes, v)| && Written(r, bytes, v)[i] == WrittenByte(r, before, v, ChunkOf(r, i))
  {
  }

  /** The bit of the written value that lands in bit `j` of byte `i` of the field: chunk `k` starts at value bit `8k - lsb`. */
  function ValueBitIndex(r: ValidRange, i: int, j: int): nat
    requires InField(r, i, j)
  {
    8 * ChunkOf(r, i) + j - r.lsb
  }

  /**
   * Exact placement and isolation: after a write, a bit of the field holds the
   * bit of the value that the field's position gives it, and every other bit
   * of the buffer is the bit that was there, or zero in a new byte.
   */
  lemma WrittenBits(r: ValidRange, bytes: seq<UInt8>, v: nat, i: nat, j: nat)
    requires i < |Written(r, bytes, v)| && j < 8
    ensures var before := if i < |bytes| then bytes[i] else 0;
      Bit(Written(r, bytes, v)[i], j) == if InField(r, i, j) then Bit(v, ValueBitIndex(r, i, j)) else Bit(before, j)
  {
    if InSpan(r, i) {
      var g := Grown(bytes, StoredLength(r, bytes));
      var k := ChunkOf(r, i);
      var lo, w := ChunkLsb(r, k), ChunkWidth(r, k);
      InFieldChunk(r, i, j);
      BitOfPlace(g[i], lo, w, Remaining(r, v, k), j);
      if lo <= j < lo + w {
        RemainingIsShift(r, v, k);
        ChunkOffsetValue(r, k);
        BitShifted(v, ChunkOffset(r, k), ChunkOffset(r, k) + j - lo);
      }
    }
  }

  /** After a write, chunk `k` of the field reads back the low bits of what the writer had left for it. */
  lemma WrittenChunk(r: ValidRange, bytes: seq<UInt8>, v: nat, k: nat)
    requires k < ByteCount(r)
    ensures Chunk(r, Written(r, bytes, v), k) == Low(Remaining(r, v, k), ChunkWidth(r, k))
  {
    var g := Grown(bytes, StoredLength(r, bytes));
    var i := ChunkIndex(r, k);
    assert ChunkOf(r, i) == k;
    PlaceParts(g[i], ChunkLsb(r, k), ChunkWidth(r, k), Remaining(r, v, k));
  }

  /**
   * A buffer whose chunks from `k` up hold the low bits of what a writer of
   * `v` leaves for them: once the reader has taken in the chunks from the top
   * down to chunk `k`, it holds exactly what the writer had left for chunk `k`.
   */
  lemma {:induction false} ReadChunks(r: ValidRange, b: seq<UInt8>, v: UInt, k: nat)
    requires MaxIndex(r) < |b| && v < Pow2(BitCount(r)) && k <= ByteCount(r)
    requires forall m :: k <= m < ByteCount(r) ==> Chunk(r, b, m) == Low(Remaining(r, v, m), ChunkWidth(r, m))
    ensures Assembled(r, b, k) == Remaining(r, v, k)
    decreases ByteCount(r) - k
  {
    RemainingIsShift(r, v, k);
    ShrLe(v, ChunkOffset(r, k));
    if k == ByteCount(r) {
      ChunkOffsetValue(r, k);
      ShrSmall(v, BitCount(r));
    } else {
      var x, w := Remaining(r, v, k), ChunkWidth(r, k);
      ReadChunks(r, b, v, k + 1);
      assert Assembled(r, b, k + 1) == Shr(x, w);
      assert Chunk(r, b, k) == Low(x, w);
      ReadStep(x, w);
    }
  }

  /** Reading back a written value that fits the field's bits returns it, before any sign extension. */
  lemma ReadWritten(r: ValidRange, bytes: seq<UInt8>, v: UInt)
    requires v < Pow2(BitCount(r))
    ensures Assembled(r, Written(r, bytes, v), 0) == v
  {
    var b := Written(r, bytes, v);
    forall m | 0 <= m < ByteCount(r)
      ensures Chunk(r, b, m) == Low(Remaining(r, v, m), ChunkWidth(r, m))
    {
      WrittenChunk(r, bytes, v, m);
    }
    ReadChunks(r, b, v, 0);
  }

  /** One step of the reader undoes one step of the writer: shifting back what is left above a chunk and adding the chunk restores the word. */
  lemma ReadStep(x: UInt, w: nat)
    ensures Shl(Shr(x, w), w) % WORD + Low(x, w) == x
  {
    Split(x, w);
  }

  /** Unsigned round trip, for either byte order: a value that fits the field's bits reads back unchanged. */
  lemma UnsignedRoundTrip(r: ValidRange, bytes: seq<UInt8>, v: UInt)
    requires !r.signed && v < Pow2(BitCount(r))
    ensures Decoded(r, Written(r, bytes, v)) == v
  {
    ReadWritten(r, bytes, v);
  }

  // ---------------------------------------------------------------------------
  // What a read returns

  /** Number of value bits stored from chunk `k` up. */
  function BitsFrom(r: ValidRange, k: nat): nat
    requires k <= ByteCount(r)
    decreases ByteCount(r) - k
  {
    if k == ByteCount(r) then 0 else ChunkWidth(r, k) + BitsFrom(r, k + 1)
  }

  /** The bits below chunk `k` and those from it up make up the field. */
  lemma {:induction false} BitsFromValue(r: ValidRange, k: nat)
    requires k <= ByteCount(r)
    ensures ChunkOffset(r, k) + BitsFrom(r, k) == BitCount(r)
    decreases ByteCount(r) - k
  {
    if k == ByteCount(r) {
      ChunkOffsetValue(r, k);
    } else {
      BitsFromValue(r, k + 1);
    }
  }

  /**
   * When the field has at most 64 bits, the reader never shifts a bit out of
   * its word: what it holds after chunk `k` fits the bits from chunk `k` up,
   * and each step is an exact shift-and-add.
   */
  lemma {:induction false} AssembledBound(r: ValidRange, b: seq<UInt8>, k: nat)
    requires MaxIndex(r) < |b| && k <= ByteCount(r) && BitCount(r) <= 64
    ensures Assembled(r, b, k) < Pow2(BitsFrom(r, k))
    ensures k < ByteCount(r) ==>
      Assembled(r, b, k) == Shl(Assembled(r, b, k + 1), ChunkWidth(r, k)) + Chunk(r, b, k)
    decreases ByteCount(r) - k
  {
    if k < ByteCount(r) {
      AssembledBound(r, b, k + 1);
      AssembledStep(r, b, k);
    }
  }

  /** One step of the reader, when what it held before fits the bits above chunk `k`. */
  lemma AssembledStep(r: ValidRange, b: seq<UInt8>, k: nat)
    requires MaxIndex(r) < |b| && k < ByteCount(r) && BitCount(r) <= 64
    requires Assembled(r, b, k + 1) < Pow2(BitsFrom(r, k + 1))
    ensures Assembled(r, b, k) < Pow2(BitsFrom(r, k))
    ensures Assembled(r, b, k) == Shl(Assembled(r, b, k + 1), ChunkWidth(r, k)) + Chunk(r, b, k)
  {
    var w, c := ChunkWidth(r, k), Chunk(r, b, k);
    var a := Assembled(r, b, k + 1);
    BitsFromValue(r, k);
    JoinInWord(a, c, BitsFrom(r, k + 1), w, BitsFrom(r, k));
  }

  /** Shifting `a < 2^m` left by `w` and adding `c < 2^w` loses nothing to the word when `m + w <= 64`. */
  lemma JoinInWord(a: nat, c: nat, m: nat, w: nat, n: nat)
    requires a < Pow2(m) && c < Pow2(w) && n == m + w && n <= 64
    ensures Shl(a, w) + c < Pow2(n)
    ensures Shl(a, w) % WORD == Shl(a, w)
  {
    JoinBound(a, c, m, w);
    assert Shl(a, w) + c < Pow2(m + w);
    Pow2Below(n, 64);
    Pow2Word();
    DivModUnique(Shl(a, w), WORD, 0, Shl(a, w));
  }

  /**
   * Read of a field whose width is its bit count, at most 64: the assembled
   * bits are below `2^encodedWidth`, and a signed field whose top bit is set
   * reads them with every excess bit set.
   */
  lemma ReadValue(r: ValidRange, bytes: seq<UInt8>)
    requires WidthExact(r) && BitCount(r) <= 64 && MaxIndex(r) < |bytes|
    ensures var a, w := Assembled(r, bytes, 0), EncodedWidth(r);
      a < Pow2(w) &&
      Decoded(r, bytes) == if r.signed && a >= Pow2(w - 1) then HighMask(w) + a else a
  {
    var a, w := Assembled(r, bytes, 0), EncodedWidth(r);
    assert 1 <= w <= 64 && ExcessStart(r) == w by {
      EncodedWidthValue(r);
    }
    assert a < Pow2(w) by {
      AssembledBound(r, bytes, 0);
      BitsFromValue(r, 0);
      ChunkOffsetValue(r, 0);
    }
    assert TestBit(a, w - 1) <==> a >= Pow2(w - 1) by {
      TopBitOf(a, w);
    }
    var d := Decoded(r, bytes);
    assert d == ExtendingSign(r, a, w);
    if r.signed && TestBit(a, w - 1) {
      assert d == FillHigh(a, w);
      LowSmall(a, w);
      assert d == HighMask(w) + a;
    } else {
      assert d == a;
    }
  }

  /** The excess mask has exactly the bits from the coder's width up to 63 set, and none when the width is negative or 64 and more. */
  lemma ExcessMaskBits(r: BitRange, j: nat)
    requires j < 64
    ensures Bit(ExcessMask(r), j) == if 0 <= EncodedWidth(r) <= j then 1 else 0
  {
    ExcessMaskIsHighMask(r);
    BitOfHighMask(ExcessStart(r), j);
  }

  /**
   * Sign extension, bit by bit: an unsigned coder, or a raw value whose bit
   * `bit - 1` is clear, keeps every bit; otherwise every excess bit is set and
   * the bits below the width are kept.
   */
  lemma ExtendingSignBits(r: BitRange, raw: UInt, bit: int, j: nat)
    requires j < 64
    ensures Bit(ExtendingSign(r, raw, bit), j) ==
      if r.signed && TestBit(raw, bit - 1) && 0 <= EncodedWidth(r) <= j then 1 else Bit(raw, j)
  {
    if r.signed && TestBit(raw, bit - 1) {
      ExcessMaskIsHighMask(r);
      BitOfFillHigh(raw, ExcessStart(r), j);
    }
  }

  // ---------------------------------------------------------------------------
  // What a write accepts, and signed round trips

  /**
   * The setter's two assertions hold exactly when a negative word of a signed
   * coder has every excess bit set, or any other word fits below the excess
   * bits.
   */
  lemma WriteAllowedIff(r: BitRange, v: UInt)
    ensures WriteAllowed(r, v) <==>
      if r.signed && v >= SIGN_BIT then v >= HighMask(ExcessStart(r)) else v < Pow2(ExcessStart(r))
  {
    var e := ExcessStart(r);
    TopBit(v);
    if r.signed && v >= SIGN_BIT {
      LowLow(v, e, e);
    } else if v < Pow2(e) {
      LowSmall(v, e);
    } else {
      LowBound(v, e);
    }
  }

  /**
   * A signed coder accepts any word with every excess bit set, whatever its
   * low bits, and stores just those low bits.
   */
  lemma FilledWordAllowed(r: BitRange, raw: UInt)
    requires r.signed
    ensures var e := ExcessStart(r); var v := FillHigh(raw, e);
      HasHigh(v, e) && WriteAllowed(r, v) && Stripped(r, v) == Low(raw, e)
  {
    var e := ExcessStart(r);
    var v := FillHigh(raw, e);
    var l := Low(raw, e);
    assert Low(v, e) == l by {
      var a := Pow2(64 - e) - 1;
      assert v == Shl(a, e) + l by {
        HighMaskShape(e);
      }
      LowJoin(a, l, e);
      LowLow(raw, e, e);
    }
    Pow2Word();
    WriteAllowedIff(r, v);
    TopBit(v);
    if e < 64 {
      Pow2Below(e, 63);
      assert v >= SIGN_BIT;
    } else {
      assert v == raw by {
        LowSmall(raw, 64);
      }
    }
  }

  /** `v` is the 64-bit two's-complement word of an integer in `-2^(w-1) ..< 2^(w-1)`. */
  predicate SignedFits(v: UInt, w: nat)
    requires 1 <= w
  {
    v < Pow2(w - 1) || v >= WORD - Pow2(w - 1)
  }

  /**
   * Signed round trip for a field whose width is its bit count, at most 64:
   * of the words the setter accepts, exactly those that are two's-complement
   * integers of the field's width read back unchanged. The others, a positive
   * word with the field's top bit set or a negative one just below that range,
   * read back with the sign flipped.
   */
  lemma SignedRoundTrip(r: ValidRange, bytes: seq<UInt8>, v: UInt)
    requires r.signed && WidthExact(r) && BitCount(r) <= 64 && WriteAllowed(r, v)
    ensures Decoded(r, Written(r, bytes, Stripped(r, v))) == v <==> SignedFits(v, BitCount(r))
  {
    var w := BitCount(r);
    var s := Stripped(r, v);
    EncodedWidthValue(r);
    WriteAllowedIff(r, v);
    TopBit(v);
    SignedDecode(v, s, w);
    ReadWritten(r, bytes, s);
    ReadValue(r, Written(r, bytes, s));
  }

  /**
   * The arithmetic of the signed round trip: `s` is what the setter stores
   * for the accepted word `v`, and the getter's sign extension of `s` gives
   * back `v` exactly when `v` fits `w` bits as a two's-complement integer.
   */
  lemma SignedDecode(v: UInt, s: nat, w: nat)
    requires 1 <= w <= 64
    requires if v >= SIGN_BIT then v >= HighMask(w) && s == Low(v, w) else v < Pow2(w) && s == v
    ensures s < Pow2(w)
    ensures (if s >= Pow2(w - 1) then HighMask(w) + s else s) == v <==> SignedFits(v, w)
  {
    Pow2Word();
    Pow2Below(w - 1, 63);
    if v >= SIGN_BIT {
      LowBound(v, w);
      HighPart(v, w);
    }
  }

  /** Every two's-complement integer of the field's width passes the setter's assertions. */
  lemma SignedFitsAllowed(r: ValidRange, v: UInt)
    requires r.signed && WidthExact(r) && BitCount(r) <= 64 && SignedFits(v, BitCount(r))
    ensures WriteAllowed(r, v)
  {
    var w := BitCount(r);
    EncodedWidthValue(r);
    WriteAllowedIff(r, v);
    Pow2Word();
    Pow2Below(w - 1, 63);
  }

  // ---------------------------------------------------------------------------
  // Writing back what was read

  /** The writer's shifts retrace the reader's steps: what it leaves for chunk `k` of a word just read is what the reader held there. */
  lemma {:induction false} RemainingOfRead(r: ValidRange, b: seq<UInt8>, k: nat)
    requires MaxIndex(r) < |b| && k <= ByteCount(r) && BitCount(r) <= 64
    ensures Remaining(r, Assembled(r, b, 0), k) == Assembled(r, b, k)
  {
    if k > 0 {
      var j := k - 1;
      var w, c := ChunkWidth(r, j), Chunk(r, b, j);
      var a := Assembled(r, b, k);
      RemainingOfRead(r, b, j);
      AssembledBound(r, b, j);
      assert Assembled(r, b, j) == Shl(a, w) + c;
      ShrJoin(a, c, w);
      ShrSmall(c, w);
      assert Remaining(r, Assembled(r, b, 0), k) == Shr(Assembled(r, b, j), w);
    }
  }

  /** The low bits of what the reader holds after chunk `k` are chunk `k`. */
  lemma ChunkOfRead(r: ValidRange, b: seq<UInt8>, k: nat)
    requires MaxIndex(r) < |b| && k < ByteCount(r) && BitCount(r) <= 64
    ensures Low(Assembled(r, b, k), ChunkWidth(r, k)) == Chunk(r, b, k)
  {
    var w, c := ChunkWidth(r, k), Chunk(r, b, k);
    AssembledBound(r, b, k);
    LowJoin(Assembled(r, b, k + 1), c, w);
    LowSmall(c, w);
  }

  /** Writing back the word just read leaves byte `i` as it was. */
  lemma ReadThenWriteByte(r: ValidRange, b: seq<UInt8>, i: nat)
    requires MaxIndex(r) < |b| && BitCount(r) <= 64 && i < |b|
    ensures Written(r, b, Assembled(r, b, 0))[i] == b[i]
  {
    var g := Grown(b, StoredLength(r, b));
    assert g == g[..|b|];
    if InSpan(r, i) {
      var k := ChunkOf(r, i);
      var lo, w := ChunkLsb(r, k), ChunkWidth(r, k);
      var f := Field(b[i], lo, w);
      assert Chunk(r, b, k) == f;
      RemainingOfRead(r, b, k);
      ChunkOfRead(r, b, k);
      LowSmall(f, w);
      PlaceLow(b[i], lo, w, Assembled(r, b, k), f);
      PlaceField(b[i], lo, w);
    }
  }

  /**
   * When the field has at most 64 bits, writing back the word just read
   * changes nothing: together with the unsigned round trip, reading and
   * writing are inverse to each other.
   */
  lemma ReadThenWrite(r: ValidRange, bytes: seq<UInt8>)
    requires MaxIndex(r) < |bytes| && BitCount(r) <= 64
    ensures Written(r, bytes, Assembled(r, bytes, 0)) == bytes
  {
    var a := Assembled(r, bytes, 0);
    forall i | 0 <= i < |bytes|
      ensures Written(r, bytes, a)[i] == bytes[i]
    {
      ReadThenWriteByte(r, bytes, i);
    }
  }

  /**
   * Exact placement on the read side: bit `j` of byte `i` of the field is the
   * bit of the word read that the field's position gives it.
   */
  lemma ReadBits(r: ValidRange, bytes: seq<UInt8>, i: nat, j: nat)
    requires MaxIndex(r) < |bytes| && BitCount(r) <= 64 && InField(r, i, j)
    ensures Bit(Assembled(r, bytes, 0), ValueBitIndex(r, i, j)) == Bit(bytes[i], j)
  {
    var a := Assembled(r, bytes, 0);
    ReadThenWrite(r, bytes);
    WrittenBits(r, bytes, a, i, j);
  }

  // ---------------------------------------------------------------------------
  // Fields within one byte

  /**
   * A write to a field within byte `i` places the low bits of the value at
   * `lsb ..= msb` of that byte (a new zero byte if the buffer was shorter) and
   * leaves every other byte as it was.
   */
  lemma SameByteWrite(r: ValidRange, bytes: seq<UInt8>, v: nat, k: nat)
    requires r.significantByte == r.minorByte
    ensures var w, i := Written(r, bytes, v), r.minorByte;
      |w| == (if |bytes| > i then |bytes| else i + 1) &&
      w[i] == Place(if i < |bytes| then bytes[i] else 0, r.lsb, r.msb - r.lsb + 1, v) &&
      (k < |w| && k != i ==> w[k] == if k < |bytes| then bytes[k] else 0)
  {
    WriteFrame(r, bytes, v);
    WrittenInSpan(r, bytes, v, r.minorByte);
  }

  /** A field within byte `i` reads bits `lsb ..= msb` of that byte. */
  lemma SameByteRead(r: ValidRange, bytes: seq<UInt8>)
    requires r.significantByte == r.minorByte && MaxIndex(r) < |bytes|
    ensures Assembled(r, bytes, 0) == Field(bytes[r.minorByte], r.lsb, r.msb - r.lsb + 1)
  {
    ShlZero(r.msb - r.lsb + 1);
  }
}
