/**
 * The coder of one bitfield: a run of bits spread over one or more adjacent
 * bytes of a shared message, most significant byte first (big-endian) or last
 * (little-endian), read and written as one 64-bit word.
 *
 * The functions state what a read returns and what a write stores; the class
 * `MultiByteCoder` holds the loops that do it and is proved to agree with them.
 */
module Coding {
  import opened Bits
  import opened Wrappers
  import opened ByteCoder
  import opened Storage

  /** The coordinates a coder is created with. */
  datatype BitRange = BitRange(
    significantByte: int,  // index of the byte holding the most significant bit
    msb: int,              // position of that bit in its byte
    minorByte: int,        // index of the byte holding the least significant bit
    lsb: int,              // position of that bit in its byte
    signed: bool,
    littleEndian: bool)

  /** A byte index is negative, or the two indices are in the wrong order for the byte order. */
  predicate BadIndex(r: BitRange)
  {
    r.significantByte < 0 || r.minorByte < 0 ||
    (if r.littleEndian then r.significantByte < r.minorByte else r.significantByte > r.minorByte)
  }

  /** Coordinates the initializer accepts. */
  predicate WellFormed(r: BitRange)
  {
    !BadIndex(r) &&
    (r.significantByte != r.minorByte || r.msb >= r.lsb) &&
    0 <= r.msb < 8 && 0 <= r.lsb < 8
  }

  type ValidRange = r: BitRange | WellFormed(r) witness BitRange(0, 0, 0, 0, false, false)

  /** The initializer's guards, in the order it checks them. */
  function Validate(r: BitRange): (result: Result<ValidRange, BitfieldRangeError>)
    ensures result.Success? <==> WellFormed(r)
    ensures result.Success? ==> result.value == r
    ensures result == Failure(BadByteIndex) <==> BadIndex(r)
    ensures result == Failure(BitOrdering) <==>
      !BadIndex(r) && r.significantByte == r.minorByte && r.msb < r.lsb
    ensures result == Failure(ByteWidthExceeded) <==>
      !BadIndex(r) && (r.significantByte != r.minorByte || r.msb >= r.lsb) &&
      !(0 <= r.msb < 8 && 0 <= r.lsb < 8)
  {
    if r.significantByte < 0 then Failure(BadByteIndex)
    else if r.minorByte < 0 then Failure(BadByteIndex)
    else if !r.littleEndian && !(r.significantByte <= r.minorByte) then Failure(BadByteIndex)
    else if !r.littleEndian && !(r.significantByte < r.minorByte || r.msb >= r.lsb) then Failure(BitOrdering)
    else if r.littleEndian && !(r.significantByte >= r.minorByte) then Failure(BadByteIndex)
    else if r.littleEndian && !(r.significantByte > r.minorByte || r.msb >= r.lsb) then Failure(BitOrdering)
    else if !(r.msb >= 0) || !(r.msb < 8) then Failure(ByteWidthExceeded)
    else if !(r.lsb >= 0) || !(r.lsb < 8) then Failure(ByteWidthExceeded)
    else Success(r)
  }

  // ---------------------------------------------------------------------------
  // Width and masks, as the coder computes them

  /**
   * The coder's own count of the bits it encodes. It subtracts the byte
   * indices as if the field were big-endian, so a little-endian field spanning
   * several bytes gets a width of zero or less.
   */
  function EncodedWidth(r: BitRange): int
  {
    8 * (r.minorByte - r.significantByte) + r.msb - r.lsb + 1
  }

  /** `~((UInt(1) << width) &- 1)`: the high bits a value of that width cannot use. */
  function ExcessMask(r: BitRange): UInt
  {
    var valueMask := (ShiftedOne(EncodedWidth(r)) + WORD - 1) % WORD;
    WORD - 1 - valueMask
  }

  /** Where the run of set bits of `ExcessMask` starts; 64 when the mask is empty. */
  function ExcessStart(r: BitRange): nat
  {
    var w := EncodedWidth(r);
    if 0 <= w < 64 then w else 64
  }

  lemma ExcessMaskIsHighMask(r: BitRange)
    ensures ExcessMask(r) == HighMask(ExcessStart(r))
  {
    var w := EncodedWidth(r);
    Pow2Word();
    if 0 <= w < 64 {
      Pow2Below(w, 63);
      DivModUnique(Pow2(w) + WORD - 1, WORD, 1, Pow2(w) - 1);
    } else {
      DivModUnique(WORD - 1, WORD, 0, WORD - 1);
    }
  }

  /**
   * The sign extension a signed coder applies: when bit `bit - 1` of `raw` is
   * set (`UInt(1) << (bit - 1)`, so nothing is tested when `bit - 1` is outside
   * 0 ..< 64), every excess bit is set, `raw | ExcessMask(r)`.
   */
  function ExtendingSign(r: BitRange, raw: UInt, bit: int): UInt
  {
    if !r.signed then raw
    else if !TestBit(raw, bit - 1) then raw
    else ExcessMaskIsHighMask(r); FillHigh(raw, ExcessStart(r))
  }

  // ---------------------------------------------------------------------------
  // Geometry: the field as chunks, chunk 0 in the least significant byte

  /** Number of bytes the field spans. */
  function ByteCount(r: ValidRange): nat
  {
    if r.littleEndian then r.significantByte - r.minorByte + 1
    else r.minorByte - r.significantByte + 1
  }

  /** The highest byte index the field uses. */
  function MaxIndex(r: ValidRange): nat
  {
    if r.significantByte > r.minorByte then r.significantByte else r.minorByte
  }

  predicate InSpan(r: ValidRange, i: int)
  {
    if r.littleEndian then r.minorByte <= i <= r.significantByte
    else r.significantByte <= i <= r.minorByte
  }

  /** Byte index of chunk `k`; chunk 0 holds the least significant bits. */
  function ChunkIndex(r: ValidRange, k: nat): (i: int)
    ensures k < ByteCount(r) ==> InSpan(r, i) && 0 <= i <= MaxIndex(r)
  {
    if r.littleEndian then r.minorByte + k else r.minorByte - k
  }

  /** The chunk stored in byte `i` of the span. */
  function ChunkOf(r: ValidRange, i: int): (k: nat)
    requires InSpan(r, i)
    ensures k < ByteCount(r) && ChunkIndex(r, k) == i
  {
    if r.littleEndian then i - r.minorByte else r.minorByte - i
  }

  /** Lowest bit of chunk `k` within its byte. */
  function ChunkLsb(r: ValidRange, k: nat): nat
  {
    if k == 0 then r.lsb else 0
  }

  /** Highest bit of chunk `k` within its byte. */
  function ChunkMsb(r: ValidRange, k: nat): nat
  {
    if k == ByteCount(r) - 1 then r.msb else 7
  }

  function ChunkWidth(r: ValidRange, k: nat): (w: nat)
    requires k < ByteCount(r)
    ensures 1 <= w && ChunkLsb(r, k) + w <= 8
  {
    ChunkMsb(r, k) - ChunkLsb(r, k) + 1
  }

  /** Number of value bits stored below chunk `k`. */
  function ChunkOffset(r: ValidRange, k: nat): nat
    requires k <= ByteCount(r)
  {
    if k == 0 then 0 else ChunkOffset(r, k - 1) + ChunkWidth(r, k - 1)
  }

  /** Number of bits the field really holds. */
  function BitCount(r: ValidRange): nat
  {
    8 * (ByteCount(r) - 1) + r.msb - r.lsb + 1
  }

  // ---------------------------------------------------------------------------
  // Reading

  /** The bits of chunk `k`, as stored in its byte. */
  function Chunk(r: ValidRange, bytes: seq<UInt8>, k: nat): (c: nat)
    requires k < ByteCount(r) && MaxIndex(r) < |bytes|
    ensures c < Pow2(ChunkWidth(r, k))
  {
    Field(bytes[ChunkIndex(r, k)], ChunkLsb(r, k), ChunkWidth(r, k))
  }

  /**
   * The word a reader has assembled once it has taken in the chunks from the
   * most significant one down to chunk `k`: each step shifts the word left by
   * the chunk's width (bits leaving the 64-bit word are lost) and or-s the
   * chunk in.
   */
  function Assembled(r: ValidRange, bytes: seq<UInt8>, k: nat): UInt
    requires k <= ByteCount(r) && MaxIndex(r) < |bytes|
    decreases ByteCount(r) - k
  {
    if k == ByteCount(r) then 0
    else
      var w, c := ChunkWidth(r, k), Chunk(r, bytes, k);
      var a := Assembled(r, bytes, k + 1);
      ShiftInBound(a, w, c);
      Shl(a, w) % WORD + c
  }

  /** What reading the field's word returns. */
  function Decoded(r: ValidRange, bytes: seq<UInt8>): UInt
    requires MaxIndex(r) < |bytes|
  {
    ExtendingSign(r, Assembled(r, bytes, 0), EncodedWidth(r))
  }

  // ---------------------------------------------------------------------------
  // Writing

  /** The word a writer actually stores: a negative value of a signed coder loses its excess bits. */
  function Stripped(r: BitRange, v: UInt): UInt
  {
    if r.signed && TestBit(v, 63) then KeepLow(v, ExcessStart(r)) else v
  }

  /**
   * The writer's two assertions: a negative value of a signed coder has all
   * excess bits set, and the value it stores has none of them set.
   */
  predicate WriteAllowed(r: BitRange, v: UInt)
  {
    (r.signed && TestBit(v, 63) ==> HasHigh(v, ExcessStart(r))) &&
    KeepLow(Stripped(r, v), ExcessStart(r)) == Stripped(r, v)
  }

  /** What is left of `v` for chunk `k` after the chunks below it took their bits, each shifting right by its width. */
  function Remaining(r: ValidRange, v: nat, k: nat): nat
    requires k <= ByteCount(r)
  {
    if k == 0 then v else Shr(Remaining(r, v, k - 1), ChunkWidth(r, k - 1))
  }

  /** The buffer after growing it with zero bytes to length `n`. */
  function Grown(bytes: seq<UInt8>, n: nat): (g: seq<UInt8>)
    requires |bytes| <= n
    ensures |g| == n && g[..|bytes|] == bytes
  {
    bytes + seq(n - |bytes|, _ => 0)
  }

  /** The buffer length after a write: grown so that every byte of the field exists, never shrunk. */
  function StoredLength(r: ValidRange, bytes: seq<UInt8>): nat
  {
    if |bytes| > MaxIndex(r) then |bytes| else MaxIndex(r) + 1
  }

  /** Byte `b` once chunk `k` of `v` is placed in it. */
  function WrittenByte(r: ValidRange, b: UInt8, v: nat, k: nat): UInt8
    requires k < ByteCount(r)
  {
    PlaceInByte(b, ChunkLsb(r, k), ChunkWidth(r, k), Remaining(r, v, k));
    Place(b, ChunkLsb(r, k), ChunkWidth(r, k), Remaining(r, v, k))
  }

  /** The buffer after writing the word `v` into the field. */
  function Written(r: ValidRange, bytes: seq<UInt8>, v: nat): seq<UInt8>
  {
    var g := Grown(bytes, StoredLength(r, bytes));
    seq(|g|, i requires 0 <= i < |g| =>
      if InSpan(r, i) then WrittenByte(r, g[i], v, ChunkOf(r, i)) else g[i])
  }

  // ---------------------------------------------------------------------------
  // The coder object

  class MultiByteCoder {
    const storage: AssembledMessage
    const range: ValidRange

    constructor (range: ValidRange, storedIn: AssembledMessage)
      ensures this.range == range && storage == storedIn
    {
      this.range := range;
      storage := storedIn;
    }

    /** The throwing initializer: a coder bound to `storedIn`, or the first guard that fails. */
    static method Make(significantByte: int, msb: int, minorByte: int, lsb: int, signed: bool,
                       storedIn: AssembledMessage, littleEndian: bool)
      returns (result: Result<MultiByteCoder, BitfieldRangeError>)
      ensures var checked := Validate(BitRange(significantByte, msb, minorByte, lsb, signed, littleEndian));
        (result.Failure? <==> checked.Failure?) &&
        (result.Failure? ==> result.error == checked.error) &&
        (result.Success? ==>
          fresh(result.value) && result.value.range == checked.value && result.value.storage == storedIn)
    {
      var checked := Validate(BitRange(significantByte, msb, minorByte, lsb, signed, littleEndian));
      match checked {
        case Failure(e) => result := Failure(e);
        case Success(r) =>
          var coder := new MultiByteCoder(r, storedIn);
          result := Success(coder);
      }
    }

    /** Reads the field: walks from the most significant byte to the least significant one. */
    method GetWideRepresentation() returns (value: UInt)
      requires MaxIndex(range) < |storage.bytes|
      ensures value == Decoded(range, storage.bytes)
    {
      value := 0;
      var lsb := 0;
      var msb := range.msb;
      var k := ByteCount(range);
      while k > 0
        invariant 0 <= k <= ByteCount(range)
        invariant k > 0 ==> lsb == 0
        invariant msb == if k == ByteCount(range) then range.msb else 7
        invariant value == Assembled(range, storage.bytes, k)
      {
        k := k - 1;
        var index := ChunkIndex(range, k);
        if index == range.minorByte {
          lsb := range.lsb;
        }
        var bits := msb - lsb + 1;
        assert bits == ChunkWidth(range, k);
        var bitsRead := Field(storage.bytes[index], lsb, bits);
        ShiftInBound(value, bits, bitsRead);
        value := Shl(value, bits) % WORD;
        // the or of `bitsRead` into bits the shift left clear
        value := value + bitsRead;
        msb := 7;
      }
      value := ExtendingSign(range, value, EncodedWidth(range));
    }

    /** The setter's first loop: appends zero bytes until every byte of the field exists. */
    method GrowStorage()
      modifies storage
      ensures storage.bytes == Grown(old(storage.bytes), StoredLength(range, old(storage.bytes)))
    {
      while |storage.bytes| <= MaxIndex(range)
        invariant |old(storage.bytes)| <= |storage.bytes| <= StoredLength(range, old(storage.bytes))
        invariant storage.bytes == Grown(old(storage.bytes), |storage.bytes|)
        decreases MaxIndex(range) - |storage.bytes|
      {
        storage.bytes := storage.bytes + [0];
      }
    }

    /**
     * The body of the setter's second loop, the pass that brings the count of
     * written chunks to `k`: clears the field's bits in byte `index`, or-s in
     * the low bits of `remaining` and returns what is left for the next byte.
     */
    method WriteChunk(index: int, lsb: nat, bits: nat, remaining: UInt, ghost k: nat, ghost g: seq<UInt8>, ghost v: nat)
      returns (rest: UInt)
      requires 0 < k <= ByteCount(range) && index == ChunkIndex(range, k - 1) && MaxIndex(range) < |g|
      requires lsb == ChunkLsb(range, k - 1) && bits == ChunkWidth(range, k - 1)
      requires storage.bytes == PartlyWritten(range, g, v, k - 1) && remaining == Remaining(range, v, k - 1)
      modifies storage
      ensures storage.bytes == PartlyWritten(range, g, v, k) && rest == Remaining(range, v, k)
    {
      var cleared := Place(storage.bytes[index], lsb, bits, 0);
      var chunk := Low(remaining % 0x100, bits);
      WritePass(range, g, v, k, storage.bytes, remaining, lsb, bits);
      // the or of the shifted chunk into bits `cleared` has clear
      storage.bytes := storage.bytes[index := cleared + Shl(chunk, lsb)];
      rest := Shr(remaining, bits);
    }

    /** Writes the field: grows the buffer, then walks from the least significant byte up. */
    method SetWideRepresentation(newValue: UInt)
      requires WriteAllowed(range, newValue)
      modifies storage
      ensures storage.bytes == Written(range, old(storage.bytes), Stripped(range, newValue))
    {
      var remaining: UInt := newValue;
      if range.signed && TestBit(newValue, 63) {
        remaining := KeepLow(remaining, ExcessStart(range));
      }
      ghost var stripped := remaining;
      assert stripped == Stripped(range, newValue);

      GrowStorage();
      ghost var grown := storage.bytes;

      var lsb := range.lsb;
      var msb := 7;
      var k := 0;
      while k < ByteCount(range)
        invariant 0 <= k <= ByteCount(range)
        invariant |storage.bytes| == |grown|
        invariant lsb == if k == 0 then range.lsb else 0
        invariant k < ByteCount(range) ==> msb == 7
        invariant remaining == Remaining(range, stripped, k)
        invariant storage.bytes == PartlyWritten(range, grown, stripped, k)
      {
        var index := ChunkIndex(range, k);
        if index == range.significantByte {
          msb := range.msb;
        }
        var bits := msb - lsb + 1;
        assert bits == ChunkWidth(range, k);
        k := k + 1;
        remaining := WriteChunk(index, lsb, bits, remaining, k, grown, stripped);
        lsb := 0;
      }
      PartlyWrittenAll(range, old(storage.bytes), grown, stripped);
    }
  }

  /** The grown buffer `g` once chunks `0 ..< k` of `v` are written, one byte at a time. */
  ghost function PartlyWritten(r: ValidRange, g: seq<UInt8>, v: nat, k: nat): (p: seq<UInt8>)
    requires k <= ByteCount(r) && MaxIndex(r) < |g|
    ensures |p| == |g|
  {
    if k == 0 then g
    else
      var p := PartlyWritten(r, g, v, k - 1);
      var i := ChunkIndex(r, k - 1);
      p[i := WrittenByte(r, p[i], v, k - 1)]
  }

  /** Byte `i` after the first `k` chunks: written exactly when its chunk is among them. */
  lemma {:induction false} PartlyWrittenBytes(r: ValidRange, g: seq<UInt8>, v: nat, k: nat, i: nat)
    requires k <= ByteCount(r) && MaxIndex(r) < |g| && i < |g|
    ensures PartlyWritten(r, g, v, k)[i] ==
      if InSpan(r, i) && ChunkOf(r, i) < k then WrittenByte(r, g[i], v, ChunkOf(r, i)) else g[i]
  {
    if k > 0 {
      PartlyWrittenBytes(r, g, v, k - 1, i);
      PartlyWrittenBytes(r, g, v, k - 1, ChunkIndex(r, k - 1));
    }
  }

  lemma PartlyWrittenAll(r: ValidRange, bytes: seq<UInt8>, g: seq<UInt8>, v: nat)
    requires g == Grown(bytes, StoredLength(r, bytes))
    ensures PartlyWritten(r, g, v, ByteCount(r)) == Written(r, bytes, v)
  {
    forall i | 0 <= i < |g|
      ensures PartlyWritten(r, g, v, ByteCount(r))[i] == Written(r, bytes, v)[i]
    {
      PartlyWrittenBytes(r, g, v, ByteCount(r), i);
    }
  }

  /**
   * One pass of the writer, the one that brings the count of written chunks to
   * `k`: clearing the field of chunk `k - 1` and or-ing in the truncated,
   * shifted chunk writes that chunk, and shifting right by its width leaves
   * what the next chunk takes.
   */
  lemma WritePass(r: ValidRange, g: seq<UInt8>, v: nat, k: nat, bytes: seq<UInt8>, rem: UInt, lo: nat, w: nat)
    requires 0 < k <= ByteCount(r) && MaxIndex(r) < |g|
    requires bytes == PartlyWritten(r, g, v, k - 1) && rem == Remaining(r, v, k - 1)
    requires lo == ChunkLsb(r, k - 1) && w == ChunkWidth(r, k - 1)
    ensures var i := ChunkIndex(r, k - 1);
      Place(bytes[i], lo, w, 0) + Shl(Low(rem % 0x100, w), lo) == WrittenByte(r, bytes[i], v, k - 1) &&
      bytes[i := WrittenByte(r, bytes[i], v, k - 1)] == PartlyWritten(r, g, v, k)
    ensures Shr(rem, w) == Remaining(r, v, k) && Shr(rem, w) <= rem
  {
    var i := ChunkIndex(r, k - 1);
    var h := Shr(bytes[i], lo + w);
    TruncateByte(rem, w);
    LowSmall(0, w);
    ShlAdd(Shl(h, w), Low(rem, w), lo);
    ShrLe(rem, w);
  }
}
