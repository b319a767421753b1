/**
 * Client layouts built the way the package's unit tests build them: fields
 * declared in order, each writing its initial value into the slot's message,
 * then the instance taking that message over. Each scenario works out the
 * bytes the layout ends up with and the values its fields read back.
 */
module LayoutExamples {
  import opened Bits
  import opened Coding
  import opened CodingProofs
  import opened Embedding
  import opened Adapting
  import opened Storage
  import opened Layout
  import opened Wrappers
  import opened ByteCoder
  import ByteArrayLayout
  import WordLayout

  // ---------------------------------------------------------------------------
  // The concrete bytes the scenarios produce

  lemma PlaceZero(lo: nat, w: nat)
    ensures Place(0, lo, w, 0) == 0
  {
    ShrZero(lo + w);
    ShlZero(w);
    LowSmall(0, w);
    LowSmall(0, lo);
    ShlZero(lo);
  }

  // ---------------------------------------------------------------------------
  // Writing and reading a field within one byte

  /** Writing an in-byte field into a buffer that reaches its byte replaces that byte, with the value placed, and no other. */
  lemma UpdateInByte(r: ValidRange, bytes: seq<UInt8>, v: nat, b: UInt8)
    requires r.significantByte == r.minorByte < |bytes|
    requires b == Place(bytes[r.minorByte], r.lsb, r.msb - r.lsb + 1, v)
    ensures Written(r, bytes, v) == bytes[r.minorByte := b]
  {
    SameByteWrite(r, bytes, v, 0);
    forall k | 0 <= k < |bytes|
      ensures Written(r, bytes, v)[k] == bytes[r.minorByte := b][k]
    {
      SameByteWrite(r, bytes, v, k);
    }
  }

  /** `n` zero bytes. */
  function Zeros(n: nat): (z: seq<UInt8>)
    ensures |z| == n && forall k :: 0 <= k < n ==> z[k] == 0
  {
    seq(n, _ => 0)
  }

  /**
   * Writing an in-byte field beyond the end of the buffer pads it with zeros
   * up to the field's byte, which holds the value placed in a zero byte.
   */
  lemma GrowInByte(r: ValidRange, bytes: seq<UInt8>, v: nat, b: UInt8)
    requires r.significantByte == r.minorByte >= |bytes|
    requires b == Place(0, r.lsb, r.msb - r.lsb + 1, v)
    ensures Written(r, bytes, v) == bytes + Zeros(r.minorByte - |bytes|) + [b]
  {
    var e := bytes + Zeros(r.minorByte - |bytes|) + [b];
    SameByteWrite(r, bytes, v, 0);
    forall k | 0 <= k < |e|
      ensures Written(r, bytes, v)[k] == e[k]
    {
      SameByteWrite(r, bytes, v, k);
    }
  }



  /** Writing a stored 0 into a field of the byte just past the end of an all-zero buffer appends a zero byte. */
  lemma ZeroStep(r: ValidRange, bytes: seq<UInt8>)
    requires r.significantByte == r.minorByte == |bytes|
    ensures Written(r, bytes, 0) == bytes + [0]
  {
    PlaceZero(r.lsb, r.msb - r.lsb + 1);
    GrowInByte(r, bytes, 0, 0);
    assert Zeros(0) == [];
  }

  /** Reading an unsigned in-byte field at index `i` whose bits are the integer of `x` gives `x`. */
  lemma ByteRead(bytes: seq<UInt8>, i: nat, msb: nat, lsb: nat, x: Value)
    requires lsb <= msb < 8 && i < |bytes|
    requires KindOf(x) == BoolKind ==> msb == lsb
    requires IsSigned(KindOf(x)) ==> msb - lsb + 1 < RawWidth(KindOf(x))
    requires Field(bytes[i], lsb, msb - lsb + 1) == IntegerOf(x)
    ensures DecodedValue(KindOf(x), Decoded(BitRange(i, msb, i, lsb, false, false), bytes)) == x
  {
    var r: ValidRange := BitRange(i, msb, i, lsb, false, false);
    SameByteRead(r, bytes);
    UnsignedReadBound(r, bytes);
    if KindOf(x) == BoolKind {
      assert Pow2(1) == 2;
      LowSmall(Decoded(r, bytes), 8);
    } else {
      UnsignedRead(r, bytes, KindOf(x));
      SameValue(DecodedValue(KindOf(x), Decoded(r, bytes)), x);
    }
  }


  /** An unsigned in-byte field accepts any value whose raw value fits its bits, and stores that raw value. */
  lemma UnsignedFits(r: ValidRange, x: Value)
    requires !r.signed && r.significantByte == r.minorByte && RawOf(x) < Pow2(r.msb - r.lsb + 1)
    ensures WriteAllowed(r, EncodedWide(r, x))
    ensures Stripped(r, EncodedWide(r, x)) == RawOf(x)
  {
    UnsignedValueAllowed(r, x);
    EncodeUnsigned(r, x);
  }

  /** A signed field stores 0 as 0. */
  lemma SignedZero(r: ValidRange)
    requires r.signed
    ensures WriteAllowed(r, EncodedWide(r, Int8Value(0)))
    ensures Stripped(r, EncodedWide(r, Int8Value(0))) == 0
  {
    ShrZero(7);
    ShrZero(63);
    KeepLowZero(ExcessStart(r));
  }

  lemma KeepLowZero(e: nat)
    requires e <= 64
    ensures KeepLow(0, e) == 0
  {
    LowSmall(0, e);
  }

  /**
   * A signed four-bit field accepts -3, the `Int8` bit pattern `0b1111_1101`,
   * and stores its low four bits `0b1101`.
   */
  lemma MinusThree(r: ValidRange)
    requires r.signed && r.significantByte == r.minorByte && r.msb - r.lsb == 3
    ensures WriteAllowed(r, EncodedWide(r, Int8Value(-3)))
    ensures Stripped(r, EncodedWide(r, Int8Value(-3))) == 13
  {
    assert RawOf(Int8Value(-3)) == 0xFD;
    assert TestBit(0xFD, 7);
    EncodeNegativeAllowed(r, Int8Value(-3));
    assert ExcessStart(r) == 4;
    assert Low(0xFD, 4) == 13;
  }

  /**
   * The little-endian 16-bit field of bits 7 of byte 1 to 0 of byte 0, signed,
   * has width zero, so `Int16(-1)` reaches its setter as the all-ones word.
   */
  lemma MinusOneWord(r: ValidRange)
    requires r == BitRange(1, 7, 0, 0, true, true)
    ensures EncodedWide(r, Int16Value(-1)) == WORD - 1
  {
    assert RawOf(Int16Value(-1)) == 0xFFFF;
    assert TestBit(0xFFFF, 15) by {
      Pow2Half();
      BitOfOnes(16, 15);
    }
    assert ExcessStart(r) == 0;
    NegativeAtWidthZero(r, Int16Value(-1));
  }

  // ---------------------------------------------------------------------------
  // One field of a one-byte message, declared, written or read from a method

  /**
   * An unsigned field of bits `msb` to `lsb` of byte 1 initialised `x`, as a
   * `Position` makes it, into a message of at most that byte: the coordinates
   * pass validation, the value fits, and the message becomes the one byte
   * `after`, the old byte (or 0) with the value placed; `h`, `s`, `l`, `t`
   * and `m` are the intermediate values of that placement (see `PlacedBy`).
   */
  lemma InByteWrite(bytes: seq<UInt8>, x: Value, msb: int, lsb: int, before: UInt8, after: UInt8,
                    h: nat, s: nat, l: nat, t: nat, m: nat)
    requires 0 <= lsb <= msb < 8 && |bytes| <= 1 && before == if bytes == [] then 0 else bytes[0]
    requires RawOf(x) < Pow2(msb - lsb + 1)
    requires PlacedBy(before, lsb, msb - lsb + 1, RawOf(x), h, s, l, t, m, after)
    ensures var r := ByteArrayLayout.PositionRange(1, msb, 1, lsb, false);
      r == BitRange(0, msb, 0, lsb, false, false) && Validate(r).Success? &&
      WriteAllowed(r, EncodedWide(r, x)) &&
      Written(r, bytes, Stripped(r, EncodedWide(r, x))) == [after]
  {
    var r := BitRange(0, msb, 0, lsb, false, false);
    assert Validate(r).Success?;
    PlaceBySteps(before, lsb, msb - lsb + 1, RawOf(x), h, s, l, t, m, after);
    UnsignedFits(r, x);
    if bytes == [] {
      GrowInByte(r, bytes, RawOf(x), after);
    } else {
      UpdateInByte(r, bytes, RawOf(x), after);
    }
  }

  /**
   * A flag of byte 1 initialised `v` at bit `bit`, in a message of at most
   * that byte, which goes from `before` to `after` (the ghost parameters as
   * in `InByteWrite`).
   */
  method NewFlag(builder: Builder, v: bool, bit: int, before: UInt8, after: UInt8,
                 ghost h: nat, ghost s: nat, ghost l: nat, ghost t: nat, ghost m: nat) returns (p: Position)
    requires 0 <= bit < 8 && |builder.current.bytes| <= 1
    requires before == if builder.current.bytes == [] then 0 else builder.current.bytes[0]
    requires PlacedBy(before, bit, 1, if v then 1 else 0, h, s, l, t, m, after)
    modifies builder.current
    ensures p.kind == BoolKind && p.coder.storage == builder.current
    ensures p.coder.range == BitRange(0, bit, 0, bit, false, false) && builder.current.bytes == [after]
  {
    assert Pow2(1) == 2;
    InByteWrite(builder.current.bytes, BoolValue(v), bit, bit, before, after, h, s, l, t, m);
    p := ByteArrayLayout.NewBitPosition(builder, BoolValue(v), 1, bit);
  }

  /**
   * An unsigned field of bits `msb` to `lsb` of byte 1 initialised `x`, in a
   * message of at most that byte, which goes from `before` to `after` (the
   * ghost parameters as in `InByteWrite`).
   */
  method NewInByteField(builder: Builder, x: Value, msb: int, lsb: int, before: UInt8, after: UInt8,
                        ghost h: nat, ghost s: nat, ghost l: nat, ghost t: nat, ghost m: nat) returns (p: Position)
    requires 0 <= lsb <= msb < 8 && |builder.current.bytes| <= 1
    requires before == if builder.current.bytes == [] then 0 else builder.current.bytes[0]
    requires RawOf(x) < Pow2(msb - lsb + 1)
    requires PlacedBy(before, lsb, msb - lsb + 1, RawOf(x), h, s, l, t, m, after)
    modifies builder.current
    ensures p.kind == KindOf(x) && p.coder.storage == builder.current
    ensures p.coder.range == BitRange(0, msb, 0, lsb, false, false) && builder.current.bytes == [after]
  {
    InByteWrite(builder.current.bytes, x, msb, lsb, before, after, h, s, l, t, m);
    p := ByteArrayLayout.NewBytePosition(builder, x, 1, msb, lsb, false);
  }

  /**
   * A field within byte 0 of the one-byte message `[before]` written with
   * `x`: the byte becomes `after`, `before` with the value placed in the
   * field's bits (the ghost parameters as in `InByteWrite`).
   */
  method StoreInByte(p: Position, x: Value, msb: nat, lsb: nat, before: UInt8, after: UInt8,
                     ghost h: nat, ghost s: nat, ghost l: nat, ghost t: nat, ghost m: nat)
    requires p.kind == KindOf(x) && p.coder.storage.bytes == [before]
    requires p.coder.range == BitRange(0, msb, 0, lsb, false, false)
    requires RawOf(x) < Pow2(msb - lsb + 1)
    requires PlacedBy(before, lsb, msb - lsb + 1, RawOf(x), h, s, l, t, m, after)
    modifies p.coder.storage
    ensures p.coder.storage.bytes == [after]
  {
    var r := p.coder.range;
    PlaceBySteps(before, lsb, msb - lsb + 1, RawOf(x), h, s, l, t, m, after);
    UnsignedFits(r, x);
    UpdateInByte(r, p.coder.storage.bytes, RawOf(x), after);
    p.SetDecodedValue(x);
  }

  /**
   * A field within byte 0 of the one-byte message `[before]` read as the
   * type of `expected`, when the field's bits hold the integer of `expected`;
   * `shifted` is `before` shifted down to the field.
   */
  method LoadInByte(p: Position, expected: Value, msb: nat, lsb: nat, before: UInt8, ghost shifted: nat)
    returns (x: Value)
    requires p.kind == KindOf(expected) && p.coder.storage.bytes == [before]
    requires p.coder.range == BitRange(0, msb, 0, lsb, false, false) && msb < 8
    requires p.kind == BoolKind ==> msb == lsb
    requires IsSigned(p.kind) ==> msb - lsb + 1 < RawWidth(p.kind)
    requires Shr(before, lsb) == shifted && Low(shifted, msb - lsb + 1) == IntegerOf(expected)
    ensures x == expected
  {
    FieldByParts(before, lsb, msb - lsb + 1, shifted, IntegerOf(expected));
    ByteRead(p.coder.storage.bytes, 0, msb, lsb, expected);
    x := p.GetDecodedValue();
  }

  // ---------------------------------------------------------------------------
  // Three flags in one byte: bits 7, 0 and 2 of byte 1

  /** The three flags of one layout, sharing its message. */
  predicate ThreeFlags(layout: BitStorageCore, msb: Position, lsb: Position, mid: Position)
  {
    && msb.coder.storage == layout.storage && msb.kind == BoolKind
    && lsb.coder.storage == layout.storage && lsb.kind == BoolKind
    && mid.coder.storage == layout.storage && mid.kind == BoolKind
    && msb.coder.range == BitRange(0, 7, 0, 7, false, false)
    && lsb.coder.range == BitRange(0, 0, 0, 0, false, false)
    && mid.coder.range == BitRange(0, 2, 0, 2, false, false)
  }

  /**
   * Bits 7, 0 and 2 of byte 1, initialised `true`, `false` and `true`, give
   * the single byte `0b1000_0100`.
   */
  method BoolAndBit(builder: Builder) returns (layout: BitStorageCore, msb: Position, lsb: Position, mid: Position)
    requires builder.current.bytes == []
    modifies builder, builder.current
    ensures layout.storage == old(builder.current) && fresh(builder.current)
    ensures layout.storage.bytes == [0x84] && ThreeFlags(layout, msb, lsb, mid)
  {
    msb := NewFlag(builder, true, 7, 0, 0x80, 0, 0, 1, 0x80, 0);
    lsb := NewFlag(builder, false, 0, 0x80, 0x80, 0x40, 0x80, 0, 0x80, 0);
    mid := NewFlag(builder, true, 2, 0x80, 0x84, 0x10, 0x20, 1, 0x84, 0);
    layout := new BitStorageCore(builder);
  }

  /** The initial values read back from the byte they were encoded into. */
  method BoolInit(builder: Builder) returns (count: nat, msbValue: Value, lsbValue: Value, midValue: Value)
    requires builder.current.bytes == []
    modifies builder, builder.current
    ensures count == 1
    ensures msbValue == BoolValue(true) && lsbValue == BoolValue(false) && midValue == BoolValue(true)
  {
    var layout, msb, lsb, mid := BoolAndBit(builder);
    count := |layout.storage.bytes|;
    msbValue := LoadInByte(msb, BoolValue(true), 7, 7, 0x84, 1);
    lsbValue := LoadInByte(lsb, BoolValue(false), 0, 0, 0x84, 0x84);
    midValue := LoadInByte(mid, BoolValue(true), 2, 2, 0x84, 0x21);
  }

  /** Clearing the top flag gives `0b0000_0100`; then setting the bottom one gives `0b0000_0101`. */
  method BoolWrite(builder: Builder) returns (cleared: UInt8, lowSet: UInt8)
    requires builder.current.bytes == []
    modifies builder, builder.current
    ensures cleared == 0x04 && lowSet == 0x05
  {
    var layout, msb, lsb, mid := BoolAndBit(builder);
    assert Pow2(1) == 2;
    StoreInByte(msb, BoolValue(false), 7, 7, 0x84, 0x04, 0, 0, 0, 0, 4);
    cleared := layout.storage.bytes[0];
    StoreInByte(lsb, BoolValue(true), 0, 0, 0x04, 0x05, 2, 4, 1, 5, 0);
    lowSet := layout.storage.bytes[0];
  }

  /** Every flag reads `true` from the byte `0xff`. */
  method FlagsFromOnes(layout: BitStorageCore, msb: Position, lsb: Position, mid: Position) returns (read: seq<Value>)
    requires ThreeFlags(layout, msb, lsb, mid) && layout.storage.bytes == [0xFF]
    ensures read == [BoolValue(true), BoolValue(true), BoolValue(true)]
  {
    var m := LoadInByte(msb, BoolValue(true), 7, 7, 0xFF, 1);
    var d := LoadInByte(mid, BoolValue(true), 2, 2, 0xFF, 0x3F);
    var l := LoadInByte(lsb, BoolValue(true), 0, 0, 0xFF, 0xFF);
    read := [m, d, l];
  }

  /** Every flag reads `false` from the byte `0x00`. */
  method FlagsFromZeros(layout: BitStorageCore, msb: Position, lsb: Position, mid: Position) returns (read: seq<Value>)
    requires ThreeFlags(layout, msb, lsb, mid) && layout.storage.bytes == [0]
    ensures read == [BoolValue(false), BoolValue(false), BoolValue(false)]
  {
    var m := LoadInByte(msb, BoolValue(false), 7, 7, 0, 0);
    var d := LoadInByte(mid, BoolValue(false), 2, 2, 0, 0);
    var l := LoadInByte(lsb, BoolValue(false), 0, 0, 0, 0);
    read := [m, d, l];
  }

  /**
   * Every flag reads `true` from the byte `0xff` and `false` from the byte
   * `0x00` (the message is one byte long, so setting its byte 0 sets the
   * whole message).
   */
  method BoolReadUnderlying(builder: Builder) returns (onesRead: seq<Value>, zerosRead: seq<Value>)
    requires builder.current.bytes == []
    modifies builder, builder.current
    ensures onesRead == [BoolValue(true), BoolValue(true), BoolValue(true)]
    ensures zerosRead == [BoolValue(false), BoolValue(false), BoolValue(false)]
  {
    var layout, msb, lsb, mid := BoolAndBit(builder);
    layout.storage.bytes := [0xFF];
    onesRead := FlagsFromOnes(layout, msb, lsb, mid);
    layout.storage.bytes := [0x00];
    zerosRead := FlagsFromZeros(layout, msb, lsb, mid);
  }

  // ---------------------------------------------------------------------------
  // Unsigned fields of one byte: 7 to 4, 3 to 2 and 1 to 0 of byte 1

  /** The three unsigned fields of one layout, sharing its message; the last one is an `Int8`. */
  predicate ThreeFields(layout: BitStorageCore, high: Position, mid: Position, last: Position)
  {
    && high.coder.storage == layout.storage && high.kind == UInt8Kind
    && mid.coder.storage == layout.storage && mid.kind == UInt8Kind
    && last.coder.storage == layout.storage && last.kind == Int8Kind
    && high.coder.range == BitRange(0, 7, 0, 4, false, false)
    && mid.coder.range == BitRange(0, 3, 0, 2, false, false)
    && last.coder.range == BitRange(0, 1, 0, 0, false, false)
  }

  /**
   * The fields initialised `0b1010`, `0b00` and `0b11` (the last an `Int8`
   * without sign extension) give the single byte `0b1010_0011`.
   */
  method UnsignedRange(builder: Builder) returns (layout: BitStorageCore, high: Position, mid: Position, last: Position)
    requires builder.current.bytes == []
    modifies builder, builder.current
    ensures layout.storage == old(builder.current) && fresh(builder.current)
    ensures layout.storage.bytes == [0xA3] && ThreeFields(layout, high, mid, last)
  {
    assert Pow2(4) == 16 && Pow2(2) == 4;
    high := NewInByteField(builder, UInt8Value(10), 7, 4, 0, 0xA0, 0, 0, 10, 0xA0, 0);
    mid := NewInByteField(builder, UInt8Value(0), 3, 2, 0xA0, 0xA0, 0x0A, 0x28, 0, 0xA0, 0);
    last := NewInByteField(builder, Int8Value(3), 1, 0, 0xA0, 0xA3, 0x28, 0xA0, 3, 0xA3, 0);
    layout := new BitStorageCore(builder);
  }

  /** The initial values read back from the byte they were encoded into. */
  method UnsignedInit(builder: Builder) returns (count: nat, highValue: Value, midValue: Value, lastValue: Value, byte0: UInt8)
    requires builder.current.bytes == []
    modifies builder, builder.current
    ensures count == 1 && byte0 == 0xA3
    ensures highValue == UInt8Value(10) && midValue == UInt8Value(0) && lastValue == Int8Value(3)
  {
    var layout, high, mid, last := UnsignedRange(builder);
    count := |layout.storage.bytes|;
    byte0 := layout.storage.bytes[0];
    highValue := LoadInByte(high, UInt8Value(10), 7, 4, 0xA3, 0x0A);
    midValue := LoadInByte(mid, UInt8Value(0), 3, 2, 0xA3, 0x28);
    lastValue := LoadInByte(last, Int8Value(3), 1, 0, 0xA3, 0xA3);
  }

  /** `last = 3` on the cleared byte: `0b0000_0011`. */
  method SetLast(layout: BitStorageCore, high: Position, mid: Position, last: Position)
    requires ThreeFields(layout, high, mid, last) && layout.storage.bytes == [0]
    modifies layout.storage
    ensures layout.storage.bytes == [0x03]
  {
    assert Pow2(2) == 4;
    StoreInByte(last, Int8Value(3), 1, 0, 0, 0x03, 0, 0, 3, 3, 0);
  }

  /** `mid = 3` next: `0b0000_1111`. */
  method SetMid(layout: BitStorageCore, high: Position, mid: Position, last: Position)
    requires ThreeFields(layout, high, mid, last) && layout.storage.bytes == [0x03]
    modifies layout.storage
    ensures layout.storage.bytes == [0x0F]
  {
    assert Pow2(2) == 4;
    StoreInByte(mid, UInt8Value(3), 3, 2, 0x03, 0x0F, 0, 0, 3, 0x0C, 3);
  }

  /** `high = 15` next: `0b1111_1111`. */
  method SetHigh(layout: BitStorageCore, high: Position, mid: Position, last: Position)
    requires ThreeFields(layout, high, mid, last) && layout.storage.bytes == [0x0F]
    modifies layout.storage
    ensures layout.storage.bytes == [0xFF]
  {
    assert Pow2(4) == 16;
    StoreInByte(high, UInt8Value(15), 7, 4, 0x0F, 0xFF, 0, 0, 15, 0xF0, 15);
  }

  /** `high = 0` on the byte of ones: `0b0000_1111`. */
  method ClearHigh(layout: BitStorageCore, high: Position, mid: Position, last: Position)
    requires ThreeFields(layout, high, mid, last) && layout.storage.bytes == [0xFF]
    modifies layout.storage
    ensures layout.storage.bytes == [0x0F]
  {
    assert Pow2(4) == 16;
    StoreInByte(high, UInt8Value(0), 7, 4, 0xFF, 0x0F, 0, 0, 0, 0, 15);
  }

  /** `mid = 0` next: `0b0000_0011`. */
  method ClearMid(layout: BitStorageCore, high: Position, mid: Position, last: Position)
    requires ThreeFields(layout, high, mid, last) && layout.storage.bytes == [0x0F]
    modifies layout.storage
    ensures layout.storage.bytes == [0x03]
  {
    assert Pow2(2) == 4;
    StoreInByte(mid, UInt8Value(0), 3, 2, 0x0F, 0x03, 0, 0, 0, 0, 3);
  }

  /** `last = 0` next: `0b0000_0000`. */
  method ClearLast(layout: BitStorageCore, high: Position, mid: Position, last: Position)
    requires ThreeFields(layout, high, mid, last) && layout.storage.bytes == [0x03]
    modifies layout.storage
    ensures layout.storage.bytes == [0]
  {
    assert Pow2(2) == 4;
    StoreInByte(last, Int8Value(0), 1, 0, 0x03, 0x00, 0, 0, 0, 0, 0);
  }

  /** From a cleared byte, the fields set to all ones from the lowest up. */
  method RaiseFields(layout: BitStorageCore, high: Position, mid: Position, last: Position) returns (steps: seq<UInt8>)
    requires ThreeFields(layout, high, mid, last) && layout.storage.bytes == [0]
    modifies layout.storage
    ensures steps == [0x03, 0x0F, 0xFF] && layout.storage.bytes == [0xFF]
  {
    SetLast(layout, high, mid, last);
    var a := layout.storage.bytes[0];
    SetMid(layout, high, mid, last);
    var b := layout.storage.bytes[0];
    SetHigh(layout, high, mid, last);
    steps := [a, b, layout.storage.bytes[0]];
  }

  /** From the byte `0xff`, the fields cleared from the highest down. */
  method ClearFields(layout: BitStorageCore, high: Position, mid: Position, last: Position) returns (steps: seq<UInt8>)
    requires ThreeFields(layout, high, mid, last) && layout.storage.bytes == [0xFF]
    modifies layout.storage
    ensures steps == [0x0F, 0x03, 0x00] && layout.storage.bytes == [0]
  {
    ClearHigh(layout, high, mid, last);
    var a := layout.storage.bytes[0];
    ClearMid(layout, high, mid, last);
    var b := layout.storage.bytes[0];
    ClearLast(layout, high, mid, last);
    steps := [a, b, layout.storage.bytes[0]];
  }

  /**
   * From a cleared byte, setting the fields to all ones from the lowest up
   * gives `0b0000_0011`, `0b0000_1111`, `0b1111_1111`; clearing them again
   * from the highest down gives `0b0000_1111`, `0b0000_0011`, `0b0000_0000`.
   */
  method UnsignedWrite(builder: Builder) returns (steps: seq<UInt8>)
    requires builder.current.bytes == []
    modifies builder, builder.current
    ensures steps == [0x03, 0x0F, 0xFF, 0x0F, 0x03, 0x00]
  {
    var layout, high, mid, last := UnsignedRange(builder);
    layout.storage.bytes := [0];
    var raised := RaiseFields(layout, high, mid, last);
    var cleared := ClearFields(layout, high, mid, last);
    steps := raised + cleared;
  }

  /** Every field reads all ones from the byte `0xff`. */
  method FieldsFromOnes(layout: BitStorageCore, high: Position, mid: Position, last: Position) returns (read: seq<Value>)
    requires ThreeFields(layout, high, mid, last) && layout.storage.bytes == [0xFF]
    ensures read == [UInt8Value(15), UInt8Value(3), Int8Value(3)]
  {
    var h := LoadInByte(high, UInt8Value(15), 7, 4, 0xFF, 0x0F);
    var m := LoadInByte(mid, UInt8Value(3), 3, 2, 0xFF, 0x3F);
    var l := LoadInByte(last, Int8Value(3), 1, 0, 0xFF, 0xFF);
    read := [h, m, l];
  }

  /** Every field reads zero from the byte `0x00`. */
  method FieldsFromZeros(layout: BitStorageCore, high: Position, mid: Position, last: Position) returns (read: seq<Value>)
    requires ThreeFields(layout, high, mid, last) && layout.storage.bytes == [0]
    ensures read == [UInt8Value(0), UInt8Value(0), Int8Value(0)]
  {
    var h := LoadInByte(high, UInt8Value(0), 7, 4, 0, 0);
    var m := LoadInByte(mid, UInt8Value(0), 3, 2, 0, 0);
    var l := LoadInByte(last, Int8Value(0), 1, 0, 0, 0);
    read := [h, m, l];
  }

  /** Every field reads all ones from the byte `0xff` and zero from the byte `0x00`. */
  method UnsignedReadUnderlying(builder: Builder) returns (onesRead: seq<Value>, zerosRead: seq<Value>)
    requires builder.current.bytes == []
    modifies builder, builder.current
    ensures onesRead == [UInt8Value(15), UInt8Value(3), Int8Value(3)]
    ensures zerosRead == [UInt8Value(0), UInt8Value(0), Int8Value(0)]
  {
    var layout, high, mid, last := UnsignedRange(builder);
    layout.storage.bytes := [0xFF];
    onesRead := FieldsFromOnes(layout, high, mid, last);
    layout.storage.bytes := [0x00];
    zerosRead := FieldsFromZeros(layout, high, mid, last);
  }
  // ---------------------------------------------------------------------------
  // Signed nibbles in bytes 1 to 3 and a six-bit field in byte 4, all sign-extended

  /** A sign-extended `Int8` field initialised 0 in byte `ofByte`, the byte just past the end of an all-zero message. */
  method NewZeroField(builder: Builder, ofByte: int, msb: int, lsb: int) returns (p: Position)
    requires 1 <= ofByte && |builder.current.bytes| == ofByte - 1 && 0 <= lsb <= msb < 8
    modifies builder.current
    ensures p.kind == Int8Kind && p.coder.storage == builder.current
    ensures p.coder.range == BitRange(ofByte - 1, msb, ofByte - 1, lsb, true, false)
    ensures builder.current.bytes == old(builder.current.bytes) + [0]
  {
    ByteArrayLayout.PositionRangeValid(ofByte, msb, ofByte, lsb, true);
    var r: ValidRange := BitRange(ofByte - 1, msb, ofByte - 1, lsb, true, false);
    SignedZero(r);
    ZeroStep(r, builder.current.bytes);
    p := ByteArrayLayout.NewBytePosition(builder, Int8Value(0), ofByte, msb, lsb, true);
  }

  /** The four fields initialised 0 give four zero bytes. */
  method SignedRange(builder: Builder) returns (layout: BitStorageCore, high: Position, mid: Position, low: Position,
                                                six: Position)
    requires builder.current.bytes == []
    modifies builder, builder.current
    ensures layout.storage == old(builder.current) && fresh(builder.current)
    ensures layout.storage.bytes == [0, 0, 0, 0]
    ensures high.coder.storage == layout.storage && high.kind == Int8Kind
    ensures mid.coder.storage == layout.storage && mid.kind == Int8Kind
    ensures low.coder.storage == layout.storage && low.kind == Int8Kind
    ensures six.coder.storage == layout.storage && six.kind == Int8Kind
    ensures high.coder.range == BitRange(0, 7, 0, 4, true, false)
    ensures mid.coder.range == BitRange(1, 5, 1, 2, true, false)
    ensures low.coder.range == BitRange(2, 3, 2, 0, true, false)
    ensures six.coder.range == BitRange(3, 6, 3, 1, true, false)
  {
    high := NewZeroField(builder, 1, 7, 4);
    mid := NewZeroField(builder, 2, 5, 2);
    low := NewZeroField(builder, 3, 3, 0);
    six := NewZeroField(builder, 4, 6, 1);
    layout := new BitStorageCore(builder);
  }

  /**
   * -3 written into the signed nibble at bit `lsb` of byte `i`, which holds
   * `before`: that byte becomes `after`, `before` with `0b1101` placed.
   */
  method StoreMinusThree(p: Position, i: nat, lsb: nat, before: UInt8, after: UInt8,
                         ghost h: nat, ghost s: nat, ghost t: nat, ghost m: nat)
    requires p.kind == Int8Kind && p.coder.range == BitRange(i, lsb + 3, i, lsb, true, false)
    requires i < |p.coder.storage.bytes| && p.coder.storage.bytes[i] == before
    requires PlacedBy(before, lsb, 4, 13, h, s, 13, t, m, after)
    modifies p.coder.storage
    ensures p.coder.storage.bytes == old(p.coder.storage.bytes)[i := after]
  {
    var r := p.coder.range;
    PlaceBySteps(before, lsb, 4, 13, h, s, 13, t, m, after);
    MinusThree(r);
    UpdateInByte(r, p.coder.storage.bytes, 13, after);
    p.SetDecodedValue(Int8Value(-3));
  }

  /**
   * -3 written into the signed nibble at bit `lsb` of byte `i` after that
   * byte is cleared, giving `zeros`, then after it is filled with ones,
   * giving `ones`; `h`, `s`, `t` and `m` are the intermediate values of
   * placing it into the byte of ones.
   */
  method MinusThreeBothWays(layout: BitStorageCore, p: Position, i: nat, lsb: nat, zeros: UInt8, ones: UInt8,
                            ghost h: nat, ghost s: nat, ghost t: nat, ghost m: nat)
    returns (fromZeros: UInt8, fromOnes: UInt8)
    requires p.kind == Int8Kind && p.coder.storage == layout.storage
    requires p.coder.range == BitRange(i, lsb + 3, i, lsb, true, false) && i < |layout.storage.bytes|
    requires PlacedBy(0, lsb, 4, 13, 0, 0, 13, zeros, 0, zeros)
    requires PlacedBy(0xFF, lsb, 4, 13, h, s, 13, t, m, ones)
    modifies layout.storage
    ensures fromZeros == zeros && fromOnes == ones
    ensures |layout.storage.bytes| == old(|layout.storage.bytes|)
  {
    layout.storage.bytes := layout.storage.bytes[i := 0];
    StoreMinusThree(p, i, lsb, 0, zeros, 0, 0, zeros, 0);
    fromZeros := layout.storage.bytes[i];
    layout.storage.bytes := layout.storage.bytes[i := 0xFF];
    StoreMinusThree(p, i, lsb, 0xFF, ones, h, s, t, m);
    fromOnes := layout.storage.bytes[i];
  }

  /**
   * -3 is stored as `0b1101` in each nibble with the bits around it kept:
   * `0b1101_0000` and `0b1101_1111` at the top of byte 1, `0b0011_0100` and
   * `0b1111_0111` in the middle of byte 2, `0b0000_1101` and `0b1111_1101` at
   * the bottom of byte 3.
   */
  method SignRepresentationAndMask(builder: Builder) returns (steps: seq<UInt8>)
    requires builder.current.bytes == []
    modifies builder, builder.current
    ensures steps == [0xD0, 0xDF, 0x34, 0xF7, 0x0D, 0xFD]
  {
    var layout, high, mid, low, six := SignedRange(builder);
    var highZeros, highOnes := MinusThreeBothWays(layout, high, 0, 4, 0xD0, 0xDF, 0, 0, 0xD0, 15);
    var midZeros, midOnes := MinusThreeBothWays(layout, mid, 1, 2, 0x34, 0xF7, 3, 0x30, 0xF4, 3);
    var lowZeros, lowOnes := MinusThreeBothWays(layout, low, 2, 0, 0x0D, 0xFD, 0x0F, 0xF0, 0xFD, 0);
    steps := [highZeros, highOnes, midZeros, midOnes, lowZeros, lowOnes];
  }

  /** Any value a signed field holds is read back as written, whatever the message held before. */
  method StoreAndLoad(p: Position, x: Value) returns (y: Value)
    requires p.kind == KindOf(x) && IsSigned(p.kind)
    requires p.coder.range.signed && WidthExact(p.coder.range) && BitCount(p.coder.range) <= RawWidth(p.kind)
    requires InSignedRange(IntegerOf(x), BitCount(p.coder.range))
    modifies p.coder.storage
    ensures y == x
  {
    SignedValueRoundTrip(p.coder.range, p.coder.storage.bytes, x);
    WriteFrame(p.coder.range, p.coder.storage.bytes, Stripped(p.coder.range, EncodedWide(p.coder.range, x)));
    p.SetDecodedValue(x);
    y := p.GetDecodedValue();
  }

  /** The six-bit field reads back -4, 29 and -29: the negative ones sign-extended, the positive one not. */
  method SignExtension(builder: Builder) returns (minusFour: Value, twentyNine: Value, minusTwentyNine: Value)
    requires builder.current.bytes == []
    modifies builder, builder.current
    ensures minusFour == Int8Value(-4) && twentyNine == Int8Value(29) && minusTwentyNine == Int8Value(-29)
  {
    var layout, high, mid, low, six := SignedRange(builder);
    assert Pow2(5) == 32;
    minusFour := StoreAndLoad(six, Int8Value(-4));
    twentyNine := StoreAndLoad(six, Int8Value(29));
    minusTwentyNine := StoreAndLoad(six, Int8Value(-29));
  }

  // ---------------------------------------------------------------------------
  // A big-endian word with bits 6 and 15 set

  /** Word bit 6 is bit 6 of byte 1: setting it in the empty message gives `[0, 0b0100_0000]`. */
  lemma WordLowBit()
    ensures Written(BitRange(1, 6, 1, 6, false, false), [], 1) == [0, 0x40]
  {
    PlaceByParts(0, 6, 1, 1, 7, 0, 0, 1, 1, 0x40, 0);
    GrowInByte(BitRange(1, 6, 1, 6, false, false), [], 1, 0x40);
    assert Zeros(1) == [0];
  }

  /** Word bit 15 is bit 7 of byte 0. */
  lemma WordHighBit()
    ensures Written(BitRange(0, 7, 0, 7, false, false), [0, 0x40], 1) == [0x80, 0x40]
  {
    PlaceByParts(0, 7, 1, 1, 8, 0, 0, 1, 1, 0x80, 0);
    UpdateInByte(BitRange(0, 7, 0, 7, false, false), [0, 0x40], 1, 0x80);
  }

  /** Word bit `bit` is bit `j` of byte `i`. */
  lemma WordFlagRange(bit: int, i: nat, j: nat)
    requires (bit == 6 && i == 1 && j == 6) || (bit == 15 && i == 0 && j == 7)
    ensures WordLayout.PositionAsserts(bit, bit)
    ensures WordLayout.PositionRange(bit, bit, false) == BitRange(i, j, i, j, false, false)
  {
    WordLayout.PositionRangeValid(bit, bit, false);
  }

  /** A word flag initialised `true` at bit 6 of the empty message. */
  method NewWordLowFlag(builder: Builder) returns (p: Position)
    requires builder.current.bytes == []
    modifies builder.current
    ensures p.coder.storage == builder.current && builder.current.bytes == [0, 0x40]
  {
    WordFlagRange(6, 1, 6);
    UnsignedFits(BitRange(1, 6, 1, 6, false, false), BoolValue(true));
    WordLowBit();
    p := WordLayout.NewBitPosition(builder, BoolValue(true), 6);
  }

  /** A word flag initialised `true` at bit 15, after the one at bit 6. */
  method NewWordHighFlag(builder: Builder) returns (p: Position)
    requires builder.current.bytes == [0, 0x40]
    modifies builder.current
    ensures p.coder.storage == builder.current && builder.current.bytes == [0x80, 0x40]
  {
    WordFlagRange(15, 0, 7);
    UnsignedFits(BitRange(0, 7, 0, 7, false, false), BoolValue(true));
    WordHighBit();
    p := WordLayout.NewBitPosition(builder, BoolValue(true), 15);
  }

  /** Flags at word bits 6 and 15, both `true`: the message is the two bytes `0b1000_0000` and `0b0100_0000`. */
  method WordBit(builder: Builder) returns (count: nat, byte0: UInt8, byte1: UInt8)
    requires builder.current.bytes == []
    modifies builder, builder.current
    ensures count == 2 && byte0 == 0x80 && byte1 == 0x40
  {
    var x := NewWordLowFlag(builder);
    var y := NewWordHighFlag(builder);
    var layout := new BitStorageCore(builder);
    count := |layout.storage.bytes|;
    byte0 := layout.storage.bytes[0];
    byte1 := layout.storage.bytes[1];
  }


  // ---------------------------------------------------------------------------
  // Construction errors and storage rotation

  /**
   * Fields a byte-array layout refuses: bit 8 of a byte, bits out of order,
   * a negative bit and a byte position of 0.
   */
  lemma InitBounds()
    ensures Validate(ByteArrayLayout.PositionRange(2, 8, 2, 6, false)) == Failure(ByteWidthExceeded)
    ensures Validate(ByteArrayLayout.PositionRange(1, 2, 1, 3, false)) == Failure(BitOrdering)
    ensures Validate(ByteArrayLayout.PositionRange(1, 2, 1, -1, false)) == Failure(ByteWidthExceeded)
    ensures Validate(ByteArrayLayout.PositionRange(0, 3, 0, 3, false)) == Failure(BadByteIndex)
  {
  }

  /** A layout with one flag, bit 4 of byte 1, initialised `true`. */
  method SomeStoreKind(builder: Builder) returns (layout: BitStorageCore)
    requires builder.current.bytes == []
    modifies builder, builder.current
    ensures layout.storage == old(builder.current) && layout.storage.bytes == [0x10]
    ensures fresh(builder.current) && builder.current.bytes == []
  {
    var flag := NewFlag(builder, true, 4, 0, 0x10, 0, 0, 1, 0x10, 0);
    layout := new BitStorageCore(builder);
  }

  /** Two layouts built one after the other do not share their message. */
  method StorageAliasing(builder: Builder) returns (a: BitStorageCore, b: BitStorageCore)
    requires builder.current.bytes == []
    modifies builder, builder.current
    ensures a.storage != b.storage
    ensures a.storage.bytes == [0x10] && b.storage.bytes == [0x10]
  {
    a := SomeStoreKind(builder);
    b := SomeStoreKind(builder);
  }
}
