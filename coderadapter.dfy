/**
 * The glue between a typed field value and its coder's 64-bit word: a read
 * keeps the low bits of the word that the raw type holds and makes a value of
 * them; a write pads the raw value to a word, sign-extends it from the raw
 * type's width and hands it to the coder.
 */
module Adapting {
  import opened Bits
  import opened Coding
  import opened CodingProofs
  import opened Embedding
  import opened Storage

  /** `-2^(w-1) <= i < 2^(w-1)`: the integers of `w`-bit two's complement. */
  predicate InSignedRange(i: int, w: nat)
  {
    w >= 1 && -(Pow2(w - 1) as int) <= i < Pow2(w - 1)
  }

  /** An integer in `w`-bit signed range is in range of every wider signed type. */
  lemma WiderSignedRange(i: int, w: nat, n: nat)
    requires w <= n && InSignedRange(i, w)
    ensures InSignedRange(i, n)
  {
    Pow2Below(w - 1, n - 1);
  }

  /** The getter's conversion: the low `RawValue.bitWidth` bits of the word as a value of type `t`; the force-unwrap never fails. */
  function DecodedValue(t: Kind, wide: UInt): (x: Value)
    ensures KindOf(x) == t
    ensures t != BoolKind ==> RawOf(x) == Low(wide, RawWidth(t))
    ensures t == BoolKind ==> x == BoolValue(Low(wide, 8) == 1)
  {
    RawBoundIsPow2(t);
    LowBound(wide, RawWidth(t));
    var raw := Low(wide, RawWidth(t));
    RawOfFromRaw(t, raw);
    FromRaw(t, raw).value
  }

  /** The setter's conversion: the raw value zero-padded to a word, then sign-extended from the raw type's width. */
  function EncodedWide(r: BitRange, x: Value): UInt
  {
    ExtendingSign(r, RawOf(x), RawWidth(KindOf(x)))
  }

  /** An unsigned coder is handed the raw value unchanged. */
  lemma EncodeUnsigned(r: BitRange, x: Value)
    requires !r.signed
    ensures EncodedWide(r, x) == RawOf(x)
  {
  }

  /**
   * A signed coder handed a raw value whose top bit is set gets a word with
   * every excess bit set. The setter's first assertion therefore holds, and
   * the value is cut to the field's low bits rather than rejected, however
   * negative it is.
   */
  lemma EncodeNegativeAllowed(r: BitRange, x: Value)
    requires r.signed && TestBit(RawOf(x), RawWidth(KindOf(x)) - 1)
    ensures HasHigh(EncodedWide(r, x), ExcessStart(r))
    ensures WriteAllowed(r, EncodedWide(r, x))
    ensures Stripped(r, EncodedWide(r, x)) == Low(RawOf(x), ExcessStart(r))
  {
    assert RawBound(KindOf(x)) <= WORD;
    var raw: UInt := RawOf(x);
    assert EncodedWide(r, x) == FillHigh(raw, ExcessStart(r));
    FilledWordAllowed(r, raw);
  }

  /**
   * A signed coder of width zero, whose excess mask is the whole word, is
   * handed every negative value as the all-ones word.
   */
  lemma NegativeAtWidthZero(r: BitRange, x: Value)
    requires r.signed && ExcessStart(r) == 0 && TestBit(RawOf(x), RawWidth(KindOf(x)) - 1)
    ensures EncodedWide(r, x) == WORD - 1
  {
    assert EncodedWide(r, x) == FillHigh(RawOf(x), 0);
    assert Low(RawOf(x), 0) == 0 && Pow2(0) == 1;
  }

  /**
   * A signed value within the range of a signed field that holds its
   * bit count (at most the raw type's width) is handed to the coder as its
   * own 64-bit two's-complement word.
   */
  lemma EncodeSigned(r: ValidRange, x: Value)
    requires r.signed && WidthExact(r) && IsSigned(KindOf(x)) && BitCount(r) <= RawWidth(KindOf(x))
    requires InSignedRange(IntegerOf(x), BitCount(r))
    ensures EncodedWide(r, x) == IntegerOf(x) % WORD
  {
    var t := KindOf(x);
    var n, w, i, raw := RawWidth(t), BitCount(r), IntegerOf(x), RawOf(x);
    RawBoundIsPow2(t);
    EncodedWidthValue(r);
    TwosComplementBits(i, w, n);
    TopBitOf(raw, n);
    if i < 0 {
      assert TestBit(raw, n - 1);
      LowMod(raw, w);
    }
  }

  /**
   * The arithmetic of two's complement: for `i` in `w`-bit range and `n >= w`,
   * its `n`-bit pattern has its top bit set exactly when `i` is negative, and
   * its low `w` bits and its 64-bit word are those of `i`.
   */
  lemma TwosComplementBits(i: int, w: nat, n: nat)
    requires 1 <= w <= n <= 64 && InSignedRange(i, w)
    ensures i % Pow2(n) < Pow2(n)
    ensures i % Pow2(n) >= Pow2(n - 1) <==> i < 0
    ensures i < 0 ==> (i % Pow2(n)) % Pow2(w) == i + Pow2(w) && i % WORD == WORD - Pow2(w) + (i + Pow2(w))
    ensures i >= 0 ==> i % Pow2(n) == i && i % WORD == i
  {
    var pn, pw, h := Pow2(n), Pow2(w), Pow2(w - 1);
    Pow2Word();
    Pow2Below(w - 1, n - 1);
    Pow2Below(n, 64);
    assert pn == 2 * Pow2(n - 1) && pw == 2 * h;
    ModPow2Mod(i, w, n);
    if i >= 0 {
      DivModUnique(i, pn, 0, i);
      DivModUnique(i, WORD, 0, i);
    } else {
      DivModUnique(i, pn, -1, i + pn);
      DivModUnique(i, pw, -1, i + pw);
      DivModUnique(i, WORD, -1, i + WORD);
    }
  }

  /** The getter turns the two's-complement word of an integer in range of a signed type back into that integer. */
  lemma DecodeWord(t: Kind, j: int)
    requires IsSigned(t) && InSignedRange(j, RawWidth(t))
    ensures IntegerOf(DecodedValue(t, j % WORD)) == j
  {
    var n := RawWidth(t);
    RawBoundIsPow2(t);
    var raw := LowOfWord(j, n);
    assert DecodedValue(t, j % WORD) == FromRaw(t, raw).value;
    IntegerOfFromRaw(t, raw);
  }

  /** The low `n` bits of the word of an `n`-bit signed integer `j` are its `n`-bit two's complement. */
  lemma LowOfWord(j: int, n: nat) returns (raw: nat)
    requires n <= 64 && InSignedRange(j, n)
    ensures raw == Low(j % WORD, n) && raw < Pow2(n)
    ensures raw == if j >= 0 then j else j + Pow2(n)
    ensures raw < Pow2(n) / 2 <==> j >= 0
  {
    Pow2Word();
    raw := Low(j % WORD, n);
    LowMod(j % WORD, n);
    ModPow2Mod(j, n, 64);
    assert Pow2(n) == 2 * Pow2(n - 1);
    if j >= 0 {
      DivModUnique(j, Pow2(n), 0, j);
    } else {
      DivModUnique(j, Pow2(n), -1, j + Pow2(n));
    }
  }

  /**
   * Signed round trip through the adapter: on a signed field whose width is
   * its bit count `w`, no wider than the raw type, a value with
   * `-2^(w-1) <= v < 2^(w-1)` passes the setter's assertions and reads back.
   */
  lemma SignedValueRoundTrip(r: ValidRange, bytes: seq<UInt8>, x: Value)
    requires r.signed && WidthExact(r) && IsSigned(KindOf(x)) && BitCount(r) <= RawWidth(KindOf(x))
    requires InSignedRange(IntegerOf(x), BitCount(r))
    ensures WriteAllowed(r, EncodedWide(r, x))
    ensures DecodedValue(KindOf(x), Decoded(r, Written(r, bytes, Stripped(r, EncodedWide(r, x))))) == x
  {
    var t, w, i := KindOf(x), BitCount(r), IntegerOf(x);
    var v := EncodedWide(r, x);
    assert v == i % WORD by {
      EncodeSigned(r, x);
    }
    assert SignedFits(v, w) by {
      TwosComplementBits(i, w, RawWidth(t));
    }
    SignedFitsAllowed(r, v);
    assert Decoded(r, Written(r, bytes, Stripped(r, v))) == v by {
      SignedRoundTrip(r, bytes, v);
    }
    assert IntegerOf(DecodedValue(t, v)) == i by {
      WiderSignedRange(i, w, RawWidth(t));
      DecodeWord(t, i);
    }
    SameValue(DecodedValue(t, v), x);
  }

  /** What a signed field of bit count `w` reads, as a signed type at least `w` bits wide, lies in `-2^(w-1) ..< 2^(w-1)`. */
  lemma SignedReadInRange(r: ValidRange, bytes: seq<UInt8>, t: Kind)
    requires r.signed && WidthExact(r) && IsSigned(t) && BitCount(r) <= RawWidth(t) && MaxIndex(r) < |bytes|
    ensures var i := IntegerOf(DecodedValue(t, Decoded(r, bytes)));
      InSignedRange(i, BitCount(r))
  {
    var w := BitCount(r);
    var j := SignedReadWord(r, bytes);
    WiderSignedRange(j, w, RawWidth(t));
    DecodeWord(t, j);
  }

  /** A signed field whose width is its bit count `w` reads the 64-bit word of an integer in `w`-bit range. */
  lemma SignedReadWord(r: ValidRange, bytes: seq<UInt8>) returns (j: int)
    requires r.signed && WidthExact(r) && BitCount(r) <= 64 && MaxIndex(r) < |bytes|
    ensures InSignedRange(j, BitCount(r)) && Decoded(r, bytes) == j % WORD
  {
    var w, a := BitCount(r), Assembled(r, bytes, 0);
    assert EncodedWidth(r) == w by {
      EncodedWidthValue(r);
    }
    var d := Decoded(r, bytes);
    assert d == if a >= Pow2(w - 1) then HighMask(w) + a else a by {
      ReadValue(r, bytes);
    }
    assert a < Pow2(w) by {
      ReadValue(r, bytes);
    }
    j := ReadInteger(a, w);
    assert j % WORD == if a >= Pow2(w - 1) then HighMask(w) + a else a by {
      TwosComplementBits(j, w, w);
    }
  }

  /** The integer a signed read of `w` bits stands for: `a`, or `a - 2^w` when bit `w - 1` is set. */
  lemma ReadInteger(a: nat, w: nat) returns (j: int)
    requires 1 <= w <= 64 && a < Pow2(w)
    ensures InSignedRange(j, w)
    ensures j == if a >= Pow2(w - 1) then a - Pow2(w) else a
    ensures a >= Pow2(w - 1) ==> HighMask(w) + a == WORD - Pow2(w) + (j + Pow2(w))
  {
    assert Pow2(w) == 2 * Pow2(w - 1);
    j := if a >= Pow2(w - 1) then a - Pow2(w) else a;
  }

  /**
   * Of the values of a signed type that the setter accepts on such a field,
   * exactly those in the field's range read back: a value outside it is
   * truncated and cannot come back.
   */
  lemma SignedValueRoundTripIff(r: ValidRange, bytes: seq<UInt8>, x: Value)
    requires r.signed && WidthExact(r) && IsSigned(KindOf(x)) && BitCount(r) <= RawWidth(KindOf(x))
    requires WriteAllowed(r, EncodedWide(r, x))
    ensures DecodedValue(KindOf(x), Decoded(r, Written(r, bytes, Stripped(r, EncodedWide(r, x))))) == x <==>
      InSignedRange(IntegerOf(x), BitCount(r))
  {
    var written := Written(r, bytes, Stripped(r, EncodedWide(r, x)));
    WriteFrame(r, bytes, Stripped(r, EncodedWide(r, x)));
    if InSignedRange(IntegerOf(x), BitCount(r)) {
      SignedValueRoundTrip(r, bytes, x);
    } else {
      SignedReadInRange(r, written, KindOf(x));
    }
  }

  /** Unsigned round trip through the adapter: on an unsigned field a value whose raw value fits the field's bit count reads back. */
  lemma UnsignedValueRoundTrip(r: ValidRange, bytes: seq<UInt8>, x: Value)
    requires !r.signed && RawOf(x) < Pow2(BitCount(r))
    ensures DecodedValue(KindOf(x), Decoded(r, Written(r, bytes, Stripped(r, EncodedWide(r, x))))) == x
  {
    var raw := RawOf(x);
    UnsignedRoundTrip(r, bytes, raw);
    RawBoundIsPow2(KindOf(x));
    LowSmall(raw, RawWidth(KindOf(x)));
    FromRawOf(x);
  }

  /** On an unsigned field whose width is its bit count, the setter accepts a value exactly when its raw value fits that count. */
  lemma UnsignedValueAllowed(r: ValidRange, x: Value)
    requires !r.signed && WidthExact(r) && BitCount(r) <= 64
    ensures WriteAllowed(r, EncodedWide(r, x)) <==> RawOf(x) < Pow2(BitCount(r))
  {
    EncodedWidthValue(r);
    WriteAllowedIff(r, RawOf(x));
  }

  /**
   * An unsigned field read as a type that holds its bit count gives the
   * field's bits as an unsigned number, below `2^BitCount`.
   */
  lemma UnsignedRead(r: ValidRange, bytes: seq<UInt8>, t: Kind)
    requires !r.signed && MaxIndex(r) < |bytes| && t != BoolKind
    requires if IsSigned(t) then BitCount(r) < RawWidth(t) else BitCount(r) <= RawWidth(t)
    ensures IntegerOf(DecodedValue(t, Decoded(r, bytes))) == Decoded(r, bytes) < Pow2(BitCount(r))
  {
    var n, w, d := RawWidth(t), BitCount(r), Decoded(r, bytes);
    UnsignedReadBound(r, bytes);
    Pow2Below(w, n);
    RawBoundIsPow2(t);
    LowSmall(d, n);
    if IsSigned(t) {
      Pow2Below(w, n - 1);
      assert Pow2(n) == 2 * Pow2(n - 1);
      IntegerOfFromRaw(t, d);
    }
  }

  /** An unsigned field reads a word below `2^BitCount`. */
  lemma UnsignedReadBound(r: ValidRange, bytes: seq<UInt8>)
    requires !r.signed && BitCount(r) <= 64 && MaxIndex(r) < |bytes|
    ensures Decoded(r, bytes) < Pow2(BitCount(r))
  {
    AssembledBound(r, bytes, 0);
    BitsFromValue(r, 0);
  }

  /**
   * A typed field: its coder and the type of its values. This is what each
   * layout's `Position` property wrapper holds; its wrapped value is read and
   * written through `decodedValue`.
   */
  class Position {
    const coder: MultiByteCoder
    const kind: Kind

    constructor (coder: MultiByteCoder, kind: Kind)
      ensures this.coder == coder && this.kind == kind
    {
      this.coder := coder;
      this.kind := kind;
    }

    /** The getter of `decodedValue`. */
    method GetDecodedValue() returns (x: Value)
      requires MaxIndex(coder.range) < |coder.storage.bytes|
      ensures x == DecodedValue(kind, Decoded(coder.range, coder.storage.bytes))
    {
      var wide := coder.GetWideRepresentation();
      x := DecodedValue(kind, wide);
    }

    /** The setter of `decodedValue`: the coder's setter, given the padded and sign-extended raw value. */
    method SetDecodedValue(x: Value)
      requires KindOf(x) == kind
      requires WriteAllowed(coder.range, EncodedWide(coder.range, x))
      modifies coder.storage
      ensures coder.storage.bytes ==
        Written(coder.range, old(coder.storage.bytes), Stripped(coder.range, EncodedWide(coder.range, x)))
    {
      var zeroPadded := RawOf(x);
      RawBoundIsPow2(kind);
      Pow2Below(RawWidth(kind), 64);
      Pow2Word();
      var wide := ExtendingSign(coder.range, zeroPadded, RawWidth(kind));
      coder.SetWideRepresentation(wide);
    }
  }

  /**
   * What every layout's `Position.init` does once it has worked out the
   * coder's coordinates `r`: it makes a coder over the message under
   * construction, wraps it, and writes `initial` through it.
   */
  method NewPositionAt(builder: Builder, initial: Value, r: BitRange) returns (p: Position)
    requires Validate(r).Success? && WriteAllowed(r, EncodedWide(r, initial))
    modifies builder.current
    ensures fresh(p) && fresh(p.coder) && p.kind == KindOf(initial)
    ensures p.coder.range == r && p.coder.storage == builder.current
    ensures builder.current.bytes == Written(r, old(builder.current.bytes), Stripped(r, EncodedWide(r, initial)))
  {
    var storage := builder.StorageBuildInProgress();
    var made := MultiByteCoder.Make(r.significantByte, r.msb, r.minorByte, r.lsb, r.signed, storage, r.littleEndian);
    p := new Position(made.value, KindOf(initial));
    p.SetDecodedValue(initial);
  }
}
