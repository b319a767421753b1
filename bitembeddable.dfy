/**
 * The value types a field can hold, each with its raw value: a fixed-width
 * unsigned integer that the field stores, and the conversion back from it.
 * Signed integers are stored as their two's-complement bit patterns, and
 * `Bool` as 1 or 0.
 */
module Embedding {
  import opened Bits
  import opened Wrappers

  type Int8 = x: int | -0x80 <= x < 0x80
  type Int16 = x: int | -0x8000 <= x < 0x8000
  /** Swift's `Int`, 64 bits wide. */
  type Int64 = x: int | -0x8000_0000_0000_0000 <= x < 0x8000_0000_0000_0000

  // ---------------------------------------------------------------------------
  // One conversion pair per type

  /** `UInt(truncatingIfNeeded: x)`: the word congruent to `x` modulo 2^64. */
  function IntRaw(x: Int64): (r: UInt)
    ensures (r - x) % WORD == 0
    ensures r < SIGN_BIT <==> x >= 0
  {
    if x < 0 then x + WORD else x
  }

  /** `Int(truncatingIfNeeded: raw)`: the integer of 64-bit two's complement whose bit pattern is `raw`. */
  function IntFromRaw(raw: UInt): (r: Option<Int64>)
    ensures r.Some? && (r.value - raw) % WORD == 0
    ensures r.value >= 0 <==> raw < SIGN_BIT
  {
    Some(if raw < SIGN_BIT then raw else raw - WORD)
  }

  function BoolRaw(b: bool): (r: UInt8)
    ensures r <= 1 && (r == 1 <==> b)
  {
    if b then 1 else 0
  }

  /** `rawValue == 1`: never fails, and every raw value other than 1 is `false`. */
  function BoolFromRaw(raw: UInt8): (r: Option<bool>)
    ensures r.Some? && (r.value <==> raw == 1)
  {
    Some(raw == 1)
  }

  function UInt8Raw(x: UInt8): (r: UInt8)
    ensures r == x
  {
    x
  }

  function UInt8FromRaw(raw: UInt8): (r: Option<UInt8>)
    ensures r == Some(raw)
  {
    Some(raw)
  }

  /** `UInt8(bitPattern: x)`. */
  function Int8Raw(x: Int8): (r: UInt8)
    ensures (r - x) % 0x100 == 0
    ensures r < 0x80 <==> x >= 0
  {
    if x < 0 then x + 0x100 else x
  }

  /** `Int8(bitPattern: raw)`. */
  function Int8FromRaw(raw: UInt8): (r: Option<Int8>)
    ensures r.Some? && (r.value - raw) % 0x100 == 0
    ensures r.value >= 0 <==> raw < 0x80
  {
    Some(if raw < 0x80 then raw else raw - 0x100)
  }

  function UInt16Raw(x: UInt16): (r: UInt16)
    ensures r == x
  {
    x
  }

  function UInt16FromRaw(raw: UInt16): (r: Option<UInt16>)
    ensures r == Some(raw)
  {
    Some(raw)
  }

  /** `UInt16(truncatingIfNeeded: x)`. */
  function Int16Raw(x: Int16): (r: UInt16)
    ensures (r - x) % 0x1_0000 == 0
    ensures r < 0x8000 <==> x >= 0
  {
    if x < 0 then x + 0x1_0000 else x
  }

  /** `Int16(truncatingIfNeeded: raw)`. */
  function Int16FromRaw(raw: UInt16): (r: Option<Int16>)
    ensures r.Some? && (r.value - raw) % 0x1_0000 == 0
    ensures r.value >= 0 <==> raw < 0x8000
  {
    Some(if raw < 0x8000 then raw else raw - 0x1_0000)
  }

  /** The signed conversions are mutual inverses: a value survives its raw value, and a raw value survives the value made of it. */
  lemma IntRoundTrips(x: Int64, raw: UInt)
    ensures IntFromRaw(IntRaw(x)) == Some(x)
    ensures IntRaw(IntFromRaw(raw).value) == raw
  {
  }

  lemma Int8RoundTrips(x: Int8, raw: UInt8)
    ensures Int8FromRaw(Int8Raw(x)) == Some(x)
    ensures Int8Raw(Int8FromRaw(raw).value) == raw
  {
  }

  lemma Int16RoundTrips(x: Int16, raw: UInt16)
    ensures Int16FromRaw(Int16Raw(x)) == Some(x)
    ensures Int16Raw(Int16FromRaw(raw).value) == raw
  {
  }

  /** `Bool` survives its raw value; a raw value survives only when it is 0 or 1, and any other reads back as 0. */
  lemma BoolRoundTrips(b: bool, raw: UInt8)
    ensures BoolFromRaw(BoolRaw(b)) == Some(b)
    ensures BoolRaw(BoolFromRaw(raw).value) == if raw == 1 then 1 else 0
  {
  }

  // ---------------------------------------------------------------------------
  // The types together

  /** The built-in `BitEmbeddable` types. */
  datatype Kind = IntKind | BoolKind | UInt8Kind | Int8Kind | UInt16Kind | Int16Kind

  /** A value of one of them. */
  datatype Value =
    | IntValue(i: Int64)
    | BoolValue(b: bool)
    | UInt8Value(u8: UInt8)
    | Int8Value(i8: Int8)
    | UInt16Value(u16: UInt16)
    | Int16Value(i16: Int16)

  function KindOf(x: Value): Kind
  {
    match x
    case IntValue(_) => IntKind
    case BoolValue(_) => BoolKind
    case UInt8Value(_) => UInt8Kind
    case Int8Value(_) => Int8Kind
    case UInt16Value(_) => UInt16Kind
    case Int16Value(_) => Int16Kind
  }

  /** `RawValue.bitWidth`: `UInt` for `Int`, `UInt8` for the 8-bit types and `Bool`, `UInt16` for the 16-bit ones. */
  function RawWidth(t: Kind): nat
  {
    match t
    case IntKind => 64
    case BoolKind | UInt8Kind | Int8Kind => 8
    case UInt16Kind | Int16Kind => 16
  }

  /** One past the largest raw value of `t`. */
  function RawBound(t: Kind): nat
  {
    match t
    case IntKind => WORD
    case BoolKind | UInt8Kind | Int8Kind => 0x100
    case UInt16Kind | Int16Kind => 0x1_0000
  }

  lemma RawBoundIsPow2(t: Kind)
    ensures RawBound(t) == Pow2(RawWidth(t))
  {
    Pow2Byte(); Pow2Quad(); Pow2Word();
  }

  predicate IsSigned(t: Kind)
  {
    t == IntKind || t == Int8Kind || t == Int16Kind
  }

  /** The integer a value stands for; `true` is 1. */
  function IntegerOf(x: Value): int
  {
    match x
    case IntValue(i) => i
    case BoolValue(b) => if b then 1 else 0
    case UInt8Value(u) => u
    case Int8Value(i) => i
    case UInt16Value(u) => u
    case Int16Value(i) => i
  }

  /** `rawValue`, as a number below `2^RawWidth`. */
  function RawOf(x: Value): (r: nat)
    ensures r < RawBound(KindOf(x))
    ensures r == IntegerOf(x) % RawBound(KindOf(x))
  {
    match x
    case IntValue(i) => IntRaw(i)
    case BoolValue(b) => BoolRaw(b)
    case UInt8Value(u) => UInt8Raw(u)
    case Int8Value(i) => Int8Raw(i)
    case UInt16Value(u) => UInt16Raw(u)
    case Int16Value(i) => Int16Raw(i)
  }

  /** `T(rawValue:)` for the type `t`; it never fails. */
  function FromRaw(t: Kind, raw: nat): (r: Option<Value>)
    requires raw < RawBound(t)
    ensures r.Some? && KindOf(r.value) == t
  {
    match t
    case IntKind => Some(IntValue(IntFromRaw(raw).value))
    case BoolKind => Some(BoolValue(BoolFromRaw(raw).value))
    case UInt8Kind => Some(UInt8Value(UInt8FromRaw(raw).value))
    case Int8Kind => Some(Int8Value(Int8FromRaw(raw).value))
    case UInt16Kind => Some(UInt16Value(UInt16FromRaw(raw).value))
    case Int16Kind => Some(Int16Value(Int16FromRaw(raw).value))
  }

  /** Every value survives its raw value. */
  lemma FromRawOf(x: Value)
    ensures FromRaw(KindOf(x), RawOf(x)) == Some(x)
  {
  }

  /** Every raw value survives the value made of it, except the raw values of `Bool` above 1. */
  lemma RawOfFromRaw(t: Kind, raw: nat)
    requires raw < RawBound(t)
    ensures RawOf(FromRaw(t, raw).value) == raw <==> t != BoolKind || raw <= 1
  {
  }

  /** A signed type reads a raw value as two's complement: the raw values from half the bound up are negative. */
  lemma IntegerOfFromRaw(t: Kind, raw: nat)
    requires IsSigned(t) && raw < RawBound(t)
    ensures IntegerOf(FromRaw(t, raw).value) == if raw < RawBound(t) / 2 then raw else raw - RawBound(t)
  {
  }

  /** A value is fixed by its type and the integer it stands for. */
  lemma SameValue(x: Value, y: Value)
    requires KindOf(x) == KindOf(y) && IntegerOf(x) == IntegerOf(y)
    ensures x == y
  {
  }
}
