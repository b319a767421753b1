/**
 * Unsigned machine words as bounded integers.
 *
 * Swift's `UInt` (64 bits) and `UInt8` are modelled as integer subset types,
 * and the shifts and masks the codec applies to them as three recursive
 * functions: `Shr` (`>>`), `Shl` (`<<`, without truncation) and `Low` (`&` with
 * a run of low ones). Every other bitwise operation the codec performs uses a
 * mask of a known shape and is written with these; a lemma next to each states
 * what it does to every single bit, `Bit(x, j)`.
 */
module Bits {

  /** 2^64: one more than the largest `UInt`. */
  const WORD: nat := 0x1_0000_0000_0000_0000
  /** 2^63: the most significant bit of a `UInt`. */
  const SIGN_BIT: nat := 0x8000_0000_0000_0000

  type UInt8 = x: int | 0 <= x < 0x100
  type UInt16 = x: int | 0 <= x < 0x1_0000
  type UInt = x: int | 0 <= x < WORD

  function Pow2(n: nat): (p: nat)
    ensures p >= 1
  {
    if n == 0 then 1 else 2 * Pow2(n - 1)
  }

  /** `x >> n`. */
  function Shr(x: nat, n: nat): nat
  {
    if n == 0 then x else Shr(x / 2, n - 1)
  }

  /** `x << n` on unbounded integers: nothing is shifted out. */
  function Shl(x: nat, n: nat): nat
  {
    if n == 0 then x else 2 * Shl(x, n - 1)
  }

  /** `x & ((1 << n) - 1)`: the low `n` bits of `x`. */
  function Low(x: nat, n: nat): nat
  {
    if n == 0 then 0 else 2 * Low(x / 2, n - 1) + x % 2
  }

  /** Bit `j` of `x`, counting from the least significant bit 0. */
  function Bit(x: nat, j: nat): nat
  {
    Shr(x, j) % 2
  }

  /** `UInt(1) << n` under Swift's smart shift: a negative amount shifts right and an amount of 64 or more shifts everything out. */
  function ShiftedOne(n: int): (r: UInt)
    ensures 0 <= n < 64 ==> r == Pow2(n)
    ensures n < 0 || n >= 64 ==> r == 0
  {
    if 0 <= n < 64 then Pow2Below(n, 63); Pow2Word(); Pow2(n) else 0
  }

  /** `x & (UInt(1) << n) != 0`: the mask is empty when `n` is out of range. */
  predicate TestBit(x: nat, n: int)
  {
    0 <= n < 64 && Bit(x, n) == 1
  }

  /** Bits `lo ..< lo + w` of `x` as a number: `(x >> lo) & mask` for the run of ones `mask` of width `w`. */
  function Field(x: nat, lo: nat, w: nat): (f: nat)
    ensures f < Pow2(w)
  {
    LowBound(Shr(x, lo), w);
    Low(Shr(x, lo), w)
  }

  /**
   * `x` with bits `lo ..< lo + w` replaced by the low `w` bits of `c`, which
   * `(x & ~(mask << lo)) | ((c & mask) << lo)` computes: the bits from
   * `lo + w` up and the bits below `lo` are those of `x`.
   */
  function Place(x: nat, lo: nat, w: nat, c: nat): nat
  {
    Shl(Shl(Shr(x, lo + w), w) + Low(c, w), lo) + Low(x, lo)
  }

  /** `~((UInt(1) << e) &- 1)`: the word whose bits `e ..< 64` are set and whose other bits are clear. */
  function HighMask(e: nat): UInt
    requires e <= 64
  {
    Pow2Below(e, 64); Pow2Word();
    WORD - Pow2(e)
  }

  /** `x & ~HighMask(e)`. */
  function KeepLow(x: UInt, e: nat): UInt
    requires e <= 64
  {
    LowBound(x, e); Pow2Below(e, 64); Pow2Word();
    Low(x, e)
  }

  /** `x | HighMask(e)`. */
  function FillHigh(x: UInt, e: nat): UInt
    requires e <= 64
  {
    LowBound(x, e);
    HighMask(e) + Low(x, e)
  }

  /** `x & HighMask(e) == HighMask(e)`. */
  predicate HasHigh(x: UInt, e: nat)
    requires e <= 64
  {
    x >= HighMask(e)
  }

  /** The quotient of `x.quotientAndRemainder(dividingBy: 8)`: Swift's division truncates toward zero. */
  function Quotient8(x: int): int
  {
    if x >= 0 then x / 8 else -((-x) / 8)
  }

  /** The remainder of `x.quotientAndRemainder(dividingBy: 8)`, which has the sign of `x`. */
  function Remainder8(x: int): (r: int)
    ensures x == 8 * Quotient8(x) + r && -8 < r < 8
    ensures x >= 0 ==> x / 8 == Quotient8(x) && 0 <= r
  {
    x - 8 * Quotient8(x)
  }

  // ---------------------------------------------------------------------------
  // Powers of two and plain arithmetic

  lemma {:induction false} Pow2Add(a: nat, b: nat)
    ensures Pow2(a + b) == Pow2(a) * Pow2(b)
  {
    if a > 0 {
      Pow2Add(a - 1, b);
    }
  }

  lemma Pow2Below(a: nat, b: nat)
    requires a <= b
    ensures Pow2(a) <= Pow2(b)
  {
    Pow2Add(a, b - a);
    MulLe(1, Pow2(b - a), Pow2(a));
  }

  lemma Pow2Byte()
    ensures Pow2(8) == 0x100
  {
  }

  lemma Pow2Half()
    ensures Pow2(16) == 0x1_0000
  {
    Pow2Byte();
    Pow2Add(8, 8);
  }

  lemma Pow2Quad()
    ensures Pow2(32) == 0x1_0000_0000
  {
    Pow2Half();
    Pow2Add(16, 16);
  }

  lemma Pow2Word()
    ensures Pow2(64) == WORD
    ensures Pow2(63) == SIGN_BIT
  {
    Pow2Quad();
    Pow2Add(32, 32);
  }

  lemma MulLe(a: nat, b: nat, c: nat)
    requires a <= b
    ensures a * c <= b * c
  {
  }

  lemma DivModUnique(x: int, d: int, q: int, r: int)
    requires d > 0 && 0 <= r < d && x == q * d + r
    ensures x / d == q && x % d == r
  {
    var q', r' := x / d, x % d;
    assert (q - q') * d == r' - r;
    if q' < q {
      MulLe(1, q - q', d);
    }
    if q < q' {
      MulLe(1, q' - q, d);
    }
  }

  lemma DivDiv(x: int, a: nat, b: nat)
    requires a > 0 && b > 0
    ensures x / a / b == x / (a * b)
    ensures x % (a * b) == x / a % b * a + x % a
  {
    var q, r := x / a, x % a;
    var q2, r2 := q / b, q % b;
    var ab := a * b;
    assert x == a * q + r;
    assert q == b * q2 + r2;
    assert a * q == ab * q2 + r2 * a by {
      assert a * (b * q2) == ab * q2;
    }
    assert r2 * a + r < ab by {
      MulLe(r2, b - 1, a);
      assert (b - 1) * a == ab - a;
    }
    DivModUnique(x, ab, q2, r2 * a + r);
  }

  // ---------------------------------------------------------------------------
  // Shifts and low bits

  lemma {:induction false} ShrZero(n: nat)
    ensures Shr(0, n) == 0
  {
    if n > 0 {
      ShrZero(n - 1);
    }
  }

  lemma {:induction false} ShlZero(n: nat)
    ensures Shl(0, n) == 0
  {
    if n > 0 {
      ShlZero(n - 1);
    }
  }

  lemma {:induction false} ShrLe(x: nat, n: nat)
    ensures Shr(x, n) <= x
  {
    if n > 0 {
      ShrLe(x / 2, n - 1);
    }
  }

  lemma {:induction false} ShrShr(x: nat, a: nat, b: nat)
    ensures Shr(Shr(x, a), b) == Shr(x, a + b)
  {
    if a > 0 {
      ShrShr(x / 2, a - 1, b);
    }
  }

  lemma {:induction false} LowLow(x: nat, m: nat, n: nat)
    requires m <= n
    ensures Low(Low(x, n), m) == Low(x, m)
  {
    if m > 0 {
      LowLow(x / 2, m - 1, n - 1);
    }
  }

  lemma {:induction false} LowBound(x: nat, n: nat)
    ensures Low(x, n) < Pow2(n)
  {
    if n > 0 {
      LowBound(x / 2, n - 1);
    }
  }

  lemma {:induction false} LowSmall(b: nat, n: nat)
    requires b < Pow2(n)
    ensures Low(b, n) == b
  {
    if n > 0 {
      LowSmall(b / 2, n - 1);
    }
  }

  lemma {:induction false} ShrSmall(b: nat, n: nat)
    requires b < Pow2(n)
    ensures Shr(b, n) == 0
  {
    if n > 0 {
      ShrSmall(b / 2, n - 1);
    }
  }

  lemma {:induction false} ShrBound(x: nat, m: nat, n: nat)
    requires x < Pow2(m + n)
    ensures Shr(x, n) < Pow2(m)
  {
    if n > 0 {
      ShrBound(x / 2, m, n - 1);
    }
  }

  lemma {:induction false} ShlAdd(a: nat, b: nat, n: nat)
    ensures Shl(a + b, n) == Shl(a, n) + Shl(b, n)
  {
    if n > 0 {
      ShlAdd(a, b, n - 1);
    }
  }

  /** Shifting right undoes shifting left, and what was below the shift falls out. */
  lemma {:induction false} ShrJoin(a: nat, b: nat, n: nat)
    ensures Shr(Shl(a, n) + b, n) == a + Shr(b, n)
  {
    if n > 0 {
      var s := Shl(a, n - 1);
      assert (Shl(a, n) + b) / 2 == s + b / 2 by {
        assert Shl(a, n) + b == 2 * (s + b / 2) + b % 2;
      }
      ShrJoin(a, b / 2, n - 1);
    }
  }

  /** The low bits of `(a << n) + b` are those of `b`. */
  lemma {:induction false} LowJoin(a: nat, b: nat, n: nat)
    ensures Low(Shl(a, n) + b, n) == Low(b, n)
  {
    if n > 0 {
      var s := Shl(a, n - 1);
      assert (Shl(a, n) + b) / 2 == s + b / 2 && (Shl(a, n) + b) % 2 == b % 2 by {
        assert Shl(a, n) + b == 2 * (s + b / 2) + b % 2;
      }
      LowJoin(a, b / 2, n - 1);
    }
  }

  /** A word is its high part shifted back up, plus its low part. */
  lemma {:induction false} Split(x: nat, n: nat)
    ensures Shl(Shr(x, n), n) + Low(x, n) == x
  {
    if n > 0 {
      Split(x / 2, n - 1);
    }
  }

  lemma {:induction false} JoinBound(a: nat, b: nat, m: nat, n: nat)
    requires a < Pow2(m) && b < Pow2(n)
    ensures Shl(a, n) + b < Pow2(m + n)
  {
    if n > 0 {
      JoinBound(a, b / 2, m, n - 1);
    }
  }

  /** Truncating a left shift to `n` bits truncates the shifted word to `n - w` bits. */
  lemma {:induction false} LowOfShl(a: nat, w: nat, n: nat)
    requires w <= n
    ensures Low(Shl(a, w), n) == Shl(Low(a, n - w), w)
  {
    if w > 0 {
      LowOfShl(a, w - 1, n - 1);
    }
  }

  lemma {:induction false} LowMod(x: nat, n: nat)
    ensures Low(x, n) == x % Pow2(n)
  {
    if n > 0 {
      LowMod(x / 2, n - 1);
      DivDiv(x, 2, Pow2(n - 1));
    }
  }

  lemma {:induction false} ShlMul(x: nat, n: nat)
    ensures Shl(x, n) == x * Pow2(n)
  {
    if n > 0 {
      ShlMul(x, n - 1);
    }
  }

  /** Truncating to a byte and then to `w <= 8` bits is truncating to `w` bits. */
  lemma TruncateByte(x: nat, w: nat)
    requires w <= 8
    ensures Low(x % 0x100, w) == Low(x, w)
  {
    LowMod(x, 8);
    Pow2Byte();
    LowLow(x, w, 8);
  }

  // ---------------------------------------------------------------------------
  // Single bits

  /** Bit `j` of `(a << n) + (b & low n ones)` comes from `b` below `n` and from `a` above. */
  lemma {:induction false} BitOfJoin(a: nat, b: nat, n: nat, j: nat)
    ensures Bit(Shl(a, n) + Low(b, n), j) == if j < n then Bit(b, j) else Bit(a, j - n)
  {
    if n > 0 && j > 0 {
      BitOfJoin(a, b / 2, n - 1, j - 1);
    }
  }

  /** Bit `j` at or above `lo` of `x` is bit `j - lo` of `x >> lo`. */
  lemma {:induction false} BitShifted(x: nat, lo: nat, j: nat)
    requires lo <= j
    ensures Bit(x, j) == Bit(Shr(x, lo), j - lo)
  {
    if lo > 0 {
      BitShifted(x / 2, lo - 1, j - 1);
    }
  }

  /** The low `e` bits of `x` keep every bit of `x` below `e` and have no bit from `e` up. */
  lemma BitMasked(x: nat, e: nat, j: nat)
    ensures Bit(Low(x, e), j) == if j < e then Bit(x, j) else 0
  {
    ShlZero(e);
    BitOfJoin(0, x, e, j);
    if j >= e {
      ShrZero(j - e);
    }
  }

  /** Every bit below `m` of `2^m - 1` is set. */
  lemma {:induction false} BitOfOnes(m: nat, t: nat)
    requires t < m
    ensures Bit(Pow2(m) - 1, t) == 1
  {
    var half := Pow2(m - 1);
    assert Pow2(m) - 1 == 2 * (half - 1) + 1;
    DivModUnique(Pow2(m) - 1, 2, half - 1, 1);
    if t > 0 {
      BitOfOnes(m - 1, t - 1);
    }
  }

  /** A number below `2^m - 1` has a clear bit below `m`. */
  lemma {:induction false} ClearBitBelow(k: nat, m: nat) returns (t: nat)
    requires k < Pow2(m) - 1
    ensures t < m && Bit(k, t) == 0
  {
    if k % 2 == 0 {
      t := 0;
    } else {
      var t' := ClearBitBelow(k / 2, m - 1);
      t := t' + 1;
    }
  }

  /** Bit `t` of a field is the bit `lo + t` it was read from, and the field has no bits from `w` up. */
  lemma BitOfField(x: nat, lo: nat, w: nat, t: nat)
    ensures Bit(Field(x, lo, w), t) == if t < w then Bit(x, lo + t) else 0
  {
    BitMasked(Shr(x, lo), w, t);
    BitShifted(x, lo, lo + t);
  }

  /** `Place` writes the field from `c` and leaves every other bit of `x` as it was. */
  lemma BitOfPlace(x: nat, lo: nat, w: nat, c: nat, j: nat)
    ensures Bit(Place(x, lo, w, c), j) == if lo <= j < lo + w then Bit(c, j - lo) else Bit(x, j)
  {
    var h := Shr(x, lo + w);
    var inner := Shl(h, w) + Low(c, w);
    BitOfJoin(inner, x, lo, j);
    if lo <= j {
      BitOfJoin(h, c, w, j - lo);
      if lo + w <= j {
        BitShifted(x, lo + w, j);
      }
    }
  }

  /** `Place` changes nothing above and nothing below the field, and the field then reads back the low bits of `c`. */
  lemma PlaceParts(x: nat, lo: nat, w: nat, c: nat)
    ensures Shr(Place(x, lo, w, c), lo + w) == Shr(x, lo + w)
    ensures Low(Place(x, lo, w, c), lo) == Low(x, lo)
    ensures Field(Place(x, lo, w, c), lo, w) == Low(c, w)
  {
    var h := Shr(x, lo + w);
    var inner := Shl(h, w) + Low(c, w);
    var p := Place(x, lo, w, c);
    LowJoin(inner, Low(x, lo), lo);
    LowLow(x, lo, lo);
    LowBound(x, lo);
    ShrSmall(Low(x, lo), lo);
    ShrJoin(inner, Low(x, lo), lo);
    assert Shr(p, lo) == inner;
    LowJoin(h, Low(c, w), w);
    LowLow(c, w, w);
    LowBound(c, w);
    ShrSmall(Low(c, w), w);
    ShrJoin(h, Low(c, w), w);
    ShrShr(p, lo, w);
  }

  /** Writing back the field just read leaves `x` as it was. */
  lemma PlaceField(x: nat, lo: nat, w: nat)
    ensures Place(x, lo, w, Field(x, lo, w)) == x
  {
    var s := Shr(x, lo);
    LowLow(s, w, w);
    ShrShr(x, lo, w);
    Split(s, w);
    Split(x, lo);
  }

  /** `Place` uses only the low `w` bits of what it writes. */
  lemma PlaceLow(x: nat, lo: nat, w: nat, c: nat, d: nat)
    requires Low(c, w) == Low(d, w)
    ensures Place(x, lo, w, c) == Place(x, lo, w, d)
  {
  }

  /** A field placed inside a byte leaves a byte. */
  lemma PlaceInByte(x: nat, lo: nat, w: nat, c: nat)
    requires x < 0x100 && lo + w <= 8
    ensures Place(x, lo, w, c) < 0x100
  {
    Pow2Byte();
    var k: nat := 8 - lo - w;
    var h, l, m := Shr(x, lo + w), Low(c, w), Low(x, lo);
    assert x < Pow2(k + (lo + w));
    assert h < Pow2(k) by {
      ShrBound(x, k, lo + w);
    }
    assert l < Pow2(w) by {
      LowBound(c, w);
    }
    var s := Shl(h, w) + l;
    assert s < Pow2(k + w) by {
      JoinBound(h, l, k, w);
    }
    assert m < Pow2(lo) by {
      LowBound(x, lo);
    }
    JoinBound(s, m, k + w, lo);
    assert k + w + lo == 8;
  }

  // ---------------------------------------------------------------------------
  // High masks

  lemma HighMaskShape(e: nat)
    requires e <= 64
    ensures HighMask(e) == Shl(Pow2(64 - e) - 1, e)
  {
    Pow2Word();
    Pow2Add(64 - e, e);
    ShlMul(Pow2(64 - e) - 1, e);
    assert (Pow2(64 - e) - 1) * Pow2(e) == Pow2(64 - e) * Pow2(e) - Pow2(e);
  }

  lemma BitOfFillHigh(x: UInt, e: nat, j: nat)
    requires e <= 64 && j < 64
    ensures Bit(FillHigh(x, e), j) == if j >= e then 1 else Bit(x, j)
  {
    HighMaskShape(e);
    BitOfJoin(Pow2(64 - e) - 1, x, e, j);
    if j >= e {
      BitOfOnes(64 - e, j - e);
    }
  }

  lemma BitOfHighMask(e: nat, j: nat)
    requires e <= 64 && j < 64
    ensures Bit(HighMask(e), j) == if j >= e then 1 else 0
  {
    LowSmall(0, e);
    assert FillHigh(0, e) == HighMask(e);
    BitOfFillHigh(0, e, j);
    ShrZero(j);
  }

  lemma BitOfKeepLow(x: UInt, e: nat, j: nat)
    requires e <= 64
    ensures Bit(KeepLow(x, e), j) == if j < e then Bit(x, j) else 0
  {
    BitMasked(x, e, j);
  }

  /** `HasHigh(x, e)` holds exactly when every bit of `x` from `e` up to 63 is set. */
  lemma HasHighBits(x: UInt, e: nat)
    requires e <= 64
    ensures HasHigh(x, e) <==> forall j :: e <= j < 64 ==> Bit(x, j) == 1
  {
    var m := 64 - e;
    var q := Shr(x, e);
    Pow2Word();
    ShrBound(x, m, e);
    HasHighQuotient(x, e);
    if q == Pow2(m) - 1 {
      forall j | e <= j < 64
        ensures Bit(x, j) == 1
      {
        BitShifted(x, e, j);
        BitOfOnes(m, j - e);
      }
    } else {
      var t := ClearBitBelow(q, m);
      BitShifted(x, e, e + t);
    }
  }

  /** The high mask is contained in `x` exactly when the part of `x` from `e` up is all ones. */
  lemma HasHighQuotient(x: UInt, e: nat)
    requires e <= 64
    ensures HasHigh(x, e) <==> Shr(x, e) == Pow2(64 - e) - 1
  {
    var m := 64 - e;
    var q := Shr(x, e);
    Pow2Word();
    ShrBound(x, m, e);
    Split(x, e);
    LowBound(x, e);
    HighMaskShape(e);
    if q < Pow2(m) - 1 {
      ShlStep(q, Pow2(m) - 1, e);
    }
  }

  /** Left shifts keep the order of their operands, with a gap of at least `2^n`. */
  lemma {:induction false} ShlStep(a: nat, b: nat, n: nat)
    requires a < b
    ensures Shl(a, n) + Pow2(n) <= Shl(b, n)
  {
    if n > 0 {
      ShlStep(a, b, n - 1);
    }
  }

  /** Below `2^w`, bit `w - 1` is set exactly from `2^(w - 1)` up. */
  lemma TopBitOf(x: nat, w: nat)
    requires 1 <= w && x < Pow2(w)
    ensures Bit(x, w - 1) == 1 <==> x >= Pow2(w - 1)
  {
    var q, p, l := Shr(x, w - 1), Pow2(w - 1), Low(x, w - 1);
    ShrBound(x, 1, w - 1);
    Split(x, w - 1);
    LowBound(x, w - 1);
    ShlMul(q, w - 1);
    assert Bit(x, w - 1) == q % 2;
    TopDigit(x, q, p, l);
  }

  /** A two-valued top digit `q` of `x = q * p + l` with `l < p` is 1 exactly when `x >= p`. */
  lemma TopDigit(x: int, q: int, p: int, l: int)
    requires x == q * p + l && 0 <= l < p && 0 <= q < 2
    ensures q % 2 == 1 <==> x >= p
  {
    if q == 0 {
      assert x == l;
    } else {
      assert x == p + l;
    }
  }

  /** Reducing modulo `2^n` first does not change the remainder modulo a smaller power `2^m`. */
  lemma ModPow2Mod(i: int, m: nat, n: nat)
    requires m <= n
    ensures (i % Pow2(n)) % Pow2(m) == i % Pow2(m)
  {
    Pow2Add(n - m, m);
    ModMod(i, Pow2(m), Pow2(n - m));
  }

  lemma ModMod(i: int, p: int, q: int)
    requires p > 0 && q > 0
    ensures (i % (q * p)) % p == i % p
  {
    var n := q * p;
    var q1, r1 := i / n, i % n;
    var q2, r2 := r1 / p, r1 % p;
    assert i == q1 * n + r1;
    assert r1 == q2 * p + r2;
    assert q1 * n == (q1 * q) * p;
    assert i == (q1 * q + q2) * p + r2;
    DivModUnique(i, p, q1 * q + q2, r2);
  }

  /** The most significant bit of a word is set exactly when the word is at least 2^63. */
  lemma TopBit(x: UInt)
    ensures TestBit(x, 63) <==> x >= SIGN_BIT
  {
    Pow2Word();
    TopBitOf(x, 64);
  }

  /** A word containing the high mask from `e` up is that mask plus its own low `e` bits. */
  lemma HighPart(x: UInt, e: nat)
    requires e <= 64 && HasHigh(x, e)
    ensures x == HighMask(e) + Low(x, e)
  {
    HasHighQuotient(x, e);
    Split(x, e);
    HighMaskShape(e);
  }

  /** Shifting a word left by `w`, dropping what leaves the word, and adding `c < 2^w` stays a word. */
  lemma ShiftInBound(a: nat, w: nat, c: nat)
    requires w <= 64 && c < Pow2(w)
    ensures Shl(a, w) % WORD + c < WORD
  {
    Pow2Word();
    LowMod(Shl(a, w), 64);
    LowOfShl(a, w, 64);
    LowBound(a, 64 - w);
    JoinBound(Low(a, 64 - w), c, 64 - w, w);
  }

  // ---------------------------------------------------------------------------
  // Evaluation on numbers

  /**
   * `Place` worked out from its parts, each given as a number: the verifier
   * then evaluates each shift on literal arguments alone.
   */
  lemma PlaceByParts(x: nat, lo: nat, w: nat, c: nat, n: nat, h: nat, s: nat, l: nat, u: nat, t: nat, m: nat)
    requires n == lo + w && Shr(x, n) == h && Shl(h, w) == s && Low(c, w) == l
    requires u == s + l && Shl(u, lo) == t && Low(x, lo) == m
    ensures Place(x, lo, w, c) == t + m
  {
  }

  /** `Field` worked out from the shifted byte `s`, given as a number. */
  lemma FieldByParts(x: nat, lo: nat, w: nat, s: nat, f: nat)
    requires Shr(x, lo) == s && Low(s, w) == f
    ensures Field(x, lo, w) == f
  {
  }

  /**
   * `Place(x, lo, w, c)` is `b`, with its intermediate values given as
   * numbers: `h` the bits above the field, `s` those bits shifted back over
   * the field, `l` the value cut to the field's width, `t` the two shifted up
   * to the field's offset, and `m` the bits below the field.
   */
  predicate PlacedBy(x: nat, lo: nat, w: nat, c: nat, h: nat, s: nat, l: nat, t: nat, m: nat, b: nat)
  {
    Shr(x, lo + w) == h && Shl(h, w) == s && Low(c, w) == l && Shl(s + l, lo) == t && Low(x, lo) == m && b == t + m
  }

  lemma PlaceBySteps(x: nat, lo: nat, w: nat, c: nat, h: nat, s: nat, l: nat, t: nat, m: nat, b: nat)
    requires PlacedBy(x, lo, w, c, h, s, l, t, m, b)
    ensures Place(x, lo, w, c) == b
  {
    PlaceByParts(x, lo, w, c, lo + w, h, s, l, s + l, t, m);
  }
}
