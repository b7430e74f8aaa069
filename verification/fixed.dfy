/** The Q16.16 fixed-point scalar `fx` (src/render/Fixed.hpp): a 32-bit raw value
    whose real meaning is raw / 65536. Sums and differences are plain 32-bit
    operations; products and quotients go through a 64-bit intermediate and
    an `(int32_t)` conversion back. The conversion is a two's-complement wrap
    (C++20, and GCC before it). A sum or difference that overflows is
    undefined behaviour in C++; the model gives it the same wrap. */
module Fixed {
  import opened Ints

  const SHIFT: nat := 16
  const ONE_RAW: int := 0x1_0000

  datatype Fx = Fx(raw: int)
  {
    predicate Valid() { IsInt32(raw) }
  }

  /** `fx::fromInt`: `i << 16`, which stays inside 32 bits exactly for 16-bit `i`. */
  function FromInt(i: int): (r: Fx)
    requires IsInt16(i)
    ensures r.Valid()
    ensures r.raw / ONE_RAW == i && r.raw % ONE_RAW == 0
  {
    Fx(i * ONE_RAW)
  }

  /** `fx::toInt`: arithmetic shift right by 16, i.e. the floor of the real value. */
  function ToInt(a: Fx): (r: int)
    requires a.Valid()
    ensures IsInt16(r)
    ensures r * ONE_RAW <= a.raw < (r + 1) * ONE_RAW
  {
    Shr16(a.raw)
  }

  function Add(a: Fx, b: Fx): (r: Fx)
    requires a.Valid() && b.Valid()
    ensures r.Valid()
    ensures IsInt32(a.raw + b.raw) ==> r.raw == a.raw + b.raw
  {
    Fx(Wrap32(a.raw + b.raw))
  }

  function Sub(a: Fx, b: Fx): (r: Fx)
    requires a.Valid() && b.Valid()
    ensures r.Valid()
    ensures IsInt32(a.raw - b.raw) ==> r.raw == a.raw - b.raw
  {
    Fx(Wrap32(a.raw - b.raw))
  }

  /** In the model, sums and differences are exact modulo 2^32: an overflow,
      which C++ leaves undefined, wraps around. */
  lemma AddSubWrap(a: Fx, b: Fx)
    requires a.Valid() && b.Valid()
    ensures (Add(a, b).raw - (a.raw + b.raw)) % TWO_32 == 0
    ensures (Sub(a, b).raw - (a.raw - b.raw)) % TWO_32 == 0
  {
    Wrap32Congruent(a.raw + b.raw);
    Wrap32Congruent(a.raw - b.raw);
  }

  function Neg(a: Fx): (r: Fx)
    requires a.Valid()
    ensures r.Valid()
    ensures IsInt32(-a.raw) ==> r.raw == -a.raw
  {
    Fx(Wrap32(-a.raw))
  }

  /** `operator*`: the 64-bit product (which never overflows) shifted right by 16,
      then narrowed to 32 bits. */
  function Mul(a: Fx, b: Fx): (r: Fx)
    requires a.Valid() && b.Valid()
    ensures r.Valid()
  {
    Fx(Wrap32(Shr16(a.raw * b.raw)))
  }

  /** `operator/`: the dividend widened to 64 bits and shifted left by 16, then a
      C++ division (truncating toward zero), then narrowed to 32 bits. Division by
      a zero raw value is undefined in the source, so it is excluded here. */
  function Div(a: Fx, b: Fx): (r: Fx)
    requires a.Valid() && b.Valid()
    requires b.raw != 0
    ensures r.Valid()
  {
    Fx(Wrap32(TruncDiv(a.raw * ONE_RAW, b.raw)))
  }

  /** When the shifted product fits 32 bits, the product's real value is
      rounded down to the nearest 1/65536. */
  lemma MulRoundsDown(a: Fx, b: Fx)
    requires a.Valid() && b.Valid()
    requires IsInt32(Shr16(a.raw * b.raw))
    ensures Mul(a, b).raw * ONE_RAW <= a.raw * b.raw < (Mul(a, b).raw + 1) * ONE_RAW
  {
  }

  /** When the quotient fits 32 bits, it is the quotient's real value rounded
      toward zero to a multiple of 1/65536: its magnitude times the divisor's
      stays within one divisor below the dividend's magnitude, and a non-zero
      result has the sign of the exact quotient. */
  lemma DivRoundsTowardZero(a: Fx, b: Fx)
    requires a.Valid() && b.Valid() && b.raw != 0
    requires IsInt32(TruncDiv(a.raw * ONE_RAW, b.raw))
    ensures var r := Div(a, b).raw;
      && Abs(r * b.raw) <= Abs(a.raw * ONE_RAW) < Abs(r * b.raw) + Abs(b.raw)
      && (r == 0 || (r > 0 <==> ((a.raw > 0) == (b.raw > 0))))
  {
    TruncDivRounds(a.raw * ONE_RAW, b.raw);
  }

  // ---------------------------------------------------------------------------
  // Algebraic facts about the operations

  lemma ToIntFromInt(i: int)
    requires IsInt16(i)
    ensures ToInt(FromInt(i)) == i
  {
    DivUnique(i * ONE_RAW, ONE_RAW, i, 0);
  }

  /** `toInt` rounds toward minus infinity: a value just below zero reads as -1. */
  lemma ToIntRoundsDown()
    ensures ToInt(Fx(-1)) == -1
    ensures ToInt(Fx(-ONE_RAW - ONE_RAW / 2)) == -2
    ensures ToInt(Fx(ONE_RAW + ONE_RAW / 2)) == 1
  {
  }

  lemma FromIntAdd(a: int, b: int)
    requires IsInt16(a) && IsInt16(b) && IsInt16(a + b)
    ensures Add(FromInt(a), FromInt(b)) == FromInt(a + b)
  {
    assert a * ONE_RAW + b * ONE_RAW == (a + b) * ONE_RAW;
  }

  lemma AddSubCancel(a: Fx, b: Fx)
    requires a.Valid() && b.Valid()
    requires IsInt32(a.raw + b.raw)
    ensures Sub(Add(a, b), b) == a
  {
  }

  lemma MulOne(a: Fx)
    requires a.Valid()
    ensures Mul(a, FromInt(1)) == a
  {
    DivUnique(a.raw * ONE_RAW, ONE_RAW, a.raw, 0);
  }

  lemma MulZero(a: Fx)
    requires a.Valid()
    ensures Mul(a, FromInt(0)) == FromInt(0)
    ensures Mul(FromInt(0), a) == FromInt(0)
  {
  }

  lemma DivOne(a: Fx)
    requires a.Valid()
    ensures Div(a, FromInt(1)) == a
  {
    var n := a.raw * ONE_RAW;
    var q := TruncDiv(n, ONE_RAW);
    if a.raw >= 0 {
      DivUnique(n, ONE_RAW, a.raw, 0);
    } else {
      assert Abs(n) == (-a.raw) * ONE_RAW;
      DivUnique(Abs(n), ONE_RAW, -a.raw, 0);
    }
  }

  /** On whole numbers whose product fits, the fixed-point product is exact. */
  lemma MulFromInt(a: int, b: int)
    requires IsInt16(a) && IsInt16(b) && IsInt16(a * b)
    ensures Mul(FromInt(a), FromInt(b)) == FromInt(a * b)
  {
    var p := (a * ONE_RAW) * (b * ONE_RAW);
    assert p == ONE_RAW * ((a * b) * ONE_RAW) + 0;
    DivUnique(p, ONE_RAW, (a * b) * ONE_RAW, 0);
  }

  /** On whole numbers with an exact positive divisor, the fixed-point quotient
      is the whole quotient. */
  lemma DivFromIntExact(a: int, d: int)
    requires IsInt16(a) && IsInt16(d) && d > 0 && a % d == 0
    ensures Div(FromInt(a), FromInt(d)) == FromInt(a / d)
  {
    var k := a / d;
    assert a == d * k;
    assert IsInt16(k) by { KnownBound(a, d, k); }
    var n := (a * ONE_RAW) * ONE_RAW;
    assert n == ((k * ONE_RAW) * (d * ONE_RAW));
    TruncDivExact(n, d * ONE_RAW, k * ONE_RAW);
  }

  lemma KnownBound(a: int, d: int, k: int)
    requires IsInt16(a) && d > 0 && a == d * k
    ensures IsInt16(k)
  {
    if k > 0 {
      assert d * k >= k;
    } else if k < 0 {
      assert d * k <= k;
    }
  }

  /** The quotient truncates toward zero: -1/65536 divided by 2 is 0, where a
      flooring division would give -1/65536. */
  lemma DivTruncatesTowardZero()
    ensures Div(Fx(-1), FromInt(2)) == Fx(0)
    ensures Div(Fx(-3), FromInt(2)) == Fx(-1)
    ensures Div(Fx(3), FromInt(-2)) == Fx(-1)
  {
  }
}
