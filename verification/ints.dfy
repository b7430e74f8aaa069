/** Machine-integer widths and the C/C++ integer operations the firmware relies on,
    written out over Dafny's unbounded `int`. */
module Ints {

  type byte = x: int | 0 <= x < 0x100
  type u16 = x: int | 0 <= x < 0x1_0000
  type i16 = x: int | -0x8000 <= x < 0x8000

  const TWO_15: int := 0x8000
  const TWO_16: int := 0x1_0000
  const TWO_31: int := 0x8000_0000
  const TWO_32: int := 0x1_0000_0000

  predicate IsInt16(v: int) { -TWO_15 <= v < TWO_15 }
  predicate IsInt32(v: int) { -TWO_31 <= v < TWO_31 }

  /** Two's-complement narrowing to 32 bits, as `(int32_t)v` does on the target. */
  function Wrap32(v: int): (r: int)
    ensures IsInt32(r)
    ensures IsInt32(v) ==> r == v
  {
    (v + TWO_31) % TWO_32 - TWO_31
  }

  /** The 32-bit narrowing differs from its argument by a multiple of 2^32. */
  lemma Wrap32Congruent(v: int)
    ensures (v - Wrap32(v)) % TWO_32 == 0
  {
    var k := (v + TWO_31) / TWO_32;
    assert v - Wrap32(v) == TWO_32 * k;
  }

  /** Two's-complement narrowing to 16 bits, as `(int16_t)v` does on the target. */
  function Wrap16(v: int): (r: int)
    ensures IsInt16(r)
    ensures IsInt16(v) ==> r == v
  {
    (v + TWO_15) % TWO_16 - TWO_15
  }

  /** The 16-bit narrowing differs from its argument by a multiple of 2^16. */
  lemma Wrap16Congruent(v: int)
    ensures (v - Wrap16(v)) % TWO_16 == 0
  {
    var k := (v + TWO_15) / TWO_16;
    assert v - Wrap16(v) == TWO_16 * k;
  }

  /** Signed 8-bit value stored in a byte (`int8_t` read from memory). */
  function AsInt8(b: byte): (r: int)
    ensures -128 <= r < 128
    ensures (r - b) % 0x100 == 0
  {
    if b < 128 then b else b - 256
  }

  /** The byte holding the low 8 bits of `v` (`(uint8_t)v`, or `v & 0xFF`). */
  function LowByte(v: int): (r: byte)
    ensures (v - r) % 0x100 == 0
  {
    v % 0x100
  }

  /** Arithmetic shift right by 16: C++ `>>` on a signed value rounds toward minus infinity. */
  function Shr16(v: int): (r: int)
    ensures r * TWO_16 <= v < r * TWO_16 + TWO_16
  {
    v / TWO_16
  }

  function Abs(v: int): (r: nat)
    ensures r == v || r == -v
  {
    if v < 0 then -v else v
  }

  /** C/C++ integer division: the quotient is truncated toward zero. Dafny's own
      `/` is Euclidean, which differs whenever the dividend is negative. */
  function TruncDiv(a: int, b: int): int
    requires b != 0
  {
    var m: int := NatDiv(Abs(a), Abs(b));
    if (a < 0) == (b < 0) then m else -m
  }

  /** Division of magnitudes, pinned down by its bounds. */
  function NatDiv(a: nat, b: nat): (m: nat)
    requires b > 0
    ensures m * b <= a < m * b + b
  {
    DivBounds(a, b);
    a / b
  }

  /** The truncated quotient times the divisor lies within one divisor of the
      dividend on the side of zero, and it carries the sign of the exact
      quotient (or is zero). */
  lemma TruncDivRounds(a: int, b: int)
    requires b != 0
    ensures var q := TruncDiv(a, b);
      && Abs(q * b) <= Abs(a) < Abs(q * b) + Abs(b)
      && (q == 0 || (q > 0 <==> ((a > 0) == (b > 0))))
  {
    TruncDivBounds(a, b, NatDiv(Abs(a), Abs(b)), TruncDiv(a, b));
  }

  /** The truncated quotient's bounds, from those of the quotient of the magnitudes. */
  lemma TruncDivBounds(a: int, b: int, m: int, q: int)
    requires b != 0
    requires 0 <= m && m * Abs(b) <= Abs(a) < m * Abs(b) + Abs(b)
    requires q == if (a < 0) == (b < 0) then m else -m
    ensures Abs(q * b) <= Abs(a) < Abs(q * b) + Abs(b)
    ensures q == 0 || (q > 0 <==> ((a > 0) == (b > 0)))
  {
    AbsMul(q, b);
    assert Abs(q) == m;
    if m != 0 {
      MulAtLeast(m, Abs(b));
      assert a != 0;
    }
  }

  /** An exact quotient is what the truncating division returns. */
  lemma TruncDivExact(a: int, b: int, q: int)
    requires b != 0 && a == q * b
    ensures TruncDiv(a, b) == q
  {
    AbsMul(q, b);
    DivUnique(Abs(a), Abs(b), Abs(q), 0);
    if q > 0 {
      assert (b > 0 ==> a > 0) && (b < 0 ==> a < 0) by { MulSigns(q, b); }
    } else if q < 0 {
      assert (b > 0 ==> a < 0) && (b < 0 ==> a > 0) by { MulSigns(q, b); }
    }
  }

  lemma MulSigns(q: int, b: int)
    ensures q > 0 && b > 0 ==> q * b > 0
    ensures q > 0 && b < 0 ==> q * b < 0
    ensures q < 0 && b > 0 ==> q * b < 0
    ensures q < 0 && b < 0 ==> q * b > 0
  {
  }

  lemma MulAtLeast(m: nat, b: nat)
    requires m >= 1
    ensures m * b >= b
  {
  }

  lemma AbsMul(q: int, b: int)
    ensures Abs(q * b) == Abs(q) * Abs(b)
  {
    if q < 0 && b < 0 {
      assert q * b == (-q) * (-b);
    } else if q < 0 {
      assert -(q * b) == (-q) * b;
    } else if b < 0 {
      assert -(q * b) == q * (-b);
    }
  }

  lemma DivBounds(a: nat, b: nat)
    requires b > 0
    ensures (a / b) * b <= a < (a / b) * b + b
  {
    assert a == b * (a / b) + a % b;
  }

  /** A multiple of a positive number that is smaller than it in magnitude is zero. */
  lemma SmallMultiple(d: int, k: int)
    requires d > 0 && -d < d * k < d
    ensures k == 0
  {
  }

  /** Euclidean division is pinned down by its two bounds. */
  lemma DivUnique(x: int, d: int, q: int, r: int)
    requires d > 0 && 0 <= r < d && x == d * q + r
    ensures x / d == q && x % d == r
  {
    assert x == d * (x / d) + x % d;
    assert d * (q - x / d) == d * q - d * (x / d);
    SmallMultiple(d, q - x / d);
  }

  // ---------------------------------------------------------------------------
  // Little-endian values and powers

  /** The little-endian value of a byte string: byte k weighs 256^k. */
  function LeValue(s: seq<byte>): (r: nat)
    ensures r < Pow256(|s|)
  {
    if |s| == 0 then 0 else (s[0] as int) + 0x100 * LeValue(s[1..])
  }

  function Pow256(n: nat): (r: nat)
    ensures r >= 1
  {
    if n == 0 then 1 else 0x100 * Pow256(n - 1)
  }

  function Pow64(n: nat): (r: nat)
    ensures r >= 1
  {
    if n == 0 then 1 else 64 * Pow64(n - 1)
  }

  /** The `n` little-endian bytes of `v` (Python's `v.to_bytes(n, "little")`). */
  function LeBytes(v: nat, n: nat): (s: seq<byte>)
    ensures |s| == n
  {
    if n == 0 then [] else [v % 0x100] + LeBytes(v / 0x100, n - 1)
  }

  lemma {:induction false} LeValueOfLeBytes(v: nat, n: nat)
    requires v < Pow256(n)
    ensures LeValue(LeBytes(v, n)) == v
  {
    if n > 0 {
      var s := LeBytes(v, n);
      assert s[1..] == LeBytes(v / 0x100, n - 1);
      assert v / 0x100 < Pow256(n - 1);
      LeValueOfLeBytes(v / 0x100, n - 1);
    }
  }
}
