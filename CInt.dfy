/** Fixed-width C integers on the Cortex-M4 target, and the conversions the
    firmware's arithmetic relies on: reduction into uint32_t, reinterpretation
    as int16_t/int32_t, truncation of an exact double toward zero, and C's
    integer division. Dafny's `int` is unbounded and its `/` is Euclidean, so
    each of these is written out. */
module CInt {

  type byte = x: int | 0 <= x < 0x100
  type int16 = x: int | -0x8000 <= x < 0x8000
  type uint16 = x: int | 0 <= x < 0x1_0000
  type int32 = x: int | -0x8000_0000 <= x < 0x8000_0000
  type uint32 = x: int | 0 <= x < 0x1_0000_0000

  const TwoTo32: int := 0x1_0000_0000

  /** The 8-bit pattern of a byte, for the firmware's shift-and-or
      expressions, counted up one step at a time. */
  function Bits8(b: byte): (v: bv8)
    ensures v as int == b
  {
    if b == 0 then 0 else Bits8Succ(Bits8(b - 1)); Bits8(b - 1) + 1
  }

  /** Adding one to an 8-bit pattern below 0xFF does not wrap. */
  lemma Bits8Succ(x: bv8)
    requires x as int < 0xFF
    ensures (x + 1) as int == x as int + 1
  {
  }

  predicate IsInt32(x: int) {
    -0x8000_0000 <= x < 0x8000_0000
  }

  function Pow2(n: nat): (r: nat)
    ensures r >= 1
  {
    if n == 0 then 1 else 2 * Pow2(n - 1)
  }

  lemma {:induction false} Pow2Add(a: nat, b: nat)
    ensures Pow2(a + b) == Pow2(a) * Pow2(b)
  {
    if a > 0 {
      Pow2Add(a - 1, b);
    }
  }

  /** The powers of two the firmware's shifts use. */
  lemma Pow2Values()
    ensures Pow2(0) == 1 && Pow2(1) == 2 && Pow2(2) == 4 && Pow2(3) == 8
    ensures Pow2(4) == 16 && Pow2(5) == 32 && Pow2(6) == 64 && Pow2(7) == 128 && Pow2(8) == 256
  {
    assert Pow2(4) == 2 * Pow2(3);
    assert Pow2(8) == 2 * Pow2(7) == 4 * Pow2(6) == 8 * Pow2(5);
  }

  /** Conversion to uint32_t (and the result of uint32_t + - *): the unique
      value in [0, 2^32) congruent to x modulo 2^32. */
  function U32(x: int): (r: uint32)
    ensures (x - r) % TwoTo32 == 0
    ensures 0 <= x < TwoTo32 ==> r == x
  {
    x % TwoTo32
  }

  /** A 16-bit pattern stored into an int16_t: values from 0x8000 up read as
      negative two's complement numbers (the compiler's conversion). */
  function AsInt16(w: uint16): (r: int16)
    ensures (w - r) % 0x1_0000 == 0
    ensures w < 0x8000 <==> r >= 0
  {
    if w < 0x8000 then w else w - 0x1_0000
  }

  /** A value stored into an int32_t after uint32_t arithmetic: reduced
      modulo 2^32 and read as two's complement. */
  function AsInt32(x: int): (r: int32)
    ensures (x - r) % TwoTo32 == 0
    ensures IsInt32(x) ==> r == x
  {
    var u := U32(x);
    if u < 0x8000_0000 then u else u - TwoTo32
  }

  /** Conversion of an exact double to an integer type: truncation toward
      zero. */
  function Trunc(x: real): (t: int)
    ensures 0.0 <= x ==> t as real <= x < t as real + 1.0
    ensures x < 0.0 ==> t as real - 1.0 < x <= t as real
  {
    if 0.0 <= x then x.Floor else -((-x).Floor)
  }

  /** C's integer division, which truncates the quotient toward zero. */
  function CDiv(a: int, b: int): int
    requires b != 0
  {
    if a >= 0 then (if b > 0 then a / b else -(a / -b))
    else (if b > 0 then -(-a / b) else -a / -b)
  }

  /** The exact quotient of a natural number by a positive divisor, floored,
      is Dafny's Euclidean quotient. */
  lemma FloorOfQuotient(a: nat, b: int)
    requires b > 0
    ensures (a as real / b as real).Floor == a / b
  {
    var q, r := a / b, a % b;
    assert a as real == q as real * b as real + r as real;
    assert a as real / b as real == q as real + r as real / b as real;
    assert 0.0 <= r as real / b as real < 1.0;
  }

  /** Truncating the exact quotient of two integers, positive divisor. */
  lemma TruncOfQuotientPos(a: int, b: int)
    requires b > 0
    ensures Trunc(a as real / b as real) == CDiv(a, b)
  {
    if a >= 0 {
      FloorOfQuotient(a, b);
    } else {
      assert a as real / b as real == -((-a) as real / b as real);
      FloorOfQuotient(-a, b);
    }
  }

  /** Dividing two integers exactly and truncating gives C's integer
      division: the basis for reading the firmware's double quotients as
      integer ones. */
  lemma TruncOfQuotient(a: int, b: int)
    requires b != 0
    ensures Trunc(a as real / b as real) == CDiv(a, b)
  {
    if b > 0 {
      TruncOfQuotientPos(a, b);
    } else {
      assert a as real / b as real == (-a) as real / (-b) as real;
      assert CDiv(a, b) == CDiv(-a, -b);
      TruncOfQuotientPos(-a, -b);
    }
  }

  lemma MulNonneg(x: nat, y: nat)
    ensures x * y >= 0
  {
  }

  /** Multiplying by a non-negative factor keeps an order. */
  lemma MulMonoLeft(x: int, y: int, k: nat)
    requires x <= y
    ensures x * k <= y * k
  {
    MulNonneg(y - x, k);
    assert y * k - x * k == (y - x) * k;
  }

  /** |a * b| <= m * n when |a| <= m and |b| <= n. */
  lemma MulBound(a: int, b: int, m: int, n: int)
    requires -m <= a <= m && -n <= b <= n
    ensures -(m * n) <= a * b <= m * n
  {
    var x, y := if a < 0 then -a else a, if b < 0 then -b else b;
    MulMonoLeft(x, m, y);
    MulMonoLeft(y, n, m);
    assert a * b == x * y || a * b == -(x * y);
  }

  /** The quotient of q * b + r by b is q when 0 <= r < b. */
  lemma DivPlus(q: int, b: int, r: int)
    requires b > 0 && 0 <= r < b
    ensures (q * b + r) / b == q
  {
    var z := q * b + r;
    var d := z / b - q;
    assert z == (z / b) * b + z % b;
    assert d * b == r - z % b;
    if d >= 1 {
      MulMonoLeft(1, d, b);
    } else if d <= -1 {
      MulMonoLeft(d, -1, b);
    }
  }
}
