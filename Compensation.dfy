/** BMP180_compensate: the Bosch recipe that turns the raw readings UT and
    UP into a temperature and a pressure, as the firmware writes it. The
    firmware computes part of it in double precision (every `pow(2, n)`
    makes the expression a double) and truncates toward zero wherever a
    double is stored into an int32_t or uint32_t. Each double here is exact:
    its operands are integers of at most 47 significant bits and it divides
    by a power of two, except for line 318's quotient by X1 + MD, whose
    rounding cannot cross an integer (a non-integral quotient of two
    integers below 2^27 lies at least 2^-17 from one). So the model
    computes each double as an exact `real` and `Trunc`s it where the C
    assigns it, and every step's contract gives the int32 program with C
    integer division that this computes. The uint32_t arithmetic of B4 and
    B7 wraps modulo 2^32. Where the C would be undefined (a division by
    zero, a signed overflow, a negative double stored into a uint32_t),
    the inputs are excluded by a precondition. */
module Compensation {
  import opened CInt
  import opened Calibration
  import opened Bmp180

  // ---------------------------------------------------------------------
  // Step 1: B5 and the true temperature
  // ---------------------------------------------------------------------

  /** Line 317: X1 = (UT - AC6) * AC5 / 2^15, the product in int and the
      quotient in double. */
  function TemperatureX1(c: Calib, ut: int): (x1: int)
    ensures x1 == CDiv((ut - c.ac6) * c.ac5, 0x8000)
    ensures IsInt32((ut - c.ac6) * c.ac5) ==> -0x1_0000 <= x1 <= 0x1_0000
  {
    TruncOfQuotient((ut - c.ac6) * c.ac5, 0x8000);
    Trunc(((ut - c.ac6) * c.ac5) as real / 32768.0)
  }

  /** Line 318: X2 = MC * 2^11 / (X1 + MD), entirely in double. */
  function TemperatureX2(c: Calib, x1: int): (x2: int)
    requires x1 + c.md != 0
    ensures x2 == CDiv(c.mc * 0x800, x1 + c.md)
    ensures -0x400_0000 <= x2 <= 0x400_0000
  {
    assert c.mc as real * 2048.0 == (c.mc * 0x800) as real;
    TruncOfQuotient(c.mc * 0x800, x1 + c.md);
    Trunc((c.mc as real * 2048.0) / (x1 + c.md) as real)
  }

  /** The inputs for which lines 317-318 are defined: no signed overflow
      in the int subtraction and product, no division by zero. */
  predicate TemperatureDefined(c: Calib, ut: int) {
    IsInt32(ut - c.ac6) && IsInt32((ut - c.ac6) * c.ac5) && TemperatureX1(c, ut) + c.md != 0
  }

  /** The global B5 and T, the temperature in 0.1 degrees Celsius. */
  datatype Temperature = Temperature(b5: int, t: int)

  /** Lines 317-321. T is B5 / 16 rounded to the nearest integer, halves
      upward, for B5 >= -8; below that the truncation toward zero biases it
      upward by half a step. Neither value overflows an int32_t. */
  function CompensateTemperature(c: Calib, ut: int32): (r: Temperature)
    requires TemperatureDefined(c, ut)
    ensures IsInt32(r.b5) && IsInt32(r.t)
    ensures r.b5 >= -8 ==> 16 * r.t - 8 <= r.b5 < 16 * r.t + 8
    ensures r.b5 < -8 ==> 16 * r.t - 24 < r.b5 <= 16 * r.t - 8
  {
    var x1 := TemperatureX1(c, ut);
    var x2 := TemperatureX2(c, x1);
    var b5 := x1 + x2;
    TruncOfQuotient(b5 + 8, 16);
    Temperature(b5, Trunc((b5 + 8) as real / 16.0))
  }

  /** Line 322 without the float rounding: T tenths of a degree. */
  function DegreesCelsius(t: int): (deg: real)
    ensures deg * 10.0 == t as real
  {
    t as real / 10.0
  }

  // ---------------------------------------------------------------------
  // Step 2: the true pressure
  // ---------------------------------------------------------------------

  /** A square that fits an int32_t bounds its root, which keeps the
      products AC2 * B6 and AC3 * B6 within an int32_t as well. */
  lemma SquareBound(b6: int)
    requires IsInt32(b6 * b6)
    ensures -46340 <= b6 <= 46340
    ensures 0 <= b6 * b6 <= 46340 * 46340
  {
    var a := if b6 < 0 then -b6 else b6;
    assert b6 * b6 == a * a;
    if a > 46340 {
      MulMonotone(46341, a);
    }
    MulMonotone(a, 46340);
  }

  /** Once B6 * B6 fits an int32_t, so do the int products AC2 * B6 of
      line 327 and AC3 * B6 of line 332, which therefore need no
      precondition of their own. */
  lemma B6Products(ac2: int16, ac3: int16, b6: int)
    requires IsInt32(b6 * b6)
    ensures IsInt32(ac2 * b6) && IsInt32(ac3 * b6)
  {
    SquareBound(b6);
    MulBound(ac2, b6, 0x8000, 46340);
    MulBound(ac3, b6, 0x8000, 46340);
  }

  lemma MulMonotone(a: nat, m: nat)
    requires a <= m
    ensures a * a <= m * m
  {
    assert a * a <= a * m <= m * m;
  }

  /** Lines 326 and 333: coef * (B6 * B6 / 2^12) / d. The inner quotient
      stays a double, so the whole is one truncating division by 2^12 * d,
      not the two truncations of an all-integer version. */
  function SquareTerm(coef: int16, b6: int, d: int): (x: int)
    requires d > 0
    ensures x == CDiv(coef * (b6 * b6), 0x1000 * d)
  {
    var s := b6 * b6;
    assert (coef as real * (s as real / 4096.0)) / d as real == (coef * s) as real / (0x1000 * d) as real by {
      assert (coef * s) as real == coef as real * s as real;
      assert (0x1000 * d) as real == 4096.0 * d as real;
    }
    TruncOfQuotient(coef * s, 0x1000 * d);
    Trunc((coef as real * (s as real / 4096.0)) / d as real)
  }

  /** Lines 327 and 332: coef * B6 / d, the product in int, the quotient in
      double. */
  function ProductTerm(coef: int16, b6: int, d: int): (x: int)
    requires d > 0
    ensures x == CDiv(coef * b6, d)
  {
    TruncOfQuotient(coef * b6, d);
    Trunc((coef * b6) as real / d as real)
  }

  /** Lines 325-330: B3 from B6 = B5 - 4000, through X1, X2 and X3 of
      lines 326-328. `<<` by BMP180_OSS is a multiplication by 2^oss (the
      compiler's shift, also for a negative left operand) and the final
      `/ 4` is C integer division. */
  function ComputeB3(c: Calib, b6: int, oss: Oss): (b3: int)
    requires IsInt32(b6 * b6)
    ensures b3 == CDiv((c.ac1 * 4 + CDiv(c.b2 * (b6 * b6), 0x80_0000) + CDiv(c.ac2 * b6, 0x800)) * Pow2(oss) + 2, 4)
    ensures IsInt32(c.ac2 * b6) && IsInt32(b3)
  {
    B6Products(c.ac2, c.ac3, b6);
    var x1 := SquareTerm(c.b2, b6, 0x800);
    var x2 := ProductTerm(c.ac2, b6, 0x800);
    var x3 := x1 + x2;
    B3Bound(c.ac1, c.b2, c.ac2, b6, oss);
    CDiv((c.ac1 * 4 + x3) * Pow2(oss) + 2, 4)
  }

  lemma B3Bound(ac1: int16, b2: int16, ac2: int16, b6: int, oss: Oss)
    requires IsInt32(b6 * b6)
    ensures var x3 := CDiv(b2 * (b6 * b6), 0x80_0000) + CDiv(ac2 * b6, 0x800);
      -0x600_0000 <= (ac1 * 4 + x3) * Pow2(oss) + 2 <= 0x600_0002
  {
    var x3 := X3Bound(b2, ac2, b6);
    var k := Pow2(oss);
    assert 1 <= k <= 8 by {
      assert Pow2(3) == 8;
    }
    MulBound(ac1 * 4 + x3, k, 0xc0_0000, 8);
  }

  lemma X3Bound(b2: int16, ac2: int16, b6: int) returns (x3: int)
    requires IsInt32(b6 * b6)
    ensures x3 == CDiv(b2 * (b6 * b6), 0x80_0000) + CDiv(ac2 * b6, 0x800)
    ensures -0xa0_0000 <= x3 <= 0xa0_0000
  {
    SquareBound(b6);
    var y1 := CDiv(b2 * (b6 * b6), 0x80_0000);
    var y2 := CDiv(ac2 * b6, 0x800);
    MulBound(b2, b6 * b6, 0x8000, 46340 * 46340);
    MulBound(ac2, b6, 0x8000, 46340);
    x3 := y1 + y2;
  }

  /** Lines 332-334: X3 = (X1 + X2 + 2) / 4 with X1 = AC3 * B6 / 2^13 and
      X2 = B1 * (B6 * B6 / 2^12) / 2^16. */
  function ComputeX3(c: Calib, b6: int): (x3: int)
    requires IsInt32(b6 * b6)
    ensures x3 == CDiv(CDiv(c.ac3 * b6, 0x2000) + CDiv(c.b1 * (b6 * b6), 0x1000_0000) + 2, 4)
    ensures IsInt32(c.ac3 * b6)
  {
    B6Products(c.ac2, c.ac3, b6);
    var x1 := ProductTerm(c.ac3, b6, 0x2000);
    var x2 := SquareTerm(c.b1, b6, 0x1_0000);
    TruncOfQuotient(x1 + x2 + 2, 4);
    Trunc((x1 + x2 + 2) as real / 4.0)
  }

  /** Line 336: B4 = AC4 * (X3 + 2^15) / 2^15. X3 + 2^15 is a double
      converted to uint32_t, which needs it non-negative; the product
      wraps modulo 2^32 before the exact division. */
  function ComputeB4(c: Calib, x3: int): (b4: uint32)
    requires 0 <= x3 + 0x8000 < TwoTo32
    ensures b4 == U32(c.ac4 * (x3 + 0x8000)) / 0x8000
    ensures b4 < 0x2_0000
    ensures b4 == 0 <==> U32(c.ac4 * (x3 + 0x8000)) < 0x8000
  {
    var product := U32(U32(c.ac4) * U32(x3 + 0x8000));
    U32MulLeft(c.ac4, x3 + 0x8000);
    FloorOfQuotient(product, 0x8000);
    Trunc(product as real / 32768.0)
  }

  /** Reducing an operand of a product modulo 2^32 first does not change the
      product modulo 2^32. */
  lemma U32Mul(x: int, k: int)
    ensures U32(U32(x) * k) == U32(x * k)
  {
    var q := x / TwoTo32;
    assert x == U32(x) + q * TwoTo32;
    assert x * k == U32(x) * k + (q * k) * TwoTo32;
    ModShift(U32(x) * k, q * k);
  }

  lemma U32MulLeft(a: uint16, x: nat)
    requires x < TwoTo32
    ensures U32(U32(a) * U32(x)) == U32(a * x)
  {
  }

  lemma ModShift(a: int, m: int)
    ensures (a + m * TwoTo32) % TwoTo32 == a % TwoTo32
  {
  }

  /** Line 338: B7 = ((uint32_t)UP - B3) * (50000 >> oss), all in uint32_t:
      the difference and the product each wrap modulo 2^32, which is the
      same as wrapping the exact product once. */
  function ComputeB7(up: int, b3: int, oss: Oss): (b7: uint32)
    ensures b7 == U32((up - b3) * (50000 / Pow2(oss)))
  {
    var difference := U32(U32(up) - U32(b3));
    U32Sub(up, b3);
    U32Mul(up - b3, 50000 / Pow2(oss));
    U32(difference * (50000 / Pow2(oss)))
  }

  lemma U32Sub(x: int, y: int)
    ensures U32(U32(x) - U32(y)) == U32(x - y)
  {
    var q, r := x / TwoTo32, y / TwoTo32;
    assert U32(x) - U32(y) == (x - y) + (r - q) * TwoTo32;
    ModShift(x - y, r - q);
  }

  /** Lines 340-344 in uint32_t: the quotient of 2 * B7 by B4, doubling
      before the division while 2 * B7 fits in 32 bits and after it
      otherwise. Below 2^31 the quotient is exact; above, it is the even
      number at or one below the exact quotient, except that for B4 = 1
      the doubling wraps modulo 2^32. */
  function DivideB7(b7: uint32, b4: uint32): (q: uint32)
    requires b4 != 0
    ensures b7 < 0x8000_0000 ==> q == (2 * b7) / b4
    ensures b7 >= 0x8000_0000 && b4 >= 2 ==> q % 2 == 0 && q <= (2 * b7) / b4 <= q + 1
    ensures b7 >= 0x8000_0000 && b4 == 1 ==> q == 2 * b7 - TwoTo32
  {
    if b7 < 0x8000_0000 then
      assert U32(b7 * 2) == 2 * b7;
      U32(b7 * 2) / b4
    else
      HalvedQuotient(b7, b4);
      U32((b7 / b4) * 2)
  }

  /** The branch of lines 343-344: dividing first and doubling after, in
      uint32_t, for a B7 from 2^31 on. */
  lemma HalvedQuotient(b7: uint32, b4: uint32)
    requires b7 >= 0x8000_0000 && b4 != 0
    ensures b4 >= 2 ==> U32((b7 / b4) * 2) % 2 == 0
    ensures b4 >= 2 ==> U32((b7 / b4) * 2) <= (2 * b7) / b4 <= U32((b7 / b4) * 2) + 1
    ensures b4 == 1 ==> U32((b7 / b4) * 2) == 2 * b7 - TwoTo32
  {
    DoubledQuotient(b7, b4);
    if b4 >= 2 {
      EvenFits(b7 / b4);
    } else {
      assert b7 / b4 == b7;
      WrapOnce(b7 * 2);
    }
  }

  lemma EvenFits(h: nat)
    requires h * 2 < TwoTo32
    ensures U32(h * 2) == h * 2 && (h * 2) % 2 == 0
  {
  }

  lemma WrapOnce(x: int)
    requires TwoTo32 <= x < 2 * TwoTo32
    ensures U32(x) == x - TwoTo32
  {
    DivPlus(1, TwoTo32, x - TwoTo32);
  }

  /** Doubling before or after the division differs by at most one, and
      for a divisor of two or more the quotient doubled stays within the
      dividend. */
  lemma DoubledQuotient(b7: nat, b4: int)
    requires b4 >= 1
    ensures b4 >= 2 ==> (b7 / b4) * 2 <= b7
    ensures (b7 / b4) * 2 <= (2 * b7) / b4 <= (b7 / b4) * 2 + 1
  {
    DoubledParts(b7, b7 / b4, b7 % b4, b4);
  }

  /** DoubledQuotient for a dividend a = q * b + r with 0 <= r < b. */
  lemma DoubledParts(a: nat, q: nat, r: nat, b: int)
    requires b >= 1 && r < b && a == q * b + r
    ensures b >= 2 ==> q * 2 <= a
    ensures q * 2 <= (2 * a) / b <= q * 2 + 1
  {
    TwiceProduct(q, b);
    if 2 * r < b {
      DoubledRemainder(a, 2 * q, (2 * q) * b, 2 * r, b);
    } else {
      DoubledRemainder(a, 2 * q + 1, (2 * q + 1) * b, 2 * r - b, b);
    }
    if b >= 2 {
      MulMonoLeft(2, b, q);
    }
  }

  lemma TwiceProduct(q: int, b: int)
    ensures (2 * q) * b == 2 * (q * b) && (2 * q + 1) * b == 2 * (q * b) + b
  {
  }

  /** 2a = p * b + s with 0 <= s < b, given 2a = 2 qb + 2r, makes p the
      quotient of 2a by b. */
  lemma DoubledRemainder(a: nat, p: int, pb: int, s: int, b: int)
    requires b >= 1 && 0 <= s < b && pb == p * b && 2 * a == pb + s
    ensures (2 * a) / b == p
  {
    DivPlus(p, b, s);
  }

  /** Line 346: X1 = (P / 2^8) * (P / 2^8), both factors exact doubles. */
  function PressureX1(p: int): (x1: nat)
    ensures x1 == (p * p) / 0x1_0000
  {
    assert (p as real / 256.0) * (p as real / 256.0) == (p * p) as real / 65536.0 by {
      assert (p * p) as real == p as real * p as real;
    }
    FloorOfQuotient(p * p, 0x1_0000);
    Trunc((p as real / 256.0) * (p as real / 256.0))
  }

  /** Line 347: X1 = X1 * 3038 / 2^16. */
  function PressureX1Scaled(x1: nat): (x: nat)
    ensures x == (x1 * 3038) / 0x1_0000
  {
    FloorOfQuotient(x1 * 3038, 0x1_0000);
    Trunc((x1 * 3038) as real / 65536.0)
  }

  /** Line 348: X2 = -7357 * P / 2^16. */
  function PressureX2(p: int): (x2: int)
    ensures x2 == CDiv(-7357 * p, 0x1_0000)
  {
    TruncOfQuotient(-7357 * p, 0x1_0000);
    Trunc((-7357 * p) as real / 65536.0)
  }

  /** The inputs for which lines 346-348 stay within int32_t. */
  predicate FinalDefined(p: int) {
    IsInt32(PressureX1(p)) && IsInt32(PressureX1(p) * 3038) && IsInt32(-7357 * p)
  }

  /** Line 350 without the float rounding: the correction (X1 + X2 + 3791)
      / 2^4 is added as an untruncated double, so the pressure is a whole
      number of sixteenths of a pascal, and it lies within one pascal above
      the value the all-integer recipe truncates to. */
  function FinalPressure(p: int32): (pa: real)
    requires FinalDefined(p)
    ensures var s := (p * p / 0x1_0000) * 3038 / 0x1_0000 + CDiv(-7357 * p, 0x1_0000) + 3791;
      pa * 16.0 == (16 * p + s) as real
      && (p + s / 16) as real <= pa < (p + s / 16 + 1) as real
  {
    var x1 := PressureX1Scaled(PressureX1(p));
    var x2 := PressureX2(p);
    FloorOfQuotient(x1 + x2 + 3791 + 0x1000_0000, 16);
    p as real + (x1 + x2 + 3791) as real / 16.0
  }

  /** All that lines 325-350 need to be defined, for a given B6, UP and
      oversampling setting. */
  predicate PressureStepDefined(c: Calib, b6: int, up: int32, oss: Oss) {
    IsInt32(b6 * b6)
    && var x3 := ComputeX3(c, b6);
    0 <= x3 + 0x8000 < TwoTo32
    && var b4 := ComputeB4(c, x3);
    b4 != 0
    && var b7 := ComputeB7(up, ComputeB3(c, b6, oss), oss);
    FinalDefined(AsInt32(DivideB7(b7, b4)))
  }

  /** All that lines 317-350 need to be defined, for a given calibration,
      UT, UP and oversampling setting. */
  predicate PressureDefined(c: Calib, ut: int32, up: int32, oss: Oss) {
    TemperatureDefined(c, ut)
    && PressureStepDefined(c, CompensateTemperature(c, ut).b5 - 4000, up, oss)
  }

  /** Lines 325-350 from B6: P is the uint32_t quotient stored into an
      int32_t, and the pressure is P with the final correction. The double
      arithmetic computes the int32 program's pressure, as that many
      sixteenths of a pascal. */
  function CompensatePressure(c: Calib, b6: int, up: int32, oss: Oss): (pa: real)
    requires PressureStepDefined(c, b6, up, oss)
    ensures IntegerB4(c, b6) != 0
    ensures pa == IntegerSixteenths(c, b6, up, oss) as real / 16.0
  {
    var b3 := ComputeB3(c, b6, oss);
    var b4 := ComputeB4(c, ComputeX3(c, b6));
    var b7 := ComputeB7(up, b3, oss);
    PIsInteger(c, b6, up, oss);
    FinalPressure(AsInt32(DivideB7(b7, b4)))
  }

  /** BMP180_compensate's results: the new global B5 and the two outputs. */
  datatype Readings = Readings(b5: int, temperature: real, pressure: real)

  /** Lines 317-350. The pressure step uses the B5 that the temperature step
      has just computed (the global written at line 319 and read at line
      325). The firmware's mixed double and integer arithmetic computes
      exactly the int32 program: the same B5, the temperature T / 10 and
      the pressure as that many sixteenths of a pascal. */
  function Compensate(c: Calib, ut: int32, up: int32, oss: Oss): (r: Readings)
    requires PressureDefined(c, ut, up, oss)
    ensures IntegerDefined(c, ut)
    ensures var i := IntegerCompensate(c, ut, up, oss);
      r == Readings(i.b5, i.t as real / 10.0, i.sixteenths as real / 16.0)
  {
    var temp := CompensateTemperature(c, ut);
    var pa := CompensatePressure(c, temp.b5 - 4000, up, oss);
    StepsAreInteger(c, ut, up, oss);
    Readings(temp.b5, DegreesCelsius(temp.t), pa)
  }

  /** BMP180_compensate's results as integers: B5, T in 0.1 degrees Celsius
      and the pressure in sixteenths of a pascal. */
  datatype IntegerReadings = IntegerReadings(b5: int, t: int, sixteenths: int)

  /** Line 336 as an int32 program: B4 from B6. */
  function IntegerB4(c: Calib, b6: int): int {
    var x3 := CDiv(CDiv(c.ac3 * b6, 0x2000) + CDiv(c.b1 * (b6 * b6), 0x1000_0000) + 2, 4);
    U32(c.ac4 * (x3 + 0x8000)) / 0x8000
  }

  /** Lines 326-344 as an int32 program: P from B6. */
  function IntegerP(c: Calib, b6: int, up: int, oss: Oss): int
    requires IntegerB4(c, b6) != 0
  {
    var x3 := CDiv(c.b2 * (b6 * b6), 0x80_0000) + CDiv(c.ac2 * b6, 0x800);
    var b3 := CDiv((c.ac1 * 4 + x3) * Pow2(oss) + 2, 4);
    var b4 := IntegerB4(c, b6);
    var b7 := U32((up - b3) * (50000 / Pow2(oss)));
    AsInt32(if b7 < 0x8000_0000 then (2 * b7) / b4 else U32(b7 / b4 * 2))
  }

  /** Lines 326-350 as an int32 program: the pressure in sixteenths of a
      pascal from B6. */
  function IntegerSixteenths(c: Calib, b6: int, up: int, oss: Oss): int
    requires IntegerB4(c, b6) != 0
  {
    var p := IntegerP(c, b6, up, oss);
    16 * p + (p * p / 0x1_0000) * 3038 / 0x1_0000 + CDiv(-7357 * p, 0x1_0000) + 3791
  }

  /** Lines 317-321 as an int32 program: B5 and T. */
  function IntegerTemperature(c: Calib, ut: int): Temperature
    requires CDiv((ut - c.ac6) * c.ac5, 0x8000) + c.md != 0
  {
    var x1 := CDiv((ut - c.ac6) * c.ac5, 0x8000);
    var x2 := CDiv(c.mc * 0x800, x1 + c.md);
    Temperature(x1 + x2, CDiv(x1 + x2 + 8, 16))
  }

  /** The int32 program divides by X1 + MD and by B4: neither is zero. */
  predicate IntegerDefined(c: Calib, ut: int) {
    CDiv((ut - c.ac6) * c.ac5, 0x8000) + c.md != 0
    && IntegerB4(c, IntegerTemperature(c, ut).b5 - 4000) != 0
  }

  /** The same recipe as an int32 program with C integer division and
      uint32_t wrap-around, and no double anywhere: the reference the
      double arithmetic above is proved to compute. */
  function IntegerCompensate(c: Calib, ut: int32, up: int32, oss: Oss): (r: IntegerReadings)
    requires IntegerDefined(c, ut)
    ensures r.b5 == IntegerTemperature(c, ut).b5
    ensures r.b5 >= -8 ==> 16 * r.t - 8 <= r.b5 < 16 * r.t + 8
    ensures r.b5 < -8 ==> 16 * r.t - 24 < r.b5 <= 16 * r.t - 8
  {
    var temp := IntegerTemperature(c, ut);
    IntegerReadings(temp.b5, temp.t, IntegerSixteenths(c, temp.b5 - 4000, up, oss))
  }

  /** The double arithmetic of lines 317-321 computes the int32 program's
      B5 and T. */
  lemma TemperatureIsInteger(c: Calib, ut: int32)
    requires TemperatureDefined(c, ut)
    ensures CDiv((ut - c.ac6) * c.ac5, 0x8000) + c.md != 0
    ensures CompensateTemperature(c, ut) == IntegerTemperature(c, ut)
  {
    var b5 := CompensateTemperature(c, ut).b5;
    TruncOfQuotient(b5 + 8, 16);
  }

  /** The double arithmetic of lines 326-344 computes the int32 program's P. */
  lemma PIsInteger(c: Calib, b6: int, up: int32, oss: Oss)
    requires IsInt32(b6 * b6) && 0 <= ComputeX3(c, b6) + 0x8000 < TwoTo32
    requires ComputeB4(c, ComputeX3(c, b6)) != 0
    ensures IntegerB4(c, b6) == ComputeB4(c, ComputeX3(c, b6))
    ensures IntegerP(c, b6, up, oss)
      == AsInt32(DivideB7(ComputeB7(up, ComputeB3(c, b6, oss), oss), ComputeB4(c, ComputeX3(c, b6))))
  {
    var b4 := ComputeB4(c, ComputeX3(c, b6));
    var b7 := ComputeB7(up, ComputeB3(c, b6, oss), oss);
    assert DivideB7(b7, b4) == if b7 < 0x8000_0000 then (2 * b7) / b4 else U32(b7 / b4 * 2);
  }

  /** Compensate's two steps against IntegerCompensate's. */
  lemma StepsAreInteger(c: Calib, ut: int32, up: int32, oss: Oss)
    requires PressureDefined(c, ut, up, oss)
    ensures IntegerDefined(c, ut)
    ensures var temp, i := CompensateTemperature(c, ut), IntegerCompensate(c, ut, up, oss);
      temp.b5 == i.b5 && temp.t == i.t
      && CompensatePressure(c, temp.b5 - 4000, up, oss) == i.sixteenths as real / 16.0
  {
    TemperatureIsInteger(c, ut);
    var temp := CompensateTemperature(c, ut);
    assert CompensatePressure(c, temp.b5 - 4000, up, oss)
      == IntegerSixteenths(c, temp.b5 - 4000, up, oss) as real / 16.0;
    IntegerCompensateParts(c, ut, up, oss);
  }

  /** IntegerCompensate through its two steps. */
  lemma IntegerCompensateParts(c: Calib, ut: int32, up: int32, oss: Oss)
    requires IntegerDefined(c, ut)
    ensures var temp := IntegerTemperature(c, ut);
      IntegerB4(c, temp.b5 - 4000) != 0
      && IntegerCompensate(c, ut, up, oss)
         == IntegerReadings(temp.b5, temp.t, IntegerSixteenths(c, temp.b5 - 4000, up, oss))
  {
  }

  /** 50000 >> BMP180_OSS with the configured setting. */
  lemma ConfiguredB7Factor()
    ensures 50000 / Pow2(ConfiguredOss) == 6250
  {
    assert Pow2(3) == 8;
  }

  /** The calibration example of section 3.5 of the BMP180 datasheet. */
  function DatasheetCalib(): Calib {
    Calib(408, -72, -14383, 32741, 32757, 23153, 6190, 4, -32768, -8711, 2868)
  }

  /** The datasheet example (UT = 27898, UP = 23843, oss = 0) through the
      firmware's arithmetic: B5 = 2400, 15.0 degrees Celsius and
      69965.4375 Pa. The datasheet prints B5 = 2399 and 69964 Pa because it
      floors X2 = -2343.99 to -2344 where the C truncates toward zero, and
      truncates the inner quotients and the final correction. */
  lemma DatasheetExample()
    ensures PressureDefined(DatasheetCalib(), 27898, 23843, 0)
    ensures Compensate(DatasheetCalib(), 27898, 23843, 0) == Readings(2400, 15.0, 69965.4375)
  {
    DatasheetTemperature();
    DatasheetPressure();
  }

  /** The temperature step of the datasheet example: X1 = 4743, X2 = -2343
      (truncated toward zero), B5 = 2400, T = 150. */
  lemma DatasheetTemperature()
    ensures TemperatureDefined(DatasheetCalib(), 27898)
    ensures CompensateTemperature(DatasheetCalib(), 27898) == Temperature(2400, 150)
  {
    var c := DatasheetCalib();
    assert TemperatureX1(c, 27898) == 4743 by {
      assert CDiv(4745 * 32757, 0x8000) == 4743;
    }
    assert TemperatureX2(c, 4743) == -2343 by {
      assert CDiv(-8711 * 0x800, 7611) == -2343;
    }
  }

  /** The pressure step of the datasheet example, from B6 = -1600: X3 = 717,
      B4 = 33457, B3 = 422, B7 = 1171050000, P = 70003. */
  lemma DatasheetPressure()
    ensures PressureStepDefined(DatasheetCalib(), -1600, 23843, 0)
    ensures CompensatePressure(DatasheetCalib(), -1600, 23843, 0) == 69965.4375
  {
    var c := DatasheetCalib();
    assert ComputeX3(c, -1600) == 717;
    assert ComputeB4(c, 717) == 33457;
    assert ComputeB3(c, -1600, 0) == 422;
    assert ComputeB7(23843, 422, 0) == 1171050000;
    assert DivideB7(1171050000, 33457) == 70003;
    assert AsInt32(70003) == 70003;
    assert PressureX1(70003) == 74774;
    assert PressureX1Scaled(74774) == 3466;
    assert PressureX2(70003) == -7858;
    assert FinalPressure(70003) == 69965.4375;
    assert CompensatePressure(c, -1600, 23843, 0) == FinalPressure(70003);
  }

  /** With the datasheet's calibration, the raw temperature word 0x8000
      (about 51 degrees Celsius) gives -347.2 degrees through the firmware's
      int16_t UT, and 51.1 degrees through the unsigned UT the sensor
      defines. */
  lemma UTSignFinding()
    ensures TemperatureDefined(DatasheetCalib(), DecodeUT([0x80, 0x00]))
    ensures CompensateTemperature(DatasheetCalib(), DecodeUT([0x80, 0x00])) == Temperature(-55566, -3472)
    ensures TemperatureDefined(DatasheetCalib(), DecodeUTUnsigned([0x80, 0x00]))
    ensures CompensateTemperature(DatasheetCalib(), DecodeUTUnsigned([0x80, 0x00])) == Temperature(8182, 511)
  {
    var c := DatasheetCalib();
    assert DecodeUT([0x80, 0x00]) == -0x8000;
    assert TemperatureX1(c, -0x8000) == -55902 by {
      assert CDiv(-55921 * 32757, 0x8000) == -55902;
    }
    assert TemperatureX2(c, -55902) == 336 by {
      assert CDiv(-8711 * 0x800, -53034) == 336;
    }
    assert CompensateTemperature(c, -0x8000) == Temperature(-55566, -3472);
    assert DecodeUTUnsigned([0x80, 0x00]) == 0x8000;
    assert TemperatureX1(c, 0x8000) == 9611 by {
      assert CDiv(9615 * 32757, 0x8000) == 9611;
    }
    assert TemperatureX2(c, 9611) == -1429 by {
      assert CDiv(-8711 * 0x800, 12479) == -1429;
    }
    assert CompensateTemperature(c, 0x8000) == Temperature(8182, 511);
  }
}
