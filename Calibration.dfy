/** The sensor's byte-level serialisation: the eleven calibration
    coefficients read from the EEPROM block at 0xAA, the uncompensated
    temperature word and the uncompensated pressure triple. Every value is
    big-endian on the wire. The firmware's shift-and-or expressions are
    written on bit-vectors, as the C writes them, and their contracts give
    their arithmetic meaning. */
module Calibration {
  import opened CInt

  /** bmp180_calib_data_t, in EEPROM order: AC4, AC5 and AC6 are unsigned,
      the other eight are signed. */
  datatype Calib = Calib(
    ac1: int16, ac2: int16, ac3: int16,
    ac4: uint16, ac5: uint16, ac6: uint16,
    b1: int16, b2: int16, mb: int16, mc: int16, md: int16)

  /** The coefficients in the order the EEPROM stores them. */
  function Coefficients(c: Calib): (s: seq<int>)
    ensures |s| == 11
  {
    [c.ac1, c.ac2, c.ac3, c.ac4, c.ac5, c.ac6, c.b1, c.b2, c.mb, c.mc, c.md]
  }

  /** Whether the k-th coefficient is a uint16_t field. */
  predicate IsUnsignedField(k: int) {
    3 <= k <= 5
  }

  /** The big-endian word of two bytes. */
  function BigEndian16(hi: byte, lo: byte): uint16 {
    hi * 0x100 + lo
  }

  /** The big-endian value of three bytes. */
  function BigEndian24(d0: byte, d1: byte, d2: byte): int {
    d0 * 0x1_0000 + d1 * 0x100 + d2
  }

  /** The firmware's `(hi << 8) | lo`, on two bytes promoted to a 32-bit
      int, is the big-endian word. */
  lemma ShiftOr16(hi: bv8, lo: bv8)
    ensures (((hi as bv32) << 8) | (lo as bv32)) as int == BigEndian16(hi as int, lo as int)
  {
  }

  /** The firmware's `(d0 << 16) | (d1 << 8) | d2` is the big-endian value
      of the three bytes. */
  lemma ShiftOr24(d0: bv8, d1: bv8, d2: bv8)
    ensures (((d0 as bv32) << 16) | ((d1 as bv32) << 8) | (d2 as bv32)) as int
      == BigEndian24(d0 as int, d1 as int, d2 as int)
  {
  }

  /** The eleven assignments that fill `calib` from the 22-byte buffer:
      coefficient k is the big-endian word at bytes 2k and 2k+1, taken as
      it is for AC4, AC5 and AC6 and as two's complement for the others. */
  function DecodeCalib(buf: seq<byte>): (c: Calib)
    requires |buf| == 22
    ensures forall k :: 0 <= k < 11 ==>
      Coefficients(c)[k] == if IsUnsignedField(k) then BigEndian16(buf[2 * k], buf[2 * k + 1])
                            else AsInt16(BigEndian16(buf[2 * k], buf[2 * k + 1]))
  {
    Calib(
      AsInt16(BigEndian16(buf[0], buf[1])),
      AsInt16(BigEndian16(buf[2], buf[3])),
      AsInt16(BigEndian16(buf[4], buf[5])),
      BigEndian16(buf[6], buf[7]),
      BigEndian16(buf[8], buf[9]),
      BigEndian16(buf[10], buf[11]),
      AsInt16(BigEndian16(buf[12], buf[13])),
      AsInt16(BigEndian16(buf[14], buf[15])),
      AsInt16(BigEndian16(buf[16], buf[17])),
      AsInt16(BigEndian16(buf[18], buf[19])),
      AsInt16(BigEndian16(buf[20], buf[21])))
  }

  /** The firmware's `>> (8 - BMP180_OSS)` of the three-byte value, for
      BMP180_OSS = 3: shifting out five bits is the quotient by 2^5. */
  lemma ShiftOr24Right5(d0: bv8, d1: bv8, d2: bv8)
    ensures ((((d0 as bv32) << 16) | ((d1 as bv32) << 8) | (d2 as bv32)) >> 5) as int
      == BigEndian24(d0 as int, d1 as int, d2 as int) / 32
  {
    ShiftOutFive(d0, d1, d2);
    KeptBits(d0, d1, d2);
    DivPlus(d0 as int * 2048 + d1 as int * 8 + d2 as int / 32, 32, d2 as int % 32);
  }

  lemma ShiftOutFive(d0: bv8, d1: bv8, d2: bv8)
    ensures (((d0 as bv32) << 16) | ((d1 as bv32) << 8) | (d2 as bv32)) >> 5
      == ((d0 as bv32) << 11) | ((d1 as bv32) << 3) | ((d2 >> 5) as bv32)
  {
  }

  lemma KeptBits(d0: bv8, d1: bv8, d2: bv8)
    ensures (((d0 as bv32) << 11) | ((d1 as bv32) << 3) | ((d2 >> 5) as bv32)) as int
      == d0 as int * 2048 + d1 as int * 8 + d2 as int / 32
  {
    assert (d2 >> 5) as int == d2 as int / 32;
  }

  /** The 16-bit pattern a field holds: its two's complement when negative. */
  function Pattern16(v: int): uint16
    requires -0x8000 <= v < 0x1_0000
  {
    v % 0x1_0000
  }

  /** What the sensor's EEPROM holds for a given set of coefficients. */
  function EncodeCalib(c: Calib): (buf: seq<byte>)
    ensures |buf| == 22
  {
    var ac1, ac2, ac3 := Pattern16(c.ac1), Pattern16(c.ac2), Pattern16(c.ac3);
    var b1, b2, mb := Pattern16(c.b1), Pattern16(c.b2), Pattern16(c.mb);
    var mc, md := Pattern16(c.mc), Pattern16(c.md);
    [ac1 / 0x100, ac1 % 0x100, ac2 / 0x100, ac2 % 0x100, ac3 / 0x100, ac3 % 0x100,
     c.ac4 / 0x100, c.ac4 % 0x100, c.ac5 / 0x100, c.ac5 % 0x100, c.ac6 / 0x100, c.ac6 % 0x100,
     b1 / 0x100, b1 % 0x100, b2 / 0x100, b2 % 0x100, mb / 0x100, mb % 0x100,
     mc / 0x100, mc % 0x100, md / 0x100, md % 0x100]
  }

  lemma SplitWord(w: uint16)
    ensures 0 <= w / 0x100 < 0x100 && BigEndian16(w / 0x100, w % 0x100) == w
  {
  }

  lemma JoinWord(hi: byte, lo: byte)
    ensures BigEndian16(hi, lo) / 0x100 == hi && BigEndian16(hi, lo) % 0x100 == lo
  {
  }

  lemma SignedPattern(v: int16)
    ensures AsInt16(Pattern16(v)) == v
  {
  }

  lemma PatternOfSigned(w: uint16)
    ensures Pattern16(AsInt16(w)) == w
  {
  }

  /** Decoding the EEPROM image of any coefficient set gives it back. */
  lemma DecodeEncode(c: Calib)
    ensures DecodeCalib(EncodeCalib(c)) == c
  {
    var buf := EncodeCalib(c);
    SignedField(c.ac1, buf[0], buf[1]);
    SignedField(c.ac2, buf[2], buf[3]);
    SignedField(c.ac3, buf[4], buf[5]);
    SplitWord(c.ac4);
    SplitWord(c.ac5);
    SplitWord(c.ac6);
    SignedField(c.b1, buf[12], buf[13]);
    SignedField(c.b2, buf[14], buf[15]);
    SignedField(c.mb, buf[16], buf[17]);
    SignedField(c.mc, buf[18], buf[19]);
    SignedField(c.md, buf[20], buf[21]);
  }

  lemma SignedField(v: int16, hi: byte, lo: byte)
    requires hi == Pattern16(v) / 0x100 && lo == Pattern16(v) % 0x100
    ensures AsInt16(BigEndian16(hi, lo)) == v
  {
    SplitWord(Pattern16(v));
    SignedPattern(v);
  }

  /** Every 22-byte block is the image of the coefficients decoded from it:
      the decoder loses no information. */
  lemma EncodeDecode(buf: seq<byte>)
    requires |buf| == 22
    ensures EncodeCalib(DecodeCalib(buf)) == buf
  {
    var e := EncodeCalib(DecodeCalib(buf));
    SignedBytes(buf[0], buf[1]);
    SignedBytes(buf[2], buf[3]);
    SignedBytes(buf[4], buf[5]);
    JoinWord(buf[6], buf[7]);
    JoinWord(buf[8], buf[9]);
    JoinWord(buf[10], buf[11]);
    SignedBytes(buf[12], buf[13]);
    SignedBytes(buf[14], buf[15]);
    SignedBytes(buf[16], buf[17]);
    SignedBytes(buf[18], buf[19]);
    SignedBytes(buf[20], buf[21]);
    assert forall i :: 0 <= i < 22 ==> e[i] == buf[i];
  }

  lemma SignedBytes(hi: byte, lo: byte)
    ensures var p := Pattern16(AsInt16(BigEndian16(hi, lo))); p / 0x100 == hi && p % 0x100 == lo
  {
    PatternOfSigned(BigEndian16(hi, lo));
    JoinWord(hi, lo);
  }

  /** I2C_read_int16's result: the two bytes of 0xF6/0xF7 as an int16_t. */
  function DecodeUT(d: seq<byte>): (ut: int16)
    requires |d| == 2
    ensures ut >= 0 <==> d[0] < 0x80
    ensures (d[0] * 0x100 + d[1] - ut) % 0x1_0000 == 0
  {
    AsInt16(BigEndian16(d[0], d[1]))
  }

  /** The two bytes the sensor sends for a given UT. */
  function EncodeUT(ut: int16): (d: seq<byte>)
    ensures |d| == 2
  {
    var w := Pattern16(ut);
    [w / 0x100, w % 0x100]
  }

  /** UT round-trips through its wire form, both ways. */
  lemma UTRoundTrip(ut: int16, d: seq<byte>)
    requires |d| == 2
    ensures DecodeUT(EncodeUT(ut)) == ut
    ensures EncodeUT(DecodeUT(d)) == d
  {
    SplitWord(Pattern16(ut));
    SignedPattern(ut);
    JoinWord(d[0], d[1]);
    PatternOfSigned(BigEndian16(d[0], d[1]));
  }

  /** UT as the sensor defines it: the unsigned big-endian word of 0xF6 and
      0xF7. */
  function DecodeUTUnsigned(d: seq<byte>): (ut: uint16)
    requires |d| == 2
    ensures ut / 0x100 == d[0] && ut % 0x100 == d[1]
  {
    JoinWord(d[0], d[1]);
    BigEndian16(d[0], d[1])
  }

  /** The unsigned reading preserves the order of the raw words, so a
      warmer die never reads lower; the firmware's signed reading agrees
      with it below 0x8000 and drops by 65536 from there on, which breaks
      that order between 0x7FFF and 0x8000. */
  lemma UTOrder(d: seq<byte>, e: seq<byte>)
    requires |d| == 2 && |e| == 2
    ensures (d[0] < e[0] || (d[0] == e[0] && d[1] <= e[1])) <==> DecodeUTUnsigned(d) <= DecodeUTUnsigned(e)
    ensures d[0] < 0x80 ==> DecodeUT(d) == DecodeUTUnsigned(d)
    ensures d[0] >= 0x80 ==> DecodeUT(d) == DecodeUTUnsigned(d) - 0x1_0000
  {
  }

  /** I2C_read_UP's result: the three bytes of 0xF6..0xF8 with the
      8 - oss unused low bits shifted out. The shifted operand is a
      non-negative int, for which C defines `>> n` as the quotient by 2^n
      (the assembly itself is ShiftOr24). */
  function DecodeUP(d: seq<byte>, oss: nat): (up: int)
    requires |d| == 3 && oss <= 3
    ensures 0 <= up < Pow2(16 + oss)
    ensures up * Pow2(8 - oss) <= BigEndian24(d[0], d[1], d[2]) < (up + 1) * Pow2(8 - oss)
  {
    UPScale(oss);
    QuotientBounds(BigEndian24(d[0], d[1], d[2]), Pow2(8 - oss), Pow2(16 + oss));
    BigEndian24(d[0], d[1], d[2]) / Pow2(8 - oss)
  }

  /** The dropped low bits and the kept high bits make up the 24 bits read. */
  lemma UPScale(oss: nat)
    requires oss <= 3
    ensures Pow2(8 - oss) * Pow2(16 + oss) == 0x100_0000
  {
    Pow2Add(8 - oss, 16 + oss);
    assert Pow2(24) == 0x100_0000 by {
      Pow2Add(8, 16);
      Pow2Add(8, 8);
    }
  }

  lemma QuotientBounds(x: nat, p: int, n: int)
    requires p > 0 && x < p * n
    ensures 0 <= x / p < n
    ensures (x / p) * p <= x < (x / p + 1) * p
  {
    var q := x / p;
    assert x == q * p + x % p;
  }
}
