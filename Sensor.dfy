/** The BMP180 driver proper: the firmware's global calibration record and
    B5, the register-level reads built on the I2C layer, and the
    compensation step that updates B5. The conversion waits after each
    command are completed steps. */
module Sensor {
  import opened CInt
  import opened Bmp180
  import opened I2c
  import opened Calibration
  import opened Compensation

  /** I2C_read_int16: two bytes read from reg, assembled big-endian by the
      firmware's `(data[0] << 8) | data[1]` and stored as an int16_t. */
  method ReadInt16(bus: Bus, reg: byte) returns (v: int16)
    modifies bus
    ensures bus.trace == old(bus.trace) + ReadFrame(reg, 2)
    ensures bus.rx == Remaining(old(bus.rx), 2)
    ensures v == DecodeUT(Supply(old(bus.rx), 2))
  {
    var data := new byte[2];
    var _ := ReadMultiple(bus, reg, 2, data);
    assert data[..2] == [data[0], data[1]];
    v := AssembleUT(data[0], data[1]);
  }

  /** The expression of I2C_read_int16: `(data[0] << 8) | data[1]` on bytes
      promoted to int, stored into an int16_t. */
  method AssembleUT(d0: byte, d1: byte) returns (v: int16)
    ensures v == DecodeUT([d0, d1])
  {
    var h, l := Bits8(d0), Bits8(d1);
    var word := ((h as bv32) << 8) | (l as bv32);
    ShiftOr16(h, l);
    v := AsInt16(word as int);
  }

  /** I2C_read_UP: three bytes read from reg, assembled big-endian and
      shifted right by 8 - BMP180_OSS. */
  method ReadUncompensatedPressure(bus: Bus, reg: byte) returns (up: uint32)
    modifies bus
    ensures bus.trace == old(bus.trace) + ReadFrame(reg, 3)
    ensures bus.rx == Remaining(old(bus.rx), 3)
    ensures up == DecodeUP(Supply(old(bus.rx), 3), ConfiguredOss)
  {
    var data := new byte[3];
    var _ := ReadMultiple(bus, reg, 3, data);
    assert data[..3] == [data[0], data[1], data[2]];
    up := AssembleUP(data[0], data[1], data[2]);
  }

  /** The expression of I2C_read_UP: `(d0 << 16) | (d1 << 8) | d2` on
      bytes promoted to int, shifted right by 8 - BMP180_OSS, which is 5. */
  method AssembleUP(d0: byte, d1: byte, d2: byte) returns (up: uint32)
    ensures up == DecodeUP([d0, d1, d2], ConfiguredOss)
  {
    var raw := JoinBytes(Bits8(d0), Bits8(d1), Bits8(d2));
    ConfiguredUP(d0, d1, d2);
    up := (raw >> 5) as int;
  }

  /** `(d0 << 16) | (d1 << 8) | d2` of I2C_read_UP, on bytes promoted to
      int: shifted right by five bits, it is the big-endian value of the
      three bytes divided by 2^5. */
  method JoinBytes(d0: bv8, d1: bv8, d2: bv8) returns (raw: bv32)
    ensures (raw >> 5) as int == BigEndian24(d0 as int, d1 as int, d2 as int) / 32
  {
    raw := ((d0 as bv32) << 16) | ((d1 as bv32) << 8) | (d2 as bv32);
    ShiftOr24Right5(d0, d1, d2);
  }

  /** For BMP180_OSS = 3, UP is the 24-bit value divided by 2^5, below 2^19. */
  lemma ConfiguredUP(d0: byte, d1: byte, d2: byte)
    ensures DecodeUP([d0, d1, d2], ConfiguredOss) == BigEndian24(d0, d1, d2) / 32 < 0x8_0000
  {
    Pow2Values();
  }

  /** The firmware's state: the calibration record `calib`, the global
      `B5`, and the I2C0 master it talks through. */
  class Device {
    const bus: Bus
    var calib: Calib
    var b5: int32

    /** Both globals start zeroed, as C static storage does. */
    constructor(bus: Bus)
      ensures this.bus == bus
      ensures calib == Calib(0, 0, 0, 0, 0, 0, 0, 0, 0, 0, 0) && b5 == 0
    {
      this.bus := bus;
      calib := Calib(0, 0, 0, 0, 0, 0, 0, 0, 0, 0, 0);
      b5 := 0;
    }

    /** BMP180_read_calib_data: one 22-byte read from 0xAA, decoded into
      `calib`; B5 is untouched. */
    method ReadCalibData()
      modifies this, bus
      ensures bus.trace == old(bus.trace) + ReadFrame(RegCalibStart, 22)
      ensures bus.rx == Remaining(old(bus.rx), 22)
      ensures calib == DecodeCalib(Supply(old(bus.rx), 22)) && b5 == old(b5)
    {
      ghost var rx0 := bus.rx;
      var buffer := new byte[22];
      var _ := ReadMultiple(bus, RegCalibStart, 22, buffer);
      assert buffer[..] == buffer[..22] == Supply(rx0, 22);
      calib := DecodeCalib(buffer[..]);
    }

    /** BMP180_read_UT: start a temperature conversion by writing 0x2E to
        the control register, then read UT from 0xF6 and 0xF7. */
    method ReadUT() returns (ut: int32)
      modifies bus
      ensures bus.trace == old(bus.trace) + WriteFrame(RegControl, CmdReadTemp) + ReadFrame(RegMsb, 2)
      ensures bus.rx == Remaining(old(bus.rx), 2)
      ensures ut == DecodeUT(Supply(old(bus.rx), 2))
    {
      Write(bus, RegControl, CmdReadTemp);
      ut := ReadInt16(bus, RegMsb);
    }

    /** BMP180_read_UP: start a pressure conversion with CMD_READ_PRESSURE,
        then read UP from 0xF6 to 0xF8. */
    method ReadUP() returns (up: int32)
      modifies bus
      ensures bus.trace == old(bus.trace) + WriteFrame(RegControl, CmdReadPressure(ConfiguredOss)) + ReadFrame(RegMsb, 3)
      ensures bus.rx == Remaining(old(bus.rx), 3)
      ensures up == DecodeUP(Supply(old(bus.rx), 3), ConfiguredOss)
    {
      Write(bus, RegControl, CmdReadPressure(ConfiguredOss));
      up := ReadUncompensatedPressure(bus, RegMsb);
    }

    /** BMP180_compensate: writes the global B5 and hands back the
        temperature and the pressure; `calib` and the bus are untouched, so
        the outputs are a function of calib, UT and UP alone. The pressure
        step reads back the B5 the temperature step has just written. */
    method Compensate(ut: int32, up: int32) returns (temperature: real, pressure: real)
      requires PressureDefined(calib, ut, up, ConfiguredOss)
      modifies this`b5
      ensures calib == old(calib)
      ensures Readings(b5, temperature, pressure) == Compensation.Compensate(old(calib), ut, up, ConfiguredOss)
    {
      var c := calib;
      var temp := CompensateTemperature(c, ut);
      b5 := temp.b5;
      temperature := DegreesCelsius(temp.t);
      pressure := CompensatePressure(c, b5 - 4000, up, ConfiguredOss);
    }
  }
}
