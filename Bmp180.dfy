/** The BMP180's bus address, register map and control commands, and the
    oversampling setting the firmware is built with. */
module Bmp180 {
  import opened CInt

  /** The sensor's 7-bit I2C slave address. */
  const SlaveAddress: byte := 0x77

  /** An oversampling setting: 0 (one sample) to 3 (eight samples). */
  type Oss = x: int | 0 <= x <= 3

  /** BMP180_OSS, the setting the firmware is compiled with. */
  const ConfiguredOss: Oss := 3

  /** First byte of the calibration EEPROM (AC1's MSB). */
  const RegCalibStart: byte := 0xAA
  /** The measurement-control register. */
  const RegControl: byte := 0xF4
  /** The conversion result: MSB, LSB and XLSB. */
  const RegMsb: byte := 0xF6
  const RegLsb: byte := 0xF7
  const RegXlsb: byte := 0xF8

  /** Starts a temperature conversion. */
  const CmdReadTemp: byte := 0x2E

  /** CMD_READ_PRESSURE for a given setting: the pressure-conversion code
      0x34 in the low six bits and the oversampling setting in bits 7:6. */
  function CmdReadPressure(oss: Oss): (cmd: byte)
    ensures cmd % 64 == 0x34 && cmd / 64 == oss
    ensures cmd != CmdReadTemp
  {
    0x34 + oss * 64
  }

  /** The firmware's pressure command is 0xF4, which also names the control
      register it is written to. */
  lemma ConfiguredPressureCommand()
    ensures CmdReadPressure(ConfiguredOss) == 0xF4 == RegControl
  {
  }
}
