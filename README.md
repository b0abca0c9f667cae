# BMP180 barometric sensor driver — a Dafny model

This project models the BMP180 path of the TM4C123 firmware in
`char16display_bmp180/char16display_bmp180.c`. It has three layers.

- **I2C transactions** (`I2c.dfy`). `I2C_write` and `I2C_read_multiple` run
  against a `Bus` object that stands for the I2C0 master. The bus records
  every driverlib call that drives the bus in `trace`: slave address and
  direction, data put, control command. `I2CMasterDataGet` only reads the
  latched byte and is not recorded. It is fed by a queue `rx` of the bytes
  the slave sends. Each receive command latches the next queued byte, and
  `I2CMasterDataGet` returns it. A read lands the queued bytes in
  `data[0..count)` in order and leaves the rest of the caller's array
  alone. The trace shows the exact framing:
  - a single receive for one byte;
  - for two or more bytes, a burst start, `count - 2` continues and a finish.
- **Byte decoders** (`Calibration.dfy`). These cover the eleven big-endian
  calibration words, of which AC4, AC5 and AC6 are unsigned. They also
  cover UT as an `int16_t` and UP as 24 bits shifted right by `8 - oss`.
  The firmware's `<<`/`|` expressions are stated on bit-vectors in lemmas
  (`ShiftOr16`, `ShiftOr24`) and shown to equal the arithmetic decoders.
  The calibration and UT decoders have encoders, and both round trips are
  proved for each. UP has no encoder, because the shift drops the low
  8 − oss bits. Its contract brackets the 24-bit value between UP·2^(8−oss)
  and (UP+1)·2^(8−oss) instead.
- **Compensation** (`Compensation.dfy`). `BMP180_compensate` follows the
  code, not the datasheet's all-integer version:
  - Every double the C computes is exact, and the model computes it as a
    `real`.
  - The result is truncated toward zero wherever the C stores it into an
    `int32_t` or `uint32_t`.
  - B4 and B7 wrap modulo 2^32.
  - The B7 branch is kept exactly.
  - Line 318 divides by X1 + MD, which is not a power of two, so the double
    quotient is rounded. The rounding cannot move it across an integer,
    because the operands are below 2^27. So the exact quotient truncates
    to the same value.
  - Each step's contract gives the equivalent integer expression with C's
    truncating division. `IntegerCompensate` is the whole recipe as an
    int32 program. The contract of `Compensate` states that the model
    computes exactly that program.

  Where the C is undefined, the model has a precondition:
  - division by zero, when X1 + MD = 0 or B4 = 0;
  - signed overflow in `(UT - AC6) * AC5`, `B6 * B6`, the pressure X1,
    `X1 * 3038` and `-7357 * P`;
  - a negative `X3 + 2^15` converted to `uint32_t`.

  `AC2 * B6` and `AC3 * B6` need no precondition. `B6Products` proves that
  they do not overflow once `B6 * B6` fits, and `ComputeB3` and `ComputeX3`
  state it. B3 and B5 are also proved to fit an
  `int32_t`.

- **Driver state** (`Sensor.dfy`). The class `Device` holds the globals
  `calib` and `B5`, plus the bus:
  - `ReadCalibData` fills `calib` in place;
  - `ReadUT` and `ReadUP` write their command to register 0xF4 and then
    read the result;
  - `Compensate` writes `B5` and nothing else, and returns the temperature
    and the pressure of the pure `Compensation.Compensate`.

The code and the datasheet disagree on the worked example of section 3.5 of
the BMP180 datasheet (`Compensation.DatasheetExample`):
- X2 = −17840128 / 7611 = −2343.99. The C truncates this to −2343, where
  the datasheet prints −2344.
- The firmware keeps `B6 * B6 / 2^12` and the final `(X1 + X2 + 3791) / 2^4`
  as exact doubles.

So the firmware yields B5 = 2400, 15.0 °C and 69965.4375 Pa, where the
datasheet prints 69964 Pa. The model follows the code.

## Model

| member | source | states |
|---|---|---|
| Bmp180.CmdReadPressure | char16display_bmp180/char16display_bmp180.c:62-63 | the pressure command carries 0x34 in its low six bits and the oversampling setting in bits 7:6, and differs from the temperature command 0x2E |
| Bmp180.ConfiguredPressureCommand | char16display_bmp180/char16display_bmp180.c:52-63 | with BMP180_OSS = 3 the pressure command is 0xF4 |
| CInt.TruncOfQuotient | char16display_bmp180/char16display_bmp180.c:317 | truncating the exact quotient of two integers, as an int32_t assignment of a double does, equals C's integer division |
| CInt.AsInt32 | char16display_bmp180/char16display_bmp180.c:341-343 | storing a uint32_t into an int32_t keeps the value modulo 2^32 and is the identity on values that fit |
| Calibration.ShiftOr16 | char16display_bmp180/char16display_bmp180.c:237 | the firmware's shift-left-by-8 and bitwise or of two promoted bytes is the big-endian word hi·256 + lo |
| Calibration.ShiftOr24 | char16display_bmp180/char16display_bmp180.c:245 | the firmware's shift-and-or of three promoted bytes is their big-endian value d0·2^16 + d1·2^8 + d2 |
| Calibration.DecodeCalib | char16display_bmp180/char16display_bmp180.c:280-290 | coefficient k is the big-endian word of bytes 2k and 2k+1, taken unsigned for AC4–AC6 and as two's complement for the other eight |
| Calibration.DecodeEncode | char16display_bmp180/char16display_bmp180.c:66-78 | decoding the EEPROM image of any coefficient set gives that set back |
| Calibration.EncodeDecode | char16display_bmp180/char16display_bmp180.c:280-290 | every 22-byte block is the image of the coefficients decoded from it, so decoding loses nothing |
| Calibration.DecodeUT | char16display_bmp180/char16display_bmp180.c:233-238 | UT is negative exactly when the MSB is 0x80 or more, and is congruent to MSB·256 + LSB modulo 2^16 |
| Calibration.UTRoundTrip | char16display_bmp180/char16display_bmp180.c:233-238 | UT and its two wire bytes determine each other, both ways |
| Calibration.DecodeUTUnsigned | char16display_bmp180/char16display_bmp180.c:237 | the unsigned UT has the MSB as its high byte and the LSB as its low byte |
| Calibration.UTOrder | char16display_bmp180/char16display_bmp180.c:237 | the unsigned UT preserves the order of the raw words; the firmware's signed UT equals it below 0x8000 and is 65536 lower from there on |
| Calibration.DecodeUP | char16display_bmp180/char16display_bmp180.c:241-246 | 0 <= UP < 2^(16+oss), and UP·2^(8−oss) <= the 24-bit raw value < (UP+1)·2^(8−oss), so exactly the low 8 − oss bits are dropped |
| I2c.Write | char16display_bmp180/char16display_bmp180.c:175-188 | the trace grows by exactly: address 0x77 for transmit, put reg, burst-send start, put value, burst-send finish; no byte is received |
| I2c.ReceiveInto | char16display_bmp180/char16display_bmp180.c:211-227 | one receive phase appends its command, stores the next queued byte at data[i] and consumes it, and leaves data past i untouched |
| I2c.ReadMultiple | char16display_bmp180/char16display_bmp180.c:191-230 | count 0 returns 0 and changes neither the bus nor data; otherwise returns 1, appends ReadFrame(reg, count), fills data[0..count) with the next count bytes from the slave in order, and leaves data[count..] unchanged |
| I2c.FrameReceives | char16display_bmp180/char16display_bmp180.c:175-230 | an n-byte read issues exactly n receive commands and a register write issues none |
| I2c.ReceivePhasesOrder | char16display_bmp180/char16display_bmp180.c:203-229 | one byte is a single receive; for n >= 2 the receives are a burst start, then n − 2 continues, then a finish, position by position |
| I2c.SupplySplit | char16display_bmp180/char16display_bmp180.c:294-306 | reading a bytes and then b bytes yields what one read of a + b bytes would, and leaves the same queue |
| I2c.SupplyExact | char16display_bmp180/char16display_bmp180.c:213-227 | while the slave has bytes, a read takes exactly the next ones, with none lost or repeated |
| Compensation.TemperatureX1 | char16display_bmp180/char16display_bmp180.c:317 | X1 is the C quotient of (UT − AC6)·AC5 by 2^15, and lies within ±2^16 when the product fits an int |
| Compensation.TemperatureX2 | char16display_bmp180/char16display_bmp180.c:318 | X2 is the C quotient of MC·2^11 by X1 + MD, and lies within ±2^26 |
| Compensation.CompensateTemperature | char16display_bmp180/char16display_bmp180.c:317-321 | B5 and T fit an int32_t; T is B5/16 rounded half up when B5 >= −8, and rounded with an upward bias of half a step below that |
| Compensation.SquareBound | char16display_bmp180/char16display_bmp180.c:325-326 | when B6·B6 fits an int32_t, −46340 <= B6 <= 46340 and B6·B6 <= 46340² |
| Compensation.B6Products | char16display_bmp180/char16display_bmp180.c:325-332 | when B6·B6 fits an int32_t, so do the int products AC2·B6 and AC3·B6 |
| Compensation.SquareTerm | char16display_bmp180/char16display_bmp180.c:326 | coef·(B6·B6/2^12)/d with an untruncated inner quotient is one C division of coef·B6² by 2^12·d |
| Compensation.ProductTerm | char16display_bmp180/char16display_bmp180.c:327 | coef·B6/d through a double is the C quotient of coef·B6 by d |
| Compensation.ComputeB3 | char16display_bmp180/char16display_bmp180.c:325-330 | B3 is the C quotient by 4 of (4·AC1 + X3)·2^oss + 2, with X3 = B2·B6²/2^23 + AC2·B6/2^11, and fits an int32_t |
| Compensation.ComputeX3 | char16display_bmp180/char16display_bmp180.c:332-334 | X3 is the C quotient by 4 of AC3·B6/2^13 + B1·B6²/2^28 + 2 |
| Compensation.ComputeB4 | char16display_bmp180/char16display_bmp180.c:336 | B4 is (AC4·(X3 + 2^15) mod 2^32) div 2^15, below 2^17, and zero exactly when that wrapped product is below 2^15 |
| Compensation.ComputeB7 | char16display_bmp180/char16display_bmp180.c:338 | B7 is (UP − B3)·(50000 >> oss) reduced once modulo 2^32 |
| Compensation.ConfiguredB7Factor | char16display_bmp180/char16display_bmp180.c:338 | with BMP180_OSS = 3 the factor is 6250 |
| Compensation.DivideB7 | char16display_bmp180/char16display_bmp180.c:340-344 | below 2^31 the quotient is exactly 2·B7 div B4; from 2^31 on it is even and at most one below 2·B7 div B4 when B4 >= 2, and wraps to 2·B7 − 2^32 when B4 = 1 |
| Compensation.PressureX1 | char16display_bmp180/char16display_bmp180.c:346 | (P/2^8)·(P/2^8) truncated is P² div 2^16 |
| Compensation.PressureX1Scaled | char16display_bmp180/char16display_bmp180.c:347 | X1·3038/2^16 truncated is X1·3038 div 2^16 |
| Compensation.PressureX2 | char16display_bmp180/char16display_bmp180.c:348 | X2 is the C quotient of −7357·P by 2^16 |
| Compensation.FinalPressure | char16display_bmp180/char16display_bmp180.c:350 | the pressure is a whole number of sixteenths of a pascal, 16P + X1 + X2 + 3791, and lies in [n, n + 1) for the integer-recipe result n = P + (X1 + X2 + 3791) div 16 |
| Compensation.CompensatePressure | char16display_bmp180/char16display_bmp180.c:325-350 | the double and uint32_t arithmetic from B6 gives the int32 program's pressure, as that many sixteenths of a pascal, and that program's B4 is not zero |
| Compensation.Compensate | char16display_bmp180/char16display_bmp180.c:311-351 | wherever the C is defined, the int32 program is defined too, and the outputs equal it: the same B5, temperature T/10 and pressure (sixteenths)/16 |
| Compensation.TemperatureIsInteger | char16display_bmp180/char16display_bmp180.c:317-321 | the double arithmetic gives the int32 program's B5 = X1 + X2 and T = (B5 + 8) / 16 with C division, and that program's X1 + MD is not zero |
| Compensation.IntegerCompensate | char16display_bmp180/char16display_bmp180.c:317-350 | the int32 reference: its B5 is the temperature step's, and T is B5/16 rounded half up for B5 >= −8 and biased up by half a step below |
| Compensation.PIsInteger | char16display_bmp180/char16display_bmp180.c:325-344 | the double arithmetic of B3, B4, B7 and the branch yields the int32 program's B4 and P |
| Compensation.DatasheetExample | char16display_bmp180/char16display_bmp180.c:309-351 | for the datasheet's calibration, UT = 27898, UP = 23843 and oss = 0, every step is defined and the result is B5 = 2400, 15.0 °C, 69965.4375 Pa |
| Compensation.UTSignFinding | char16display_bmp180/char16display_bmp180.c:237 | the raw word 0x8000 gives −347.2 °C through the firmware's int16_t UT, and 51.1 °C through the unsigned UT |
| Sensor.ReadInt16 | char16display_bmp180/char16display_bmp180.c:233-238 | appends a 2-byte read frame and returns the int16_t decoding of the next two bytes |
| Sensor.ReadUncompensatedPressure | char16display_bmp180/char16display_bmp180.c:241-246 | appends a 3-byte read frame and returns the UP decoding of the next three bytes for BMP180_OSS = 3 |
| Sensor.AssembleUT | char16display_bmp180/char16display_bmp180.c:237 | the shift-and-or of the two bytes on bit-vectors, stored into an int16_t, is the int16_t decoding of the two bytes |
| Sensor.AssembleUP | char16display_bmp180/char16display_bmp180.c:245 | the shift-and-or expression shifted right by 8 − BMP180_OSS = 5 is the UP decoding of the three bytes |
| Sensor.JoinBytes | char16display_bmp180/char16display_bmp180.c:245 | the shift-and-or of three bytes, shifted right by five bits, is their big-endian value divided by 2^5 |
| Sensor.ConfiguredUP | char16display_bmp180/char16display_bmp180.c:241-246 | for BMP180_OSS = 3, UP is the 24-bit value divided by 2^5 and lies below 2^19 |
| Calibration.ShiftOr24Right5 | char16display_bmp180/char16display_bmp180.c:245 | shifting the 32-bit shift-and-or of three bytes right by five bits gives their big-endian value divided by 32 |
| Sensor.Device.constructor | char16display_bmp180/char16display_bmp180.c:80-83 | calib and B5 start zeroed |
| Sensor.Device.ReadCalibData | char16display_bmp180/char16display_bmp180.c:273-291 | one 22-byte read from 0xAA; calib becomes the decoding of the next 22 bytes; B5 is unchanged |
| Sensor.Device.ReadUT | char16display_bmp180/char16display_bmp180.c:294-298 | writes 0x2E to 0xF4, then reads two bytes from 0xF6, and returns their int16_t decoding |
| Sensor.Device.ReadUP | char16display_bmp180/char16display_bmp180.c:301-307 | writes CMD_READ_PRESSURE to 0xF4, then reads three bytes from 0xF6, and returns their UP decoding |
| Sensor.Device.Compensate | char16display_bmp180/char16display_bmp180.c:311-351 | changes only B5, which becomes the temperature step's B5; the outputs are Compensation.Compensate of calib, UT and UP |

## Left out

- The LCD driver is not modelled: `LCD_pulseEnable`, `LCD_write4bits`,
  `LCD_command`, `LCD_data`, `LCD_init`, `LCD_setCursor` and `LCD_print`
  only toggle GPIO pins with delays.
- `I2C_init`, the clock setup, `main`'s loop and its `snprintf` text are
  left out. They are hardware configuration and text output.
- `delay_ms` and `delay_us` are left out. So are the 5 ms and 28 ms
  conversion waits and every `while (I2CMasterBusy(...))` spin. Each is
  taken as a completed step. Bus hangs and timing are not modelled.
- Bus errors and NACKs are not modelled, because the firmware never checks
  for them. When the slave has no byte left, a receive latches 0xFF, the
  level of an idle pulled-up bus.
- The empty `ADCSeq0Handler` stub has no behaviour to model.
- The other demos in the repository are not part of this model: the
  plain LCD demo, the analog-sensor demos, the ADC demo and the
  ultrasonic demo.
- Compensation.DegreesCelsius: the final `(float)T / 10.0f` rounding to
  single precision is not modelled. The value is the exact quotient.
- Compensation.FinalPressure: the final `(float)` cast is not modelled. The
  value is the exact double.
- Compensation.ComputeB3: `<< BMP180_OSS` is modelled as multiplication by
  2^oss also for a negative operand. The compiler does this, but C leaves
  it undefined.
- Compensation.PressureDefined, Compensation.TemperatureDefined: these
  exclude only the inputs for which the C is undefined. Those are division
  by zero, signed overflow, and a negative double converted to
  `uint32_t`. The firmware produces unspecified results there, and the
  model does not describe them.
- Compensation.Compensate: the oversampling setting is a parameter in
  0..3. The firmware fixes it at 3, and `Sensor` uses 3. The datasheet
  example needs 0.
- Sensor.Device.ReadUT keeps the firmware's signed `int16_t` read, to stay
  faithful to line 237. The corrected unsigned decoder of the Findings
  table is `Calibration.DecodeUTUnsigned`.

## Findings

| source | as written | input that shows it | evidently intended | confidence | as-written member | corrected member |
|---|---|---|---|---|---|---|
| char16display_bmp180/char16display_bmp180.c:237 | UT is returned as an `int16_t`, so raw words from 0x8000 up read as negative numbers | bytes 0x80 0x00 from 0xF6/0xF7 with the datasheet's calibration: B5 = −55566 and −347.2 °C | UT is the unsigned 16-bit word, as the datasheet defines it. It gives B5 = 8182 and 51.1 °C, inside the sensor's −40 to +85 °C range | medium, not executed; the threshold depends on the part's calibration | Compensation.UTSignFinding | Calibration.DecodeUTUnsigned |
