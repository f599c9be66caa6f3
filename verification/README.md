# Wind-converter sensor codecs and control numerics in Dafny

This project models the parts of the wind-turbine buck converter's software
that are pure computation, and proves properties of them:

- **INA229 current monitor** (`Ina229`). The SPI command byte holds a 6-bit
  register address in bits 7..2, a zero in bit 1 and the read flag in bit 0.
  The model covers the 16-bit register read, the module-level 16-bit
  `write_register` frame, and the 24-bit `read_register_24` with
  two's-complement sign extension. It also covers the packed ADC_CONFIG word
  and the three start-up writes.
- **MCP3208 12-bit ADC** (`Mcp3208`). This is the newer driver class: the
  channel range check, the positional three-byte command frame, the 12-bit
  decode of the answer and the scaling of a code to a voltage.
- **Older single-file driver** (`Hardware`). Its `_read_channel` masks the
  channel instead of checking its range. The model proves that it sends the
  same frame as the newer driver, and returns the same code, for channel
  `channel mod 8`. It also covers `read_voltage` and the PWM duty-to-percent
  clamp of `set_duty_cycle`.
- **Controller** (`Controller`). The PI controller saturates only its output
  and never its integral. The wind-speed to target-voltage lookup is built
  on `bisect_left` and interpolates linearly between breakpoints.

Supporting modules:

- `Bits` models Python's `&`, `|`, `<<` and `>>` on unbounded integers; the
  right operand of `&` and `|` must be non-negative, as every mask and every
  byte in the drivers is. It
  proves the lemmas that turn masks, shifts and disjoint ors into arithmetic.
  This lets the codec bodies keep the source's bit expressions literally.
- `Spi` holds the byte type, the transport and the `Exchange` record of one
  driver call.
- `Results` holds `Result` and `Option`, which stand in for Python's
  exceptions and `None` handles.
- `Numerics` holds the shared `[0, 1]` saturation and some real-arithmetic
  facts.

The SPI exchange (`spidev`'s `xfer`/`xfer2`, `transfer_mcp`, the INA229's
`_xfer`) is a function parameter `Transport` from the outbound list to the
inbound bytes. Each driver call returns an `Exchange`. It holds the frames
the call handed to the transport, in order, and the call's value or error.
So "no transfer takes place" is the statement `sent == []`.

The Python code indexes the answer without checking its length, so a short
answer raises `IndexError`; the model returns it as a `ShortResponse` error.
Each read also proves that a transport answering one byte per byte sent
(`SameLength`) never produces that error. Python floats are modelled as
exact reals.

Two behaviours of the code are easy to miss:

- The module-level `write_register` and `read_register_24` do not check the
  register address, and `write_register` sends only the low 16 bits of its
  value. There is no calibration range error.
- `get_voltage_target` stops on an unsorted table through a failed `assert`,
  and on an empty table through an `IndexError` from `lookup_table[0]`. Both
  become `LookupError` values.

## Model

| member | source | states |
|---|---|---|
| `Ina229.Cmd` | src/hal/ina229.py:40-45 | Fails exactly when the address is below 0 or above 0x3F, with that address as the error. Otherwise the byte gives back the address through `cmd >> 2` and carries the read flag in bit 0 and a zero in bit 1. |
| `Ina229.CmdValue` | src/hal/ina229.py:45 | For every valid address the command byte is `4*reg + read`, which is a byte. |
| `Ina229.CmdExamples` | src/hal/ina229.py:43-45 | Address 0x3F gives 0xFD for a read and 0xFC for a write. The current register gives 0x1D for a read. Addresses 0x40 and -1 are refused. |
| `Ina229.ReadU16` | src/hal/ina229.py:55-61 | An invalid address sends nothing and fails. A valid one sends exactly `[4*reg+1, 0, 0]`, a read frame of two zero bytes. Success means the big-endian value of inbound bytes 1 and 2, always below 65536. A length-preserving transport always succeeds. |
| `Ina229.WriteRegisterFrame` | src/hal/ina229.py:91-97 | Sends three bytes. The command selects `reg`, has both low bits zero, and agrees with `Cmd` on valid addresses. The frame is all bytes exactly when the address is valid. The two data bytes hold the value modulo 2^16, high byte first, for any integer value. |
| `Ina229.WriteReadRoundTrip` | src/hal/ina229.py:95-96 | For every value in 0..65535, the 16-bit decode of the two data bytes written gives the value back. |
| `Ina229.Word16` | src/hal/ina229.py:61 | The two payload bytes assemble big-endian into `hi * 256 + lo`, a value below 65536. |
| `Ina229.Word24` | src/hal/ina229.py:106 | The three payload bytes assemble big-endian into a value in 0..2^24-1. |
| `Ina229.FromTwosComplement24` | src/hal/ina229.py:109-114 | The result lies in [-2^23, 2^23-1]. It is the raw value, less 2^24 exactly when it is negative. It is negative exactly when bit 23 of the raw value is set. |
| `Ina229.SignExtensionCongruent` | src/hal/ina229.py:110-114 | The sign-extended value is congruent to the raw value modulo 2^24. |
| `Ina229.SignExtensionRoundTrip` | src/hal/ina229.py:110-114 | Every 24-bit signed value comes back unchanged after encoding as two's complement and sign extending. |
| `Ina229.SignExtensionExamples` | src/hal/ina229.py:110-114 | 0x800000 gives -8388608, 0x7FFFFF gives 8388607, 0x000001 gives 1 and 0xFFFFFF gives -1. |
| `Ina229.ReadRegister24` | src/hal/ina229.py:100-114 | Sends exactly `[4*reg+1, 0, 0, 0]`, a read frame whose command agrees with `Cmd` on valid addresses. Success means a value in [-2^23, 2^23-1], congruent modulo 2^24 to inbound bytes 1..3 read big-endian, and negative exactly when inbound byte 1 is at least 0x80. A length-preserving transport always succeeds. |
| `Ina229.AdcConfigFields` | src/hal/ina229.py:130 | The ADC_CONFIG word is 0xBB40 and fits in 16 bits. Its mode field is 0xB, both conversion-time fields are 5 and the averaging bits are 0. |
| `Ina229.ConfigureFrames` | src/hal/ina229.py:120-135 | The start-up sends three writes in order: 0 to CONFIG, 0xBB40 to ADC_CONFIG, and the shunt calibration modulo 2^16 to SHUNT_CAL. Each is a byte frame whose command selects the register with bits 1 and 0 both zero. |
| `Mcp3208.CheckChannel` | src/hal/mcp3208.py:25-27 | Fails exactly when the channel is outside 0..7, with that channel as the error. |
| `Mcp3208.CommandFrame` | src/hal/mcp3208.py:38-42 | Three bytes: the first is 0x06 or 0x07, the second one of 0x00, 0x40, 0x80 or 0xC0, and the third 0. The channel is recovered from bit 0 of the first byte and the top two bits of the second. |
| `Mcp3208.CommandFrameInjective` | src/hal/mcp3208.py:38-42 | Distinct channels give distinct frames. |
| `Mcp3208.Decode12` | src/hal/mcp3208.py:46 | The code is the low nibble of inbound byte 1 times 256 plus inbound byte 2, so it lies in 0..4095 whatever bytes come back. |
| `Mcp3208.DecodeResponse` | src/hal/mcp3208.py:46 | Every code in 0..4095 is decoded from the answer that carries it, so the decode reaches the whole 12-bit range. |
| `Mcp3208.DecodeIgnoresPadding` | src/hal/mcp3208.py:46 | Two answers that agree in the low nibble of byte 1 and in byte 2 decode alike. Byte 0 and the high nibble of byte 1 do not matter. |
| `Mcp3208.Scale` | src/hal/mcp3208.py:54 | The voltage is to `vref` as the code is to 4095 (`v * 4095 == raw * vref`), so full scale reads exactly `vref`. |
| `Mcp3208.ScaleProperties` | src/hal/mcp3208.py:54 | For vref ≥ 0 every code scales into [0, vref], and a larger code never gives a lower voltage. Full scale gives exactly vref. |
| `Mcp3208.ReadRaw` | src/hal/mcp3208.py:31-47 | An invalid channel fails with no transfer. A valid channel sends exactly one frame, `CommandFrame(channel)`. Success means the 12-bit decode of the answer. A length-preserving transport always succeeds. |
| `Mcp3208.ReadVoltage` | src/hal/mcp3208.py:49-54 | Makes the same transfers as `read_raw` and fails exactly when it does. Success means the raw code scaled by `vref / 4095`, which lies in [0, vref] for vref ≥ 0. |
| `Mcp3208.FullScaleReading` | src/hal/mcp3208.py:43-54 | A full-scale answer `[0x00, 0x0F, 0xFF]` reads as the code 4095 and as exactly vref. |
| `Mcp3208.DefaultVrefFullScale` | src/hal/mcp3208.py:13 | With the constructor's default reference of 3.3 V, a full-scale answer reads as 3.3. |
| `Hardware.ChannelFrame` | old/hardware.py:27-29 | For any integer channel, even without a range check, all three frame bytes lie in 0..255. The frame is the newer driver's frame for `channel mod 8`. |
| `Hardware.SameFrameAsDriver` | old/hardware.py:28-30 | For channels 0..7 the older driver sends the same frame as the newer one. |
| `Hardware.ReadChannel` | old/hardware.py:22-32 | Without an SPI handle nothing is sent and the call fails. Otherwise it sends one channel frame, and success means the decode `(rx[1] mod 16) * 256 + rx[2]` of the answer, a code in 0..4095. A length-preserving transport always succeeds. |
| `Hardware.ReadChannelAgreesWithDriver` | old/hardware.py:22-32 | For any integer channel, the older read and the newer driver's `read_raw` on `channel mod 8` send the same frames, succeed together and return the same code. |
| `Hardware.ReadVoltage` | old/hardware.py:36-39 | Makes the same transfers as `_read_channel` and fails exactly when it does. Success means the code scaled by `vref / 4095`, in [0, vref] for vref ≥ 0. |
| `Hardware.SetDutyCycle` | old/hardware.py:54-62 | Fails exactly when PWM has not been started. Otherwise the percentage lies in [0, 100]: 0 for duty ≤ 0, 100 for duty ≥ 1, and `duty * 100` in between. |
| `Numerics.Clamp01` | old/hardware.py:61 | The saturated value lies in [0, 1]. It is the input when the input is in range, 0 below the range and 1 above it. |
| `Numerics.Clamp01Monotone` | old/controller.py:24 | Saturation keeps order: a larger input never gives a smaller output. |
| `Controller.NewController` | old/controller.py:4-12 | A new controller keeps its gains and starts with an integral of 0. |
| `Controller.Update` | old/controller.py:14-24 | The integral grows by exactly `(Vref - Vout) * Ts` and the gains do not change. The duty lies in [0, 1]. It equals `Kp*error + Ki*integral` when that value is in [0, 1], and is 0 below that range and 1 above it. |
| `Controller.Run` | old/controller.py:14-24 | A run of updates returns one duty per period, each in [0, 1], and keeps the gains. |
| `Controller.RunIntegral` | old/controller.py:19-20 | After any run the integral is the starting integral plus the sum of `error * Ts` over the periods. Nothing ever clamps it. |
| `Controller.SaturatedWindup` | old/controller.py:19-24 | If the proportional term alone saturates the output and the error stays positive, then n identical periods give duty 1 every time. The integral grows by n times `error * Ts`. |
| `Controller.SaturationExample` | old/controller.py:19-24 | With Kp=0.35, Ki=0.01, Vref=10, Vout=0 and Ts=0.001, two updates both return 1.0 while the integral goes 0.01, then 0.02. |
| `Controller.FirstAtLeast` | old/controller.py:33 | The index of the first element at least `x`, or the length if there is none. Every element before it is below `x`. |
| `Controller.BisectLeft` | old/controller.py:33 | The binary search of `bisect_left` on a sorted list returns exactly `FirstAtLeast`. |
| `Controller.VoltageTarget` | old/controller.py:27-52 | Fails exactly when the speeds are unsorted or the table is empty; an unsorted table gives `UnsortedTable`. A speed at or below the first breakpoint gives the first voltage. A speed above the last breakpoint gives the last voltage. |
| `Controller.InteriorBracket` | old/controller.py:33-49 | For a speed strictly inside a sorted table, the bracketing breakpoints satisfy `s0 < speed ≤ s1`. So `s1 == s0` never happens and the division is defined. The result lies between `v0` and `v1`. |
| `Controller.AtBreakpoint` | old/controller.py:33-52 | At a breakpoint's own speed the target is that breakpoint's voltage, when no earlier breakpoint has the same speed. |
| `Controller.Interpolate` | old/controller.py:49-52 | The result lies on the straight line through `(s0, v0)` and `(s1, v1)`: `(v - v0) * (s1 - s0) == (speed - s0) * (v1 - v0)`. It is `v0` at `s0` and `v1` at `s1`. |
| `Controller.InterpolateBetween` | old/controller.py:49-52 | Inside a segment the interpolated voltage lies between the segment's end voltages and reaches `v1` at `s1`. |
| `Controller.InterpolateMonotone` | old/controller.py:49-52 | On a rising segment the interpolated voltage never falls as the speed rises. |
| `Controller.SegmentBounds` | old/controller.py:36-52 | For a table sorted in speed and voltage, the target lies between the voltages of the breakpoints around the index `bisect_left` finds. At the ends it is the end voltage. |
| `Controller.InteriorValue` | old/controller.py:42-52 | Strictly inside the table, the target is the interpolation on the segment `bisect_left` selects, and that segment has distinct speeds. |
| `Controller.VoltageTargetMonotone` | old/controller.py:27-52 | When a table rises in both speed and voltage, a higher wind speed never gives a lower target voltage. |
| `Controller.WindTableExample` | old/controller.py:27-52 | With the table (5,50), (10,55), (15,60), (20,65), speeds 0, 10, 12.5 and 25 give 50, 55, 57.5 and 65. |

## Left out

- The SPI and GPIO wrappers in `src/hal/spi.py` and `src/hal/gpio.py` are not part of this model. The SPI class there is stubs only, and the bus lock and chip-select timing are concurrency and timing. The transport parameter stands for the exchange.
- The INA229 `_xfer` device dispatch (`src/hal/ina229.py:47-52`) is not modelled. The transport parameter stands for whichever device it would select.
- `read_u16` calls `self.xfer`, which the class does not define (it defines `_xfer`). The model sends the frame through the transport, as evidently intended.
- `write_u16` is only `pass`, and the file has a dangling `def` at `src/hal/ina229.py:67`. Neither has behaviour to model.
- The INA229 script part (`src/hal/ina229.py:82-156`) is left out, apart from `write_register`, `read_register_24`, the `adc_config` word and the three configuration writes, which are modelled. What is left out covers opening the device, the sleeps, the endless read-and-print loop, `current_amps` and the `KeyboardInterrupt` handling. These are I/O and timing.
- The float computation of `SHUNT_CAL` (`src/hal/ina229.py:79`) is left out. It is float arithmetic on placeholder constants. `ConfigureFrames` takes the value as a parameter and states what `write_register` sends for it.
- `init_adc`, `init_pwm` and `shutdown` in `old/hardware.py` are hardware side effects and are left out. The global `_spi` and `_pwm` handles become parameters: an optional transport, and whether PWM was started.
- The `vref=3.3` default of the older `read_voltage` (`old/hardware.py:36`) is not a separate constant. `Hardware.ReadVoltage` takes `vref` as a parameter, and `Mcp3208.DefaultVref` holds the same 3.3.
- The `ChangeDutyCycle` call itself is left out. `SetDutyCycle` returns the percentage it would be handed.
- `old/buck_code.py` is left out: the periodic loop, the sleeps, the printing and the shutdown wiring.
- Python floats are modelled as exact reals, so IEEE-754 rounding is not modelled. `SaturationExample`, `WindTableExample` and `FullScaleReading` hold exactly over the reals.
- `Controller.VoltageTarget`: the model does not prove continuity of the lookup across breakpoints.
- `Controller.VoltageTarget`: `bisect_left` on an unsorted list is not modelled, because the `assert` on line 31 stops such a call first.
