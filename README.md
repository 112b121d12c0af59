# PIM447 trackball driver, modelled in Dafny

This project models the driver for the Pimoroni PIM447 trackball, a small
I2C peripheral with four LEDs (red, green, blue, white), four motion
counters (left, right, up, down) and a push switch.

- `i2c.dfy`, module `I2cBus`: the bus the driver talks through. `Byte` is
  an unsigned 8-bit value and `Result` is success or transport failure. The
  class `I2c` offers `SetSlaveAddress`, `BlockWrite` and `BlockRead`. Each
  call may fail, nondeterministically. A read returns bytes the model does
  not constrain beyond their number. Every request goes into the ghost
  `log` as `Completed(op, reply)` or `Failed(op)`. `StopsAtFirstFailure`
  describes the log left by requests issued one after another and abandoned
  at the first failure, which is what Rust's `?` does.
- `pim447.dfy`, module `Pim447`: the driver in `src/pim447.rs`.
  - Register and mask constants, and the `Rgbw`, `Input` and `Command` types.
  - The pure parts: `Scale` and `PhysicalColour` (logical colour to LED
    levels), `LedWrites` (the four register writes), `DecodeInput` (the
    five input registers to an `Input`), and `ChipId` with its encoder
    `ChipIdBytes`.
  - The class `Trackball`, holding the bus, the byte-order flag, the
    contrast and the logical colour.
- `legacy.dfy`, module `Legacy`: the older driver in `src/main.rs`. It
  keeps only a contrast `contraste`, set to 0xFF at creation. It reuses the
  register layout, scaling, LED write sequence and chip check of `Pim447`.

The LED levels written for a logical channel `l` at contrast `k` are
`l * k / 255`, truncated. The factor is forced to zero when all four logical
channels are zero. `BlackFactorRedundant` shows that, in integer arithmetic,
forcing the zero changes no written value.

## Model

| member | source | states |
|---|---|---|
| I2cBus.IssuedInOrder | src/pim447.rs:131-134 | a run abandoned at the first failure issues a prefix of the requests in order; every request but the last completed; it succeeded iff all requests completed |
| Pim447.Scale | src/pim447.rs:124-129 | the written level is the truncated quotient of `level * factor / 255` (`p*255 <= level*factor < (p+1)*255`); it is at most `level`; zero at factor 0; equal to `level` at factor 255 |
| Pim447.PhysicalColour | src/pim447.rs:122-129 | black gives black; contrast 0 gives black; contrast 255 gives the logical colour unchanged; no physical channel exceeds its logical channel |
| Pim447.ScaleMonotone | src/pim447.rs:124-129 | raising the contrast never lowers a written level |
| Pim447.BlackFactorRedundant | src/pim447.rs:122-123 | forcing the factor to zero for black gives the same levels as scaling by the contrast |
| Pim447.PhysicalChannel | src/pim447.rs:124-129 | each physical channel is `floor(logical * contrast / 255)` and lies between 0 and the logical channel |
| Pim447.LedWritesInOrder | src/pim447.rs:131-134 | a colour update writes a prefix of registers 0x00, 0x01, 0x02, 0x03, in order; each write is the single byte of that channel; all four are written iff the update succeeds |
| Pim447.DarkWritesZero | src/pim447.rs:122-134 | a black colour, or contrast 0, writes only zero bytes |
| Pim447.DecodeInput | src/pim447.rs:141-163 | `x` and `y` lie in [-255, 255]; `clicked` is 0 or 0x80; `clickStateUpdate` is 0 or 1; a sample with no state update has zero motion and no click-state update |
| Pim447.SwitchBits | src/pim447.rs:147-148 | `clicked` is the top bit of the switch byte; the double negation leaves `clickStateUpdate` equal to the lowest bit |
| Pim447.NoUpdateIffAtRest | src/pim447.rs:150-155 | `stateUpdate` is false iff left, right, up and down are all zero and the click-state-update bit is clear |
| Pim447.ChipId | src/pim447.rs:87-91 | the decoded identifier is a 16-bit value |
| Pim447.ChipIdOfBytes | src/pim447.rs:88-91 | encoding an identifier and decoding it in the same byte order gives it back |
| Pim447.BytesOfChipId | src/pim447.rs:88-91 | decoding two bytes and encoding the result in the same byte order gives them back |
| Pim447.ChipIdEndianSwap | src/pim447.rs:88-91 | the big-endian decode of two bytes is the little-endian decode of the swapped bytes |
| Pim447.ChipIdAccepted | src/pim447.rs:88-97 | the identifier equals 0xBA11 exactly for bytes 0xBA, 0x11 when decoding big-endian, and 0x11, 0xBA when decoding little-endian |
| Pim447.ProbeChip | src/pim447.rs:82-98 | selects address 0x0A, then reads 2 bytes at 0xFA; success depends only on the two transfers; a wrong identifier only raises `mismatch` |
| Pim447.WriteLeds | src/pim447.rs:131-136 | the four LED writes are issued in order and abandoned at the first failure |
| Pim447.Trackball.constructor | src/pim447.rs:61-78 | the new driver has contrast 0 and a black logical colour, keeps the given byte order, and makes no bus traffic |
| Pim447.Trackball.TurnOn | src/pim447.rs:81-99 | the chip probe above, with the driver's byte order; no field of the driver changes |
| Pim447.Trackball.TurnOff | src/pim447.rs:102-105 | contrast becomes 0; the logical colour is kept; only zero bytes are written, to the LED registers in order |
| Pim447.Trackball.SetContrast | src/pim447.rs:108-111 | contrast becomes `c`; the logical colour is kept; the stored colour is re-applied at the new contrast |
| Pim447.Trackball.SetColour | src/pim447.rs:114-137 | the logical colour becomes `(r, g, b, w)` unscaled, even when a write fails; contrast is kept; the scaled levels are written in register order, stopping at the first failure |
| Pim447.Trackball.ReadInput | src/pim447.rs:140-166 | exactly one 5-byte read at register 0x04; on success the result is `DecodeInput` of the bytes read; no field of the driver changes |
| Legacy.Trackball.constructor | src/main.rs:42-55 | the new driver has `contraste == 0xFF`, keeps the given byte order, and makes no bus traffic |
| Legacy.Trackball.TurnOn | src/main.rs:58-76 | selects address 0x0A, then reads 2 bytes at 0xFA, decoding by the byte-order flag; a wrong identifier is not an error; no field changes |
| Legacy.Trackball.SetColour | src/main.rs:79-104 | no field changes; the arguments scaled by `contraste` are written to registers 0x00..0x03 in order, stopping at the first failure |
| Legacy.FullContrastWritesRequest | src/main.rs:81-93 | at the creation contrast 0xFF each LED register receives exactly the requested level, as the newer driver does at contrast 0xFF |

## Left out

- Floating-point scaling: the source computes `(l as f64 * (k as f64 / 255.0)) as u8`. The model uses the exact integer `l * k / 255`. The two can differ by one in the last unit for some inputs, and bit-exact agreement is not claimed.
- Host byte order: the source reads it from the compile target. Here it is the `bigEndian` constructor parameter.
- Opening the bus (`I2c::new()` and its failure) belongs to the foreign I2C library. Both constructors take an already opened `I2c`.
- The I2C library itself is reduced to the log and nondeterminism above. The selected slave address is not tracked as bus state. Read replies are unconstrained because the device's register contents are not modelled.
- Console output: the chip-identifier warning is returned as the `mismatch` flag. The colour printout in `src/main.rs` is dropped.
- `main` in `src/main.rs` is not modelled; it only calls the three operations in order.
- `Trackball::execute_command` and `Trackball::convert_hex_colour_to_rgbw` are not defined in `src/pim447.rs` or `src/main.rs`, so they are not modelled. `Command` is declared only.
- The polling and command pipeline in `examples/read_inputs.rs` is not modelled. It relies on asynchronous tasks, timeouts, channels and a signal handler.
- `Input.x` and `Input.y` are `i16` in the source. They are unbounded integers here, and `DecodeInput` proves they stay within [-255, 255], so no overflow can occur.
