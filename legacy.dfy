/** The earlier, smaller trackball driver kept beside the program entry point:
    it stores no logical colour and scales every colour by a contrast fixed
    at full brightness when the driver is created. It shares the register
    layout, the scaling and the chip identifier check of module Pim447. */
module Legacy {
  import opened I2cBus
  import P = Pim447

  class Trackball {
    const i2c: I2c
    const bigEndian: bool
    var contraste: Byte

    /** A driver over the opened bus `bus`, at full contrast. */
    constructor (bus: I2c, bigEndian: bool)
      ensures i2c == bus && this.bigEndian == bigEndian
      ensures contraste == 0xFF
      ensures bus.log == old(bus.log)
    {
      i2c := bus;
      this.bigEndian := bigEndian;
      contraste := 0xFF;
    }

    /** Selects the trackball's bus address and reads its identifier; a wrong
        identifier is only a diagnostic. */
    method TurnOn() returns (r: Result<()>, mismatch: bool)
      modifies i2c
      ensures unchanged(this)
      ensures old(i2c.log) <= i2c.log
      ensures P.ChipIdCheck(i2c.log[|old(i2c.log)|..], bigEndian, r.Ok?, mismatch)
    {
      r, mismatch := P.ProbeChip(i2c, bigEndian);
    }

    /** Writes (r, g, b, w) scaled by `contraste` to the four LED registers,
        stopping at the first failure; the driver itself is not changed. */
    method SetColour(r: Byte, g: Byte, b: Byte, w: Byte) returns (res: Result<()>)
      modifies i2c
      ensures unchanged(this)
      ensures old(i2c.log) <= i2c.log
      ensures StopsAtFirstFailure(P.LedWrites(P.PhysicalColour(P.Rgbw(r, g, b, w), contraste)), i2c.log[|old(i2c.log)|..], res.Ok?)
    {
      var p := P.PhysicalColour(P.Rgbw(r, g, b, w), contraste);
      res := P.WriteLeds(i2c, p);
    }
  }

  /** At the contrast the legacy driver is created with, each LED register
      receives exactly the requested level, so its writes are those of the
      newer driver at contrast 0xFF. */
  lemma FullContrastWritesRequest(c: P.Rgbw, issued: seq<Transfer>, ok: bool)
    requires StopsAtFirstFailure(P.LedWrites(P.PhysicalColour(c, 0xFF)), issued, ok)
    ensures forall i :: 0 <= i < |issued| ==> issued[i].op == Write(i, [P.Channel(c, i)])
  {
  }
}
