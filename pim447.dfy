/** The Pimoroni PIM447 trackball driver: LED colour and contrast, decoding of
    the motion/click registers, and the chip identifier check at power-on. */
module Pim447 {
  import opened I2cBus

  const I2C_ADDR_PRIMARY := 0x0A
  const CHIP_ID := 0xBA11
  const REG_LED_RED: Byte := 0x00
  const REG_LED_GRN: Byte := 0x01
  const REG_LED_BLU: Byte := 0x02
  const REG_LED_WHT: Byte := 0x03
  /** First of the five input registers: left, right, up, down, switch. */
  const REG_LEFT: Byte := 0x04
  const MSK_CLICKED: bv8 := 0x80
  const MSK_CLICK_STATE_UPDATE: bv8 := 0x01
  const REG_CHIP_ID_L: Byte := 0xFA

  /** A colour as four LED channel levels. */
  datatype Rgbw = Rgbw(red: Byte, green: Byte, blue: Byte, white: Byte)
  {
    predicate IsBlack() {
      red == 0 && green == 0 && blue == 0 && white == 0
    }
  }

  const BLACK := Rgbw(0, 0, 0, 0)

  /** One sample of the trackball's input registers. */
  datatype Input = Input(x: int, y: int, clicked: Byte, clickStateUpdate: Byte, stateUpdate: bool)

  /** The requests a client can make of the driver. */
  datatype Command = TurnOff | TurnOn | SetColour(r: Byte, g: Byte, b: Byte, w: Byte) | SetContrast(c: Byte)

  // ---------------------------------------------------------------------------
  // LED output

  /** An LED level scaled by `factor`/255 and truncated. */
  function Scale(level: Byte, factor: Byte): (p: Byte)
    ensures p * 255 <= level * factor < (p + 1) * 255
    ensures p <= level
    ensures factor == 0 ==> p == 0
    ensures factor == 255 ==> p == level
  {
    assert level * factor <= level * 255 by { MulMonotone(level, factor, 255); }
    level * factor / 255
  }

  /** The physical levels written for the logical colour `c` at `contrast`:
      black forces a zero factor, anything else is scaled by contrast/255. */
  function PhysicalColour(c: Rgbw, contrast: Byte): (p: Rgbw)
    ensures c.IsBlack() ==> p == BLACK
    ensures contrast == 0 ==> p == BLACK
    ensures contrast == 255 ==> p == c
    ensures p.red <= c.red && p.green <= c.green && p.blue <= c.blue && p.white <= c.white
  {
    var factor := if c.IsBlack() then 0 else contrast;
    Rgbw(Scale(c.red, factor), Scale(c.green, factor), Scale(c.blue, factor), Scale(c.white, factor))
  }

  /** The four single-byte writes that put `p` on the LEDs, in register order. */
  function LedWrites(p: Rgbw): (ops: seq<Op>)
    ensures |ops| == 4
  {
    [ Write(REG_LED_RED, [p.red]), Write(REG_LED_GRN, [p.green]),
      Write(REG_LED_BLU, [p.blue]), Write(REG_LED_WHT, [p.white]) ]
  }

  /** Level of channel `i` (0 red, 1 green, 2 blue, 3 white). */
  function Channel(p: Rgbw, i: nat): Byte
    requires i < 4
  {
    match i
    case 0 => p.red
    case 1 => p.green
    case 2 => p.blue
    case _ => p.white
  }

  /** Every byte written by the transfers in `issued` is zero. */
  ghost predicate AllWritesZero(issued: seq<Transfer>)
  {
    forall i :: 0 <= i < |issued| && issued[i].op.Write? ==> issued[i].op.data == [0]
  }

  // ---------------------------------------------------------------------------
  // Input decoding

  /** The sample held in the five input registers `raw` (left, right, up,
      down, switch). */
  function DecodeInput(raw: seq<Byte>): (input: Input)
    requires |raw| == 5
    ensures -255 <= input.x <= 255 && -255 <= input.y <= 255
    ensures input.clicked == 0 || input.clicked == 0x80
    ensures input.clickStateUpdate == 0 || input.clickStateUpdate == 1
    ensures !input.stateUpdate ==> input.x == 0 && input.y == 0 && input.clickStateUpdate == 0
  {
    var left, right, up, down := raw[0], raw[1], raw[2], raw[3];
    var switchByte := raw[4] as bv8;
    var clicked := (switchByte & MSK_CLICKED) as int;
    var clickStateUpdate := (!!switchByte & MSK_CLICK_STATE_UPDATE) as int;
    Input(right as int - left as int, down as int - up as int, clicked, clickStateUpdate,
          left > 0 || right > 0 || up > 0 || down > 0 || clickStateUpdate > 0)
  }

  // ---------------------------------------------------------------------------
  // Chip identifier

  /** The 16-bit identifier held in `bytes`, read big-endian iff `bigEndian`. */
  function ChipId(bytes: seq<Byte>, bigEndian: bool): (id: int)
    requires |bytes| == 2
    ensures 0 <= id < 0x1_0000
  {
    var first, second := bytes[0] as int, bytes[1] as int;
    if bigEndian then first * 0x100 + second else second * 0x100 + first
  }

  /** The two bytes of `id` in big-endian order iff `bigEndian`. */
  function ChipIdBytes(id: int, bigEndian: bool): (bytes: seq<Byte>)
    requires 0 <= id < 0x1_0000
    ensures |bytes| == 2
  {
    if bigEndian then [id / 0x100, id % 0x100] else [id % 0x100, id / 0x100]
  }

  // ---------------------------------------------------------------------------
  // The driver

  class Trackball {
    const i2c: I2c
    const bigEndian: bool
    var contrast: Byte
    var red: Byte
    var green: Byte
    var blue: Byte
    var white: Byte

    /** The logical colour last requested, before scaling. */
    function Colour(): Rgbw
      reads this
    {
      Rgbw(red, green, blue, white)
    }

    /** A driver over the opened bus `bus`, dark and at zero contrast. */
    constructor (bus: I2c, bigEndian: bool)
      ensures i2c == bus && this.bigEndian == bigEndian
      ensures contrast == 0 && Colour() == BLACK
      ensures bus.log == old(bus.log)
    {
      i2c := bus;
      this.bigEndian := bigEndian;
      contrast := 0;
      red, green, blue, white := 0, 0, 0, 0;
    }

    /** Selects the trackball's bus address and reads its identifier. A
        `mismatch` (the identifier is not CHIP_ID) is only a diagnostic. */
    method TurnOn() returns (r: Result<()>, mismatch: bool)
      modifies i2c
      ensures unchanged(this)
      ensures old(i2c.log) <= i2c.log
      ensures ChipIdCheck(i2c.log[|old(i2c.log)|..], bigEndian, r.Ok?, mismatch)
    {
      r, mismatch := ProbeChip(i2c, bigEndian);
    }

    /** Puts the LEDs out: contrast becomes zero, the logical colour is kept. */
    method TurnOff() returns (r: Result<()>)
      modifies this, i2c
      ensures contrast == 0 && Colour() == old(Colour())
      ensures old(i2c.log) <= i2c.log
      ensures StopsAtFirstFailure(LedWrites(BLACK), i2c.log[|old(i2c.log)|..], r.Ok?)
      ensures AllWritesZero(i2c.log[|old(i2c.log)|..])
    {
      r := SetContrast(0);
      LedWritesOfBlack(i2c.log[|old(i2c.log)|..], r.Ok?);
    }

    /** Sets the contrast and applies it to the stored logical colour. */
    method SetContrast(c: Byte) returns (r: Result<()>)
      modifies this, i2c
      ensures contrast == c && Colour() == old(Colour())
      ensures old(i2c.log) <= i2c.log
      ensures StopsAtFirstFailure(LedWrites(PhysicalColour(Colour(), c)), i2c.log[|old(i2c.log)|..], r.Ok?)
    {
      contrast := c;
      r := SetColour(red, green, blue, white);
    }

    /** Stores (r, g, b, w) as the logical colour and writes its scaled
        levels to the four LED registers, stopping at the first failure. */
    method SetColour(r: Byte, g: Byte, b: Byte, w: Byte) returns (res: Result<()>)
      modifies this, i2c
      ensures Colour() == Rgbw(r, g, b, w) && contrast == old(contrast)
      ensures old(i2c.log) <= i2c.log
      ensures StopsAtFirstFailure(LedWrites(PhysicalColour(Rgbw(r, g, b, w), contrast)), i2c.log[|old(i2c.log)|..], res.Ok?)
    {
      red, green, blue, white := r, g, b, w;
      var p := PhysicalColour(Colour(), contrast);
      res := WriteLeds(i2c, p);
    }

    /** Decodes one sample of the input registers; the driver is unchanged. */
    method ReadInput() returns (r: Result<Input>)
      modifies i2c
      ensures unchanged(this)
      ensures |i2c.log| == |old(i2c.log)| + 1 && old(i2c.log) <= i2c.log
      ensures i2c.log[|i2c.log| - 1].op == Read(REG_LEFT, 5)
      ensures r.Ok? <==> i2c.log[|i2c.log| - 1].Completed?
      ensures r.Ok? ==> |i2c.log[|i2c.log| - 1].reply| == 5 && r.value == DecodeInput(i2c.log[|i2c.log| - 1].reply)
    {
      var raw := i2c.BlockRead(REG_LEFT, 5);
      if raw.Err? {
        return Err;
      }
      r := Ok(DecodeInput(raw.value));
    }
  }

  /** What the power-on sequence leaves in the log: the address selection,
      then the two-byte identifier read; success does not depend on the
      identifier, which only decides the diagnostic. */
  ghost predicate ChipIdCheck(issued: seq<Transfer>, bigEndian: bool, ok: bool, mismatch: bool)
  {
    var select := SetAddress(I2C_ADDR_PRIMARY);
    var read := Read(REG_CHIP_ID_L, 2);
    if ok then
      |issued| == 2 && issued[0] == Completed(select, []) && issued[1].Completed? && issued[1].op == read &&
      |issued[1].reply| == 2 && mismatch == (ChipId(issued[1].reply, bigEndian) != CHIP_ID)
    else
      !mismatch &&
      (issued == [Failed(select)] || issued == [Completed(select, []), Failed(read)])
  }

  /** Selects the trackball's bus address and reads the identifier, decoding
      it in the given byte order; a wrong identifier is reported in
      `mismatch` but is not an error. */
  method ProbeChip(i2c: I2c, bigEndian: bool) returns (r: Result<()>, mismatch: bool)
    modifies i2c
    ensures old(i2c.log) <= i2c.log
    ensures ChipIdCheck(i2c.log[|old(i2c.log)|..], bigEndian, r.Ok?, mismatch)
  {
    mismatch := false;
    r := i2c.SetSlaveAddress(I2C_ADDR_PRIMARY);
    if r.Err? {
      return;
    }
    var bytes := i2c.BlockRead(REG_CHIP_ID_L, 2);
    if bytes.Err? {
      r := Err;
      return;
    }
    var chipId := ChipId(bytes.value, bigEndian);
    mismatch := CHIP_ID != chipId;
    r := Ok(());
  }

  /** Writes the levels of `p` to the LED registers red, green, blue, white,
      abandoning the rest at the first failed write. */
  method WriteLeds(i2c: I2c, p: Rgbw) returns (res: Result<()>)
    modifies i2c
    ensures old(i2c.log) <= i2c.log
    ensures StopsAtFirstFailure(LedWrites(p), i2c.log[|old(i2c.log)|..], res.Ok?)
  {
    ghost var ops := LedWrites(p);
    res := i2c.BlockWrite(REG_LED_RED, [p.red]);
    if res.Err? {
      assert ops[..0] == [];
      return;
    }
    res := i2c.BlockWrite(REG_LED_GRN, [p.green]);
    if res.Err? {
      assert ops[..1] == [ops[0]];
      return;
    }
    res := i2c.BlockWrite(REG_LED_BLU, [p.blue]);
    if res.Err? {
      assert ops[..2] == [ops[0], ops[1]];
      return;
    }
    res := i2c.BlockWrite(REG_LED_WHT, [p.white]);
    if res.Err? {
      assert ops[..3] == [ops[0], ops[1], ops[2]];
      return;
    }
  }

  // ---------------------------------------------------------------------------
  // Lemmas

  lemma MulMonotone(a: nat, b: nat, c: nat)
    requires b <= c
    ensures a * b <= a * c
  {
  }

  /** Black writes only zero bytes. */
  lemma LedWritesOfBlack(issued: seq<Transfer>, ok: bool)
    requires StopsAtFirstFailure(LedWrites(BLACK), issued, ok)
    ensures AllWritesZero(issued)
  {
  }

  /** Scaling is monotone in the factor: more contrast never dims a channel. */
  lemma ScaleMonotone(level: Byte, f1: Byte, f2: Byte)
    requires f1 <= f2
    ensures Scale(level, f1) <= Scale(level, f2)
  {
    var p1: int, p2: int := Scale(level, f1), Scale(level, f2);
    MulMonotone(level, f1, f2);
    assert p1 * 255 < (p2 + 1) * 255;
  }

  /** Forcing a zero factor for black changes nothing: every channel of black
      is zero, and zero scales to zero at any contrast. */
  lemma BlackFactorRedundant(c: Rgbw, contrast: Byte)
    ensures PhysicalColour(c, contrast)
         == Rgbw(Scale(c.red, contrast), Scale(c.green, contrast), Scale(c.blue, contrast), Scale(c.white, contrast))
  {
  }

  /** Channel i of the physical colour is channel i of the logical colour
      times contrast/255, truncated, and never brighter than the logical one. */
  lemma PhysicalChannel(c: Rgbw, contrast: Byte, i: nat)
    requires i < 4
    ensures Channel(PhysicalColour(c, contrast), i) * 255 <= Channel(c, i) * contrast
    ensures Channel(c, i) * contrast < (Channel(PhysicalColour(c, contrast), i) + 1) * 255
    ensures Channel(PhysicalColour(c, contrast), i) <= Channel(c, i)
  {
  }

  /** The LED writes of one colour update: a prefix of red, green, blue,
      white at registers 0x00..0x03, each one byte, the channel's physical
      level; all four were written iff the update succeeded. */
  lemma LedWritesInOrder(p: Rgbw, issued: seq<Transfer>, ok: bool)
    requires StopsAtFirstFailure(LedWrites(p), issued, ok)
    ensures |issued| <= 4
    ensures ok <==> |issued| == 4 && forall i :: 0 <= i < 4 ==> issued[i].Completed?
    ensures forall i :: 0 <= i < |issued| ==> issued[i].op == Write(i, [Channel(p, i)])
  {
    IssuedInOrder(LedWrites(p), issued, ok);
    forall i | 0 <= i < |issued|
      ensures issued[i].op == Write(i, [Channel(p, i)])
    {
      assert LedWrites(p)[i] == Write(i, [Channel(p, i)]);
    }
  }

  /** A colour update for black, or at contrast zero, writes only zeros. */
  lemma DarkWritesZero(c: Rgbw, contrast: Byte, issued: seq<Transfer>, ok: bool)
    requires c.IsBlack() || contrast == 0
    requires StopsAtFirstFailure(LedWrites(PhysicalColour(c, contrast)), issued, ok)
    ensures AllWritesZero(issued)
  {
  }

  /** The click bits: `clicked` is the top bit of the switch byte, and the
      double negation leaves `clickStateUpdate` as its lowest bit. */
  lemma SwitchBits(raw: seq<Byte>)
    requires |raw| == 5
    ensures DecodeInput(raw).clicked == (if raw[4] >= 0x80 then 0x80 else 0)
    ensures DecodeInput(raw).clickStateUpdate == raw[4] % 2
  {
  }

  /** A sample reports no state update iff all four motion bytes are zero and
      the switch byte's click-state-update bit is clear. */
  lemma NoUpdateIffAtRest(raw: seq<Byte>)
    requires |raw| == 5
    ensures !DecodeInput(raw).stateUpdate <==> raw[0] == raw[1] == raw[2] == raw[3] == 0 && raw[4] % 2 == 0
  {
  }

  /** Encoding an identifier and decoding it in the same byte order gives it back. */
  lemma ChipIdOfBytes(id: int, bigEndian: bool)
    requires 0 <= id < 0x1_0000
    ensures ChipId(ChipIdBytes(id, bigEndian), bigEndian) == id
  {
  }

  /** Decoding two bytes and encoding the result in the same order gives them back. */
  lemma BytesOfChipId(bytes: seq<Byte>, bigEndian: bool)
    requires |bytes| == 2
    ensures ChipIdBytes(ChipId(bytes, bigEndian), bigEndian) == bytes
  {
  }

  /** The two decodings differ exactly by swapping the bytes. */
  lemma ChipIdEndianSwap(bytes: seq<Byte>)
    requires |bytes| == 2
    ensures ChipId(bytes, true) == ChipId([bytes[1], bytes[0]], false)
  {
  }

  /** The check passes for exactly one byte pair per byte order: 0xBA, 0x11
      when decoding big-endian and 0x11, 0xBA when decoding little-endian. */
  lemma ChipIdAccepted(bytes: seq<Byte>, bigEndian: bool)
    requires |bytes| == 2
    ensures ChipId(bytes, bigEndian) == CHIP_ID <==> bytes == (if bigEndian then [0xBA, 0x11] else [0x11, 0xBA])
  {
  }
}
