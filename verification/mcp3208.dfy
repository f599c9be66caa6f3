/**
  The MCP3208 eight-channel 12-bit ADC in single-ended mode.

  The command is positional rather than register-addressed: the first byte
  carries the start bit, the single-ended bit and the channel's high bit, the
  second byte the channel's two low bits in its top two bits, the third byte
  is padding. The 12-bit conversion comes back in the low nibble of the second
  inbound byte and all of the third.
*/
module Mcp3208 {
  import opened Results
  import opened Bits
  import opened Spi
  import Numerics

  const DefaultVref: real := 3.3

  /** The largest 12-bit code, which reads as the reference voltage. */
  const FullScale: nat := 4095

  datatype McpError =
    | ChannelOutOfRange(channel: int)
    | ShortResponse(got: nat)

  function CheckChannel(channel: int): (r: Result<(), McpError>)
    ensures r.Failure? <==> channel < 0 || channel > 7
    ensures r.Failure? ==> r.error == ChannelOutOfRange(channel)
  {
    if !(0 <= channel <= 7) then Failure(ChannelOutOfRange(channel)) else Success(())
  }

  /** The channel a command frame selects, read back as `((tx0 & 1) << 2) | (tx1 >> 6)`. */
  function FrameChannel(tx0: int, tx1: Byte): int {
    Or(Shl(And(tx0, 1), 2), Shr(tx1, 6))
  }

  /** The three-byte command `read_raw` sends for a channel that passed the range check. */
  function CommandFrame(channel: int): (tx: seq<int>)
    requires 0 <= channel <= 7
    ensures |tx| == 3 && IsByteFrame(tx)
    ensures tx[0] == 0x06 || tx[0] == 0x07
    ensures tx[1] in {0x00, 0x40, 0x80, 0xC0}
    ensures tx[2] == 0x00
    ensures FrameChannel(tx[0], tx[1]) == channel
  {
    FrameLayout(channel);
    [Or(0x06, Shr(channel, 2)), Shl(And(channel, 0x03), 6), 0x00]
  }

  lemma FrameLayout(channel: int)
    requires 0 <= channel <= 7
    ensures Or(0x06, Shr(channel, 2)) == 6 + channel / 4
    ensures Shl(And(channel, 0x03), 6) == (channel % 4) * 64
    ensures FrameChannel(6 + channel / 4, (channel % 4) * 64) == channel
  {
    assert Pow2(1) == 2 && Pow2(2) == 4 && Pow2(6) == 64;
    OrDisjoint(3, channel / 4, 1);
    AndLowMask(channel, 2);
    var b := channel / 4;
    AndLowMask(6 + b, 1);
    DivModUnique(6 + b, 2, 3, b);
    DivModUnique((channel % 4) * 64, 64, channel % 4, 0);
    OrDisjoint(b, channel % 4, 2);
  }

  /** Different channels are addressed by different frames. */
  lemma CommandFrameInjective(c1: int, c2: int)
    requires 0 <= c1 <= 7 && 0 <= c2 <= 7
    ensures CommandFrame(c1) == CommandFrame(c2) ==> c1 == c2
  {
  }

  /** The 12-bit conversion result, `((rx[1] & 0x0F) << 8) | rx[2]`. */
  function Decode12(rx: seq<Byte>): (code: nat)
    requires |rx| >= 3
    ensures code == ((rx[1] as int) % 16) * 256 + rx[2] as int
    ensures code <= FullScale
  {
    assert Pow2(4) == 16 && Pow2(8) == 256;
    AndLowMask(rx[1], 4);
    OrDisjoint(And(rx[1], 0x0F), rx[2], 8);
    Or(Shl(And(rx[1], 0x0F), 8), rx[2])
  }

  /** The bytes a converter answers with for a 12-bit code: null bit area, high nibble, low byte. */
  function Response(code: nat): (rx: seq<Byte>)
    requires code <= FullScale
    ensures |rx| == 3
  {
    [0x00, code / 256, code % 256]
  }

  /** Every 12-bit code is decoded from the response that carries it, so the decode reaches all of 0..4095. */
  lemma DecodeResponse(code: nat)
    requires code <= FullScale
    ensures Decode12(Response(code)) == code
  {
    DivModUnique(code / 256, 16, 0, code / 256);
  }

  /** The decode reads neither the first inbound byte nor the high nibble of the second. */
  lemma DecodeIgnoresPadding(rx: seq<Byte>, rx': seq<Byte>)
    requires |rx| >= 3 && |rx'| >= 3
    requires rx[1] % 16 == rx'[1] % 16 && rx[2] == rx'[2]
    ensures Decode12(rx) == Decode12(rx')
  {
  }

  /** `(raw / 4095.0) * vref`: the voltage whose ratio to `vref` is the code's ratio to full scale. */
  function Scale(raw: nat, vref: real): (v: real)
    ensures v * 4095.0 == (raw as real) * vref
    ensures raw == FullScale ==> v == vref
  {
    Numerics.QuotientTimes(raw as real, 4095.0, vref);
    assert raw == FullScale ==> Fraction(raw) * vref == 1.0 * vref;
    Fraction(raw) * vref
  }

  /** A 12-bit code scales into [0, vref], full scale to exactly vref, and larger codes never read lower. */
  lemma ScaleProperties(raw: nat, raw': nat, vref: real)
    requires raw <= raw' <= FullScale && vref >= 0.0
    ensures 0.0 <= Scale(raw, vref) <= Scale(raw', vref) <= vref
    ensures Scale(FullScale, vref) == vref
  {
    FractionOrder(raw, raw');
    ScaleIsFraction(raw, vref);
    ScaleIsFraction(raw', vref);
    Numerics.ScaledChain(Scale(raw, vref), Scale(raw', vref), Fraction(raw), Fraction(raw'), vref);
  }

  lemma ScaleIsFraction(raw: nat, vref: real)
    ensures Scale(raw, vref) == Fraction(raw) * vref
  {
  }

  /** The share of full scale a code stands for; `Scale` multiplies it by the reference. */
  function Fraction(raw: nat): real {
    raw as real / 4095.0
  }

  lemma FractionOrder(raw: nat, raw': nat)
    requires raw <= raw' <= FullScale
    ensures 0.0 <= Fraction(raw) <= Fraction(raw') <= 1.0
    ensures Fraction(FullScale) == 1.0
  {
  }

  /** `read_raw`: range check, one three-byte exchange, 12-bit decode. */
  function ReadRaw(channel: int, xfer: Transport): (x: Exchange<nat, McpError>)
    ensures channel < 0 || channel > 7 ==> x == Exchange([], Failure(ChannelOutOfRange(channel)))
    ensures 0 <= channel <= 7 ==>
              && |x.sent| == 1 && |x.sent[0]| == 3 && IsByteFrame(x.sent[0])
              && FrameChannel(x.sent[0][0], x.sent[0][1]) == channel
    ensures 0 <= channel <= 7 ==> x.sent == [CommandFrame(channel)]
    ensures x.result.Success? ==>
              && |x.sent| == 1
              && var rx := xfer(x.sent[0]);
              && |rx| >= 3
              && x.result.value == ((rx[1] as int) % 16) * 256 + rx[2] as int
              && x.result.value <= FullScale
    ensures SameLength(xfer) && 0 <= channel <= 7 ==> x.result.Success?
  {
    match CheckChannel(channel)
    case Failure(e) => Exchange([], Failure(e))
    case Success(_) =>
      var tx := CommandFrame(channel);
      var rx := xfer(tx);
      if |rx| < 3 then Exchange([tx], Failure(ShortResponse(|rx|)))
      else Exchange([tx], Success(Decode12(rx)))
  }

  /** `read_voltage`: the raw code scaled against the reference voltage. */
  function ReadVoltage(channel: int, vref: real, xfer: Transport): (x: Exchange<real, McpError>)
    ensures x.sent == ReadRaw(channel, xfer).sent
    ensures x.result.Failure? <==> ReadRaw(channel, xfer).result.Failure?
    ensures x.result.Success? ==>
              && ReadRaw(channel, xfer).result.Success?
              && x.result.value == Scale(ReadRaw(channel, xfer).result.value, vref)
    ensures x.result.Success? && vref >= 0.0 ==> 0.0 <= x.result.value <= vref
  {
    var raw := ReadRaw(channel, xfer);
    match raw.result
    case Failure(e) => Exchange(raw.sent, Failure(e))
    case Success(code) =>
      assert vref >= 0.0 ==> 0.0 <= Scale(code, vref) <= vref by {
        if vref >= 0.0 {
          ScaleProperties(0, code, vref);
        }
      }
      Exchange(raw.sent, Success(Scale(code, vref)))
  }

  /** A full-scale answer `[0x00, 0x0F, 0xFF]` reads as 4095 and as exactly the reference voltage. */
  lemma FullScaleReading(channel: int, vref: real, xfer: Transport)
    requires 0 <= channel <= 7 && xfer(CommandFrame(channel)) == [0x00, 0x0F, 0xFF]
    ensures ReadRaw(channel, xfer).result == Success(FullScale)
    ensures ReadVoltage(channel, vref, xfer).result == Success(vref)
  {
    FullScaleCode(channel, xfer);
    ScaleFullScale(vref);
  }

  /** With the constructor's default reference, a full-scale answer reads as 3.3 V. */
  lemma DefaultVrefFullScale(channel: int, xfer: Transport)
    requires 0 <= channel <= 7 && xfer(CommandFrame(channel)) == [0x00, 0x0F, 0xFF]
    ensures ReadVoltage(channel, DefaultVref, xfer).result == Success(3.3)
  {
    FullScaleReading(channel, DefaultVref, xfer);
  }

  lemma ScaleFullScale(vref: real)
    ensures Scale(FullScale, vref) == vref
  {
    FractionOrder(0, FullScale);
    assert Scale(FullScale, vref) == 1.0 * vref;
  }

  lemma FullScaleCode(channel: int, xfer: Transport)
    requires 0 <= channel <= 7 && xfer(CommandFrame(channel)) == [0x00, 0x0F, 0xFF]
    ensures ReadRaw(channel, xfer).result == Success(FullScale)
  {
    var rx := xfer(CommandFrame(channel));
    assert rx[1] as int % 16 == 15 && rx[2] as int == 255;
  }
}
