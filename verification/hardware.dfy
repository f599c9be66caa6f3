/**
  The earlier single-file driver: MCP3208 reads through a module-level
  spidev handle, and PWM duty output through a module-level GPIO PWM handle.

  The two process-wide handles are parameters here: `spi` is `None` until
  the ADC has been initialised, `pwmStarted` is false until PWM has been.
*/
module Hardware {
  import opened Results
  import opened Bits
  import opened Spi
  import opened Numerics
  import Mcp3208

  datatype HwError =
    | SpiNotInitialized
    | PwmNotInitialized
    | ShortResponse(got: nat)

  /** The command `_read_channel` builds. It masks the channel instead of range-checking it. */
  function ChannelFrame(channel: int): (tx: seq<int>)
    ensures |tx| == 3 && IsByteFrame(tx)
    ensures tx == Mcp3208.CommandFrame(channel % 8)
  {
    var tx := [Or(0x06, Shr(And(channel, 4), 2)), Shl(And(channel, 3), 6), 0];
    assert tx == Mcp3208.CommandFrame(channel % 8) by {
      ChannelBits(channel);
    }
    tx
  }

  lemma ChannelBits(channel: int)
    ensures Shr(And(channel, 4), 2) == (channel % 8) / 4
    ensures And(channel, 3) == (channel % 8) % 4
    ensures Shr(channel % 8, 2) == (channel % 8) / 4
    ensures And(channel % 8, 3) == (channel % 8) % 4
  {
    assert Pow2(2) == 4;
    AndSingleBit(channel, 2);
    AndLowMask(channel, 2);
    AndLowMask(channel % 8, 2);
    DivideTwice(channel, 4, 2);
    var c := channel % 8;
    DivModUnique(c, 4, (channel / 4) % 2, channel % 4);
    DivModUnique(4 * ((channel / 4) % 2), 4, (channel / 4) % 2, 0);
  }

  /** For the channels the newer driver accepts, both drivers send the same frame. */
  lemma SameFrameAsDriver(channel: int)
    requires 0 <= channel <= 7
    ensures ChannelFrame(channel) == Mcp3208.CommandFrame(channel)
  {
    DivModUnique(channel, 8, 0, channel);
  }

  /** `_read_channel`: one three-byte exchange and the 12-bit decode, for any integer channel. */
  function ReadChannel(spi: Option<Transport>, channel: int): (x: Exchange<nat, HwError>)
    ensures spi.None? ==> x == Exchange([], Failure(SpiNotInitialized))
    ensures spi.Some? ==> x.sent == [ChannelFrame(channel)]
    ensures x.result.Success? ==>
              && spi.Some?
              && var rx := spi.value(ChannelFrame(channel));
              && |rx| >= 3
              && x.result.value == (rx[1] as int % 16) * 256 + rx[2] as int
              && x.result.value <= Mcp3208.FullScale
    ensures spi.Some? && SameLength(spi.value) ==> x.result.Success?
  {
    match spi
    case None => Exchange([], Failure(SpiNotInitialized))
    case Some(xfer) =>
      var tx := ChannelFrame(channel);
      var rx := xfer(tx);
      if |rx| < 3 then Exchange([tx], Failure(ShortResponse(|rx|)))
      else Exchange([tx], Success(Mcp3208.Decode12(rx)))
  }

  /**
    On the channels 0..7 the older read and the newer driver's `read_raw` send the
    same frame and return the same code; any other channel number reads channel
    `channel mod 8`.
  */
  lemma ReadChannelAgreesWithDriver(xfer: Transport, channel: int)
    ensures ReadChannel(Some(xfer), channel).sent == Mcp3208.ReadRaw(channel % 8, xfer).sent
    ensures ReadChannel(Some(xfer), channel).result.Success? <==> Mcp3208.ReadRaw(channel % 8, xfer).result.Success?
    ensures ReadChannel(Some(xfer), channel).result.Success? ==>
              ReadChannel(Some(xfer), channel).result.value == Mcp3208.ReadRaw(channel % 8, xfer).result.value
  {
  }

  /** `read_voltage`: the code read from the channel, scaled against `vref`. */
  function ReadVoltage(spi: Option<Transport>, channel: int, vref: real): (x: Exchange<real, HwError>)
    ensures x.sent == ReadChannel(spi, channel).sent
    ensures x.result.Failure? <==> ReadChannel(spi, channel).result.Failure?
    ensures x.result.Success? ==> x.result.value == Mcp3208.Scale(ReadChannel(spi, channel).result.value, vref)
    ensures x.result.Success? && vref >= 0.0 ==> 0.0 <= x.result.value <= vref
  {
    var raw := ReadChannel(spi, channel);
    match raw.result
    case Failure(e) => Exchange(raw.sent, Failure(e))
    case Success(code) =>
      assert vref >= 0.0 ==> 0.0 <= Mcp3208.Scale(code, vref) <= vref by {
        if vref >= 0.0 {
          Mcp3208.ScaleProperties(0, code, vref);
        }
      }
      Exchange(raw.sent, Success(Mcp3208.Scale(code, vref)))
  }

  /** `set_duty_cycle`: the percentage handed to the PWM output, or the error raised before it is started. */
  function SetDutyCycle(pwmStarted: bool, duty: real): (r: Result<real, HwError>)
    ensures r.Failure? <==> !pwmStarted
    ensures r.Failure? ==> r.error == PwmNotInitialized
    ensures r.Success? ==> 0.0 <= r.value <= 100.0
    ensures r.Success? && duty <= 0.0 ==> r.value == 0.0
    ensures r.Success? && duty >= 1.0 ==> r.value == 100.0
    ensures r.Success? && 0.0 <= duty <= 1.0 ==> r.value == duty * 100.0
  {
    if !pwmStarted then Failure(PwmNotInitialized)
    else Success(Clamp01(duty) * 100.0)
  }
}
