/**
  The INA229 current/power monitor's SPI register protocol.

  Every transaction starts with one command byte: the 6-bit register address
  in bits 7..2, a zero in bit 1 and the read flag in bit 0. A 16-bit write
  follows it with the value, high byte first; a read follows it with one
  zero byte per payload byte and takes the payload from the inbound bytes
  after the command's echo. The 24-bit registers hold two's-complement values.
*/
module Ina229 {
  import opened Results
  import opened Bits
  import opened Spi

  // Register addresses
  const RegConfig: int := 0x00
  const RegAdcConfig: int := 0x01
  const RegShuntCal: int := 0x02
  const RegVshunt: int := 0x04
  const RegVbus: int := 0x05
  const RegCurrent: int := 0x07
  const RegPower: int := 0x08

  /** ADC_CONFIG: continuous shunt and bus conversion (mode 0xB) with code 5 for both conversion times. */
  const AdcConfig: int := Or(Or(0xB000, Shl(5, 9)), Shl(5, 6))

  datatype InaError =
    | AddressOutOfRange(reg: int)
    | ShortResponse(expected: nat, got: nat)

  function ReadFlag(read: bool): nat {
    if read then 1 else 0
  }

  /** The register address a command byte selects. */
  function CmdAddress(cmd: int): int {
    Shr(cmd, 2)
  }

  /** The read flag a command byte carries. */
  function CmdReadBit(cmd: int): nat {
    And(cmd, 1)
  }

  lemma CmdLayout(reg: int, rb: nat)
    requires rb <= 1
    ensures Or(Shl(reg, 2), rb) == 4 * reg + rb
    ensures CmdAddress(4 * reg + rb) == reg
    ensures CmdReadBit(4 * reg + rb) == rb
    ensures And(4 * reg + rb, 2) == 0
  {
    assert Pow2(1) == 2 && Pow2(2) == 4;
    OrDisjoint(2 * reg, rb, 1);
    DivModUnique(4 * reg + rb, 4, reg, rb);
    AndLowMask(4 * reg + rb, 1);
    AndSingleBit(4 * reg + rb, 1);
    DivModUnique(4 * reg + rb, 2, 2 * reg, rb);
  }

  /** The command byte `_cmd` builds; addresses outside 0x00..0x3F are refused. */
  function Cmd(reg: int, read: bool): (r: Result<Byte, InaError>)
    ensures r.Failure? <==> reg < 0 || reg > 0x3F
    ensures r.Failure? ==> r.error == AddressOutOfRange(reg)
    ensures r.Success? ==> CmdAddress(r.value) == reg
    ensures r.Success? ==> CmdReadBit(r.value) == ReadFlag(read)
    ensures r.Success? ==> And(r.value, 2) == 0
  {
    if reg < 0 || reg > 0x3F then
      Failure(AddressOutOfRange(reg))
    else
      CmdExpression(reg, ReadFlag(read));
      CmdLayout(reg, ReadFlag(read));
      Success(Or(Or(Shl(And(reg, 0x3F), 2), Shl(0, 1)), ReadFlag(read)))
  }

  lemma CmdExpression(reg: int, rb: nat)
    requires 0 <= reg <= 0x3F && rb <= 1
    ensures Or(Or(Shl(And(reg, 0x3F), 2), Shl(0, 1)), rb) == 4 * reg + rb
  {
    AndLowMask(reg, 6);
    assert Pow2(6) == 64 && Pow2(2) == 4;
    DivModUnique(reg, 64, 0, reg);
    assert Shl(And(reg, 0x3F), 2) == 4 * reg;
    assert Or(4 * reg, Shl(0, 1)) == 4 * reg;
    CmdLayout(reg, rb);
  }

  /** The command byte is the address shifted past the two flag bits, plus the read flag. */
  lemma CmdValue(reg: int, read: bool)
    requires 0 <= reg <= 0x3F
    ensures Cmd(reg, read) == Success(4 * reg + ReadFlag(read))
  {
    var c := Cmd(reg, read).value;
    DivModUnique(c, 4, reg, c % 4);
    AndLowMask(c, 1);
    AndSingleBit(c, 1);
    assert Pow2(1) == 2 && Pow2(2) == 4;
    DivideTwice(c, 2, 2);
  }

  lemma CmdExamples()
    ensures Cmd(0x3F, true) == Success(0xFD)
    ensures Cmd(0x3F, false) == Success(0xFC)
    ensures Cmd(RegCurrent, true) == Success(0x1D)
    ensures Cmd(0x40, true) == Failure(AddressOutOfRange(0x40))
    ensures Cmd(-1, false).Failure?
  {
    CmdValue(0x3F, true);
    CmdValue(0x3F, false);
    CmdValue(RegCurrent, true);
  }

  /** Two payload bytes, high byte first, as `(hi << 8) | lo`. */
  function Word16(hi: Byte, lo: Byte): (r: nat)
    ensures r == (hi as int) * 256 + lo as int
    ensures r < 0x1_0000
  {
    assert Pow2(8) == 256;
    OrDisjoint(hi, lo, 8);
    Or(Shl(hi, 8), lo)
  }

  /** Three payload bytes, high byte first, as `(b1 << 16) | (b2 << 8) | b3`. */
  function Word24(b1: Byte, b2: Byte, b3: Byte): (r: nat)
    ensures r == (b1 as int) * 0x1_0000 + (b2 as int) * 256 + b3 as int
    ensures r < 0x100_0000
  {
    Word24Layout(b1, b2, b3);
    Or(Or(Shl(b1, 16), Shl(b2, 8)), b3)
  }

  lemma Word24Layout(b1: int, b2: int, b3: int)
    requires 0 <= b1 < 256 && 0 <= b2 < 256 && 0 <= b3 < 256
    ensures Or(Or(Shl(b1, 16), Shl(b2, 8)), b3) == b1 * 0x1_0000 + b2 * 256 + b3
  {
    assert Pow2(8) == 256 && Pow2(16) == 0x1_0000;
    var hi := b1 * 256 + b2;
    OrDisjoint(b1, b2 * 256, 16);
    assert Or(Shl(b1, 16), Shl(b2, 8)) == hi * 256;
    OrDisjoint(hi, b3, 8);
  }

  /** A read frame for `reg`: the read command followed by `n` zero bytes. */
  predicate IsReadFrame(tx: seq<int>, reg: int, n: nat) {
    && |tx| == n + 1
    && CmdAddress(tx[0]) == reg
    && CmdReadBit(tx[0]) == 1
    && forall i :: 1 <= i < |tx| ==> tx[i] == 0
  }

  /** `read_u16`: one three-byte exchange, the 16-bit payload taken from the two bytes after the echo. */
  function ReadU16(reg: int, xfer: Transport): (x: Exchange<nat, InaError>)
    ensures reg < 0 || reg > 0x3F ==> x == Exchange([], Failure(AddressOutOfRange(reg)))
    ensures 0 <= reg <= 0x3F ==> |x.sent| == 1 && x.sent[0] == [4 * reg + 1, 0x00, 0x00]
    ensures 0 <= reg <= 0x3F ==> IsReadFrame(x.sent[0], reg, 2) && IsByteFrame(x.sent[0])
    ensures x.result.Success? ==>
              && |x.sent| == 1
              && var rx := xfer(x.sent[0]);
              && |rx| >= 3
              && x.result.value == (rx[1] as int) * 256 + rx[2] as int
              && x.result.value < 0x1_0000
    ensures SameLength(xfer) && 0 <= reg <= 0x3F ==> x.result.Success?
  {
    match Cmd(reg, true)
    case Failure(e) => Exchange([], Failure(e))
    case Success(cmd) =>
      CmdValue(reg, true);
      var tx := [cmd, 0x00, 0x00];
      var rx := xfer(tx);
      if |rx| < 3 then Exchange([tx], Failure(ShortResponse(3, |rx|)))
      else Exchange([tx], Success(Word16(rx[1], rx[2])))
  }

  /** The three bytes module-level `write_register` hands to the bus: command, then value high and low byte. */
  function WriteRegisterFrame(reg: int, value: int): (tx: seq<int>)
    ensures |tx| == 3
    ensures CmdAddress(tx[0]) == reg && CmdReadBit(tx[0]) == 0 && And(tx[0], 2) == 0
    ensures 0 <= reg <= 0x3F ==> Cmd(reg, false) == Success(tx[0])
    ensures IsByteFrame(tx) <==> 0 <= reg <= 0x3F
    ensures 0 <= tx[1] < 256 && 0 <= tx[2] < 256
    ensures tx[1] * 256 + tx[2] == value % 0x1_0000
  {
    WriteCommand(reg);
    ValueBytes(value);
    [Or(Shl(reg, 2), 0x00), And(Shr(value, 8), 0xFF), And(value, 0xFF)]
  }

  /** The command byte of a write, `(reg << 2) | 0x00`, without the range check `_cmd` makes. */
  lemma WriteCommand(reg: int)
    ensures var c := Or(Shl(reg, 2), 0x00);
            && c == 4 * reg
            && CmdAddress(c) == reg && CmdReadBit(c) == 0 && And(c, 2) == 0
            && (0 <= reg <= 0x3F ==> Cmd(reg, false) == Success(c))
  {
    CmdLayout(reg, 0);
    if 0 <= reg <= 0x3F {
      CmdValue(reg, false);
    }
  }

  /** `(value >> 8) & 0xFF` and `value & 0xFF` are the two low bytes of `value`, for any integer. */
  lemma ValueBytes(value: int)
    ensures And(Shr(value, 8), 0xFF) == (value / 256) % 256
    ensures And(value, 0xFF) == value % 256
    ensures ((value / 256) % 256) * 256 + value % 256 == value % 0x1_0000
  {
    assert Pow2(8) == 256;
    AndLowMask(value / 256, 8);
    AndLowMask(value, 8);
    DivideTwice(value, 256, 256);
  }

  /** The payload `write_register` sends is read back unchanged by the 16-bit decode, for every 16-bit value. */
  lemma WriteReadRoundTrip(reg: int, value: int)
    requires 0 <= value < 0x1_0000
    ensures var tx := WriteRegisterFrame(reg, value); Word16(tx[1], tx[2]) == value
  {
    DivModUnique(value, 0x1_0000, 0, value);
  }

  /** Sign extension of a 24-bit two's-complement register value, as `read_register_24` does it. */
  function FromTwosComplement24(raw: int): (v: int)
    requires 0 <= raw < 0x100_0000
    ensures -0x80_0000 <= v < 0x80_0000
    ensures raw - v == (if v < 0 then 0x100_0000 else 0)
    ensures v < 0 <==> And(raw, 0x80_0000) != 0
    ensures v < 0 <==> raw >= 0x80_0000
  {
    SignBit24(raw);
    if And(raw, 0x80_0000) != 0 then raw - Shl(1, 24) else raw
  }

  lemma SignBit24(raw: int)
    requires 0 <= raw < 0x100_0000
    ensures And(raw, 0x80_0000) == (if raw >= 0x80_0000 then 0x80_0000 else 0)
    ensures Shl(1, 24) == 0x100_0000
  {
    Pow2Values();
    var q := if raw >= 0x80_0000 then 1 else 0;
    DivModUnique(raw, 0x80_0000, q, raw - q * 0x80_0000);
    AndSingleBit(raw, 23);
  }

  /** The sign-extended value is congruent to the raw register contents modulo 2^24. */
  lemma SignExtensionCongruent(raw: int)
    requires 0 <= raw < 0x100_0000
    ensures FromTwosComplement24(raw) % 0x100_0000 == raw
  {
    var v := FromTwosComplement24(raw);
    DivModUnique(v, 0x100_0000, if v < 0 then -1 else 0, raw);
  }

  /** Every 24-bit signed value survives the trip through its two's-complement register encoding. */
  lemma SignExtensionRoundTrip(v: int)
    requires -0x80_0000 <= v < 0x80_0000
    ensures FromTwosComplement24(v % 0x100_0000) == v
  {
    var raw := if v < 0 then v + 0x100_0000 else v;
    if v < 0 {
      DivModUnique(v, 0x100_0000, -1, raw);
    } else {
      DivModUnique(v, 0x100_0000, 0, raw);
    }
    SignBit24(raw);
  }

  lemma SignExtensionExamples()
    ensures FromTwosComplement24(0x80_0000) == -8388608
    ensures FromTwosComplement24(0x7F_FFFF) == 8388607
    ensures FromTwosComplement24(0x00_0001) == 1
    ensures FromTwosComplement24(0xFF_FFFF) == -1
  {
    SignBit24(0x80_0000);
    SignBit24(0x7F_FFFF);
    SignBit24(0x00_0001);
    SignBit24(0xFF_FFFF);
  }

  /** `read_register_24`: one four-byte exchange, the payload assembled big-endian and sign-extended. */
  function ReadRegister24(reg: int, xfer: Transport): (x: Exchange<int, InaError>)
    ensures |x.sent| == 1 && x.sent[0] == [4 * reg + 1, 0x00, 0x00, 0x00]
    ensures IsReadFrame(x.sent[0], reg, 3)
    ensures 0 <= reg <= 0x3F ==> Cmd(reg, true) == Success(x.sent[0][0]) && IsByteFrame(x.sent[0])
    ensures x.result.Success? ==>
              && var rx := xfer(x.sent[0]);
              && |rx| >= 4
              && -0x80_0000 <= x.result.value < 0x80_0000
              && x.result.value % 0x100_0000 == (rx[1] as int) * 0x1_0000 + (rx[2] as int) * 256 + rx[3] as int
              && (x.result.value < 0 <==> rx[1] >= 0x80)
    ensures SameLength(xfer) ==> x.result.Success?
  {
    ReadCommand(reg);
    var cmd := Or(Shl(reg, 2), 0x01);
    var tx := [cmd, 0x00, 0x00, 0x00];
    var rx := xfer(tx);
    if |rx| < 4 then Exchange([tx], Failure(ShortResponse(4, |rx|)))
    else
      SignedPayload(rx[1], rx[2], rx[3]);
      Exchange([tx], Success(FromTwosComplement24(Word24(rx[1], rx[2], rx[3]))))
  }

  /** The command byte of a 24-bit read, `(reg << 2) | 0x01`, without the range check `_cmd` makes. */
  lemma ReadCommand(reg: int)
    ensures var c := Or(Shl(reg, 2), 0x01);
            && c == 4 * reg + 1
            && CmdAddress(c) == reg && CmdReadBit(c) == 1 && And(c, 2) == 0
            && (0 <= reg <= 0x3F ==> Cmd(reg, true) == Success(c))
  {
    CmdLayout(reg, 1);
    if 0 <= reg <= 0x3F {
      CmdValue(reg, true);
    }
  }

  /** Three payload bytes, assembled and sign-extended: in range, congruent to the bytes, negative iff the top bit is set. */
  lemma SignedPayload(b1: Byte, b2: Byte, b3: Byte)
    ensures var v := FromTwosComplement24(Word24(b1, b2, b3));
            && -0x80_0000 <= v < 0x80_0000
            && v % 0x100_0000 == (b1 as int) * 0x1_0000 + (b2 as int) * 256 + b3 as int
            && (v < 0 <==> b1 >= 0x80)
  {
    SignExtensionCongruent(Word24(b1, b2, b3));
  }

  /** The ADC_CONFIG word is 0xBB40: mode 0xB, both conversion-time fields 5, the rest zero. */
  lemma AdcConfigFields()
    ensures AdcConfig == 0xBB40
    ensures 0 <= AdcConfig < 0x1_0000
    ensures Shr(AdcConfig, 12) == 0xB
    ensures And(Shr(AdcConfig, 9), 7) == 5
    ensures And(Shr(AdcConfig, 6), 7) == 5
    ensures And(AdcConfig, 0x3F) == 0
  {
    AdcConfigValue();
    WordFields(AdcConfig);
  }

  /** The field decomposition of the word 0xBB40 itself. */
  lemma WordFields(w: int)
    requires w == 0xBB40
    ensures Shr(w, 12) == 0xB
    ensures And(Shr(w, 9), 7) == 5
    ensures And(Shr(w, 6), 7) == 5
    ensures And(w, 0x3F) == 0
  {
    assert Pow2(3) == 8 && Pow2(6) == 64 && Pow2(9) == 512 && Pow2(12) == 4096;
    AndLowMask(w / 512, 3);
    AndLowMask(w / 64, 3);
    AndLowMask(w, 6);
  }

  lemma AdcConfigValue()
    ensures AdcConfig == 0xBB40
  {
    assert Pow2(6) == 64 && Pow2(9) == 512 && Pow2(12) == 4096;
    OrDisjoint(11, 5 * 512, 12);
    OrDisjoint(0xBA00 / 512, 5 * 64, 9);
  }

  /** `tx` is a byte frame writing the 16-bit `value` to register `reg`. */
  predicate WritesWord(tx: seq<int>, reg: int, value: int) {
    && |tx| == 3
    && IsByteFrame(tx)
    && CmdAddress(tx[0]) == reg
    && CmdReadBit(tx[0]) == 0
    && And(tx[0], 2) == 0
    && tx[1] * 256 + tx[2] == value
  }

  /** The start-up writes, in order: CONFIG cleared, ADC_CONFIG, then the shunt calibration value. */
  function ConfigureFrames(shuntCal: int): (frames: seq<seq<int>>)
    ensures |frames| == 3
    ensures WritesWord(frames[0], RegConfig, 0x0000)
    ensures WritesWord(frames[1], RegAdcConfig, 0xBB40)
    ensures WritesWord(frames[2], RegShuntCal, shuntCal % 0x1_0000)
  {
    FrameWritesWord(RegConfig, 0x0000);
    AdcConfigFrame();
    FrameWritesWord(RegShuntCal, shuntCal);
    [WriteRegisterFrame(RegConfig, 0x0000),
     WriteRegisterFrame(RegAdcConfig, AdcConfig),
     WriteRegisterFrame(RegShuntCal, shuntCal)]
  }

  lemma AdcConfigFrame()
    ensures WritesWord(WriteRegisterFrame(RegAdcConfig, AdcConfig), RegAdcConfig, 0xBB40)
  {
    AdcConfigValue();
    FrameWritesShortWord(RegAdcConfig, AdcConfig, 0xBB40);
  }

  lemma FrameWritesShortWord(reg: int, value: int, w: int)
    requires 0 <= reg <= 0x3F && value == w && 0 <= w < 0x1_0000
    ensures WritesWord(WriteRegisterFrame(reg, value), reg, w)
  {
    FrameWritesWord(reg, value);
    DivModUnique(value, 0x1_0000, 0, value);
  }

  lemma FrameWritesWord(reg: int, value: int)
    requires 0 <= reg <= 0x3F
    ensures WritesWord(WriteRegisterFrame(reg, value), reg, value % 0x1_0000)
  {
  }
}
