/** The 61-byte configuration block of include/messages/all_config.hpp. */
module AllConfig {
  import opened Bytes
  import opened FixedPoint
  import opened UnitSlot

  const PAYLOAD_SIZE: nat := 61

  type Trailing = s: seq<byte> | |s| == 9 witness [0, 0, 0, 0, 0, 0, 0, 0, 0]

  /** The block's fields, with temperatures of type `T`: degrees in memory, words on the wire. */
  datatype Block<T> = Block(
    setpoint: T, setpointStatus: byte, ctrlMode: byte, mainMode: byte, tempUnit: byte,
    timeFormat: byte, adaptiveCtrl: byte, switchingDiff: T, systemMode: byte,
    sensorMode: byte, internalOffset: T, floorLimited: T,
    power: dword, powerUnit: seq<byte>, price: dword, currencyUnit: seq<byte>,
    vacationHold: byte, reserved41: byte, fanStatus: byte, fanMode: byte, forceVent: byte,
    changeOverMode: byte, changeOverTempHeat: T, changeOverTempCool: T,
    switchingDiffCool: T, trailing: Trailing)

  type Config = Block<real>

  // ---------------------------------------------------------------- layout

  /** Offsets 0 to 7. */
  function Control(w: Block<word>): (s: seq<byte>)
    ensures |s| == 8
  {
    [w.setpoint / 0x100, w.setpoint % 0x100,
     w.setpointStatus, w.ctrlMode, w.mainMode, w.tempUnit, w.timeFormat, w.adaptiveCtrl]
  }

  /** Offsets 8 to 15. */
  function Sensing(w: Block<word>): (s: seq<byte>)
    ensures |s| == 8
  {
    [w.switchingDiff / 0x100, w.switchingDiff % 0x100, w.systemMode, w.sensorMode,
     w.internalOffset / 0x100, w.internalOffset % 0x100,
     w.floorLimited / 0x100, w.floorLimited % 0x100]
  }

  /** Offsets 16 to 39. */
  function Energy(w: Block<word>): (s: seq<byte>)
    ensures |s| == 24
  {
    Be32(w.power) + Slot(w.powerUnit) + Be32(w.price) + Slot(w.currencyUnit)
  }

  /** Offsets 40 to 51. */
  function Ventilation(w: Block<word>): (s: seq<byte>)
    ensures |s| == 12
  {
    [w.vacationHold, w.reserved41, w.fanStatus, w.fanMode, w.forceVent, w.changeOverMode,
     w.changeOverTempHeat / 0x100, w.changeOverTempHeat % 0x100,
     w.changeOverTempCool / 0x100, w.changeOverTempCool % 0x100,
     w.switchingDiffCool / 0x100, w.switchingDiffCool % 0x100]
  }

  /** The payload that carries the fields. */
  function Layout(w: Block<word>): (s: seq<byte>)
    ensures |s| == PAYLOAD_SIZE
  {
    Control(w) + Sensing(w) + Energy(w) + Ventilation(w) + w.trailing
  }

  function Word(p: seq<byte>, off: nat): word
    requires off + 2 <= |p|
  {
    FromBe16(p[off..off + 2])
  }

  /** The fields that a payload carries. */
  function BlockOf(p: seq<byte>): Block<word>
    requires |p| == PAYLOAD_SIZE
  {
    Block(
      Word(p, 0), p[2], p[3], p[4], p[5], p[6], p[7], Word(p, 8), p[10], p[11], Word(p, 12),
      Word(p, 14), FromBe32(p[16..20]), UntilNul(p[20..28]), FromBe32(p[28..32]),
      UntilNul(p[32..40]), p[40], p[41], p[42], p[43], p[44], p[45], Word(p, 46), Word(p, 48),
      Word(p, 50), p[52..])
  }

  // ---------------------------------------------------------------- degrees and words

  /** The casts of `encode` are defined for all seven temperatures. */
  predicate Encodable(c: Config) {
    && FitsU16(c.setpoint) && FitsU16(c.switchingDiff)
    && FitsU16(c.internalOffset) && FitsU16(c.floorLimited)
    && FitsU16(c.changeOverTempHeat) && FitsU16(c.changeOverTempCool)
    && FitsU16(c.switchingDiffCool)
  }

  function ToWords(c: Config): Block<word>
    requires Encodable(c)
  {
    Block(
      EncodeU16(c.setpoint), c.setpointStatus, c.ctrlMode, c.mainMode, c.tempUnit,
      c.timeFormat, c.adaptiveCtrl, EncodeU16(c.switchingDiff), c.systemMode,
      c.sensorMode, EncodeU16(c.internalOffset), EncodeU16(c.floorLimited),
      c.power, c.powerUnit, c.price, c.currencyUnit,
      c.vacationHold, c.reserved41, c.fanStatus, c.fanMode, c.forceVent,
      c.changeOverMode, EncodeU16(c.changeOverTempHeat), EncodeU16(c.changeOverTempCool),
      EncodeU16(c.switchingDiffCool), c.trailing)
  }

  function ToDegrees(w: Block<word>): Config {
    Block(
      DecodeI16(w.setpoint), w.setpointStatus, w.ctrlMode, w.mainMode, w.tempUnit,
      w.timeFormat, w.adaptiveCtrl, DecodeI16(w.switchingDiff), w.systemMode,
      w.sensorMode, DecodeI16(w.internalOffset), DecodeI16(w.floorLimited),
      w.power, w.powerUnit, w.price, w.currencyUnit,
      w.vacationHold, w.reserved41, w.fanStatus, w.fanMode, w.forceVent,
      w.changeOverMode, DecodeI16(w.changeOverTempHeat), DecodeI16(w.changeOverTempCool),
      DecodeI16(w.switchingDiffCool), w.trailing)
  }

  // ---------------------------------------------------------------- encode and decode

  method EncodeControl(p: array<byte>, w: Block<word>)
    requires p.Length == PAYLOAD_SIZE
    modifies p
    ensures p[..8] == Control(w)
    ensures forall j | 8 <= j < p.Length :: p[j] == old(p[j])
  {
    hide FromBe16;
    ToBe16(p, 0, w.setpoint);
    p[2] := w.setpointStatus;
    p[3] := w.ctrlMode;
    p[4] := w.mainMode;
    p[5] := w.tempUnit;
    p[6] := w.timeFormat;
    p[7] := w.adaptiveCtrl;
  }

  method EncodeSensing(p: array<byte>, w: Block<word>)
    requires p.Length == PAYLOAD_SIZE
    modifies p
    ensures p[8..16] == Sensing(w)
    ensures forall j | 0 <= j < p.Length && !(8 <= j < 16) :: p[j] == old(p[j])
  {
    hide FromBe16;
    ToBe16(p, 8, w.switchingDiff);
    p[10] := w.systemMode;
    p[11] := w.sensorMode;
    ToBe16(p, 12, w.internalOffset);
    ToBe16(p, 14, w.floorLimited);
  }

  method EncodeEnergy(p: array<byte>, w: Block<word>)
    requires p.Length == PAYLOAD_SIZE
    modifies p
    ensures p[16..40] == Energy(w)
    ensures forall j | 0 <= j < p.Length && !(16 <= j < 40) :: p[j] == old(p[j])
  {
    hide Be32, FromBe32, Slot;
    ToBe32(p, 16, w.power);
    WriteUnit(p, 20, w.powerUnit);
    assert p[16..20] == Be32(w.power);
    ToBe32(p, 28, w.price);
    assert p[16..20] == Be32(w.power);
    assert p[20..28] == Slot(w.powerUnit);
    WriteUnit(p, 32, w.currencyUnit);
    assert p[16..20] == Be32(w.power);
    assert p[20..28] == Slot(w.powerUnit);
    assert p[28..32] == Be32(w.price);
    assert p[16..40] == p[16..20] + p[20..28] + p[28..32] + p[32..40];
  }

  method EncodeVentilation(p: array<byte>, w: Block<word>)
    requires p.Length == PAYLOAD_SIZE
    modifies p
    ensures p[40..52] == Ventilation(w)
    ensures forall j | 0 <= j < p.Length && !(40 <= j < 52) :: p[j] == old(p[j])
  {
    hide FromBe16;
    p[40] := w.vacationHold;
    p[41] := w.reserved41;
    p[42] := w.fanStatus;
    p[43] := w.fanMode;
    p[44] := w.forceVent;
    p[45] := w.changeOverMode;
    ToBe16(p, 46, w.changeOverTempHeat);
    ToBe16(p, 48, w.changeOverTempCool);
    ToBe16(p, 50, w.switchingDiffCool);
  }

  method EncodeTrailing(p: array<byte>, trailing: Trailing)
    requires p.Length == PAYLOAD_SIZE
    modifies p
    ensures p[52..] == trailing
    ensures forall j | 0 <= j < 52 :: p[j] == old(p[j])
  {
    for i := 0 to 9
      invariant forall j | 52 <= j < 52 + i :: p[j] == trailing[j - 52]
      invariant forall j | 0 <= j < 52 :: p[j] == old(p[j])
    {
      p[52 + i] := trailing[i];
    }
  }

  /** The buffer part of `AllConfig::encode`, writing the block offset by offset. */
  method EncodeBlock(w: Block<word>) returns (payload: seq<byte>)
    ensures payload == Layout(w)
  {
    hide Control, Sensing, Energy, Ventilation;
    var p := new byte[PAYLOAD_SIZE](_ => 0);
    EncodeControl(p, w);
    EncodeSensing(p, w);
    assert p[..8] == Control(w);
    EncodeEnergy(p, w);
    assert p[..8] == Control(w);
    assert p[8..16] == Sensing(w);
    EncodeVentilation(p, w);
    assert p[..8] == Control(w);
    assert p[8..16] == Sensing(w);
    assert p[16..40] == Energy(w);
    EncodeTrailing(p, w.trailing);
    assert p[..8] == Control(w);
    assert p[8..16] == Sensing(w);
    assert p[16..40] == Energy(w);
    assert p[40..52] == Ventilation(w);
    payload := p[..];
    assert payload == p[..8] + p[8..16] + p[16..40] + p[40..52] + p[52..];
  }

  /** `AllConfig::encode`: cast the temperatures and write the block. */
  method Encode(c: Config) returns (payload: seq<byte>)
    requires Encodable(c)
    ensures payload == Layout(ToWords(c))
  {
    payload := EncodeBlock(ToWords(c));
  }

  /** `AllConfig::decode`, for a payload of the right size. */
  method Decode(p: seq<byte>) returns (c: Config)
    requires |p| == PAYLOAD_SIZE
    ensures c == ToDegrees(BlockOf(p))
  {
    var powerUnit := ReadUnit(p, 20);
    var currencyUnit := ReadUnit(p, 32);
    var trailing: Trailing := [0, 0, 0, 0, 0, 0, 0, 0, 0];
    for i := 0 to 9
      invariant forall j | 0 <= j < i :: trailing[j] == p[52..][j]
    {
      trailing := trailing[i := p[52 + i]];
    }
    assert trailing == p[52..];
    c := Block(
      DecodeI16(FromBe16(p[0..2])), p[2], p[3], p[4], p[5], p[6], p[7],
      DecodeI16(FromBe16(p[8..10])), p[10], p[11],
      DecodeI16(FromBe16(p[12..14])), DecodeI16(FromBe16(p[14..16])),
      FromBe32(p[16..20]), powerUnit, FromBe32(p[28..32]), currencyUnit,
      p[40], p[41], p[42], p[43], p[44], p[45],
      DecodeI16(FromBe16(p[46..48])), DecodeI16(FromBe16(p[48..50])),
      DecodeI16(FromBe16(p[50..52])), trailing);
  }

  // ---------------------------------------------------------------- the layout is invertible

  /** The unit strings as they come back from their slots. */
  function UnitsCut(w: Block<word>): Block<word> {
    w.(powerUnit := UntilNul(Slot(w.powerUnit)), currencyUnit := UntilNul(Slot(w.currencyUnit)))
  }

  /** Reading a layout gives every field back, except what the unit slots cut off. */
  lemma BlockOfLayout(w: Block<word>)
    ensures BlockOf(Layout(w)) == UnitsCut(w)
  {
    var p := Layout(w);
    assert p[..8] == Control(w) && p[8..16] == Sensing(w);
    assert p[16..40] == Energy(w) && p[40..52] == Ventilation(w);
    assert p[52..] == w.trailing;
    ControlFields(p, w);
    SensingFields(p, w);
    EnergyFields(p, w);
    VentilationFields(p, w);
  }

  lemma ControlFields(p: seq<byte>, w: Block<word>)
    requires |p| == PAYLOAD_SIZE && p[..8] == Control(w)
    ensures Word(p, 0) == w.setpoint
    ensures p[2] == w.setpointStatus && p[3] == w.ctrlMode && p[4] == w.mainMode
    ensures p[5] == w.tempUnit && p[6] == w.timeFormat && p[7] == w.adaptiveCtrl
  {
    var h := p[..8];
    assert p[0] == h[0] && p[1] == h[1] && p[2] == h[2] && p[3] == h[3];
    assert p[4] == h[4] && p[5] == h[5] && p[6] == h[6] && p[7] == h[7];
  }

  lemma SensingFields(p: seq<byte>, w: Block<word>)
    requires |p| == PAYLOAD_SIZE && p[8..16] == Sensing(w)
    ensures Word(p, 8) == w.switchingDiff
    ensures Word(p, 12) == w.internalOffset && Word(p, 14) == w.floorLimited
    ensures p[10] == w.systemMode && p[11] == w.sensorMode
  {
    var h := p[8..16];
    assert p[8] == h[0] && p[9] == h[1] && p[10] == h[2] && p[11] == h[3];
    assert p[12] == h[4] && p[13] == h[5] && p[14] == h[6] && p[15] == h[7];
  }

  lemma EnergyFields(p: seq<byte>, w: Block<word>)
    requires |p| == PAYLOAD_SIZE && p[16..40] == Energy(w)
    ensures FromBe32(p[16..20]) == w.power && p[20..28] == Slot(w.powerUnit)
    ensures FromBe32(p[28..32]) == w.price && p[32..40] == Slot(w.currencyUnit)
  {
    var e := p[16..40];
    assert e[0..4] == Be32(w.power) && e[4..12] == Slot(w.powerUnit);
    assert e[12..16] == Be32(w.price) && e[16..24] == Slot(w.currencyUnit);
    SubSlice(p, 16, 40, 0, 4);
    SubSlice(p, 16, 40, 4, 12);
    SubSlice(p, 16, 40, 12, 16);
    SubSlice(p, 16, 40, 16, 24);
  }

  lemma VentilationFields(p: seq<byte>, w: Block<word>)
    requires |p| == PAYLOAD_SIZE && p[40..52] == Ventilation(w)
    ensures Word(p, 46) == w.changeOverTempHeat && Word(p, 48) == w.changeOverTempCool
    ensures Word(p, 50) == w.switchingDiffCool
    ensures p[40] == w.vacationHold && p[41] == w.reserved41 && p[42] == w.fanStatus
    ensures p[43] == w.fanMode && p[44] == w.forceVent && p[45] == w.changeOverMode
  {
    var v := p[40..52];
    assert p[40] == v[0] && p[41] == v[1] && p[42] == v[2] && p[43] == v[3];
    assert p[44] == v[4] && p[45] == v[5] && p[46] == v[6] && p[47] == v[7];
    assert p[48] == v[8] && p[49] == v[9] && p[50] == v[10] && p[51] == v[11];
  }

  /** Laying out what was read gives every byte back, except what the unit slots cut off. */
  lemma LayoutOfBlock(p: seq<byte>)
    requires |p| == PAYLOAD_SIZE
    ensures Layout(BlockOf(p)) ==
            p[..20] + Slot(UntilNul(p[20..28])) + p[28..32] + Slot(UntilNul(p[32..40])) + p[40..]
  {
    hide FromBe16;
    HeadOfBlock(p);
    EnergyOfBlock(p);
    VentilationOfBlock(p);
    var u, v := Slot(UntilNul(p[20..28])), Slot(UntilNul(p[32..40]));
    Regroup(p[..8], p[8..16], p[16..20], u, p[28..32], v, p[40..52], p[52..]);
    assert p[..20] == p[..8] + p[8..16] + p[16..20];
    assert p[40..] == p[40..52] + p[52..];
  }

  lemma Regroup(z: seq<byte>, a: seq<byte>, b: seq<byte>, c: seq<byte>, d: seq<byte>,
                e: seq<byte>, f: seq<byte>, g: seq<byte>)
    ensures z + a + (b + c + d + e) + f + g == (z + a + b) + c + d + e + (f + g)
  {
  }

  lemma EnergyOfBlock(p: seq<byte>)
    requires |p| == PAYLOAD_SIZE
    ensures Energy(BlockOf(p)) ==
            p[16..20] + Slot(UntilNul(p[20..28])) + p[28..32] + Slot(UntilNul(p[32..40]))
  {
    Be32OfFrom(p[16..20]);
    Be32OfFrom(p[28..32]);
  }

  lemma WordBytes(p: seq<byte>, off: nat)
    requires off + 2 <= |p|
    ensures Word(p, off) / 0x100 == p[off] && Word(p, off) % 0x100 == p[off + 1]
  {
    assert p[off..off + 2] == [p[off], p[off + 1]];
  }

  lemma HeadOfBlock(p: seq<byte>)
    requires |p| == PAYLOAD_SIZE
    ensures Control(BlockOf(p)) == p[..8] && Sensing(BlockOf(p)) == p[8..16]
  {
    hide FromBe16;
    WordBytes(p, 0);
    WordBytes(p, 8);
    WordBytes(p, 12);
    WordBytes(p, 14);
    assert p[..8] == [p[0], p[1], p[2], p[3], p[4], p[5], p[6], p[7]];
    assert p[8..16] == [p[8], p[9], p[10], p[11], p[12], p[13], p[14], p[15]];
  }

  lemma VentilationOfBlock(p: seq<byte>)
    requires |p| == PAYLOAD_SIZE
    ensures Ventilation(BlockOf(p)) == p[40..52]
  {
    hide FromBe16;
    WordBytes(p, 46);
    WordBytes(p, 48);
    WordBytes(p, 50);
    assert p[40..52] == [p[40], p[41], p[42], p[43], p[44], p[45], p[46], p[47], p[48], p[49],
                         p[50], p[51]];
  }

  // ---------------------------------------------------------------- round trips

  /** The seven temperature words are non-negative when read as signed. */
  predicate Positive(w: Block<word>) {
    && w.setpoint < 0x8000 && w.switchingDiff < 0x8000
    && w.internalOffset < 0x8000 && w.floorLimited < 0x8000
    && w.changeOverTempHeat < 0x8000 && w.changeOverTempCool < 0x8000
    && w.switchingDiffCool < 0x8000
  }

  /** Casting decoded temperatures back is defined exactly for non-negative words, and exact. */
  lemma WordsOfDegrees(w: Block<word>)
    ensures Encodable(ToDegrees(w)) <==> Positive(w)
    ensures Positive(w) ==> ToWords(ToDegrees(w)) == w
  {
    MixedExact(w.setpoint);
    MixedExact(w.switchingDiff);
    MixedExact(w.internalOffset);
    MixedExact(w.floorLimited);
    MixedExact(w.changeOverTempHeat);
    MixedExact(w.changeOverTempCool);
    MixedExact(w.switchingDiffCool);
  }

  /**
   * Bytes to bytes: re-encoding a decoded payload is defined exactly when its temperatures
   * are non-negative, and then restores it exactly when its unit slots are clean.
   */
  lemma PayloadRoundTrip(p: seq<byte>)
    requires |p| == PAYLOAD_SIZE
    ensures Encodable(ToDegrees(BlockOf(p))) <==> Positive(BlockOf(p))
    ensures Positive(BlockOf(p)) ==>
              (Layout(ToWords(ToDegrees(BlockOf(p)))) == p
               <==> ZeroAfterNul(p[20..28]) && ZeroAfterNul(p[32..40]))
  {
    WordsOfDegrees(BlockOf(p));
    LayoutOfBlock(p);
    WriteOfRead(p[20..28]);
    WriteOfRead(p[32..40]);
    ReplaceSlots(p, Slot(UntilNul(p[20..28])), Slot(UntilNul(p[32..40])));
  }

  lemma ReplaceSlots(p: seq<byte>, u: seq<byte>, v: seq<byte>)
    requires |p| == PAYLOAD_SIZE && |u| == UNIT_LEN && |v| == UNIT_LEN
    ensures p[..20] + u + p[28..32] + v + p[40..] == p <==> u == p[20..28] && v == p[32..40]
  {
    var q := p[..20] + u + p[28..32] + v + p[40..];
    assert q[20..28] == u && q[32..40] == v;
    assert p == p[..20] + p[20..28] + p[28..32] + p[32..40] + p[40..];
  }

  /** Temperatures on the grid of tenths, and units that fit their slots without a NUL. */
  ghost predicate Restorable(c: Config) {
    && OnGrid(c.setpoint, 0, 0x8000) && OnGrid(c.switchingDiff, 0, 0x8000)
    && OnGrid(c.internalOffset, 0, 0x8000) && OnGrid(c.floorLimited, 0, 0x8000)
    && OnGrid(c.changeOverTempHeat, 0, 0x8000) && OnGrid(c.changeOverTempCool, 0, 0x8000)
    && OnGrid(c.switchingDiffCool, 0, 0x8000)
    && |c.powerUnit| <= UNIT_LEN && 0 !in c.powerUnit
    && |c.currencyUnit| <= UNIT_LEN && 0 !in c.currencyUnit
  }

  /** Values to values: a configuration comes back from the wire exactly when it is restorable. */
  lemma ConfigRoundTrip(c: Config)
    requires Encodable(c)
    ensures ToDegrees(BlockOf(Layout(ToWords(c)))) == c <==> Restorable(c)
  {
    var w := ToWords(c);
    BlockOfLayout(w);
    MixedGrid(c.setpoint);
    MixedGrid(c.switchingDiff);
    MixedGrid(c.internalOffset);
    MixedGrid(c.floorLimited);
    MixedGrid(c.changeOverTempHeat);
    MixedGrid(c.changeOverTempCool);
    MixedGrid(c.switchingDiffCool);
    ReadOfWriteExact(c.powerUnit);
    ReadOfWriteExact(c.currencyUnit);
  }

  /** Whatever was decoded and can be encoded again is restorable. */
  lemma DecodedIsRestorable(p: seq<byte>)
    requires |p| == PAYLOAD_SIZE && Positive(BlockOf(p))
    ensures Restorable(ToDegrees(BlockOf(p)))
  {
    var w := BlockOf(p);
    assert Quotient(w.setpoint) == DecodeI16(w.setpoint);
    assert Quotient(w.switchingDiff) == DecodeI16(w.switchingDiff);
    assert Quotient(w.internalOffset) == DecodeI16(w.internalOffset);
    assert Quotient(w.floorLimited) == DecodeI16(w.floorLimited);
    assert Quotient(w.changeOverTempHeat) == DecodeI16(w.changeOverTempHeat);
    assert Quotient(w.changeOverTempCool) == DecodeI16(w.changeOverTempCool);
    assert Quotient(w.switchingDiffCool) == DecodeI16(w.switchingDiffCool);
  }
}
