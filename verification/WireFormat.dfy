/**
 * The wire format by its numbers: which bytes stand where in every frame and message, without
 * the constants and layouts of the modules that read and write them.
 */
module WireFormat {
  import opened Wrappers
  import opened Bytes
  import opened FixedPoint
  import opened Messages
  import opened Link
  import AC = AllConfig
  import SC = Schedule
  import UnitSlot
  import Wmmm
  import Aup
  import AupStream

  // ---------------------------------------------------------------- AUP

  /** One frame on the wire: its bytes, and what a receiver makes of them. */
  lemma AupBytes(c: byte, g: byte, k: byte, m: byte, u: seq<byte>)
    requires |u| < 0x1_0000
    ensures var s := [0x5A, 0x9E, c, g, k, m, |u| / 0x100, |u| % 0x100] + u;
            var f := Aup.Frame(c, g, k, m, |u|, u);
            && Aup.Wire(f) == s
            && Aup.Parse(s) == Aup.Item([], f, Aup.End([], []))
            && AupStream.Emitted(AupStream.Events([], s)) == [f]
            && AupStream.Rest([], s) == []
  {
    hide Aup.Wire, Aup.Parse, AupStream.Events, AupStream.Emitted;
    var f := Aup.Frame(c, g, k, m, |u|, u);
    AupLayout(c, g, k, m, u);
    AupStream.InverseExactlyWhenWellFormed(f);
    ParseOne(f);
  }

  lemma AupLayout(c: byte, g: byte, k: byte, m: byte, u: seq<byte>)
    requires |u| < 0x1_0000
    ensures Aup.Wire(Aup.Frame(c, g, k, m, |u|, u)) ==
            [0x5A, 0x9E, c, g, k, m, |u| / 0x100, |u| % 0x100] + u
  {
  }

  lemma ParseOne(f: Aup.Frame)
    requires Aup.WellFormed(f)
    ensures Aup.Parse(Aup.Wire(f)) == Aup.Item([], f, Aup.End([], []))
  {
    hide Aup.Wire, Aup.Parse;
    var x := Aup.Item([], f, Aup.End([], []));
    assert Aup.Join(x) == [] + Aup.Wire(f) + ([] + []) == Aup.Wire(f);
    Aup.JoinParse(x);
  }

  /** A stream without the two marker bytes in a row holds no frame. */
  lemma SilentWithoutMarker(s: seq<byte>)
    requires forall i | 0 <= i < |s| - 1 :: s[i] == 0x5A ==> s[i + 1] != 0x9E
    ensures AupStream.Emitted(AupStream.Events([], s)) == []
  {
    assert Aup.MarkerFree(s);
    var x := Aup.End(s, []);
    assert Aup.Join(x) == s;
    AupStream.NoisyRoundTrip(x);
  }

  // ---------------------------------------------------------------- WMMM

  lemma WmmmBytes(data: seq<byte>)
    ensures |data| < 4 <==> Wmmm.FrameOf(data) == None
    ensures |data| >= 4 ==>
              Wmmm.FrameOf(data) == Some(Wmmm.Frame(data[0], [data[1], data[2], data[3]], data[4..]))
  {
    if |data| >= 4 {
      assert data[1..4] == [data[1], data[2], data[3]];
    }
  }

  lemma WmmmLayout(id: byte, r1: byte, r2: byte, r3: byte, payload: seq<byte>)
    ensures Wmmm.Layout(Wmmm.Frame(id, [r1, r2, r3], payload)) == [id, r1, r2, r3] + payload
  {
  }

  /** Every packet that is sent: AUP header, length, message id, reserved bytes and payload. */
  lemma PacketBytes(m: Sendable, packet: seq<byte>)
    requires Packs(packet, m)
    ensures var f := FrameOf(m);
            && |f.payload| <= 116
            && packet == [0x5A, 0x9E, 0x00, 0x00, 0x01, 0x10, 0x00, |f.payload| + 4,
                          f.msgId, 0x00, 0x00, 0x00] + f.payload
  {
    hide FrameOf, Tenths;
    SmallPayload(m);
    NothingReserved(m);
    WrappedBytes(FrameOf(m));
  }

  lemma NothingReserved(m: Sendable)
    ensures FrameOf(m).reserved == [0x00, 0x00, 0x00]
  {
    hide Payload;
  }

  lemma WrappedBytes(f: Wmmm.Frame)
    requires |f.payload| <= 116 && f.reserved == [0x00, 0x00, 0x00]
    ensures Aup.Wire(Wrapped(f)) ==
            [0x5A, 0x9E, 0x00, 0x00, 0x01, 0x10, 0x00, |f.payload| + 4,
             f.msgId, 0x00, 0x00, 0x00] + f.payload
  {
    hide Aup.Wire;
    var data := [f.msgId, 0x00, 0x00, 0x00] + f.payload;
    WmmmLayout(f.msgId, 0x00, 0x00, 0x00, f.payload);
    AupLayout(0x00, 0x00, 0x01, 0x10, data);
  }

  /** The message in a received AUP frame, whatever its header and reserved bytes hold. */
  lemma MessageInFrame(frame: Aup.Frame)
    ensures |frame.payload| < 4 ==> MessagesOn([frame]) == []
    ensures |frame.payload| >= 4 ==>
              var u := frame.payload;
              var m := Decoded(Wmmm.Frame(u[0], [u[1], u[2], u[3]], u[4..]));
              MessagesOn([frame]) == if m.Some? then [m.value] else []
  {
    WmmmBytes(frame.payload);
    var f := Wmmm.FrameOf(frame.payload);
    assert WmmmFrames([frame]) == if f.Some? then [f.value] else [];
    if f.Some? {
      var m := Decoded(f.value);
      assert MessagesIn([f.value]) == if m.Some? then [m.value] else [];
    }
  }

  // ---------------------------------------------------------------- short messages

  function WordAt(p: seq<byte>, off: nat): word
    requires off + 2 <= |p|
  {
    0x100 * (p[off] as int) + p[off + 1]
  }

  function LongAt(p: seq<byte>, off: nat): dword
    requires off + 4 <= |p|
  {
    0x1_0000 * (WordAt(p, off) as int) + WordAt(p, off + 2)
  }

  /** What a frame with four bytes of payload carries, by its id. */
  lemma DecodedShort(f: Wmmm.Frame)
    requires |f.payload| == 4
    ensures var p := f.payload;
            var w1, w2 := WordAt(p, 0), WordAt(p, 2);
            Decoded(f) ==
            match f.msgId
            case 0x02 => Some(Temperature(DecodeU16(w1), DecodeU16(w2)))
            case 0x2A => Some(TargetTemperature(DecodeU16(w1), DecodeU16(w2)))
            case 0x21 => Some(Power(p[0] != 0x00))
            case 0x22 => Some(ByteValue(FanSpeed, p[0]))
            case 0x23 => Some(ByteValue(SystemMode, p[0]))
            case 0x2C => Some(ByteValue(DisplayUnit, p[0]))
            case 0x5C => Some(ByteValue(Mode, p[0]))
            case 0x56 => Some(Scalar(TemperatureOffset, DecodeI16(w1)))
            case 0x58 => Some(Scalar(SwitchingDiffHeat, DecodeI16(w1)))
            case 0x59 => Some(Scalar(SwitchingDiffCool, DecodeI16(w1)))
            case 0x5D => Some(Scalar(ChangeoverHeat, DecodeI16(w1)))
            case 0x5E => Some(Scalar(ChangeoverCool, DecodeI16(w1)))
            case _ => None
  {
    hide DecodeU16, DecodeI16;
    var p := f.payload;
    assert FromBe16(p[..2]) == WordAt(p, 0) && FromBe16(p[2..4]) == WordAt(p, 2);
    if k :| f.msgId == Id(k) {
      DecodedOfKind(f, k);
    } else {
      assert f.msgId != Id(TemperatureKind) && f.msgId != Id(TargetTemperatureKind);
      assert f.msgId != Id(PowerKind);
      assert f.msgId != Id(ByteKind(FanSpeed)) && f.msgId != Id(ByteKind(SystemMode));
      assert f.msgId != Id(ByteKind(DisplayUnit)) && f.msgId != Id(ByteKind(Mode));
      assert f.msgId != Id(ScalarKind(TemperatureOffset));
      assert f.msgId != Id(ScalarKind(SwitchingDiffHeat)) && f.msgId != Id(ScalarKind(SwitchingDiffCool));
      assert f.msgId != Id(ScalarKind(ChangeoverHeat)) && f.msgId != Id(ScalarKind(ChangeoverCool));
      Accepted(f);
    }
  }

  /** Longer or shorter payloads are accepted for two ids, at one size each. */
  lemma DecodedLong(f: Wmmm.Frame)
    requires |f.payload| != 4
    ensures Decoded(f).Some? <==>
            (f.msgId == 0x76 && |f.payload| == 61) || (f.msgId == 0x78 && |f.payload| == 116)
    ensures Decoded(f).Some? ==> if f.msgId == 0x76 then Decoded(f).value.AllConfig? else Decoded(f).value.Schedule?
  {
    Accepted(f);
    if f.msgId == 0x76 && |f.payload| == 61 {
      assert f.msgId == Id(AllConfigKind) && |f.payload| == Size(AllConfigKind);
    }
    if f.msgId == 0x78 && |f.payload| == 116 {
      assert f.msgId == Id(ScheduleKind) && |f.payload| == Size(ScheduleKind);
    }
  }

  /** The bytes of a word, most significant first. */
  function Bytes16(w: word): seq<byte> {
    [w / 0x100, w % 0x100]
  }

  /** What the encoders of the short messages write. */
  lemma EncodedShort(m: Sendable)
    ensures match m
            case Temperature(t1, t2) =>
              FrameOf(m) == Wmmm.Frame(0x02, [0, 0, 0], Bytes16(EncodeU16(t1)) + Bytes16(EncodeU16(t2)))
            case TargetTemperature(t1, t2) =>
              FrameOf(m) == Wmmm.Frame(0x2A, [0, 0, 0], Bytes16(EncodeU16(t1)) + Bytes16(EncodeU16(t2)))
            case Power(on) => FrameOf(m) == Wmmm.Frame(0x21, [0, 0, 0], [if on then 0x01 else 0x00, 0, 0, 0])
            case ByteValue(s, v) =>
              FrameOf(m) == Wmmm.Frame(
                match s case FanSpeed => 0x22 case SystemMode => 0x23 case DisplayUnit => 0x2C case Mode => 0x5C,
                [0, 0, 0], [v, 0, 0, 0])
            case Scalar(s, t) =>
              FrameOf(m) == Wmmm.Frame(
                match s
                case TemperatureOffset => 0x56
                case SwitchingDiffHeat => 0x58
                case SwitchingDiffCool => 0x59
                case ChangeoverHeat => 0x5D
                case ChangeoverCool => 0x5E,
                [0, 0, 0], Bytes16(EncodeI16(t)) + [0, 0])
            case AllConfig(_) => FrameOf(m).msgId == 0x76 && FrameOf(m).reserved == [0, 0, 0]
            case Schedule(_) => FrameOf(m).msgId == 0x78 && FrameOf(m).reserved == [0, 0, 0]
  {
    hide Tenths;
  }

  // ---------------------------------------------------------------- AllConfig

  /** The string in a slot of eight bytes: everything before the first NUL. */
  predicate UnitAt(p: seq<byte>, off: nat, u: seq<byte>)
    requires off + 8 <= |p|
  {
    && |u| <= 8 && u == p[off..off + |u|]
    && 0 !in u
    && (|u| < 8 ==> p[off + |u|] == 0)
  }

  /** A slot of eight bytes holding a string: cut to fit, padded with zeros. */
  predicate SlotAt(p: seq<byte>, off: nat, u: seq<byte>)
    requires off + 8 <= |p|
  {
    forall i | 0 <= i < 8 :: p[off + i] == if i < |u| then u[i] else 0
  }

  /** The fields that are single bytes, and the trailing bytes. */
  predicate PlainFields(p: seq<byte>, c: AC.Config)
    requires |p| == 61
  {
    && c.setpointStatus == p[2] && c.ctrlMode == p[3] && c.mainMode == p[4] && c.tempUnit == p[5]
    && c.timeFormat == p[6] && c.adaptiveCtrl == p[7] && c.systemMode == p[10] && c.sensorMode == p[11]
    && c.vacationHold == p[40] && c.reserved41 == p[41] && c.fanStatus == p[42] && c.fanMode == p[43]
    && c.forceVent == p[44] && c.changeOverMode == p[45]
    && c.trailing == p[52..61]
  }

  /** What decoding reads from a payload, field by field. */
  predicate ConfigRead(p: seq<byte>, c: AC.Config)
    requires |p| == 61
  {
    && PlainFields(p, c)
    && c.setpoint == DecodeI16(WordAt(p, 0))
    && c.switchingDiff == DecodeI16(WordAt(p, 8))
    && c.internalOffset == DecodeI16(WordAt(p, 12))
    && c.floorLimited == DecodeI16(WordAt(p, 14))
    && c.power == LongAt(p, 16)
    && UnitAt(p, 20, c.powerUnit)
    && c.price == LongAt(p, 28)
    && UnitAt(p, 32, c.currencyUnit)
    && c.changeOverTempHeat == DecodeI16(WordAt(p, 46))
    && c.changeOverTempCool == DecodeI16(WordAt(p, 48))
    && c.switchingDiffCool == DecodeI16(WordAt(p, 50))
  }

  /** Every field of a decoded configuration, by offset. */
  lemma DecodedConfig(f: Wmmm.Frame)
    requires f.msgId == 0x76 && |f.payload| == 61
    ensures Decoded(f).Some? && Decoded(f).value.AllConfig?
    ensures ConfigRead(f.payload, Decoded(f).value.config)
  {
    hide AC.ToDegrees, AC.BlockOf, DecodeI16;
    DecodedOfKind(f, AllConfigKind);
    ConfigFields(f.payload);
  }

  lemma ConfigFields(p: seq<byte>)
    requires |p| == 61
    ensures ConfigRead(p, AC.ToDegrees(AC.BlockOf(p)))
  {
    hide DecodeI16, FromBe16, FromBe32, UnitSlot.UntilNul;
    WordRead(p, 0);
    WordRead(p, 8);
    WordRead(p, 12);
    WordRead(p, 14);
    LongRead(p, 16);
    LongRead(p, 28);
    WordRead(p, 46);
    WordRead(p, 48);
    WordRead(p, 50);
    UnitRead(p, 20);
    UnitRead(p, 32);
  }

  lemma WordRead(p: seq<byte>, off: nat)
    requires off + 2 <= |p|
    ensures AC.Word(p, off) == FromBe16(p[off..off + 2]) == WordAt(p, off)
  {
  }

  lemma LongRead(p: seq<byte>, off: nat)
    requires off + 4 <= |p|
    ensures FromBe32(p[off..off + 4]) == LongAt(p, off)
  {
    hide FromBe32;
    var s := p[off..off + 4];
    assert s[..2] == p[off..off + 2] && s[2..] == p[off + 2..off + 4];
    WordRead(p, off);
    WordRead(p, off + 2);
  }

  lemma UnitRead(p: seq<byte>, off: nat)
    requires off + 8 <= |p|
    ensures UnitAt(p, off, UnitSlot.UntilNul(p[off..off + 8]))
  {
    var s := p[off..off + 8];
    var u := UnitSlot.UntilNul(s);
    assert u == s[..|u|] == p[off..off + |u|];
  }

  /** Every byte of an encoded configuration, by offset. */
  lemma EncodedConfig(c: AC.Config)
    requires AC.Encodable(c)
    ensures Encodable(AllConfig(c)) && |FrameOf(AllConfig(c)).payload| == 61
    ensures var p := FrameOf(AllConfig(c)).payload;
            && PlainFields(p, c)
            && WordAt(p, 0) == EncodeU16(c.setpoint)
            && WordAt(p, 8) == EncodeU16(c.switchingDiff)
            && WordAt(p, 12) == EncodeU16(c.internalOffset)
            && WordAt(p, 14) == EncodeU16(c.floorLimited)
            && LongAt(p, 16) == c.power
            && SlotAt(p, 20, c.powerUnit)
            && LongAt(p, 28) == c.price
            && SlotAt(p, 32, c.currencyUnit)
            && WordAt(p, 46) == EncodeU16(c.changeOverTempHeat)
            && WordAt(p, 48) == EncodeU16(c.changeOverTempCool)
            && WordAt(p, 50) == EncodeU16(c.switchingDiffCool)
  {
    hide FromBe16, FromBe32, UnitSlot.UntilNul, EncodeU16, AC.Layout;
    ConfigMessage(c);
    var w := AC.ToWords(c);
    var p := AC.Layout(w);
    AC.BlockOfLayout(w);
    ConfigSlots(w);
    WordRead(p, 0);
    WordRead(p, 8);
    WordRead(p, 12);
    WordRead(p, 14);
    LongRead(p, 16);
    LongRead(p, 28);
    WordRead(p, 46);
    WordRead(p, 48);
    WordRead(p, 50);
    assert p[52..] == p[52..61];
  }

  lemma ConfigSlots(w: AC.Block<word>)
    ensures SlotAt(AC.Layout(w), 20, w.powerUnit) && SlotAt(AC.Layout(w), 32, w.currencyUnit)
  {
    var p := AC.Layout(w);
    assert p[16..40] == AC.Energy(w);
    AC.EnergyFields(p, w);
    SlotBytes(p, 20, w.powerUnit);
    SlotBytes(p, 32, w.currencyUnit);
  }

  lemma SlotBytes(p: seq<byte>, off: nat, u: seq<byte>)
    requires off + 8 <= |p| && p[off..off + 8] == UnitSlot.Slot(u)
    ensures SlotAt(p, off, u)
  {
    forall i | 0 <= i < 8
      ensures p[off + i] == if i < |u| then u[i] else 0
    {
      assert p[off..off + 8][i] == p[off + i];
    }
  }

  // ---------------------------------------------------------------- Schedule

  /** Every field of a decoded program, by offset. */
  lemma DecodedProgram(f: Wmmm.Frame, d: nat, e: nat)
    requires f.msgId == 0x78 && |f.payload| == 116
    requires d < 7 && e < 4
    ensures Decoded(f).Some? && Decoded(f).value.Schedule?
    ensures var p, g := f.payload, Decoded(f).value.program;
            var at := 4 + 16 * d + 4 * e;
            && g.mode == p[0] && g.reserved == [p[1], p[2], p[3]]
            && |g.days| == 7 && |g.days[d]| == 4
            && g.days[d][e] == SC.Entry(p[at], p[at + 1], DecodeI16(WordAt(p, at + 2)))
  {
    hide DecodeI16, FromBe16;
    DecodedOfKind(f, ScheduleKind);
    WordRead(f.payload, 4 + 16 * d + 4 * e + 2);
  }

  /** Every byte of an encoded program, by offset. */
  lemma EncodedProgram(g: SC.Weekly, d: nat, e: nat)
    requires SC.Encodable(g)
    requires d < 7 && e < 4
    ensures Encodable(Schedule(g)) && |FrameOf(Schedule(g)).payload| == 116
    ensures var p := FrameOf(Schedule(g)).payload;
            var at := 4 + 16 * d + 4 * e;
            && p[0] == g.mode && [p[1], p[2], p[3]] == g.reserved
            && p[at] == g.days[d][e].hour && p[at + 1] == g.days[d][e].minute
            && WordAt(p, at + 2) == EncodeU16(g.days[d][e].setpoint)
  {
    hide EncodeU16, SC.Layout;
    ProgramFields(SC.ToWords(g), d, e);
  }

  lemma ProgramFields(w: SC.Program<word>, d: nat, e: nat)
    requires SC.Shaped(w) && d < 7 && e < 4
    ensures var p, at := SC.Layout(w), 4 + 16 * d + 4 * e;
            && p[0] == w.mode && [p[1], p[2], p[3]] == w.reserved
            && SC.Entry(p[at], p[at + 1], WordAt(p, at + 2)) == w.days[d][e]
  {
    hide FromBe16;
    SC.EntryOfLayout(w, d, e);
    WordRead(SC.Layout(w), 4 + 16 * d + 4 * e + 2);
  }
}
