/**
 * The typed messages of include/messages/ and their dispatch (src/messages.cpp). Settings with
 * the same body share a codec, selected by the setting.
 */
module Messages {
  import opened Wrappers
  import opened Bytes
  import opened FixedPoint
  import opened UnitSlot
  import AllConfig
  import Schedule
  import Wmmm

  /** Settings carried as one enumeration byte and three reserved bytes. */
  datatype ByteSetting = Mode | FanSpeed | SystemMode | DisplayUnit

  /** Settings carried as one signed temperature and two reserved bytes. */
  datatype ScalarSetting =
    | TemperatureOffset | SwitchingDiffHeat | SwitchingDiffCool | ChangeoverHeat | ChangeoverCool

  /** The alternatives of the source's variant. */
  datatype Kind =
    | TemperatureKind | TargetTemperatureKind | PowerKind | AllConfigKind | ScheduleKind
    | ByteKind(byteSetting: ByteSetting) | ScalarKind(scalarSetting: ScalarSetting)

  datatype Message =
    | Temperature(t1: real, t2: real)
    | TargetTemperature(t1: real, t2: real)
    | Power(on: bool)
    | ByteValue(byteSetting: ByteSetting, value: byte)
    | Scalar(scalarSetting: ScalarSetting, degrees: real)
    | AllConfig(config: AllConfig.Config)
    | Schedule(program: Schedule.Weekly)

  function KindOf(m: Message): Kind {
    match m
    case Temperature(_, _) => TemperatureKind
    case TargetTemperature(_, _) => TargetTemperatureKind
    case Power(_) => PowerKind
    case ByteValue(s, _) => ByteKind(s)
    case Scalar(s, _) => ScalarKind(s)
    case AllConfig(_) => AllConfigKind
    case Schedule(_) => ScheduleKind
  }

  /** The `ID` constant of each message type. */
  function Id(k: Kind): byte {
    match k
    case TemperatureKind => 0x02
    case TargetTemperatureKind => 0x2A
    case PowerKind => 0x21
    case AllConfigKind => 0x76
    case ScheduleKind => 0x78
    case ByteKind(Mode) => 0x5C
    case ByteKind(FanSpeed) => 0x22
    case ByteKind(SystemMode) => 0x23
    case ByteKind(DisplayUnit) => 0x2C
    case ScalarKind(TemperatureOffset) => 0x56
    case ScalarKind(SwitchingDiffHeat) => 0x58
    case ScalarKind(SwitchingDiffCool) => 0x59
    case ScalarKind(ChangeoverHeat) => 0x5D
    case ScalarKind(ChangeoverCool) => 0x5E
  }

  /** The `PAYLOAD_SIZE` constant of each message type. */
  function Size(k: Kind): nat {
    match k
    case AllConfigKind => AllConfig.PAYLOAD_SIZE
    case ScheduleKind => Schedule.PAYLOAD_SIZE
    case _ => 4
  }

  /** The alternatives in the order in which the variant lists them. */
  const ALTERNATIVES: seq<Kind> := [
    TemperatureKind, TargetTemperatureKind, ByteKind(Mode), PowerKind, ByteKind(FanSpeed),
    AllConfigKind, ScheduleKind, ScalarKind(TemperatureOffset), ScalarKind(SwitchingDiffHeat),
    ScalarKind(SwitchingDiffCool), ScalarKind(ChangeoverHeat), ScalarKind(ChangeoverCool),
    ByteKind(SystemMode), ByteKind(DisplayUnit)]

  // ---------------------------------------------------------------- encoding

  /** Every temperature's cast is defined. */
  predicate Encodable(m: Message) {
    match m
    case Temperature(t1, t2) => FitsU16(t1) && FitsU16(t2)
    case TargetTemperature(t1, t2) => FitsU16(t1) && FitsU16(t2)
    case Scalar(_, t) => FitsI16(t)
    case AllConfig(c) => AllConfig.Encodable(c)
    case Schedule(g) => Schedule.Encodable(g)
    case _ => true
  }

  /** A message that can be sent. */
  type Sendable = m: Message | Encodable(m) witness Power(false)

  /** The payload of a message. */
  function Payload(m: Message): (p: seq<byte>)
    requires Encodable(m)
    ensures |p| == Size(KindOf(m))
  {
    match m
    case Temperature(t1, t2) => Be16(EncodeU16(t1)) + Be16(EncodeU16(t2))
    case TargetTemperature(t1, t2) => Be16(EncodeU16(t1)) + Be16(EncodeU16(t2))
    case Power(on) => [if on then 1 else 0, 0, 0, 0]
    case ByteValue(_, v) => [v, 0, 0, 0]
    case Scalar(_, t) => Be16(EncodeI16(t)) + [0, 0]
    case AllConfig(c) => AllConfig.Layout(AllConfig.ToWords(c))
    case Schedule(g) => Schedule.Layout(Schedule.ToWords(g))
  }

  /** The frame of a message: its id, zero reserved bytes and its payload. */
  function FrameOf(m: Message): Wmmm.Frame
    requires Encodable(m)
  {
    Wmmm.Frame(Id(KindOf(m)), Wmmm.NO_RESERVED, Payload(m))
  }

  /** `encode` of whichever message type. */
  method Encode(m: Message) returns (f: Wmmm.Frame)
    requires Encodable(m)
    ensures f == FrameOf(m)
  {
    var payload: seq<byte>;
    match m {
      case Temperature(t1, t2) =>
        payload := EncodePair(t1, t2);
      case TargetTemperature(t1, t2) =>
        payload := EncodePair(t1, t2);
      case Power(on) =>
        payload := EncodeByte(if on then 0x01 else 0x00);
      case ByteValue(_, value) =>
        payload := EncodeByte(value);
      case Scalar(_, t) =>
        payload := EncodeScalar(t);
      case AllConfig(c) =>
        payload := AllConfig.Encode(c);
      case Schedule(g) =>
        payload := Schedule.Encode(g);
    }
    f := Wmmm.Frame(Id(KindOf(m)), [0, 0, 0], payload);
  }

  /** Two unsigned channels. */
  method EncodePair(t1: real, t2: real) returns (payload: seq<byte>)
    requires FitsU16(t1) && FitsU16(t2)
    ensures payload == Be16(EncodeU16(t1)) + Be16(EncodeU16(t2))
  {
    hide FromBe16, Tenths;
    var p := new byte[4](_ => 0);
    ToBe16(p, 0, EncodeU16(t1));
    ToBe16(p, 2, EncodeU16(t2));
    payload := p[..];
  }

  /** One signed value in a zeroed buffer. */
  method EncodeScalar(t: real) returns (payload: seq<byte>)
    requires FitsI16(t)
    ensures payload == Be16(EncodeI16(t)) + [0, 0]
  {
    var p := new byte[4](_ => 0);
    ToBe16(p, 0, EncodeI16(t));
    payload := p[..];
  }

  /** One byte in a zeroed buffer. */
  method EncodeByte(value: byte) returns (payload: seq<byte>)
    ensures payload == [value, 0, 0, 0]
  {
    var p := new byte[4](_ => 0);
    p[0] := value;
    payload := p[..];
  }

  // ---------------------------------------------------------------- decoding

  /** The message that a payload of the right size carries. */
  function MessageOf(k: Kind, p: seq<byte>): Message
    requires |p| == Size(k)
  {
    match k
    case TemperatureKind => Temperature(DecodeU16(FromBe16(p[..2])), DecodeU16(FromBe16(p[2..4])))
    case TargetTemperatureKind =>
      TargetTemperature(DecodeU16(FromBe16(p[..2])), DecodeU16(FromBe16(p[2..4])))
    case PowerKind => Power(p[0] != 0)
    case ByteKind(s) => ByteValue(s, p[0])
    case ScalarKind(s) => Scalar(s, DecodeI16(FromBe16(p[..2])))
    case AllConfigKind => AllConfig(AllConfig.ToDegrees(AllConfig.BlockOf(p)))
    case ScheduleKind => Schedule(Schedule.ToDegrees(Schedule.ProgramOf(p)))
  }

  /** `try_decode`: whether the id matches, and the message if the payload also decodes. */
  method TryDecode(k: Kind, f: Wmmm.Frame) returns (matched: bool, out: Option<Message>)
    ensures matched <==> f.msgId == Id(k)
    ensures out == if matched && |f.payload| == Size(k) then Some(MessageOf(k, f.payload)) else None
  {
    out := None;
    if f.msgId != Id(k) {
      return false, out;
    }
    if |f.payload| == Size(k) {
      match k {
        case AllConfigKind =>
          var c := AllConfig.Decode(f.payload);
          out := Some(AllConfig(c));
        case ScheduleKind =>
          var g := Schedule.Decode(f.payload);
          out := Some(Schedule(g));
        case _ =>
          out := Some(MessageOf(k, f.payload));
      }
    }
    return true, out;
  }

  /** `decode_variant`: try the alternatives in order; the first whose id matches decides. */
  method DecodeVariant(f: Wmmm.Frame, ks: seq<Kind>) returns (out: Option<Message>)
    ensures out == Dispatch(f, ks)
  {
    out := None;
    for i := 0 to |ks|
      invariant out == None
      invariant Dispatch(f, ks) == Dispatch(f, ks[i..])
    {
      var matched: bool;
      matched, out := TryDecode(ks[i], f);
      if matched {
        return;
      }
      assert ks[i..][1..] == ks[i + 1..];
    }
  }

  /** The short-circuit fold over the alternatives. */
  function Dispatch(f: Wmmm.Frame, ks: seq<Kind>): Option<Message> {
    if ks == [] then None
    else if f.msgId == Id(ks[0]) then
      if |f.payload| == Size(ks[0]) then Some(MessageOf(ks[0], f.payload)) else None
    else Dispatch(f, ks[1..])
  }

  /** `decode_message` as a function. */
  function Decoded(f: Wmmm.Frame): Option<Message> {
    Dispatch(f, ALTERNATIVES)
  }

  /** `decode_message` */
  method DecodeMessage(f: Wmmm.Frame) returns (out: Option<Message>)
    ensures out == Decoded(f)
  {
    out := DecodeVariant(f, ALTERNATIVES);
  }

  // ---------------------------------------------------------------- dispatch

  lemma IdUnique(j: Kind, k: Kind)
    ensures Id(j) == Id(k) <==> j == k
  {
  }

  /** Dispatch is lookup by id: an alternative that matches decides, wherever it stands. */
  lemma {:induction false} DispatchFinds(f: Wmmm.Frame, ks: seq<Kind>, k: Kind)
    requires k in ks && f.msgId == Id(k)
    ensures Dispatch(f, ks) ==
            if |f.payload| == Size(k) then Some(MessageOf(k, f.payload)) else None
  {
    IdUnique(ks[0], k);
    if ks[0] != k {
      DispatchFinds(f, ks[1..], k);
    }
  }

  lemma {:induction false} DispatchMisses(f: Wmmm.Frame, ks: seq<Kind>)
    requires forall k | k in ks :: f.msgId != Id(k)
    ensures Dispatch(f, ks) == None
  {
    if ks != [] {
      assert ks[0] in ks;
      DispatchMisses(f, ks[1..]);
    }
  }

  /** The order and multiplicity of the alternatives do not matter. */
  lemma DispatchOrderIrrelevant(f: Wmmm.Frame, ks: seq<Kind>, js: seq<Kind>)
    requires forall k :: k in ks <==> k in js
    ensures Dispatch(f, ks) == Dispatch(f, js)
  {
    if k :| k in ks && f.msgId == Id(k) {
      DispatchFinds(f, ks, k);
      DispatchFinds(f, js, k);
    } else {
      DispatchMisses(f, ks);
      DispatchMisses(f, js);
    }
  }

  lemma EveryKindListed(k: Kind)
    ensures k in ALTERNATIVES
  {
    var ks := ALTERNATIVES;
    match k
    case TemperatureKind => assert ks[0] == k;
    case TargetTemperatureKind => assert ks[1] == k;
    case ByteKind(Mode) => assert ks[2] == k;
    case PowerKind => assert ks[3] == k;
    case ByteKind(FanSpeed) => assert ks[4] == k;
    case AllConfigKind => assert ks[5] == k;
    case ScheduleKind => assert ks[6] == k;
    case ScalarKind(TemperatureOffset) => assert ks[7] == k;
    case ScalarKind(SwitchingDiffHeat) => assert ks[8] == k;
    case ScalarKind(SwitchingDiffCool) => assert ks[9] == k;
    case ScalarKind(ChangeoverHeat) => assert ks[10] == k;
    case ScalarKind(ChangeoverCool) => assert ks[11] == k;
    case ByteKind(SystemMode) => assert ks[12] == k;
    case ByteKind(DisplayUnit) => assert ks[13] == k;
  }

  lemma DecodedOfKind(f: Wmmm.Frame, k: Kind)
    requires f.msgId == Id(k)
    ensures Decoded(f) == if |f.payload| == Size(k) then Some(MessageOf(k, f.payload)) else None
  {
    EveryKindListed(k);
    DispatchFinds(f, ALTERNATIVES, k);
  }

  /** What the functions on messages say of a configuration. */
  lemma ConfigMessage(c: AllConfig.Config)
    ensures KindOf(AllConfig(c)) == AllConfigKind
    ensures Encodable(AllConfig(c)) <==> AllConfig.Encodable(c)
    ensures AllConfig.Encodable(c) ==> Payload(AllConfig(c)) == AllConfig.Layout(AllConfig.ToWords(c))
  {
  }

  lemma KindOfMessage(k: Kind, p: seq<byte>)
    requires |p| == Size(k)
    ensures KindOf(MessageOf(k, p)) == k
  {
    match k
    case TemperatureKind =>
    case TargetTemperatureKind =>
    case PowerKind =>
    case ByteKind(_) =>
    case ScalarKind(_) =>
    case AllConfigKind => ConfigMessage(AllConfig.ToDegrees(AllConfig.BlockOf(p)));
    case ScheduleKind =>
  }

  /** A frame is accepted exactly when its id is known and its payload has that message's size. */
  lemma Accepted(f: Wmmm.Frame)
    ensures Decoded(f).Some? <==> exists k :: f.msgId == Id(k) && |f.payload| == Size(k)
    ensures Decoded(f).Some? ==>
              var k := KindOf(Decoded(f).value);
              f.msgId == Id(k) && |f.payload| == Size(k) && Decoded(f).value == MessageOf(k, f.payload)
  {
    if k :| f.msgId == Id(k) {
      DecodedOfKind(f, k);
      if |f.payload| == Size(k) {
        KindOfMessage(k, f.payload);
      }
      assert forall j :: Id(j) == Id(k) ==> j == k by {
        forall j | Id(j) == Id(k)
          ensures j == k
        {
          IdUnique(j, k);
        }
      }
    } else {
      DispatchMisses(f, ALTERNATIVES);
    }
  }
}
