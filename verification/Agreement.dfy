/**
 * The climate entity against the device it controls, over whole runs in which the two
 * exchange messages.
 */
module Agreement {
  import opened Wrappers
  import opened Bytes
  import opened FixedPoint
  import opened Messages
  import opened MessageRoundTrips
  import opened Climate
  import opened Link
  import Wmmm

  /** What the device holds: raw bytes, and the setpoint in tenths. */
  datatype Device = Device(power: bool, mode: byte, fan: byte, setpoint: word)

  /** What a frame says about the state of either side. */
  datatype Effect =
    | SetPower(on: bool) | SetMode(mode: byte) | SetFan(fan: byte) | SetSetpoint(tenths: word)
    | Measured(tenths: word) | NoEffect

  function EffectOf(f: Wmmm.Frame): Effect {
    if |f.payload| != 4 then NoEffect
    else if f.msgId == 0x21 then SetPower(f.payload[0] != 0)
    else if f.msgId == 0x5C then SetMode(f.payload[0])
    else if f.msgId == 0x22 then SetFan(f.payload[0])
    else if f.msgId == 0x2A then SetSetpoint(FromBe16(f.payload[..2]))
    else if f.msgId == 0x02 then Measured(FromBe16(f.payload[..2]))
    else NoEffect
  }

  /** A device obeys the four messages it shares with the entity, and ignores the rest. */
  function Apply(d: Device, f: Wmmm.Frame): Device {
    match EffectOf(f)
    case SetPower(on) => d.(power := on)
    case SetMode(b) => d.(mode := b)
    case SetFan(b) => d.(fan := b)
    case SetSetpoint(w) => d.(setpoint := w)
    case _ => d
  }

  function ApplyAll(d: Device, fs: seq<Wmmm.Frame>): Device
    decreases |fs|
  {
    if fs == [] then d else ApplyAll(Apply(d, fs[0]), fs[1..])
  }

  function Deliver(d: Device, ms: seq<Sendable>): Device {
    ApplyAll(d, FramesOf(ms))
  }

  datatype System = System(entity: Entity, device: Device)

  /** A request, a rebroadcast, or a change at the device that it broadcasts. */
  datatype Event = Request(call: Call) | Sync | Broadcast(frame: Wmmm.Frame)

  /** The entity's side of a broadcast. */
  function Hear(e: Entity, f: Wmmm.Frame): Entity {
    match Decoded(f)
    case Some(m) => Received(e, m)
    case None => e
  }

  function Step(s: System, ev: Event): System
    requires Allowed(s, ev)
  {
    match ev
    case Request(call) =>
      System(Controlled(s.entity, call), Deliver(s.device, ControlMessages(s.entity, call)))
    case Sync => System(s.entity, Deliver(s.device, SyncMessages(s.entity)))
    case Broadcast(f) => System(Hear(s.entity, f), Apply(s.device, f))
  }

  /** Casts are defined: the setpoints to transmit fit the wire. */
  predicate Allowed(s: System, ev: Event) {
    match ev
    case Request(call) => call.target.Some? ==> CanSend(call.target.value)
    case Sync => s.entity.target == NaN || CanSend(s.entity.target)
    case Broadcast(_) => true
  }

  // ---------------------------------------------------------------- agreement

  /** Power and setpoint agree, and the entity is in order. */
  predicate Core(s: System) {
    && Consistent(s.entity)
    && s.device.power == s.entity.powerOn
    && s.device.setpoint == EncodeU16(s.entity.target.degrees)
  }

  predicate FanAgrees(s: System) {
    s.entity.fan.Some? && s.device.fan == ClimateFanToDevice(s.entity.fan.value)
  }

  predicate ModeAgrees(s: System) {
    s.device.mode == ClimateModeToDevice(s.entity.active)
  }

  /** Power, fan and setpoint agree. */
  predicate Agree(s: System) {
    Core(s) && FanAgrees(s)
  }

  /** The two enumeration bytes that both sides hold. */
  type Shared = k: ByteSetting | k == Mode || k == FanSpeed witness Mode

  predicate ByteAgrees(s: System, k: Shared) {
    if k == Mode then ModeAgrees(s) else FanAgrees(s)
  }

  /** A message for the setting is among those sent. */
  predicate Carries(ms: seq<Sendable>, k: Shared) {
    exists m :: m in ms && m.ByteValue? && m.byteSetting == k
  }

  predicate FrameSets(f: Wmmm.Frame, k: Shared) {
    if k == Mode then EffectOf(f).SetMode? else EffectOf(f).SetFan?
  }

  /** A message for the setting crosses, in either direction. */
  predicate Crosses(s: System, ev: Event, k: Shared)
    requires Allowed(s, ev)
  {
    match ev
    case Request(call) => Carries(ControlMessages(s.entity, call), k)
    case Sync => Carries(SyncMessages(s.entity), k)
    case Broadcast(f) => FrameSets(f, k)
  }

  /** The enumeration byte in a broadcast is one the entity knows. */
  predicate KnownFan(f: Wmmm.Frame) {
    EffectOf(f).SetFan? ==> EffectOf(f).fan <= 4
  }

  predicate KnownMode(f: Wmmm.Frame) {
    EffectOf(f).SetMode? ==> EffectOf(f).mode <= 2
  }

  /** Only a broadcast can hold a byte that the entity does not know. */
  predicate Understood(ev: Event, k: Shared) {
    ev.Broadcast? ==> if k == Mode then KnownMode(ev.frame) else KnownFan(ev.frame)
  }

  // ---------------------------------------------------------------- deliveries

  lemma {:induction false} ApplyAppend(d: Device, a: seq<Wmmm.Frame>, b: seq<Wmmm.Frame>)
    ensures ApplyAll(d, a + b) == ApplyAll(ApplyAll(d, a), b)
    decreases |a|
  {
    if a == [] {
      assert a + b == b;
    } else {
      assert (a + b)[1..] == a[1..] + b;
      ApplyAppend(Apply(d, a[0]), a[1..], b);
    }
  }

  lemma DeliverAppend(d: Device, a: seq<Sendable>, b: seq<Sendable>)
    ensures Deliver(d, a + b) == Deliver(Deliver(d, a), b)
  {
    FramesOfAppend(a, b);
    ApplyAppend(d, FramesOf(a), FramesOf(b));
  }

  lemma ApplyOne(d: Device, f: Wmmm.Frame)
    ensures ApplyAll(d, [f]) == Apply(d, f)
  {
    assert [f][1..] == [];
  }

  lemma DeliverOne(d: Device, m: Sendable)
    ensures Deliver(d, [m]) == Apply(d, FrameOf(m))
    ensures Deliver(d, []) == d
  {
    assert FramesOf([m]) == [FrameOf(m)];
    ApplyOne(d, FrameOf(m));
  }

  lemma DeliverSetpoint(d: Device, t: Float)
    requires CanSend(t)
    ensures Apply(d, FrameOf(SetpointMessage(t))) == d.(setpoint := EncodeU16(t.degrees))
  {
    ZeroFits();
    var w := Be16(EncodeU16(t.degrees));
    assert (w + Be16(EncodeU16(0.0)))[..2] == w;
  }

  lemma DeliverBytes(d: Device, on: bool, m: ClimateMode, f: FanMode)
    ensures Apply(d, FrameOf(Power(on))) == d.(power := on)
    ensures Apply(d, FrameOf(ModeMessage(m))) == d.(mode := ClimateModeToDevice(m))
    ensures Apply(d, FrameOf(FanMessage(f))) == d.(fan := ClimateFanToDevice(f))
  {
  }

  /** What a request delivers: the setpoint and fan it names; power and mode if changed. */
  lemma DeliverRequest(s: System, call: Call)
    requires Allowed(s, Request(call)) && Core(s)
    ensures var e, d := Controlled(s.entity, call), Step(s, Request(call)).device;
            && d.power == e.powerOn
            && d.setpoint == EncodeU16(e.target.degrees)
            && d.fan == (if call.fan.Some? then ClimateFanToDevice(e.fan.value) else s.device.fan)
            && d.mode == if e.active != s.entity.active then ClimateModeToDevice(e.active) else s.device.mode
  {
    hide Tenths;
    var e, d := s.entity, s.device;
    var a, b, c := TargetMessages(call.target), ModeMessages(e.powerOn, e.active, call.mode), FanMessages(call.fan);
    DeliverAppend(d, a + b, c);
    DeliverAppend(d, a, b);
    DeliverTarget(d, call.target);
    DeliverMode(Deliver(d, a), e.powerOn, e.active, call.mode);
    DeliverFan(Deliver(Deliver(d, a), b), call.fan);
  }

  lemma DeliverTarget(d: Device, target: Option<Float>)
    requires target.Some? ==> CanSend(target.value)
    ensures Deliver(d, TargetMessages(target)) ==
            if target.Some? then d.(setpoint := EncodeU16(target.value.degrees)) else d
  {
    if target.Some? {
      DeliverOne(d, SetpointMessage(target.value));
      DeliverSetpoint(d, target.value);
    } else {
      DeliverOne(d, Power(false));
    }
  }

  lemma DeliverMode(d: Device, powerOn: bool, active: ClimateMode, mode: Option<ClimateMode>)
    ensures var (powerOn', active') := Requested(powerOn, active, mode);
            Deliver(d, ModeMessages(powerOn, active, mode)) ==
            d.(power := if powerOn' != powerOn then powerOn' else d.power,
               mode := if active' != active then ClimateModeToDevice(active') else d.mode)
  {
    var (powerOn', active') := Requested(powerOn, active, mode);
    var a: seq<Sendable> := if powerOn' != powerOn then [Power(powerOn')] else [];
    var b: seq<Sendable> := if active' != active then [ModeMessage(active')] else [];
    DeliverAppend(d, a, b);
    DeliverOne(d, Power(powerOn'));
    DeliverBytes(d, powerOn', active', FanAuto);
    DeliverOne(Deliver(d, a), ModeMessage(active'));
    DeliverBytes(Deliver(d, a), powerOn', active', FanAuto);
  }

  lemma DeliverFan(d: Device, fan: Option<FanMode>)
    ensures Deliver(d, FanMessages(fan)) ==
            if fan.Some? then d.(fan := ClimateFanToDevice(fan.value)) else d
  {
    DeliverOne(d, if fan.Some? then FanMessage(fan.value) else Power(false));
    DeliverBytes(d, false, Off, if fan.Some? then fan.value else FanAuto);
  }

  /** A rebroadcast forces power, setpoint and fan, and the mode unless the power is off. */
  lemma DeliverSync(d: Device, e: Entity)
    requires CanSend(e.target) && e.fan.Some?
    ensures Deliver(d, SyncMessages(e)) ==
            Device(e.powerOn, if e.powerOn then ClimateModeToDevice(e.active) else d.mode,
                   ClimateFanToDevice(e.fan.value), EncodeU16(e.target.degrees))
  {
    hide Tenths;
    var m1, m2 := SetpointMessage(e.target), Power(e.powerOn);
    var b: seq<Sendable> := if e.powerOn then [ModeMessage(e.active)] else [];
    var c: seq<Sendable> := [FanMessage(e.fan.value)];
    assert SyncMessages(e) == [m1] + [m2] + b + c;
    DeliverAppend(d, [m1] + [m2] + b, c);
    DeliverAppend(d, [m1] + [m2], b);
    DeliverAppend(d, [m1], [m2]);
    DeliverOne(d, m1);
    DeliverSetpoint(d, e.target);
    var d1 := Deliver(d, [m1]);
    DeliverOne(d1, m2);
    DeliverBytes(d1, e.powerOn, e.active, e.fan.value);
    var d2 := Deliver(d1, [m2]);
    DeliverOne(d2, ModeMessage(e.active));
    DeliverBytes(d2, e.powerOn, e.active, e.fan.value);
    var d3 := Deliver(d2, b);
    DeliverOne(d3, FanMessage(e.fan.value));
    DeliverBytes(d3, e.powerOn, e.active, e.fan.value);
  }

  // ---------------------------------------------------------------- one step

  /** A request sends a Mode message exactly if it changes the active mode, a fan if it names one. */
  lemma RequestCarries(e: Entity, call: Call)
    requires call.target.Some? ==> CanSend(call.target.value)
    ensures Carries(ControlMessages(e, call), Mode) <==> Controlled(e, call).active != e.active
    ensures Carries(ControlMessages(e, call), FanSpeed) <==> call.fan.Some?
  {
    hide Tenths;
    var ms, m := ControlMessages(e, call), ModeMessage(Controlled(e, call).active);
    var a, b := TargetMessages(call.target), ModeMessages(e.powerOn, e.active, call.mode);
    assert forall x :: x in ms <==> x in a || x in b || x in FanMessages(call.fan);
    if Controlled(e, call).active != e.active {
      assert m in b;
    }
    if call.fan.Some? {
      assert FanMessage(call.fan.value) in FanMessages(call.fan);
    }
  }

  /** A rebroadcast sends the fan, and the mode exactly if the power is on. */
  lemma SyncCarries(e: Entity)
    requires CanSend(e.target) && e.fan.Some?
    ensures Carries(SyncMessages(e), Mode) <==> e.powerOn
    ensures Carries(SyncMessages(e), FanSpeed)
  {
    hide Tenths;
    var ms, fan := SyncMessages(e), FanMessage(e.fan.value);
    assert forall x :: x in ms <==> x == SetpointMessage(e.target) || x == Power(e.powerOn) || x == fan
                                    || (e.powerOn && x == ModeMessage(e.active));
    if e.powerOn {
      assert ModeMessage(e.active) in ms;
    }
    assert fan in ms;
  }

  /** A rebroadcast establishes agreement, on the mode too unless the power is off. */
  lemma SyncAgrees(e: Entity, d: Device)
    requires Consistent(e)
    ensures var s := System(e, Deliver(d, SyncMessages(e)));
            && Agree(s)
            && s.device.mode == if e.powerOn then ClimateModeToDevice(e.active) else d.mode
  {
    DeliverSync(d, e);
  }

  /** A request reaches the device: from full agreement it then holds what was asked for. */
  lemma RequestReaches(s: System, call: Call)
    requires Agree(s) && ModeAgrees(s) && Allowed(s, Request(call))
    ensures var d, d' := s.device, Step(s, Request(call)).device;
            && d'.setpoint == (if call.target.Some? then EncodeU16(call.target.value.degrees) else d.setpoint)
            && (match call.mode
                case Some(Off) => !d'.power && d'.mode == d.mode
                case Some(Heat) => d'.power && d'.mode == 0
                case Some(Cool) => d'.power && d'.mode == 1
                case Some(HeatCool) => d'.power && d'.mode == 2
                case _ => d'.power == d.power && d'.mode == d.mode)
            && (match call.fan
                case Some(Low) => d'.fan == 1
                case Some(Medium) => d'.fan == 2
                case Some(High) => d'.fan == 3
                case Some(FanOff) => d'.fan == 4
                case Some(_) => d'.fan == 0
                case None => d'.fan == d.fan)
  {
    hide Tenths, Deliver, ControlMessages;
    DeliverRequest(s, call);
  }

  lemma SyncKeeps(s: System)
    requires Agree(s)
    ensures Allowed(s, Sync) && Agree(Step(s, Sync))
  {
    SyncAgrees(s.entity, s.device);
  }

  lemma HearKind(e: Entity, f: Wmmm.Frame, k: Kind)
    requires f.msgId == Id(k)
    ensures Hear(e, f) == if |f.payload| == Size(k) then Received(e, MessageOf(k, f.payload)) else e
  {
    DecodedOfKind(f, k);
  }

  /** The entity reads the same effects from a frame; other frames change nothing. */
  lemma HearEffect(e: Entity, f: Wmmm.Frame)
    ensures match EffectOf(f)
            case SetPower(on) => Hear(e, f) == e.(powerOn := on, mode := if on then e.active else Off)
            case SetMode(b) => Hear(e, f) == HearsMode(e, b)
            case SetFan(b) => Hear(e, f) == HearsFan(e, b)
            case SetSetpoint(w) => Hear(e, f) == e.(target := Number(DecodeU16(w)))
            case Measured(w) => Hear(e, f) == e.(current := Number(DecodeU16(w)))
            case NoEffect => Hear(e, f) == e
  {
    hide Decoded, FromBe16, Tenths, Quotient;
    if f.msgId == 0x21 {
      HearKind(e, f, PowerKind);
    } else if f.msgId == 0x2A {
      HearKind(e, f, TargetTemperatureKind);
    } else if f.msgId == 0x02 {
      HearKind(e, f, TemperatureKind);
    } else if f.msgId == 0x5C {
      HearKind(e, f, ByteKind(Mode));
    } else if f.msgId == 0x22 {
      HearKind(e, f, ByteKind(FanSpeed));
    } else {
      Accepted(f);
    }
  }

  /** Setpoints survive the float: re-encoding the decoded value gives the device's own tenths. */
  lemma BroadcastCore(s: System, f: Wmmm.Frame)
    requires Core(s)
    ensures Core(Step(s, Broadcast(f)))
  {
    hide Tenths;
    HearConsistent(s.entity, f);
    HearEffect(s.entity, f);
    match EffectOf(f)
    case SetPower(_) =>
    case SetMode(_) =>
    case SetFan(_) =>
    case SetSetpoint(w) => UnsignedExact(w);
    case Measured(_) =>
    case NoEffect =>
  }

  /** A broadcast mode is agreed on exactly when its byte is known. */
  lemma ModeBroadcast(s: System, f: Wmmm.Frame)
    ensures EffectOf(f).SetMode? ==> (ModeAgrees(Step(s, Broadcast(f))) <==> KnownMode(f))
    ensures !EffectOf(f).SetMode? ==> (ModeAgrees(Step(s, Broadcast(f))) <==> ModeAgrees(s))
  {
    HearEffect(s.entity, f);
    match EffectOf(f)
    case SetPower(_) =>
    case SetMode(b) => ModesInverse(b, Off);
    case SetFan(_) =>
    case SetSetpoint(_) =>
    case Measured(_) =>
    case NoEffect =>
  }

  /** A broadcast fan speed is agreed on exactly when its byte is known. */
  lemma FanBroadcast(s: System, f: Wmmm.Frame)
    ensures EffectOf(f).SetFan? && s.entity.fan.Some? ==> (FanAgrees(Step(s, Broadcast(f))) <==> KnownFan(f))
    ensures !EffectOf(f).SetFan? ==> (FanAgrees(Step(s, Broadcast(f))) <==> FanAgrees(s))
  {
    HearEffect(s.entity, f);
    match EffectOf(f)
    case SetPower(_) =>
    case SetMode(_) =>
    case SetFan(b) => FansInverse(b);
    case SetSetpoint(_) =>
    case Measured(_) =>
    case NoEffect =>
  }

  /** A broadcast keeps full agreement exactly when a fan byte in it is known. */
  lemma BroadcastKeeps(s: System, f: Wmmm.Frame)
    requires Agree(s)
    ensures Agree(Step(s, Broadcast(f))) <==> KnownFan(f)
  {
    BroadcastCore(s, f);
    FanBroadcast(s, f);
  }

  /** Power and setpoint agree after any step, whatever bytes it carries. */
  lemma CoreStep(s: System, ev: Event)
    requires Core(s) && Allowed(s, ev)
    ensures Core(Step(s, ev))
  {
    hide Tenths;
    match ev
    case Request(call) => DeliverRequest(s, call);
    case Sync => SyncAgrees(s.entity, s.device);
    case Broadcast(f) => BroadcastCore(s, f);
  }

  /**
   * Where a byte of mode or fan crosses, the two agree on it afterwards exactly if it is
   * known; where none crosses, exactly if they did before.
   */
  lemma ByteStep(s: System, ev: Event, k: Shared)
    requires Core(s) && Allowed(s, ev)
    ensures ByteAgrees(Step(s, ev), k) <==>
            if Crosses(s, ev, k) then Understood(ev, k) else ByteAgrees(s, k)
  {
    hide Tenths;
    match ev
    case Request(call) =>
      DeliverRequest(s, call);
      RequestCarries(s.entity, call);
    case Sync =>
      DeliverSync(s.device, s.entity);
      SyncCarries(s.entity);
    case Broadcast(f) =>
      ModeBroadcast(s, f);
      FanBroadcast(s, f);
  }

  // ---------------------------------------------------------------- runs

  /** Every event is allowed where it happens. */
  predicate Orderly(s: System, evs: seq<Event>)
    decreases |evs|
  {
    evs == [] || (Allowed(s, evs[0]) && Orderly(Step(s, evs[0]), evs[1..]))
  }

  /** Every enumeration byte that is broadcast is one the entity knows. */
  predicate AllKnown(evs: seq<Event>) {
    forall ev | ev in evs && ev.Broadcast? :: KnownFan(ev.frame) && KnownMode(ev.frame)
  }

  /** The published mode, over every run: any request, and any frame, known or not. */
  lemma {:induction false} PublishedMode(s: System, evs: seq<Event>)
    requires Consistent(s.entity) && Orderly(s, evs)
    ensures Consistent(Run(s, evs).entity)
    decreases |evs|
  {
    if evs != [] {
      StepConsistent(s, evs[0]);
      PublishedMode(Step(s, evs[0]), evs[1..]);
    }
  }

  lemma StepConsistent(s: System, ev: Event)
    requires Consistent(s.entity) && Allowed(s, ev)
    ensures Consistent(Step(s, ev).entity)
  {
    if ev.Broadcast? {
      HearConsistent(s.entity, ev.frame);
    }
  }

  lemma HearConsistent(e: Entity, f: Wmmm.Frame)
    requires Consistent(e)
    ensures Consistent(Hear(e, f))
  {
    HearEffect(e, f);
    match EffectOf(f)
    case SetPower(_) =>
    case SetMode(b) => ModesInverse(b, Off);
    case SetFan(_) =>
    case SetSetpoint(w) => UnsignedExact(w);
    case Measured(_) =>
    case NoEffect =>
  }

  function Run(s: System, evs: seq<Event>): System
    requires Orderly(s, evs)
    decreases |evs|
  {
    if evs == [] then s else Run(Step(s, evs[0]), evs[1..])
  }

  /** The last event of a run in which a byte for the setting crosses. */
  function LastCrossing(s: System, evs: seq<Event>, k: Shared): (r: Option<Event>)
    requires Orderly(s, evs)
    ensures r.Some? ==> r.value in evs
    decreases |evs|
  {
    if evs == [] then None
    else
      var later := LastCrossing(Step(s, evs[0]), evs[1..], k);
      if later.Some? then later
      else if Crosses(s, evs[0], k) then Some(evs[0]) else None
  }

  /**
   * The invariant over every run, whatever bytes are broadcast: power and setpoint agree
   * throughout, and on mode and fan the last byte that crossed decides.
   */
  lemma {:induction false} RunKeeps(s: System, evs: seq<Event>, k: Shared)
    requires Orderly(s, evs) && Core(s)
    ensures Core(Run(s, evs))
    ensures ByteAgrees(Run(s, evs), k) <==>
            match LastCrossing(s, evs, k) case Some(ev) => Understood(ev, k) case None => ByteAgrees(s, k)
    decreases |evs|
  {
    if evs != [] {
      CoreStep(s, evs[0]);
      ByteStep(s, evs[0], k);
      RunKeeps(Step(s, evs[0]), evs[1..], k);
    }
  }

  /** `setup` with any device on the other end. */
  function Boot(e: Entity, saved: Option<Saved>, d: Device): System
    requires New(e) && SavedAllowed(saved)
  {
    BootConsistent(e, saved);
    var e' := Booted(e, saved);
    System(e', Deliver(d, SyncMessages(e')))
  }

  /** Setup establishes agreement, on the mode too unless the power is off. */
  lemma BootAgrees(e: Entity, saved: Option<Saved>, d: Device)
    requires New(e) && SavedAllowed(saved)
    ensures var s0 := Boot(e, saved, d);
            && Agree(s0)
            && (!s0.entity.powerOn ==> s0.entity.active == Heat && s0.device.mode == d.mode)
            && (ModeAgrees(s0) <==> s0.entity.powerOn || d.mode == HEAT)
  {
    hide Booted, Deliver, SyncMessages, CanSend, Tenths;
    var e' := Booted(e, saved);
    BootConsistent(e, saved);
    SyncAgrees(e', d);
    if !e'.powerOn {
      BootedOff(e, saved);
    }
  }

  /** The first boot switches any device on, in automatic mode and fan, at 21.0 degrees. */
  lemma FirstBoot(e: Entity, d: Device)
    requires New(e)
    ensures Boot(e, None, d).device == Device(true, AUTO, 0, 210)
    ensures Boot(e, None, d).entity.mode == HeatCool
  {
    hide Deliver, SyncMessages, Tenths;
    BootAgrees(e, None, d);
    DefaultTarget();
  }

  /** After a boot any device holds the saved state, and the defaults for what is missing in it. */
  lemma RestoredReaches(e: Entity, saved: Saved, d: Device)
    requires New(e) && SavedAllowed(Some(saved))
    ensures var d' := Boot(e, Some(saved), d).device;
            && d'.power == (saved.mode != Off)
            && d'.setpoint == (if saved.target == NaN then 210 else EncodeU16(saved.target.degrees))
            && d'.mode == (match saved.mode case Off => d.mode case Cool => 1 case HeatCool => 2 case _ => 0)
            && d'.fan == match saved.fan
                         case Some(Low) => 1
                         case Some(Medium) => 2
                         case Some(High) => 3
                         case Some(FanOff) => 4
                         case _ => 0
  {
    hide Deliver, SyncMessages, Tenths;
    BootConsistent(e, Some(saved));
    SyncAgrees(Booted(e, Some(saved)), d);
    DefaultTarget();
  }

  /**
   * Agreement over every run from setup, whatever was saved, whatever the device held, and
   * whatever is requested or broadcast afterwards. Power and setpoint agree. The fan agrees
   * exactly if the last fan byte that crossed was known. The mode agrees exactly if the last
   * mode byte that crossed was known or, if none did, the entity booted switched on or the
   * device happened to be heating.
   */
  lemma AgreementOverRuns(e: Entity, saved: Option<Saved>, d: Device, evs: seq<Event>)
    requires New(e) && SavedAllowed(saved)
    requires Orderly(Boot(e, saved, d), evs)
    ensures var s0 := Boot(e, saved, d);
            var s := Run(s0, evs);
            && Core(s)
            && (FanAgrees(s) <==>
                match LastCrossing(s0, evs, FanSpeed)
                case Some(ev) => Understood(ev, FanSpeed)
                case None => true)
            && (ModeAgrees(s) <==>
                match LastCrossing(s0, evs, Mode)
                case Some(ev) => Understood(ev, Mode)
                case None => s0.entity.powerOn || d.mode == HEAT)
  {
    hide Boot, Run, LastCrossing, Orderly, FanAgrees, ModeAgrees, Core, Understood;
    BootAgrees(e, saved, d);
    RunKeeps(Boot(e, saved, d), evs, Mode);
    RunKeeps(Boot(e, saved, d), evs, FanSpeed);
  }

  /**
   * While only known bytes are broadcast, power, fan and setpoint agree, and the mode does
   * exactly if the entity booted switched on, a Mode message has crossed since, or the device
   * happened to be heating.
   */
  lemma AgreementWhileKnown(e: Entity, saved: Option<Saved>, d: Device, evs: seq<Event>)
    requires New(e) && SavedAllowed(saved)
    requires Orderly(Boot(e, saved, d), evs) && AllKnown(evs)
    ensures var s0 := Boot(e, saved, d);
            var s := Run(s0, evs);
            && Agree(s)
            && (ModeAgrees(s) <==>
                s0.entity.powerOn || LastCrossing(s0, evs, Mode).Some? || d.mode == HEAT)
  {
    hide Boot, Run, LastCrossing, Orderly, FanAgrees, ModeAgrees, Core, KnownFan, KnownMode;
    AgreementOverRuns(e, saved, d, evs);
  }

  /**
   * Booting off is the case that may disagree: a request to heat sends no Mode message, since
   * heating is what the entity assumes, and a device in another mode is switched on in it.
   */
  lemma BootOffThenHeat(e: Entity, target: Float, fan: Option<FanMode>, d: Device)
    requires New(e) && (target == NaN || CanSend(target))
    ensures var s0 := Boot(e, Some(Saved(Off, target, fan)), d);
            var s := Step(s0, Request(Call(None, Some(Heat), None)));
            && s.entity.mode == Heat
            && s.device.power
            && s.device.mode == d.mode
            && (ModeAgrees(s) <==> d.mode == HEAT)
  {
    hide Deliver, SyncMessages, ControlMessages, Tenths;
    var saved := Some(Saved(Off, target, fan));
    BootAgrees(e, saved, d);
    SwitchOnAsRemembered(Boot(e, saved, d));
  }

  /** Requesting the remembered mode switches the device on and leaves its mode alone. */
  lemma SwitchOnAsRemembered(s: System)
    requires Agree(s) && !s.entity.powerOn
    ensures var s' := Step(s, Request(Call(None, Some(s.entity.active), None)));
            && s'.entity.mode == s.entity.active == s'.entity.active
            && s'.device.power && s'.device.mode == s.device.mode
  {
    DeliverRequest(s, Call(None, Some(s.entity.active), None));
  }

  /** Switching off and on again restores the remembered mode, whoever does either. */
  lemma OffThenOn(e: Entity, target: Option<Float>, fan: Option<FanMode>)
    requires Consistent(e)
    ensures var off := Controlled(e, Call(target, Some(Off), fan));
            && off.mode == Off && off.active == e.active
            && Received(off, Power(true)).mode == e.active
            && Controlled(off, Call(None, Some(e.active), None)).mode == e.active
            && Received(Received(e, Power(false)), Power(true)) == e.(powerOn := true, mode := e.active)
  {
  }
}
