/**
 * The climate entity of esphome/components/unilux_uart/unilux_uart.cpp, as values: what its
 * operations make of its state, and the messages they send.
 */
module Climate {
  import opened Wrappers
  import opened Bytes
  import opened FixedPoint
  import opened Messages

  datatype ClimateMode = Off | HeatCool | Cool | Heat | FanOnly | Dry | Auto

  datatype FanMode =
    | FanOn | FanOff | FanAuto | Low | Medium | High | Middle | Focus | Diffuse | Quiet

  /** A single-precision temperature, which may be not a number. */
  datatype Float = NaN | Number(degrees: real)

  const DEFAULT_TARGET: real := 21.0

  // ---------------------------------------------------------------- the two vocabularies

  const HEAT: byte := 0
  const COOL: byte := 1
  const AUTO: byte := 2

  function DeviceModeToClimate(b: byte): Option<ClimateMode> {
    match b
    case 0 => Some(Heat)
    case 1 => Some(Cool)
    case 2 => Some(HeatCool)
    case _ => None
  }

  function ClimateModeToDevice(m: ClimateMode): byte {
    match m
    case Cool => COOL
    case HeatCool => AUTO
    case _ => HEAT
  }

  predicate IsActive(m: ClimateMode) {
    m == Heat || m == Cool || m == HeatCool
  }

  function DeviceFanToClimate(b: byte): Option<FanMode> {
    match b
    case 0 => Some(FanAuto)
    case 1 => Some(Low)
    case 2 => Some(Medium)
    case 3 => Some(High)
    case 4 => Some(FanOff)
    case _ => None
  }

  function ClimateFanToDevice(m: FanMode): byte {
    match m
    case Low => 1
    case Medium => 2
    case High => 3
    case FanOff => 4
    case _ => 0
  }

  /** The mode translations are inverse between known bytes and active modes. */
  lemma ModesInverse(b: byte, m: ClimateMode)
    ensures DeviceModeToClimate(b).Some? <==> b <= 2
    ensures b <= 2 ==> var d := DeviceModeToClimate(b).value; IsActive(d) && ClimateModeToDevice(d) == b
    ensures DeviceModeToClimate(ClimateModeToDevice(m)) == Some(m) <==> IsActive(m)
  {
  }

  lemma FansInverse(b: byte)
    ensures DeviceFanToClimate(b).Some? <==> b <= 4
    ensures b <= 4 ==> ClimateFanToDevice(DeviceFanToClimate(b).value) == b
  {
  }

  /** The three mode bytes, by value, in both directions; no other byte is known. */
  lemma ModeBytes(b: byte)
    ensures DeviceModeToClimate(0) == Some(Heat) && ClimateModeToDevice(Heat) == 0
    ensures DeviceModeToClimate(1) == Some(Cool) && ClimateModeToDevice(Cool) == 1
    ensures DeviceModeToClimate(2) == Some(HeatCool) && ClimateModeToDevice(HeatCool) == 2
    ensures b > 2 ==> DeviceModeToClimate(b) == None
  {
  }

  /** The five fan bytes, by value, in both directions; the other fan modes are sent as automatic. */
  lemma FanBytes(b: byte, m: FanMode)
    ensures DeviceFanToClimate(0) == Some(FanAuto) && ClimateFanToDevice(FanAuto) == 0
    ensures DeviceFanToClimate(1) == Some(Low) && ClimateFanToDevice(Low) == 1
    ensures DeviceFanToClimate(2) == Some(Medium) && ClimateFanToDevice(Medium) == 2
    ensures DeviceFanToClimate(3) == Some(High) && ClimateFanToDevice(High) == 3
    ensures DeviceFanToClimate(4) == Some(FanOff) && ClimateFanToDevice(FanOff) == 4
    ensures b > 4 ==> DeviceFanToClimate(b) == None
    ensures m !in {FanAuto, Low, Medium, High, FanOff} ==> ClimateFanToDevice(m) == 0
  {
  }

  // ---------------------------------------------------------------- state

  datatype Entity = Entity(
    target: Float, current: Float, mode: ClimateMode, fan: Option<FanMode>,
    powerOn: bool, active: ClimateMode)

  /** The published mode folds power and active mode into one. */
  function Combined(powerOn: bool, active: ClimateMode): ClimateMode {
    if powerOn then active else Off
  }

  /** The cast that transmits the temperature is defined. */
  predicate CanSend(t: Float) {
    t.Number? && FitsU16(t.degrees)
  }

  /** What holds between any two operations once the entity is set up. */
  predicate Consistent(e: Entity) {
    && IsActive(e.active)
    && e.mode == Combined(e.powerOn, e.active)
    && CanSend(e.target)
    && e.fan.Some?
  }

  /** The state saved across reboots; any part of it may be missing. */
  datatype Saved = Saved(mode: ClimateMode, target: Float, fan: Option<FanMode>)

  /** A request from Home Assistant: any of the three may be left out. */
  datatype Call = Call(target: Option<Float>, mode: Option<ClimateMode>, fan: Option<FanMode>)

  // ---------------------------------------------------------------- operations

  lemma ZeroFits()
    ensures FitsU16(0.0) && EncodeU16(0.0) == 0
  {
    WholeDegreesExact(0);
  }

  lemma DefaultTarget()
    ensures CanSend(Number(DEFAULT_TARGET)) && EncodeU16(DEFAULT_TARGET) == 210
  {
    WholeDegreesExact(21);
  }

  function SetpointMessage(t: Float): Sendable
    requires CanSend(t)
  {
    ZeroFits();
    TargetTemperature(t.degrees, 0.0)
  }

  function ModeMessage(m: ClimateMode): Sendable {
    ByteValue(Mode, ClimateModeToDevice(m))
  }

  function FanMessage(m: FanMode): Sendable {
    ByteValue(FanSpeed, ClimateFanToDevice(m))
  }

  /** The power and active mode that a requested mode asks for. */
  function Requested(powerOn: bool, active: ClimateMode, mode: Option<ClimateMode>): (bool, ClimateMode) {
    match mode
    case Some(Off) => (false, active)
    case Some(m) => if IsActive(m) then (true, m) else (powerOn, active)
    case None => (powerOn, active)
  }

  function Switched(e: Entity, mode: Option<ClimateMode>): Entity {
    var (powerOn, active) := Requested(e.powerOn, e.active, mode);
    e.(mode := if mode.Some? then Combined(powerOn, active) else e.mode,
       powerOn := powerOn, active := active)
  }

  /** The state after `control`. */
  function Controlled(e: Entity, call: Call): Entity {
    Switched(e, call.mode).(
      target := if call.target.Some? then call.target.value else e.target,
      fan := if call.fan.Some? then call.fan else e.fan)
  }

  function TargetMessages(target: Option<Float>): seq<Sendable>
    requires target.Some? ==> CanSend(target.value)
  {
    if target.Some? then [SetpointMessage(target.value)] else []
  }

  /** Of power and active mode, exactly what changes. */
  function ModeMessages(powerOn: bool, active: ClimateMode, mode: Option<ClimateMode>): seq<Sendable> {
    var (powerOn', active') := Requested(powerOn, active, mode);
    (if powerOn' != powerOn then [Power(powerOn')] else [])
    + (if active' != active then [ModeMessage(active')] else [])
  }

  function FanMessages(fan: Option<FanMode>): seq<Sendable> {
    if fan.Some? then [FanMessage(fan.value)] else []
  }

  /** What `control` sends: a requested setpoint, the change of power and mode, a requested fan. */
  function ControlMessages(e: Entity, call: Call): seq<Sendable>
    requires call.target.Some? ==> CanSend(call.target.value)
  {
    TargetMessages(call.target) + ModeMessages(e.powerOn, e.active, call.mode) + FanMessages(call.fan)
  }

  /** `sync_to_device` sends the whole state, except the active mode of a device that is off. */
  function SyncMessages(e: Entity): seq<Sendable>
    requires e.target == NaN || CanSend(e.target)
  {
    if e.target == NaN then []
    else
      [SetpointMessage(e.target)] + [Power(e.powerOn)]
      + (if e.powerOn then [ModeMessage(e.active)] else []) + FanMessages(e.fan)
  }

  /** `setup`: the saved state or the defaults, resolved to a state with every part present. */
  function Booted(e: Entity, saved: Option<Saved>): Entity {
    var s := if saved.Some? then saved.value else Saved(HeatCool, Number(DEFAULT_TARGET), Some(FanAuto));
    var powerOn := s.mode != Off;
    var active := if s.mode == Off then e.active else if IsActive(s.mode) then s.mode else Heat;
    Entity(if s.target == NaN then Number(DEFAULT_TARGET) else s.target, e.current,
           Combined(powerOn, active), Some(if s.fan.Some? then s.fan.value else FanAuto),
           powerOn, active)
  }

  /** The temperature of a saved state is missing or can be transmitted. */
  predicate SavedAllowed(saved: Option<Saved>) {
    saved.Some? ==> saved.value.target == NaN || CanSend(saved.value.target)
  }

  /** The entity as it is constructed: switched on, in heating mode. */
  predicate New(e: Entity) {
    e.powerOn && e.active == Heat
  }

  lemma BootConsistent(e: Entity, saved: Option<Saved>)
    requires SavedAllowed(saved)
    ensures CanSend(Booted(e, saved).target)
    ensures New(e) ==> Consistent(Booted(e, saved))
  {
    DefaultTarget();
  }

  /** Switched off at boot, the entity assumes heating. */
  lemma BootedOff(e: Entity, saved: Option<Saved>)
    requires New(e) && !Booted(e, saved).powerOn
    ensures Booted(e, saved).active == Heat
  {
  }

  /** What a received message makes of the entity; the other messages do not concern it. */
  function Received(e: Entity, m: Message): Entity {
    match m
    case Temperature(t1, _) => e.(current := Number(t1))
    case TargetTemperature(t1, _) => e.(target := Number(t1))
    case Power(on) => e.(powerOn := on, mode := Combined(on, e.active))
    case ByteValue(Mode, b) =>
      (match DeviceModeToClimate(b)
       case Some(active) => e.(active := active, mode := Combined(e.powerOn, active))
       case None => e)
    case ByteValue(FanSpeed, b) =>
      (match DeviceFanToClimate(b)
       case Some(fan) => e.(fan := Some(fan))
       case None => e)
    case _ => e
  }

  function ReceivedAll(e: Entity, ms: seq<Message>): Entity
    decreases |ms|
  {
    if ms == [] then e else ReceivedAll(Received(e, ms[0]), ms[1..])
  }

  lemma {:induction false} ReceivedAppend(e: Entity, a: seq<Message>, b: seq<Message>)
    ensures ReceivedAll(e, a + b) == ReceivedAll(ReceivedAll(e, a), b)
    decreases |a|
  {
    if a == [] {
      assert a + b == b;
    } else {
      assert (a + b)[1..] == a[1..] + b;
      ReceivedAppend(Received(e, a[0]), a[1..], b);
    }
  }

  // ---------------------------------------------------------------- what the operations mean

  /** A request is honoured: what it names is the new state, and nothing else changes. */
  lemma RequestHonoured(e: Entity, call: Call)
    ensures var e' := Controlled(e, call);
            && e'.current == e.current
            && e'.target == (if call.target.Some? then call.target.value else e.target)
            && e'.fan == (if call.fan.Some? then call.fan else e.fan)
            && match call.mode
               case Some(Off) => e'.mode == Off && !e'.powerOn && e'.active == e.active
               case Some(m) =>
                 if m in {Heat, Cool, HeatCool} then
                   e'.mode == m && e'.powerOn && e'.active == m
                 else
                   && e'.powerOn == e.powerOn && e'.active == e.active
                   && e'.mode == if e.powerOn then e.active else Off
               case None => e'.mode == e.mode && e'.powerOn == e.powerOn && e'.active == e.active
  {
  }

  /** The messages of a request, in order: setpoint, power, mode, fan. */
  lemma RequestSends(e: Entity, call: Call)
    requires call.target.Some? ==> CanSend(call.target.value)
    ensures FitsU16(0.0)
    ensures ControlMessages(e, call) ==
            (if call.target.Some? then [TargetTemperature(call.target.value.degrees, 0.0)] else [])
            + (match call.mode
               case Some(Off) => if e.powerOn then [Power(false)] else []
               case Some(Heat) => SwitchOn(e) + if e.active == Heat then [] else [ByteValue(Mode, 0)]
               case Some(Cool) => SwitchOn(e) + if e.active == Cool then [] else [ByteValue(Mode, 1)]
               case Some(HeatCool) => SwitchOn(e) + if e.active == HeatCool then [] else [ByteValue(Mode, 2)]
               case _ => [])
            + (match call.fan
               case Some(Low) => [ByteValue(FanSpeed, 1)]
               case Some(Medium) => [ByteValue(FanSpeed, 2)]
               case Some(High) => [ByteValue(FanSpeed, 3)]
               case Some(FanOff) => [ByteValue(FanSpeed, 4)]
               case Some(_) => [ByteValue(FanSpeed, 0)]
               case None => [])
  {
    ZeroFits();
  }

  function SwitchOn(e: Entity): seq<Sendable> {
    if e.powerOn then [] else [Power(true)]
  }

  /** A rebroadcast, in order: setpoint, power, mode if on, fan. */
  lemma SyncSends(e: Entity)
    requires e.target == NaN || CanSend(e.target)
    ensures FitsU16(0.0)
    ensures e.target == NaN ==> SyncMessages(e) == []
    ensures e.target != NaN && e.fan.Some? ==>
              SyncMessages(e) ==
              [TargetTemperature(e.target.degrees, 0.0), Power(e.powerOn)]
              + (if e.powerOn then [ByteValue(Mode, ClimateModeToDevice(e.active))] else [])
              + [ByteValue(FanSpeed, ClimateFanToDevice(e.fan.value))]
    ensures e.target != NaN && e.fan == None ==>
              SyncMessages(e) ==
              [TargetTemperature(e.target.degrees, 0.0), Power(e.powerOn)]
              + (if e.powerOn then [ByteValue(Mode, ClimateModeToDevice(e.active))] else [])
  {
    ZeroFits();
  }

  /** A saved state is restored: each part of it that is there, and a default for each that is not. */
  lemma SavedRestored(e: Entity, s: Saved)
    ensures var e' := Booted(e, Some(s));
            && e'.current == e.current
            && e'.target == (if s.target == NaN then Number(21.0) else s.target)
            && e'.fan == (if s.fan.Some? then s.fan else Some(FanAuto))
            && match s.mode
               case Off => e'.mode == Off && !e'.powerOn && e'.active == e.active
               case Heat => e'.mode == Heat && e'.powerOn && e'.active == Heat
               case Cool => e'.mode == Cool && e'.powerOn && e'.active == Cool
               case HeatCool => e'.mode == HeatCool && e'.powerOn && e'.active == HeatCool
               case _ => e'.mode == Heat && e'.powerOn && e'.active == Heat
  {
  }

  /** What every received message does to the entity. */
  lemma ReceivedEffect(e: Entity, m: Message)
    ensures Received(e, m) ==
            match m
            case Temperature(t1, _) => e.(current := Number(t1))
            case TargetTemperature(t1, _) => e.(target := Number(t1))
            case Power(on) => e.(powerOn := on, mode := if on then e.active else Off)
            case ByteValue(Mode, b) => HearsMode(e, b)
            case ByteValue(FanSpeed, b) => HearsFan(e, b)
            case _ => e
  {
  }

  function HearsMode(e: Entity, b: byte): Entity {
    match b
    case 0 => e.(active := Heat, mode := if e.powerOn then Heat else Off)
    case 1 => e.(active := Cool, mode := if e.powerOn then Cool else Off)
    case 2 => e.(active := HeatCool, mode := if e.powerOn then HeatCool else Off)
    case _ => e
  }

  function HearsFan(e: Entity, b: byte): Entity {
    match b
    case 0 => e.(fan := Some(FanAuto))
    case 1 => e.(fan := Some(Low))
    case 2 => e.(fan := Some(Medium))
    case 3 => e.(fan := Some(High))
    case 4 => e.(fan := Some(FanOff))
    case _ => e
  }
}
