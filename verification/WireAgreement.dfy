/**
 * The same runs on the bytes: each side decodes what the other side writes, with noise in
 * front of every frame in either direction, and the agreement carries over.
 */
module WireAgreement {
  import opened Wrappers
  import opened Bytes
  import opened Messages
  import opened Climate
  import opened Link
  import opened Agreement
  import Wmmm
  import Aup
  import AupStream

  /** Both ends, each with what its decoder remembers of an unfinished frame. */
  datatype WireSystem = WireSystem(
    entity: Entity, entityHeard: seq<byte>, device: Device, deviceHeard: seq<byte>)

  /** A device may fill the AUP header as it likes. */
  datatype Header = Header(checksum: byte, flag: byte, kind: byte, command: byte)

  /** The events with the noise in front of each frame that passes. */
  datatype WireEvent =
    | WireRequest(gaps: seq<seq<byte>>, call: Call)
    | WireSync(gaps: seq<seq<byte>>)
    | WireBroadcast(noise: seq<byte>, header: Header, frame: Wmmm.Frame)

  /** The event, without the bytes that carry it. */
  function Meaning(ev: WireEvent): Event {
    match ev
    case WireRequest(_, call) => Request(call)
    case WireSync(_) => Sync
    case WireBroadcast(_, _, f) => Broadcast(f)
  }

  function Abstract(s: WireSystem): System {
    System(s.entity, s.device)
  }

  /** There is a gap for each message, and none holds a marker. */
  predicate Separate(gaps: seq<seq<byte>>, ms: seq<Sendable>) {
    |gaps| == |ms| && forall g | g in gaps :: Aup.MarkerFree(g)
  }

  /** No noise holds a marker, and frames fit the length field. */
  predicate Transmissible(s: System, ev: WireEvent)
    requires Allowed(s, Meaning(ev))
  {
    match ev
    case WireRequest(gaps, call) => Separate(gaps, ControlMessages(s.entity, call))
    case WireSync(gaps) => Separate(gaps, SyncMessages(s.entity))
    case WireBroadcast(noise, _, f) => Aup.MarkerFree(noise) && |f.payload| < 0xFFFC
  }

  function BroadcastFrame(h: Header, f: Wmmm.Frame): (r: Aup.Frame)
    requires |f.payload| < 0xFFFC
    ensures Aup.WellFormed(r) && r.payload == Wmmm.Layout(f)
  {
    var data := Wmmm.Layout(f);
    Aup.Frame(h.checksum, h.flag, h.kind, h.command, |data|, data)
  }

  /** The bytes of messages with noise in front of each. */
  function NoisyLog(gaps: seq<seq<byte>>, ms: seq<Sendable>): seq<byte>
    requires Separate(gaps, ms)
  {
    Aup.Join(Noisy(gaps, ms, []))
  }

  /** The device's side of bytes that reach it. */
  function DeviceHears(s: WireSystem, bytes: seq<byte>): (r: WireSystem)
    requires Connected(s)
    ensures Connected(r)
  {
    s.(device := ApplyAll(s.device, FramesIn(s.deviceHeard, bytes)),
       deviceHeard := AupStream.Rest(s.deviceHeard, bytes))
  }

  /** The entity's side of bytes that reach it. */
  function EntityHears(s: WireSystem, bytes: seq<byte>): (r: WireSystem)
    requires Connected(s)
    ensures Connected(r)
  {
    s.(entity := ReceivedAll(s.entity, MessagesIn(FramesIn(s.entityHeard, bytes))),
       entityHeard := AupStream.Rest(s.entityHeard, bytes))
  }

  predicate Connected(s: WireSystem) {
    Aup.IsPartial(s.entityHeard) && Aup.IsPartial(s.deviceHeard)
  }

  function WireStep(s: WireSystem, ev: WireEvent): (r: WireSystem)
    requires Connected(s)
    requires Allowed(Abstract(s), Meaning(ev)) && Transmissible(Abstract(s), ev)
    ensures Connected(r)
  {
    match ev
    case WireRequest(gaps, call) =>
      DeviceHears(s.(entity := Controlled(s.entity, call)), NoisyLog(gaps, ControlMessages(s.entity, call)))
    case WireSync(gaps) => DeviceHears(s, NoisyLog(gaps, SyncMessages(s.entity)))
    case WireBroadcast(noise, h, f) =>
      EntityHears(s.(device := Apply(s.device, f)), noise + Aup.Wire(BroadcastFrame(h, f)))
  }

  /** Both decoders are between frames. */
  predicate Quiet(s: WireSystem) {
    s.entityHeard == [] && s.deviceHeard == []
  }

  // ---------------------------------------------------------------- one step

  /** A broadcast reaches the entity's decoder as the one frame it carries. */
  lemma BroadcastHeard(noise: seq<byte>, h: Header, f: Wmmm.Frame)
    requires Aup.MarkerFree(noise) && |f.payload| < 0xFFFC
    ensures var bytes := noise + Aup.Wire(BroadcastFrame(h, f));
            FramesIn([], bytes) == [f] && AupStream.Rest([], bytes) == []
  {
    var frame := BroadcastFrame(h, f);
    var x := Aup.Item(noise, frame, Aup.End([], []));
    assert Aup.Valid(x);
    assert Aup.Join(x) == noise + Aup.Wire(frame) + ([] + []) == noise + Aup.Wire(frame);
    AupStream.ReceiveJoin(x);
    AupStream.EmittedLayout(x);
    assert Aup.Frames(x) == [frame];
    Wmmm.Inverse(f, []);
    assert WmmmFrames([frame]) == [f];
  }

  lemma HeardOneFrame(e: Entity, f: Wmmm.Frame)
    ensures ReceivedAll(e, MessagesIn([f])) == Hear(e, f)
  {
    assert MessagesIn([f]) == match Decoded(f) case Some(m) => [m] case None => [];
  }

  /** Messages reach the device through the noise as if they were delivered. */
  lemma NoisyDelivery(s: WireSystem, gaps: seq<seq<byte>>, ms: seq<Sendable>)
    requires Quiet(s) && Separate(gaps, ms)
    ensures DeviceHears(s, NoisyLog(gaps, ms)) == s.(device := Deliver(s.device, ms))
  {
    NoisyLink(gaps, ms, []);
  }

  /** One step on the bytes is one step on the messages, and leaves both decoders quiet. */
  lemma StepRefines(s: WireSystem, ev: WireEvent)
    requires Quiet(s)
    requires Allowed(Abstract(s), Meaning(ev)) && Transmissible(Abstract(s), ev)
    ensures Quiet(WireStep(s, ev))
    ensures Abstract(WireStep(s, ev)) == Step(Abstract(s), Meaning(ev))
  {
    match ev
    case WireRequest(gaps, call) =>
      NoisyDelivery(s.(entity := Controlled(s.entity, call)), gaps, ControlMessages(s.entity, call));
    case WireSync(gaps) => NoisyDelivery(s, gaps, SyncMessages(s.entity));
    case WireBroadcast(noise, h, f) =>
      BroadcastHeard(noise, h, f);
      HeardOneFrame(s.entity, f);
  }

  // ---------------------------------------------------------------- runs

  function Meanings(evs: seq<WireEvent>): seq<Event> {
    if evs == [] then [] else [Meaning(evs[0])] + Meanings(evs[1..])
  }

  /** Every event is allowed, and its bytes are in order, where it happens. */
  predicate WireOrderly(s: System, evs: seq<WireEvent>)
    decreases |evs|
  {
    evs == []
    || (Allowed(s, Meaning(evs[0])) && Transmissible(s, evs[0])
        && WireOrderly(Step(s, Meaning(evs[0])), evs[1..]))
  }

  lemma {:induction false} MeaningsOrderly(s: System, evs: seq<WireEvent>)
    requires WireOrderly(s, evs)
    ensures Orderly(s, Meanings(evs))
    decreases |evs|
  {
    if evs != [] {
      MeaningsOrderly(Step(s, Meaning(evs[0])), evs[1..]);
      assert Meanings(evs)[1..] == Meanings(evs[1..]);
    }
  }

  function WireRun(s: WireSystem, evs: seq<WireEvent>): WireSystem
    requires Quiet(s) && WireOrderly(Abstract(s), evs)
    decreases |evs|
  {
    if evs == [] then s
    else
      StepRefines(s, evs[0]);
      WireRun(WireStep(s, evs[0]), evs[1..])
  }

  /** A run on the bytes is the run on the messages. */
  lemma {:induction false} RunRefines(s: WireSystem, evs: seq<WireEvent>)
    requires Quiet(s) && WireOrderly(Abstract(s), evs)
    ensures Quiet(WireRun(s, evs))
    ensures Orderly(Abstract(s), Meanings(evs))
    ensures Abstract(WireRun(s, evs)) == Run(Abstract(s), Meanings(evs))
    decreases |evs|
  {
    MeaningsOrderly(Abstract(s), evs);
    if evs != [] {
      StepRefines(s, evs[0]);
      RunRefines(WireStep(s, evs[0]), evs[1..]);
      assert Meanings(evs)[1..] == Meanings(evs[1..]);
    }
  }

  /** `setup` on the bytes. */
  function WireBoot(e: Entity, saved: Option<Saved>, d: Device, gaps: seq<seq<byte>>): WireSystem
    requires New(e) && SavedAllowed(saved) && SetupSeparate(e, saved, gaps)
  {
    BootConsistent(e, saved);
    var e' := Booted(e, saved);
    DeviceHears(WireSystem(e', [], d, []), NoisyLog(gaps, SyncMessages(e')))
  }

  /** The gaps fit the messages of `setup`. */
  predicate SetupSeparate(e: Entity, saved: Option<Saved>, gaps: seq<seq<byte>>)
    requires New(e) && SavedAllowed(saved)
  {
    BootConsistent(e, saved);
    Separate(gaps, SyncMessages(Booted(e, saved)))
  }

  lemma BootRefines(e: Entity, saved: Option<Saved>, d: Device, gaps: seq<seq<byte>>)
    requires New(e) && SavedAllowed(saved) && SetupSeparate(e, saved, gaps)
    ensures Quiet(WireBoot(e, saved, d, gaps))
    ensures Abstract(WireBoot(e, saved, d, gaps)) == Boot(e, saved, d)
  {
    BootConsistent(e, saved);
    var e' := Booted(e, saved);
    NoisyDelivery(WireSystem(e', [], d, []), gaps, SyncMessages(e'));
  }

  /**
   * Agreement on the wire: over every run from setup in which each side only sees bytes, with
   * noise in front of every frame, power and setpoint agree, and so do fan and mode exactly
   * as the last byte that crossed decides.
   */
  lemma AgreementOnTheWire(e: Entity, saved: Option<Saved>, d: Device, gaps: seq<seq<byte>>,
                           evs: seq<WireEvent>)
    requires New(e) && SavedAllowed(saved) && SetupSeparate(e, saved, gaps)
    requires WireOrderly(Boot(e, saved, d), evs)
    ensures var s0 := WireBoot(e, saved, d, gaps);
            && Quiet(s0)
            && Abstract(s0) == Boot(e, saved, d)
            && Orderly(Abstract(s0), Meanings(evs))
            && var s := WireRun(s0, evs);
            && Quiet(s)
            && Core(Abstract(s))
            && (FanAgrees(Abstract(s)) <==>
                match LastCrossing(Abstract(s0), Meanings(evs), FanSpeed)
                case Some(ev) => Understood(ev, FanSpeed)
                case None => true)
            && (ModeAgrees(Abstract(s)) <==>
                match LastCrossing(Abstract(s0), Meanings(evs), Mode)
                case Some(ev) => Understood(ev, Mode)
                case None => s0.entity.powerOn || d.mode == HEAT)
  {
    hide WireBoot, Boot, WireRun, Run, LastCrossing, Core, FanAgrees, ModeAgrees, Understood;
    BootRefines(e, saved, d, gaps);
    RunRefines(WireBoot(e, saved, d, gaps), evs);
    AgreementOverRuns(e, saved, d, Meanings(evs));
  }

  // ---------------------------------------------------------------- self-stabilisation

  lemma {:induction false} HearAllConsistent(e: Entity, fs: seq<Wmmm.Frame>)
    requires Consistent(e)
    ensures Consistent(ReceivedAll(e, MessagesIn(fs)))
    decreases |fs|
  {
    if fs != [] {
      HearConsistent(e, fs[0]);
      HearAllConsistent(Hear(e, fs[0]), fs[1..]);
      var first := match Decoded(fs[0]) case Some(m) => [m] case None => [];
      ReceivedAppend(e, first, MessagesIn(fs[1..]));
      HeardOneFrame(e, fs[0]);
      assert MessagesIn([fs[0]]) == first;
    }
  }

  /** Whatever bytes reach the two, the entity stays in order. */
  lemma BytesKeepOrder(s: WireSystem, toEntity: seq<byte>, toDevice: seq<byte>)
    requires Connected(s) && Consistent(s.entity)
    ensures Consistent(EntityHears(DeviceHears(s, toDevice), toEntity).entity)
  {
    HearAllConsistent(s.entity, FramesIn(s.entityHeard, toEntity));
  }

  /** Enough bytes without a first marker byte for a decoder to end any frame. */
  predicate Flushes(filler: seq<byte>) {
    |filler| >= 65542 && Aup.MAGIC1 !in filler
  }

  /**
   * The pair stabilises itself: whatever the two hold and however far their decoders are in
   * whatever frame, filler in both directions and then one rebroadcast make them agree, on
   * the mode too unless the power is off, with both decoders at their start.
   */
  lemma Resynchronised(s: WireSystem, toEntity: seq<byte>, toDevice: seq<byte>, gaps: seq<seq<byte>>)
    requires Connected(s) && Consistent(s.entity)
    requires Flushes(toEntity) && Flushes(toDevice)
    ensures var s1 := EntityHears(DeviceHears(s, toDevice), toEntity);
            && Quiet(s1)
            && Consistent(s1.entity)
            && (Separate(gaps, SyncMessages(s1.entity)) ==>
                  var s2 := WireStep(s1, WireSync(gaps));
                  && Quiet(s2)
                  && Agree(Abstract(s2))
                  && (s2.entity.powerOn ==> ModeAgrees(Abstract(s2))))
  {
    var s1 := EntityHears(DeviceHears(s, toDevice), toEntity);
    BytesKeepOrder(s, toEntity, toDevice);
    AupStream.Stabilise(s.deviceHeard, toDevice);
    AupStream.Stabilise(s.entityHeard, toEntity);
    if Separate(gaps, SyncMessages(s1.entity)) {
      StepRefines(s1, WireSync(gaps));
      SyncAgrees(s1.entity, s1.device);
    }
  }
}
