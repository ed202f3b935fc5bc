/**
 * The component and its climate entity as objects
 * (esphome/components/unilux_uart/unilux_uart.cpp).
 */
module UniluxUart {
  import opened Wrappers
  import opened Bytes
  import opened Messages
  import opened Climate
  import opened Link
  import AupDecoder
  import AupStream
  import Aup
  import Wmmm

  class UniluxUartComponent {
    const decoder: AupDecoder.Decoder
    var climate: UniluxUartClimate?
    /** What was written to the UART, write by write. */
    var written: seq<seq<byte>>
    /** The messages that were sent. */
    ghost var sent: seq<Sendable>

    constructor ()
      ensures fresh(decoder) && decoder.Valid() && decoder.history == []
      ensures climate == null && written == [] && sent == [] && SentIsWritten()
    {
      decoder := new AupDecoder.Decoder();
      climate := null;
      written := [];
      sent := [];
    }

    ghost predicate SentIsWritten()
      reads this`written, this`sent
    {
      AllPacked(written, sent)
    }

    /** `send_message`: encode the message layer by layer and write the bytes. */
    method SendMessage(msg: Sendable)
      requires SentIsWritten()
      modifies this`written, this`sent
      ensures SentIsWritten() && sent == old(sent) + [msg]
    {
      var frame := Messages.Encode(msg);
      var data := Wmmm.Encode(frame);
      var aup := Aup.Frame(TX_CHECKSUM, TX_FLAG, TX_TYPE, TX_COMMAND, |data| % 0x1_0000, data);
      SmallPayload(msg);
      LengthNotCut(frame, data);
      var out := AupDecoder.Encode(aup);
      PackedMore(written, sent, out, msg);
      written := written + [out];
      sent := sent + [msg];
    }

    /** `log_frame_`: decode the payload and publish the message to the climate entity. */
    method LogFrame(frame: Aup.Frame)
      modifies climate
      ensures climate != null ==>
                climate.State() == ReceivedAll(old(climate.State()), MessagesOn([frame]))
    {
      var wmmm := Wmmm.Decode(frame.payload);
      if wmmm.Some? {
        assert WmmmFrames([frame]) == [wmmm.value];
        assert MessagesIn([wmmm.value]) ==
               match Decoded(wmmm.value) case Some(m) => [m] case None => [];
        var msg := DecodeMessage(wmmm.value);
        if msg.Some? && climate != null {
          match msg.value {
            case Temperature(t1, _) => climate.PublishCurrentTemperature(Number(t1));
            case TargetTemperature(t1, _) => climate.PublishTargetTemperature(Number(t1));
            case Power(on) => climate.PublishPower(on);
            case ByteValue(Mode, value) => climate.PublishMode(value);
            case ByteValue(FanSpeed, value) => climate.PublishFanSpeed(value);
            case _ =>
          }
        }
      }
    }

    /** One pass through the body of `loop`, after the bytes `a`. */
    method HandleByte(b: byte, ghost e: Entity, ghost t: seq<byte>, ghost a: seq<byte>)
      requires decoder.Valid() && Aup.IsPartial(t)
      requires decoder.Pending() == AupStream.Rest(t, a)
      requires climate != null ==> climate.State() == ReceivedAll(e, MessagesIn(FramesIn(t, a)))
      modifies decoder, climate
      ensures decoder.Valid() && decoder.history == old(decoder.history) + [b]
      ensures decoder.Pending() == AupStream.Rest(t, a + [b])
      ensures climate != null ==> climate.State() == ReceivedAll(e, MessagesIn(FramesIn(t, a + [b])))
    {
      hide FramesIn, ReceivedAll;
      HeardRest(t, a, b);
      HeardOne(e, t, a, b);
      var frame := decoder.Consume(b);
      if frame.Some? {
        LogFrame(frame.value);
      }
    }

    /** `loop`: decode the available bytes and handle every frame they complete. */
    method Loop(available: seq<byte>)
      requires decoder.Valid()
      modifies decoder, climate
      ensures decoder.Valid() && decoder.history == old(decoder.history) + available
      ensures climate != null ==>
                climate.State() ==
                ReceivedAll(old(climate.State()), MessagesIn(FramesIn(old(decoder.Pending()), available)))
    {
      ghost var t, h := decoder.Pending(), decoder.history;
      ghost var e := if climate == null then Entity(NaN, NaN, Off, None, false, Off) else climate.State();
      for i := 0 to |available|
        invariant decoder.Valid() && decoder.history == h + available[..i]
        invariant decoder.Pending() == AupStream.Rest(t, available[..i])
        invariant climate != null ==> climate.State() == ReceivedAll(e, MessagesIn(FramesIn(t, available[..i])))
      {
        TakeOne(h, available, i);
        HandleByte(available[i], e, t, available[..i]);
      }
      assert available[..|available|] == available;
    }
  }

  lemma TakeOne(h: seq<byte>, s: seq<byte>, i: nat)
    requires i < |s|
    ensures s[..i] + [s[i]] == s[..i + 1]
    ensures h + s[..i] + [s[i]] == h + s[..i + 1]
  {
    assert s[..i] + [s[i]] == s[..i + 1];
  }

  lemma HeardRest(t: seq<byte>, a: seq<byte>, b: byte)
    requires Aup.IsPartial(t)
    ensures AupStream.Rest(t, a + [b]) == AupStream.Absorb(AupStream.Rest(t, a), b).0
  {
    AupStream.FoldAppend(t, a, [b]);
    AupStream.One(AupStream.Rest(t, a), b);
  }

  /** One more byte: handle the frame that it completes, if any. */
  lemma HeardOne(e: Entity, t: seq<byte>, a: seq<byte>, b: byte)
    requires Aup.IsPartial(t)
    ensures var f := AupStream.Absorb(AupStream.Rest(t, a), b).1;
            var before := ReceivedAll(e, MessagesIn(FramesIn(t, a)));
            ReceivedAll(e, MessagesIn(FramesIn(t, a + [b]))) ==
            if f.Some? then ReceivedAll(before, MessagesOn([f.value])) else before
  {
    var es, f := AupStream.Events(t, a), AupStream.Absorb(AupStream.Rest(t, a), b).1;
    var frames := AupStream.Emitted(es);
    AupStream.FoldAppend(t, a, [b]);
    AupStream.One(AupStream.Rest(t, a), b);
    AupStream.EmittedAppend(es, [f]);
    if f.Some? {
      assert AupStream.Emitted([f]) == [f.value];
      FrameHandled(e, frames, f.value);
    } else {
      assert frames + [] == frames;
    }
  }

  lemma FrameHandled(e: Entity, frames: seq<Aup.Frame>, f: Aup.Frame)
    ensures ReceivedAll(e, MessagesOn(frames + [f])) ==
            ReceivedAll(ReceivedAll(e, MessagesOn(frames)), MessagesOn([f]))
  {
    MessagesOnAppend(frames, [f]);
    ReceivedAppend(e, MessagesOn(frames), MessagesOn([f]));
  }

  /** The length field that `send_message` casts is not cut. */
  lemma LengthNotCut(f: Wmmm.Frame, data: seq<byte>)
    requires data == Wmmm.Layout(f) && |f.payload| < 0xFFFC
    ensures Aup.Frame(TX_CHECKSUM, TX_FLAG, TX_TYPE, TX_COMMAND, |data| % 0x1_0000, data) == Wrapped(f)
  {
  }

  lemma Regroup<T>(a: seq<T>, b: seq<T>, c: seq<T>, d: seq<T>)
    ensures a + b + c + d == a + (b + c + d)
  {
  }

  lemma RegroupFour<T>(a: seq<T>, b: seq<T>, c: seq<T>, d: seq<T>, e: seq<T>)
    ensures a + b + c + d + e == a + (b + c + d + e)
  {
  }

  lemma PackedMore(packets: seq<seq<byte>>, ms: seq<Sendable>, packet: seq<byte>, m: Sendable)
    requires AllPacked(packets, ms) && Packs(packet, m)
    ensures AllPacked(packets + [packet], ms + [m])
  {
  }

  class UniluxUartClimate {
    const parent: UniluxUartComponent?
    var targetTemperature: Float
    var currentTemperature: Float
    var mode: ClimateMode
    var fanMode: Option<FanMode>
    var powerOn: bool
    var activeMode: ClimateMode

    constructor (parent: UniluxUartComponent?)
      ensures this.parent == parent
      ensures State() == Entity(NaN, NaN, Off, None, true, Heat)
    {
      this.parent := parent;
      powerOn := true;
      activeMode := Heat;
      targetTemperature, currentTemperature := NaN, NaN;
      mode, fanMode := Off, None;
    }

    ghost function State(): Entity
      reads this
    {
      Entity(targetTemperature, currentTemperature, mode, fanMode, powerOn, activeMode)
    }

    /** What the parent has sent. */
    ghost function Sent(): seq<Sendable>
      reads parent
    {
      if parent == null then [] else parent.sent
    }

    ghost predicate LinkUp()
      reads parent
    {
      parent != null ==> parent.SentIsWritten()
    }

    /** The state half of `setup`: restore or default, then resolve what is missing. */
    method Resolve(restore: Option<Saved>)
      modifies this
      ensures State() == Booted(old(State()), restore)
    {
      if restore.Some? {
        targetTemperature := restore.value.target;
        mode := restore.value.mode;
        fanMode := restore.value.fan;
      } else {
        targetTemperature := Number(DEFAULT_TARGET);
        mode := HeatCool;
        fanMode := Some(FanAuto);
      }
      if mode == Off {
        powerOn := false;
      } else if IsActive(mode) {
        powerOn := true;
        activeMode := mode;
      } else {
        powerOn := true;
        activeMode := Heat;
      }
      mode := if powerOn then activeMode else Off;
      if targetTemperature == NaN {
        targetTemperature := Number(DEFAULT_TARGET);
      }
      if fanMode == None {
        fanMode := Some(FanAuto);
      }
    }

    /** `setup`: resolve the state, then transmit it. */
    method Setup(restore: Option<Saved>)
      requires LinkUp()
      requires SavedAllowed(restore)
      modifies this, parent
      ensures LinkUp() && State() == Booted(old(State()), restore) && CanSend(State().target)
      ensures parent != null ==> Sent() == old(Sent()) + SyncMessages(State())
    {
      hide Booted, SyncMessages;
      BootConsistent(State(), restore);
      Resolve(restore);
      SyncToDevice();
    }

    /** `sync_to_device` */
    method SyncToDevice()
      requires LinkUp()
      requires targetTemperature == NaN || CanSend(targetTemperature)
      modifies parent
      ensures LinkUp()
      ensures State() == old(State())
      ensures parent != null ==> Sent() == old(Sent()) + SyncMessages(State())
    {
      if parent == null || targetTemperature == NaN {
        return;
      }
      ghost var modePart: seq<Sendable> := if powerOn then [ModeMessage(activeMode)] else [];
      RegroupFour(Sent(), [SetpointMessage(targetTemperature)], [Power(powerOn)], modePart, FanMessages(fanMode));
      parent.SendMessage(SetpointMessage(targetTemperature));
      parent.SendMessage(Power(powerOn));
      if powerOn {
        parent.SendMessage(ModeMessage(activeMode));
      }
      if fanMode.Some? {
        parent.SendMessage(FanMessage(fanMode.value));
      }
    }

    /** Send through the parent, if there is one. */
    method Transmit(m: Sendable)
      requires LinkUp()
      modifies parent
      ensures LinkUp() && State() == old(State())
      ensures parent != null ==> Sent() == old(Sent()) + [m]
    {
      if parent != null {
        parent.SendMessage(m);
      }
    }

    /** The setpoint part of `control`. */
    method ControlTarget(target: Option<Float>)
      requires LinkUp()
      requires target.Some? ==> CanSend(target.value)
      modifies this, parent
      ensures LinkUp()
      ensures State() == old(State()).(target := if target.Some? then target.value else old(targetTemperature))
      ensures parent != null ==> Sent() == old(Sent()) + TargetMessages(target)
    {
      if target.Some? {
        targetTemperature := target.value;
        Transmit(SetpointMessage(targetTemperature));
      }
    }

    /** The mode part of `control`: power off, or power on if needed and set a changed mode. */
    method ControlMode(request: Option<ClimateMode>)
      requires LinkUp()
      modifies this, parent
      ensures LinkUp() && State() == Switched(old(State()), request)
      ensures parent != null ==> Sent() == old(Sent()) + ModeMessages(old(powerOn), old(activeMode), request)
    {
      if request.Some? {
        var requested := request.value;
        if requested == Off {
          if powerOn {
            Transmit(Power(false));
          }
          powerOn := false;
        } else if IsActive(requested) {
          if !powerOn {
            Transmit(Power(true));
          }
          if requested != activeMode {
            Transmit(ModeMessage(requested));
          }
          powerOn := true;
          activeMode := requested;
        }
        mode := if powerOn then activeMode else Off;
      }
    }

    /** The fan part of `control`. */
    method ControlFan(fan: Option<FanMode>)
      requires LinkUp()
      modifies this, parent
      ensures LinkUp() && State() == old(State()).(fan := if fan.Some? then fan else old(fanMode))
      ensures parent != null ==> Sent() == old(Sent()) + FanMessages(fan)
    {
      if fan.Some? {
        fanMode := Some(fan.value);
        Transmit(FanMessage(fanMode.value));
      }
    }

    /** `control`: apply a request and send what it asks for or changes. */
    method Control(call: Call)
      requires LinkUp()
      requires call.target.Some? ==> CanSend(call.target.value)
      modifies this, parent
      ensures LinkUp() && State() == Controlled(old(State()), call)
      ensures parent != null ==> Sent() == old(Sent()) + ControlMessages(old(State()), call)
    {
      Regroup(Sent(), TargetMessages(call.target), ModeMessages(powerOn, activeMode, call.mode),
              FanMessages(call.fan));
      ControlTarget(call.target);
      ControlMode(call.mode);
      ControlFan(call.fan);
    }

    method PublishCurrentTemperature(temperature: Float)
      modifies this
      ensures State() == old(State()).(current := temperature)
    {
      currentTemperature := temperature;
    }

    method PublishTargetTemperature(temperature: Float)
      modifies this
      ensures State() == old(State()).(target := temperature)
    {
      targetTemperature := temperature;
    }

    method PublishMode(value: byte)
      modifies this
      ensures State() == Received(old(State()), ByteValue(Mode, value))
    {
      var m := DeviceModeToClimate(value);
      if m == None {
        return;
      }
      activeMode := m.value;
      PublishCombinedMode();
    }

    method PublishPower(on: bool)
      modifies this
      ensures State() == Received(old(State()), Power(on))
    {
      powerOn := on;
      PublishCombinedMode();
    }

    method PublishFanSpeed(value: byte)
      modifies this
      ensures State() == Received(old(State()), ByteValue(FanSpeed, value))
    {
      var m := DeviceFanToClimate(value);
      if m == None {
        return;
      }
      fanMode := Some(m.value);
    }

    method PublishCombinedMode()
      modifies this`mode
      ensures State() == old(State()).(mode := Combined(powerOn, activeMode))
    {
      mode := if powerOn then activeMode else Off;
    }
  }
}
