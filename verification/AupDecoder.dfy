/** The AUP decoder and encoder of src/aup.cpp, step by step as they run. */
module AupDecoder {
  import opened Wrappers
  import opened Bytes
  import opened Aup
  import opened AupStream

  /** The position in the frame being assembled (include/aup.hpp). */
  datatype State =
    | Magic1 | Magic2 | Checksum | Flag | Type | Command | Length1 | Length2 | Payload

  /** The value-initialised frame that `reset` leaves. */
  const ZERO_FRAME := Frame(0, 0, 0, 0, 0, [])

  function StateAfter(n: nat): State {
    match n
    case 0 => Magic1
    case 1 => Magic2
    case 2 => Checksum
    case 3 => Flag
    case 4 => Type
    case 5 => Command
    case 6 => Length1
    case 7 => Length2
    case _ => Payload
  }

  /** The header bytes seen so far are in their fields; the other fields may hold anything. */
  predicate Holds(f: Frame, t: seq<byte>) {
    && (|t| > 2 ==> f.checksum == t[2])
    && (|t| > 3 ==> f.flag == t[3])
    && (|t| > 4 ==> f.kind == t[4])
    && (|t| > 5 ==> f.command == t[5])
    && (|t| == 7 ==> f.length == 0x100 * (t[6] as int))
    && (|t| >= HEADER ==> f.length == Declared(t))
    && f.payload == if |t| >= HEADER then t[HEADER..] else []
  }

  /** The fields say how far into the unfinished frame `t` the decoder is, and nothing else. */
  predicate Follows(state: State, frame: Frame, read: word, t: seq<byte>) {
    && IsPartial(t)
    && state == StateAfter(|t|)
    && Holds(frame, t)
    && read as int == |frame.payload|
    && (state == Payload ==> read < frame.length)
  }

  class Decoder {
    var state: State
    var frame: Frame
    var read: word
    /** Every byte consumed since construction. */
    ghost var history: seq<byte>

    /** The bytes of the unfinished frame, as the reference reception remembers them. */
    ghost function Pending(): (t: seq<byte>)
      reads this
      ensures IsPartial(t)
    {
      Rest([], history)
    }

    ghost predicate Tracks(t: seq<byte>)
      reads this
    {
      Follows(state, frame, read, t)
    }

    ghost predicate Valid()
      reads this
    {
      Tracks(Pending())
    }

    /** A new decoder: the header fields of its frame are indeterminate. */
    constructor ()
      ensures Valid() && history == []
    {
      var checksum: byte, flag: byte, kind: byte, command: byte, length: word := *, *, *, *, *;
      state := Magic1;
      frame := Frame(checksum, flag, kind, command, length, []);
      read := 0;
      history := [];
    }

    method Reset()
      modifies this`state, this`frame, this`read
      ensures state == Magic1 && frame == ZERO_FRAME && read == 0
    {
      state := Magic1;
      frame := ZERO_FRAME;
      read := 0;
    }

    /** The last length byte: or it in, and finish a frame without payload. */
    method AssembleLength(b: byte, ghost t: seq<byte>) returns (r: Option<Frame>)
      requires Tracks(t) && state == Length2
      modifies this`state, this`frame, this`read
      ensures Tracks(Absorb(t, b).0) && r == Absorb(t, b).1
      ensures r.Some? ==> state == Magic1 && frame == ZERO_FRAME && read == 0
    {
      StepLength(t, b);
      OrByte(t[6], b);
      frame := frame.(length := BitOr(frame.length, b));
      if frame.length > 0 {
        state := Payload;
      } else {
        var done := frame;
        Reset();
        return Some(done);
      }
      return None;
    }

    /** A payload byte: push and count it, and finish the frame at the declared length. */
    method AssemblePayload(b: byte, ghost t: seq<byte>) returns (r: Option<Frame>)
      requires Tracks(t) && state == Payload
      modifies this`state, this`frame, this`read
      ensures Tracks(Absorb(t, b).0) && r == Absorb(t, b).1
      ensures r.Some? ==> state == Magic1 && frame == ZERO_FRAME && read == 0
    {
      PayloadFollows(frame, read, t, b);
      frame := frame.(payload := frame.payload + [b]);
      read := (read as int + 1) % 0x1_0000;
      if read >= frame.length {
        var done := frame;
        Reset();
        return Some(done);
      }
      return None;
    }

    /** One received byte, against the unfinished frame `t` that the fields track. */
    method Assemble(b: byte, ghost t: seq<byte>) returns (r: Option<Frame>)
      requires Tracks(t)
      modifies this`state, this`frame, this`read
      ensures Tracks(Absorb(t, b).0) && r == Absorb(t, b).1
      ensures r.Some? ==> state == Magic1 && frame == ZERO_FRAME && read == 0
    {
      match state {
        case Magic1 =>
          StepMagic1(t, b);
          if b == MAGIC1 {
            state := Magic2;
          } else {
            Reset();
          }
        case Magic2 =>
          StepMagic2(t, b);
          if b == MAGIC2 {
            state := Checksum;
          } else if b == MAGIC1 {
            state := Magic2;
          } else {
            Reset();
          }
        case Checksum =>
          StepHeader(t, b);
          frame := frame.(checksum := b);
          state := Flag;
        case Flag =>
          StepHeader(t, b);
          frame := frame.(flag := b);
          state := Type;
        case Type =>
          StepHeader(t, b);
          frame := frame.(kind := b);
          state := Command;
        case Command =>
          StepHeader(t, b);
          frame := frame.(command := b);
          state := Length1;
        case Length1 =>
          StepHeader(t, b);
          frame := frame.(length := b as int * 0x100);
          state := Length2;
        case Length2 =>
          r := AssembleLength(b, t);
          return;
        case Payload =>
          r := AssemblePayload(b, t);
          return;
      }
      return None;
    }

    /**
     * One received byte. The reference parser, run on everything consumed so far, predicts
     * the result; a frame re-encodes to the bytes just consumed, and leaves a decoder that
     * differs from a new one only in its history.
     */
    method Consume(b: byte) returns (r: Option<Frame>)
      requires Valid()
      modifies this
      ensures Valid()
      ensures history == old(history) + [b]
      ensures Layout(Parse(history)) == Layout(Parse(old(history))) + [r]
      ensures Pending() == Absorb(old(Pending()), b).0 && r == Absorb(old(Pending()), b).1
      ensures r.Some? ==> WellFormed(r.value) && IsSuffix(Wire(r.value), history)
      ensures r.Some? ==> state == Magic1 && frame == ZERO_FRAME && read == 0
    {
      ghost var t := Pending();
      ConsumedByte(history, b);
      history := history + [b];
      CompletedFrame(t, b);
      r := Assemble(b, t);
    }
  }

  /** A completed frame lays out exactly the remembered bytes and the new one. */
  lemma CompletedFrame(t: seq<byte>, b: byte)
    ensures var e := Absorb(t, b).1; e.Some? ==> WellFormed(e.value) && Wire(e.value) == t + [b]
  {
  }

  /** The reference predictions for one more byte. */
  lemma ConsumedByte(h: seq<byte>, b: byte)
    ensures Rest([], h + [b]) == Absorb(Rest([], h), b).0
    ensures Layout(Parse(h + [b])) == Layout(Parse(h)) + [Absorb(Rest([], h), b).1]
    ensures IsSuffix(Rest([], h) + [b], h + [b])
  {
    FoldAppend([], h, [b]);
    One(Rest([], h), b);
    PredictedByte(h, b);
    RestIsSuffix([], h);
    assert [] + h == h;
    SuffixOfSuffix(h, Rest([], h), [b], Rest([], h) + [b]);
  }

  lemma PredictedByte(h: seq<byte>, b: byte)
    requires Events([], h + [b]) == Events([], h) + [Absorb(Rest([], h), b).1]
    ensures Layout(Parse(h + [b])) == Layout(Parse(h)) + [Absorb(Rest([], h), b).1]
  {
    Refinement(h);
    Refinement(h + [b]);
  }

  lemma StepMagic1(t: seq<byte>, b: byte)
    requires t == []
    ensures Absorb(t, b) == (if b == MAGIC1 then [MAGIC1] else [], None)
  {
    assert t + [b] == [b];
    ResidueOfShort([b]);
  }

  lemma StepMagic2(t: seq<byte>, b: byte)
    requires IsPartial(t) && |t| == 1
    ensures Absorb(t, b) ==
            (if b == MAGIC2 then [MAGIC1, MAGIC2] else if b == MAGIC1 then [MAGIC1] else [], None)
  {
    assert t + [b] == [MAGIC1, b];
    if b != MAGIC2 {
      ResidueOfShort([MAGIC1, b]);
    }
  }

  lemma StepHeader(t: seq<byte>, b: byte)
    requires IsPartial(t) && 2 <= |t| < 7
    ensures Absorb(t, b) == (t + [b], None)
  {
  }

  lemma StepLength(t: seq<byte>, b: byte)
    requires IsPartial(t) && |t| == 7
    ensures var s, n := t + [b], 0x100 * (t[6] as int) + b;
            && Declared(s) == n
            && Absorb(t, b) == if n > 0 then (s, None) else ([], Some(Frame(t[2], t[3], t[4], t[5], 0, [])))
  {
    var s := t + [b];
    assert s[6..8] == [t[6], b];
    assert s[8..] == [];
  }

  lemma StepPayload(t: seq<byte>, b: byte)
    requires IsPartial(t) && |t| >= HEADER
    ensures var s := t + [b];
            && IsPartial(s) == (|s| < HEADER + Declared(t))
            && IsFrame(s) == (|s| >= HEADER + Declared(t))
            && Absorb(t, b) == if IsFrame(s) then ([], Some(FrameOf(s))) else (s, None)
  {
    HeaderOfPrefix(t + [b], t);
  }

  /** One more payload byte in the frame; at the declared length it is the frame laid out. */
  lemma HoldsPayload(f: Frame, t: seq<byte>, b: byte)
    requires IsPartial(t) && |t| >= HEADER && Holds(f, t)
    ensures var s, g := t + [b], f.(payload := f.payload + [b]);
            && Holds(g, s)
            && |g.payload| == |s| - HEADER
            && (IsFrame(s) ==> g == FrameOf(s))
  {
    HeaderOfPrefix(t + [b], t);
    assert (t + [b])[HEADER..] == t[HEADER..] + [b];
  }

  /** A pushed and counted payload byte: the frame is complete, or the fields follow. */
  lemma PayloadFollows(f: Frame, read: word, t: seq<byte>, b: byte)
    requires Follows(Payload, f, read, t)
    ensures var g, n := f.(payload := f.payload + [b]), (read as int + 1) % 0x1_0000;
            && (n >= g.length ==> Absorb(t, b) == ([], Some(g)))
            && (n < g.length ==> Absorb(t, b) == (t + [b], None) && Follows(Payload, g, n, t + [b]))
  {
    StepPayload(t, b);
    HoldsPayload(f, t, b);
    NoWrap(read, f.length);
    assert |t + [b]| == HEADER + read as int + 1;
  }

  lemma NoWrap(read: word, length: word)
    requires read < length
    ensures (read as int + 1) % 0x1_0000 == read as int + 1
  {
  }

  /** `Encoder::encode`: push the marker, the header, the length and the payload. */
  method Encode(frame: Frame) returns (bytes: seq<byte>)
    ensures bytes == Wire(frame)
  {
    bytes := [];
    bytes := bytes + [MAGIC1];
    bytes := bytes + [MAGIC2];
    bytes := bytes + [frame.checksum];
    bytes := bytes + [frame.flag];
    bytes := bytes + [frame.kind];
    bytes := bytes + [frame.command];
    bytes := bytes + [frame.length / 0x100];
    bytes := bytes + [frame.length % 0x100];
    bytes := bytes + frame.payload;
  }
}
