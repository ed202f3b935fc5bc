/**
 * The stack between messages and the UART (esphome/components/unilux_uart/unilux_uart.cpp):
 * message, WMMM frame, WMMM bytes, AUP frame, AUP bytes, and back.
 */
module Link {
  import opened Wrappers
  import opened Bytes
  import opened Messages
  import opened MessageRoundTrips
  import Wmmm
  import Aup
  import AupStream

  const TX_CHECKSUM: byte := 0x00
  const TX_FLAG: byte := 0x00
  const TX_TYPE: byte := 0x01
  const TX_COMMAND: byte := 0x10

  /** The AUP frame around a WMMM frame: its length field is the full payload size. */
  function Wrapped(f: Wmmm.Frame): (r: Aup.Frame)
    requires |f.payload| < 0xFFFC
    ensures Aup.WellFormed(r) && r.payload == Wmmm.Layout(f)
  {
    var data := Wmmm.Layout(f);
    Aup.Frame(TX_CHECKSUM, TX_FLAG, TX_TYPE, TX_COMMAND, |data|, data)
  }

  lemma SmallPayload(m: Sendable)
    ensures |FrameOf(m).payload| <= 116
  {
  }

  /** The AUP frame around a message. */
  function Envelope(m: Sendable): (f: Aup.Frame)
    ensures Aup.WellFormed(f)
  {
    SmallPayload(m);
    Wrapped(FrameOf(m))
  }

  /** The bytes of a sequence of messages. */
  function WireLog(ms: seq<Sendable>): seq<byte>
  {
    if ms == [] then [] else Aup.Wire(Envelope(ms[0])) + WireLog(ms[1..])
  }

  /** One write to the UART carries one message. */
  predicate Packs(packet: seq<byte>, m: Sendable) {
    packet == Aup.Wire(Envelope(m))
  }

  /** The writes to the UART carry the messages, one each. */
  predicate AllPacked(packets: seq<seq<byte>>, ms: seq<Sendable>) {
    |packets| == |ms|
    && forall i {:trigger Packs(packets[i], ms[i])} | 0 <= i < |ms| :: Packs(packets[i], ms[i])
  }

  lemma {:induction false} PacketsAreLog(packets: seq<seq<byte>>, ms: seq<Sendable>)
    requires AllPacked(packets, ms)
    ensures AupStream.Concat(packets) == WireLog(ms)
  {
    if ms != [] {
      assert Packs(packets[0], ms[0]);
      assert AllPacked(packets[1..], ms[1..]) by {
        assert forall i | 0 <= i < |ms| - 1 ::
            Packs(packets[1..][i], ms[1..][i]) == Packs(packets[i + 1], ms[i + 1]);
      }
      PacketsAreLog(packets[1..], ms[1..]);
    }
  }

  // ---------------------------------------------------------------- the receiving side

  /** The WMMM frames among received AUP frames; shorter payloads carry none. */
  function WmmmFrames(fs: seq<Aup.Frame>): seq<Wmmm.Frame> {
    if fs == [] then []
    else
      (match Wmmm.FrameOf(fs[0].payload) case Some(f) => [f] case None => []) + WmmmFrames(fs[1..])
  }

  lemma {:induction false} WmmmFramesAppend(a: seq<Aup.Frame>, b: seq<Aup.Frame>)
    ensures WmmmFrames(a + b) == WmmmFrames(a) + WmmmFrames(b)
  {
    if a == [] {
      assert a + b == b;
    } else {
      assert (a + b)[1..] == a[1..] + b;
      WmmmFramesAppend(a[1..], b);
    }
  }

  /** The messages among WMMM frames; frames that are not accepted carry none. */
  function MessagesIn(fs: seq<Wmmm.Frame>): seq<Message> {
    if fs == [] then []
    else
      (match Decoded(fs[0]) case Some(m) => [m] case None => []) + MessagesIn(fs[1..])
  }

  lemma {:induction false} MessagesAppend(a: seq<Wmmm.Frame>, b: seq<Wmmm.Frame>)
    ensures MessagesIn(a + b) == MessagesIn(a) + MessagesIn(b)
  {
    if a == [] {
      assert a + b == b;
    } else {
      assert (a + b)[1..] == a[1..] + b;
      MessagesAppend(a[1..], b);
    }
  }

  /** The messages among AUP frames. */
  function MessagesOn(fs: seq<Aup.Frame>): seq<Message> {
    MessagesIn(WmmmFrames(fs))
  }

  lemma MessagesOnAppend(a: seq<Aup.Frame>, b: seq<Aup.Frame>)
    ensures MessagesOn(a + b) == MessagesOn(a) + MessagesOn(b)
  {
    WmmmFramesAppend(a, b);
    MessagesAppend(WmmmFrames(a), WmmmFrames(b));
  }

  /** The WMMM frames a receiver with unfinished input `t` finds in a stream. */
  function FramesIn(t: seq<byte>, s: seq<byte>): seq<Wmmm.Frame>
    requires Aup.IsPartial(t)
  {
    WmmmFrames(AupStream.Emitted(AupStream.Events(t, s)))
  }

  function Map<A, B>(f: A -> B, s: seq<A>): (r: seq<B>)
    ensures |r| == |s|
  {
    if s == [] then [] else [f(s[0])] + Map(f, s[1..])
  }

  lemma {:induction false} MapAppend<A, B>(f: A -> B, a: seq<A>, b: seq<A>)
    ensures Map(f, a + b) == Map(f, a) + Map(f, b)
  {
    if a == [] {
      assert a + b == b;
    } else {
      assert (a + b)[1..] == a[1..] + b;
      MapAppend(f, a[1..], b);
    }
  }

  function QuantisedAll(ms: seq<Sendable>): seq<Message> {
    Map((m: Sendable) => Quantised(m), ms)
  }

  function FramesOf(ms: seq<Sendable>): seq<Wmmm.Frame> {
    Map((m: Sendable) => FrameOf(m), ms)
  }

  lemma FramesOfAppend(a: seq<Sendable>, b: seq<Sendable>)
    ensures FramesOf(a + b) == FramesOf(a) + FramesOf(b)
  {
    MapAppend((m: Sendable) => FrameOf(m), a, b);
  }

  lemma {:induction false} QuantisedAllExactly(ms: seq<Sendable>)
    ensures QuantisedAll(ms) == ms <==> forall m | m in ms :: Restorable(m)
  {
    if ms != [] {
      QuantisedExactly(ms[0]);
      QuantisedAllExactly(ms[1..]);
      ConsEqual(Quantised(ms[0]), QuantisedAll(ms[1..]), ms[0], ms[1..]);
      assert ms == [ms[0]] + ms[1..];
    }
  }

  // ---------------------------------------------------------------- end to end

  /** Messages with noise before each of them and at the end. */
  function Noisy(gaps: seq<seq<byte>>, ms: seq<Sendable>, last: seq<byte>): Aup.Segments
    requires |gaps| == |ms|
  {
    if ms == [] then Aup.End(last, [])
    else Aup.Item(gaps[0], Envelope(ms[0]), Noisy(gaps[1..], ms[1..], last))
  }

  lemma {:induction false} NoisyValid(gaps: seq<seq<byte>>, ms: seq<Sendable>, last: seq<byte>)
    requires |gaps| == |ms|
    requires forall g | g in gaps :: Aup.MarkerFree(g)
    requires Aup.MarkerFree(last)
    ensures Aup.Valid(Noisy(gaps, ms, last))
    ensures WmmmFrames(Aup.Frames(Noisy(gaps, ms, last))) == FramesOf(ms)
    ensures AupStream.Remembered(Noisy(gaps, ms, last)) == AupStream.Edge(last)
  {
    if ms != [] {
      assert gaps[0] in gaps;
      NoisyValid(gaps[1..], ms[1..], last);
      Wmmm.Inverse(FrameOf(ms[0]), []);
      assert FramesOf(ms) == [FrameOf(ms[0])] + FramesOf(ms[1..]);
    }
  }

  lemma ConsEqual<T>(a: T, s: seq<T>, b: T, t: seq<T>)
    ensures [a] + s == [b] + t <==> a == b && s == t
  {
    assert ([a] + s)[1..] == s && ([b] + t)[1..] == t;
  }

  lemma {:induction false} MessagesOfFrames(ms: seq<Sendable>)
    ensures MessagesIn(FramesOf(ms)) == QuantisedAll(ms)
  {
    if ms != [] {
      MessagesOfFrames(ms[1..]);
      DecodeOfEncode(ms[0]);
      FirstMessage(FrameOf(ms[0]), FramesOf(ms[1..]), Quantised(ms[0]));
    }
  }

  lemma FirstMessage(f: Wmmm.Frame, fs: seq<Wmmm.Frame>, m: Message)
    requires Decoded(f) == Some(m)
    ensures MessagesIn([f] + fs) == [m] + MessagesIn(fs)
  {
    assert ([f] + fs)[1..] == fs;
  }

  /** The messages sent arrive through any marker-free noise, in order, and nothing else does. */
  lemma NoisyLink(gaps: seq<seq<byte>>, ms: seq<Sendable>, last: seq<byte>)
    requires |gaps| == |ms|
    requires forall g | g in gaps :: Aup.MarkerFree(g)
    requires Aup.MarkerFree(last)
    ensures var s := Aup.Join(Noisy(gaps, ms, last));
            && FramesIn([], s) == FramesOf(ms)
            && MessagesIn(FramesIn([], s)) == QuantisedAll(ms)
            && AupStream.Rest([], s) == AupStream.Edge(last)
  {
    var x := Noisy(gaps, ms, last);
    NoisyValid(gaps, ms, last);
    AupStream.ReceiveJoin(x);
    AupStream.EmittedLayout(x);
    MessagesOfFrames(ms);
  }

  lemma {:induction false} WireLogIsNoiseless(gaps: seq<seq<byte>>, ms: seq<Sendable>)
    requires |gaps| == |ms|
    requires forall g | g in gaps :: g == []
    ensures Aup.Join(Noisy(gaps, ms, [])) == WireLog(ms)
  {
    if ms != [] {
      assert gaps[0] in gaps;
      assert forall g | g in gaps[1..] :: g in gaps;
      WireLogIsNoiseless(gaps[1..], ms[1..]);
      NoNoise(Aup.Wire(Envelope(ms[0])), WireLog(ms[1..]));
    }
  }

  lemma NoNoise(a: seq<byte>, b: seq<byte>)
    ensures [] + a + b == a + b
  {
  }

  /**
   * End to end: the bytes of any messages sent give a fresh receiver exactly those messages,
   * as quantised by the wire, and leave it as it started.
   */
  lemma WireLogRoundTrip(ms: seq<Sendable>)
    ensures FramesIn([], WireLog(ms)) == FramesOf(ms)
    ensures MessagesIn(FramesIn([], WireLog(ms))) == QuantisedAll(ms)
    ensures AupStream.Rest([], WireLog(ms)) == []
    ensures MessagesIn(FramesIn([], WireLog(ms))) == ms <==> forall m | m in ms :: Restorable(m)
  {
    var gaps: seq<seq<byte>> := seq(|ms|, _ => []);
    WireLogIsNoiseless(gaps, ms);
    NoisyLink(gaps, ms, []);
    QuantisedAllExactly(ms);
  }

  /** The same, for the writes a component made: they carry exactly what it sent. */
  lemma WrittenArrives(packets: seq<seq<byte>>, ms: seq<Sendable>)
    requires AllPacked(packets, ms)
    ensures var s := AupStream.Concat(packets);
            && FramesIn([], s) == FramesOf(ms)
            && MessagesIn(FramesIn([], s)) == QuantisedAll(ms)
            && AupStream.Rest([], s) == []
  {
    PacketsAreLog(packets, ms);
    WireLogRoundTrip(ms);
  }
}
