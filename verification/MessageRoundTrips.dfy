/** What survives encoding and decoding, over all message types. */
module MessageRoundTrips {
  import opened Wrappers
  import opened Bytes
  import opened FixedPoint
  import opened UnitSlot
  import AC = AllConfig
  import SC = Schedule
  import Wmmm
  import opened Messages

  // ---------------------------------------------------------------- values to values

  /** Values that come back unchanged: on the grid of tenths, with units that fit. */
  ghost predicate Restorable(m: Message) {
    match m
    case Temperature(t1, t2) => OnGrid(t1, 0, 0x1_0000) && OnGrid(t2, 0, 0x1_0000)
    case TargetTemperature(t1, t2) => OnGrid(t1, 0, 0x1_0000) && OnGrid(t2, 0, 0x1_0000)
    case Scalar(_, t) => OnGrid(t, -0x8000, 0x8000)
    case AllConfig(c) => AC.Restorable(c)
    case Schedule(g) => SC.Restorable(g)
    case _ => true
  }

  /** A message as it comes back from the wire. */
  function Quantised(m: Message): Message
    requires Encodable(m)
  {
    MessageOf(KindOf(m), Payload(m))
  }

  lemma QuantisedPair(t1: real, t2: real)
    requires FitsU16(t1) && FitsU16(t2)
    ensures Quantised(Temperature(t1, t2)) == Temperature(DecodeU16(EncodeU16(t1)), DecodeU16(EncodeU16(t2)))
    ensures Quantised(TargetTemperature(t1, t2)) ==
            TargetTemperature(DecodeU16(EncodeU16(t1)), DecodeU16(EncodeU16(t2)))
  {
    var a, b := Be16(EncodeU16(t1)), Be16(EncodeU16(t2));
    assert (a + b)[..2] == a && (a + b)[2..4] == b;
  }

  lemma QuantisedScalar(s: ScalarSetting, t: real)
    requires FitsI16(t)
    ensures Quantised(Scalar(s, t)) == Scalar(s, DecodeI16(EncodeI16(t)))
  {
    var a := Be16(EncodeI16(t));
    assert (a + [0, 0])[..2] == a;
  }

  lemma QuantisedConfig(c: AC.Config)
    requires AC.Encodable(c)
    ensures Encodable(AllConfig(c))
    ensures Quantised(AllConfig(c)) == AllConfig(c) <==> AC.Restorable(c)
  {
    AC.ConfigRoundTrip(c);
    ConfigMessage(c);
  }

  lemma QuantisedProgram(g: SC.Weekly)
    requires SC.Encodable(g)
    ensures Quantised(Schedule(g)) == Schedule(g) <==> SC.Restorable(g)
  {
    SC.ProgramRoundTrip(g);
  }

  /** A message comes back unchanged exactly when it is restorable. */
  lemma QuantisedExactly(m: Message)
    requires Encodable(m)
    ensures Quantised(m) == m <==> Restorable(m)
  {
    match m
    case Temperature(t1, t2) =>
      QuantisedPair(t1, t2);
      UnsignedGrid(t1);
      UnsignedGrid(t2);
    case TargetTemperature(t1, t2) =>
      QuantisedPair(t1, t2);
      UnsignedGrid(t1);
      UnsignedGrid(t2);
    case Scalar(s, t) =>
      QuantisedScalar(s, t);
      SignedGrid(t);
    case AllConfig(c) => QuantisedConfig(c);
    case Schedule(g) => QuantisedProgram(g);
    case Power(_) =>
    case ByteValue(_, _) =>
  }

  /** Decoding an encoded message always succeeds, and gives its quantised form. */
  lemma DecodeOfEncode(m: Message)
    requires Encodable(m)
    ensures Decoded(FrameOf(m)) == Some(Quantised(m))
    ensures Decoded(FrameOf(m)) == Some(m) <==> Restorable(m)
  {
    DecodedOfKind(FrameOf(m), KindOf(m));
    QuantisedExactly(m);
  }

  // ---------------------------------------------------------------- frames to frames

  /** Where the unsigned cast meets a signed word, the word must be non-negative. */
  predicate NonNegative(k: Kind, p: seq<byte>)
    requires |p| == Size(k)
  {
    match k
    case AllConfigKind => AC.Positive(AC.BlockOf(p))
    case ScheduleKind => SC.Positive(SC.ProgramOf(p))
    case _ => true
  }

  /** Payloads that no encoder would write differently. */
  predicate CanonicalPayload(k: Kind, p: seq<byte>)
    requires |p| == Size(k)
  {
    match k
    case PowerKind => p[0] <= 1 && p[1] == p[2] == p[3] == 0
    case ByteKind(_) => p[1] == p[2] == p[3] == 0
    case ScalarKind(_) => p[2] == p[3] == 0
    case AllConfigKind => ZeroAfterNul(p[20..28]) && ZeroAfterNul(p[32..40])
    case _ => true
  }

  lemma PairWords(p: seq<byte>)
    requires |p| == 4
    ensures var w1, w2 := FromBe16(p[..2]), FromBe16(p[2..4]);
            && FitsU16(DecodeU16(w1)) && FitsU16(DecodeU16(w2))
            && Be16(EncodeU16(DecodeU16(w1))) + Be16(EncodeU16(DecodeU16(w2))) == p
  {
    UnsignedExact(FromBe16(p[..2]));
    UnsignedExact(FromBe16(p[2..4]));
    Be16OfFrom(p[..2]);
    Be16OfFrom(p[2..4]);
    assert p == p[..2] + p[2..4];
  }

  lemma ScalarWord(p: seq<byte>)
    requires |p| == 4
    ensures var w := FromBe16(p[..2]);
            FitsI16(DecodeI16(w)) && Be16(EncodeI16(DecodeI16(w))) == p[..2]
  {
    SignedExact(FromBe16(p[..2]));
    Be16OfFrom(p[..2]);
  }

  lemma PairPayload(k: Kind, p: seq<byte>)
    requires k == TemperatureKind || k == TargetTemperatureKind
    requires |p| == Size(k)
    ensures Encodable(MessageOf(k, p)) && Payload(MessageOf(k, p)) == p
  {
    PairWords(p);
  }

  lemma ScalarPayload(k: Kind, p: seq<byte>)
    requires k.ScalarKind? && |p| == Size(k)
    ensures Encodable(MessageOf(k, p))
    ensures Payload(MessageOf(k, p)) == p <==> CanonicalPayload(k, p)
  {
    ScalarWord(p);
    Rest4(p, 2);
  }

  lemma ConfigPayload(p: seq<byte>)
    requires |p| == Size(AllConfigKind)
    ensures Encodable(MessageOf(AllConfigKind, p)) <==> NonNegative(AllConfigKind, p)
    ensures NonNegative(AllConfigKind, p) ==>
              (Payload(MessageOf(AllConfigKind, p)) == p <==> CanonicalPayload(AllConfigKind, p))
  {
    AC.PayloadRoundTrip(p);
    ConfigMessage(AC.ToDegrees(AC.BlockOf(p)));
  }

  /** Re-encoding a decoded payload: when it is defined, and when it restores the bytes. */
  lemma PayloadOfMessage(k: Kind, p: seq<byte>)
    requires |p| == Size(k)
    ensures Encodable(MessageOf(k, p)) <==> NonNegative(k, p)
    ensures NonNegative(k, p) ==> (Payload(MessageOf(k, p)) == p <==> CanonicalPayload(k, p))
  {
    match k
    case TemperatureKind => PairPayload(k, p);
    case TargetTemperatureKind => PairPayload(k, p);
    case PowerKind => Rest4(p, 1);
    case ByteKind(_) => Rest4(p, 1);
    case ScalarKind(_) => ScalarPayload(k, p);
    case AllConfigKind => ConfigPayload(p);
    case ScheduleKind => SC.PayloadRoundTrip(p);
  }

  lemma Rest4(p: seq<byte>, n: nat)
    requires |p| == 4 && 1 <= n <= 2
    ensures p == p[..n] + p[n..]
    ensures n == 1 ==> p[..n] == [p[0]] && p[n..] == [p[1], p[2], p[3]]
    ensures n == 2 ==> p[n..] == [p[2], p[3]]
  {
  }

  /** What was decoded and can be encoded again comes back unchanged. */
  lemma DecodedIsRestorable(k: Kind, p: seq<byte>)
    requires |p| == Size(k) && NonNegative(k, p)
    ensures Restorable(MessageOf(k, p))
  {
    match k
    case TemperatureKind => WordsOnGrid(p);
    case TargetTemperatureKind => WordsOnGrid(p);
    case ScalarKind(_) => assert DecodeI16(FromBe16(p[..2])) == Quotient(ToSigned(FromBe16(p[..2])));
    case AllConfigKind => AC.DecodedIsRestorable(p);
    case ScheduleKind => SC.DecodedIsRestorable(p);
    case PowerKind =>
    case ByteKind(_) =>
  }

  lemma WordsOnGrid(p: seq<byte>)
    requires |p| == 4
    ensures OnGrid(DecodeU16(FromBe16(p[..2])), 0, 0x1_0000)
    ensures OnGrid(DecodeU16(FromBe16(p[2..4])), 0, 0x1_0000)
  {
    var w1, w2 := FromBe16(p[..2]), FromBe16(p[2..4]);
    assert DecodeU16(w1) == Quotient(w1) && DecodeU16(w2) == Quotient(w2);
  }

  /** A frame of a known message type. */
  predicate Carries(f: Wmmm.Frame, k: Kind) {
    f.msgId == Id(k) && |f.payload| == Size(k)
  }

  /** Frames that no encoder would write differently. */
  predicate Canonical(f: Wmmm.Frame, k: Kind)
    requires Carries(f, k)
  {
    f.reserved == Wmmm.NO_RESERVED && CanonicalPayload(k, f.payload)
  }

  /**
   * Encoding is not the inverse of decoding on all accepted frames: it is on the canonical
   * ones, and only on those.
   */
  lemma EncodeOfDecode(f: Wmmm.Frame, k: Kind)
    requires Carries(f, k)
    ensures Decoded(f).Some?
    ensures Encodable(Decoded(f).value) <==> NonNegative(k, f.payload)
    ensures NonNegative(k, f.payload) ==> (FrameOf(Decoded(f).value) == f <==> Canonical(f, k))
  {
    DecodedOfKind(f, k);
    KindOfMessage(k, f.payload);
    PayloadOfMessage(k, f.payload);
  }

  /** One pass through decode and encode. */
  function Normal(f: Wmmm.Frame): Wmmm.Frame
    requires Decoded(f).Some? && Encodable(Decoded(f).value)
  {
    FrameOf(Decoded(f).value)
  }

  /** Canonicalisation: one pass keeps the meaning, and a second one changes nothing more. */
  lemma Canonicalisation(f: Wmmm.Frame, k: Kind)
    requires Carries(f, k) && NonNegative(k, f.payload)
    ensures Decoded(f).Some? && Encodable(Decoded(f).value)
    ensures Decoded(Normal(f)) == Decoded(f)
    ensures Normal(Normal(f)) == Normal(f)
    ensures Carries(Normal(f), k) && Canonical(Normal(f), k)
  {
    EncodeOfDecode(f, k);
    DecodedOfKind(f, k);
    KindOfMessage(k, f.payload);
    var m := Decoded(f).value;
    DecodedIsRestorable(k, f.payload);
    DecodeOfEncode(m);
    EncodeOfDecode(Normal(f), k);
  }

  // ---------------------------------------------------------------- where the inverse fails

  /** The claim of exact inverses fails for a state byte of two. */
  lemma PowerNotInverse()
    ensures var f := Wmmm.Frame(0x21, [0, 0, 0], [2, 0, 0, 0]);
            && Decoded(f) == Some(Power(true))
            && FrameOf(Power(true)) != f
  {
    DecodedOfKind(Wmmm.Frame(0x21, [0, 0, 0], [2, 0, 0, 0]), PowerKind);
  }

  /** It fails for every enumeration byte with a reserved byte that is not zero. */
  lemma EnumerationNotInverse(setting: ByteSetting, value: byte, reserved: byte)
    requires reserved != 0
    ensures var f := Wmmm.Frame(Id(ByteKind(setting)), [0, 0, 0], [value, reserved, 0, 0]);
            && Decoded(f) == Some(ByteValue(setting, value))
            && FrameOf(ByteValue(setting, value)) != f
  {
    var f := Wmmm.Frame(Id(ByteKind(setting)), [0, 0, 0], [value, reserved, 0, 0]);
    DecodedOfKind(f, ByteKind(setting));
    assert f.payload[1] != Payload(ByteValue(setting, value))[1];
  }

  const ZERO_BLOCK: seq<byte> := seq(AC.PAYLOAD_SIZE, _ => 0)

  /** It fails for a configuration with a byte behind the first NUL of a unit slot. */
  lemma ConfigNotInverse()
    ensures var f := Wmmm.Frame(0x76, [0, 0, 0], ZERO_BLOCK[21 := 1]);
            && Decoded(f).Some? && Encodable(Decoded(f).value)
            && FrameOf(Decoded(f).value) != f
  {
    var p := ZERO_BLOCK[21 := 1];
    var slot := p[20..28];
    assert slot[0] == 0 && slot[1] == 1;
    forall off | 0 <= off <= AC.PAYLOAD_SIZE - 2 && off != 20 && off != 21
      ensures AC.Word(p, off) == 0
    {
      AC.WordBytes(p, off);
    }
    EncodeOfDecode(Wmmm.Frame(0x76, [0, 0, 0], p), AllConfigKind);
  }

  /** And for a negative temperature in a configuration, which decodes but has no encoding. */
  lemma NegativeConfigNotEncodable()
    ensures var f := Wmmm.Frame(0x76, [0, 0, 0], ZERO_BLOCK[0 := 0x80]);
            Decoded(f).Some? && !Encodable(Decoded(f).value)
  {
    var p := ZERO_BLOCK[0 := 0x80];
    AC.WordBytes(p, 0);
    assert AC.Word(p, 0) == 0x8000;
    EncodeOfDecode(Wmmm.Frame(0x76, [0, 0, 0], p), AllConfigKind);
  }
}
