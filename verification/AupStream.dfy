/**
 * Byte-at-a-time reception, said without a state machine: what a receiver remembers is the
 * longest suffix of its input that can still become a frame. The reference parser of module
 * Aup is proved to predict it at every byte.
 */
module AupStream {
  import opened Wrappers
  import opened Bytes
  import opened Aup

  type Event = Option<Frame>

  /** The longest suffix that can still become a frame. */
  function Residue(s: seq<byte>): (r: seq<byte>)
    ensures IsPartial(r)
  {
    if IsPartial(s) then s else Residue(s[1..])
  }

  /** It is a suffix, and no longer one qualifies. */
  lemma {:induction false} ResidueIsLongest(s: seq<byte>)
    ensures |Residue(s)| <= |s| && Residue(s) == s[|s| - |Residue(s)|..]
    ensures forall k | 0 <= k < |s| - |Residue(s)| :: !IsPartial(s[k..])
  {
    assert s[0..] == s;
    if !IsPartial(s) {
      var u := s[1..];
      ResidueIsLongest(u);
      assert forall k | 0 < k <= |s| :: s[k..] == u[k - 1..];
    }
  }

  /** One more byte after the remembered bytes `t`: either they are now a frame, or not. */
  function Absorb(t: seq<byte>, b: byte): (r: (seq<byte>, Event))
    ensures IsPartial(r.0)
  {
    var s := t + [b];
    if IsFrame(s) then ([], Some(FrameOf(s))) else (Residue(s), None)
  }

  /** What is remembered after `s`. */
  function Rest(t: seq<byte>, s: seq<byte>): (r: seq<byte>)
    requires IsPartial(t)
    ensures IsPartial(r)
    decreases |s|
  {
    if s == [] then t else Rest(Absorb(t, s[0]).0, s[1..])
  }

  /** For every byte of `s`, the frame that it completes, if any. */
  function Events(t: seq<byte>, s: seq<byte>): (r: seq<Event>)
    requires IsPartial(t)
    ensures |r| == |s|
    decreases |s|
  {
    if s == [] then [] else [Absorb(t, s[0]).1] + Events(Absorb(t, s[0]).0, s[1..])
  }

  function Nones(n: nat): (r: seq<Event>)
    ensures |r| == n && forall i | 0 <= i < n :: r[i] == None
  {
    seq(n, _ => None)
  }

  /** The frames among the events, in order. */
  function Emitted(es: seq<Event>): seq<Frame> {
    if es == [] then []
    else (if es[0].Some? then [es[0].value] else []) + Emitted(es[1..])
  }

  /** The events a division predicts: silence, and a frame at the last byte of each frame. */
  function Layout(x: Segments): seq<Event> {
    match x
    case End(gap, partial) => Nones(|gap| + |partial|)
    case Item(gap, frame, rest) =>
      Nones(|gap| + HEADER + |frame.payload| - 1) + [Some(frame)] + Layout(rest)
  }

  // ---------------------------------------------------------------- folding over pieces

  lemma {:induction false} FoldAppend(t: seq<byte>, a: seq<byte>, b: seq<byte>)
    requires IsPartial(t)
    ensures Rest(t, a + b) == Rest(Rest(t, a), b)
    ensures Events(t, a + b) == Events(t, a) + Events(Rest(t, a), b)
    decreases |a|
  {
    if a == [] {
      assert a + b == b;
    } else {
      assert (a + b)[1..] == a[1..] + b;
      FoldAppend(Absorb(t, a[0]).0, a[1..], b);
    }
  }

  lemma {:induction false} EmittedAppend(a: seq<Event>, b: seq<Event>)
    ensures Emitted(a + b) == Emitted(a) + Emitted(b)
  {
    if a == [] {
      assert a + b == b;
    } else {
      assert (a + b)[1..] == a[1..] + b;
      EmittedAppend(a[1..], b);
      var first: seq<Frame> := if a[0].Some? then [a[0].value] else [];
      Associate(first, Emitted(a[1..]), Emitted(b));
    }
  }

  lemma {:induction false} EmittedNones(n: nat)
    ensures Emitted(Nones(n)) == []
  {
    if n > 0 {
      assert Nones(n)[1..] == Nones(n - 1);
      EmittedNones(n - 1);
    }
  }

  lemma {:induction false} EmittedLayout(x: Segments)
    ensures Emitted(Layout(x)) == Frames(x)
  {
    match x
    case End(gap, partial) =>
      EmittedNones(|gap| + |partial|);
    case Item(gap, frame, rest) =>
      var n := |gap| + HEADER + |frame.payload| - 1;
      EmittedNones(n);
      EmittedAppend(Nones(n), [Some(frame)]);
      EmittedAppend(Nones(n) + [Some(frame)], Layout(rest));
      EmittedLayout(rest);
  }

  // ---------------------------------------------------------------- one piece at a time

  /** A prefix of a partial frame is a partial frame. */
  lemma PartialPrefix(s: seq<byte>, n: nat)
    requires n <= |s|
    requires IsPartial(s) || (IsFrame(s) && n < |s|)
    ensures IsPartial(s[..n])
  {
    if n >= HEADER {
      SliceOfPrefix(s, n);
    }
  }

  lemma SliceOfPrefix(s: seq<byte>, n: nat)
    requires HEADER <= n <= |s|
    ensures s[..n][6..8] == s[6..8]
  {
  }

  /** Bytes that keep the frame unfinished are remembered, silently. */
  lemma {:induction false} AbsorbPartial(t: seq<byte>, u: seq<byte>)
    requires IsPartial(t + u) && IsPartial(t)
    ensures Rest(t, u) == t + u
    ensures Events(t, u) == Nones(|u|)
    decreases |u|
  {
    if u == [] {
      assert t + u == t;
    } else {
      TakeFirst(t, u);
      PartialPrefix(t + u, |t| + 1);
      AbsorbPartial(t + [u[0]], u[1..]);
      NonesCons(|u| - 1);
    }
  }

  lemma TakeFirst<T>(t: seq<T>, u: seq<T>)
    requires u != []
    ensures t + [u[0]] == (t + u)[..|t| + 1]
    ensures t + [u[0]] + u[1..] == t + u
  {
  }

  lemma TakeLast<T>(t: seq<T>, u: seq<T>)
    requires u != []
    ensures var n := |u| - 1;
            && t + u[..n] == (t + u)[..|t| + n]
            && u[..n] + [u[n]] == u
            && t + u[..n] + [u[n]] == t + u
  {
  }

  /** The last byte of a frame, and no other, emits it, and nothing is remembered. */
  lemma AbsorbFrame(t: seq<byte>, u: seq<byte>)
    requires IsFrame(t + u) && IsPartial(t) && u != []
    ensures Rest(t, u) == []
    ensures Events(t, u) == Nones(|u| - 1) + [Some(FrameOf(t + u))]
  {
    var n := |u| - 1;
    TakeLast(t, u);
    PartialPrefix(t + u, |t| + n);
    AbsorbPartial(t, u[..n]);
    FoldAppend(t, u[..n], [u[n]]);
    One(t + u[..n], u[n]);
  }

  lemma One(t: seq<byte>, b: byte)
    requires IsPartial(t)
    ensures Events(t, [b]) == [Absorb(t, b).1] && Rest(t, [b]) == Absorb(t, b).0
  {
    assert [b][1..] == [];
  }

  /** The trace a marker-free gap leaves: at most one first marker byte. */
  function Edge(s: seq<byte>): seq<byte> {
    if s != [] && s[|s| - 1] == MAGIC1 then [MAGIC1] else []
  }

  lemma {:induction false} AbsorbGap(t: seq<byte>, gap: seq<byte>)
    requires t == [] || t == [MAGIC1]
    requires MarkerFree(t + gap)
    ensures Rest(t, gap) == Edge(t + gap)
    ensures Events(t, gap) == Nones(|gap|)
    decreases |gap|
  {
    if gap == [] {
      assert t + gap == t;
    } else {
      var t' := Edge(t + [gap[0]]);
      GapStart(t, gap);
      GapByte(t, gap);
      AbsorbShort(t, gap[0]);
      AbsorbGap(t', gap[1..]);
      NonesCons(|gap| - 1);
    }
  }

  lemma NonesCons(n: nat)
    ensures [None] + Nones(n) == Nones(n + 1)
  {
  }

  lemma AbsorbShort(t: seq<byte>, b: byte)
    requires t == [] || t == [MAGIC1]
    requires !StartsMarker(t + [b])
    ensures Absorb(t, b) == (Edge(t + [b]), None)
  {
    ResidueOfShort(t + [b]);
  }

  /** The first byte of a gap does not complete a marker. */
  lemma GapStart(t: seq<byte>, gap: seq<byte>)
    requires |t| <= 1
    requires gap != [] && MarkerFree(t + gap)
    ensures !StartsMarker(t + [gap[0]])
  {
    assert !MarkerAt(t + gap, 0);
  }

  /** One byte into a gap, the edge and the rest of the gap are an end of the gap. */
  lemma GapByte(t: seq<byte>, gap: seq<byte>)
    requires t == [] || t == [MAGIC1]
    requires gap != [] && MarkerFree(t + gap)
    ensures var s := t + [gap[0]];
            && MarkerFree(Edge(s) + gap[1..])
            && Edge(Edge(s) + gap[1..]) == Edge(t + gap)
  {
    var n := if gap[0] == MAGIC1 then 0 else 1;
    assert Edge(t + [gap[0]]) + gap[1..] == gap[n..];
    EndOfConcat(t, gap, n);
    TailMarkerFree(t + gap, gap[n..]);
    EdgeOfEnd(t, gap, n);
  }

  lemma EdgeOfEnd(t: seq<byte>, s: seq<byte>, n: nat)
    requires n <= |s| && s != []
    requires n == |s| ==> s[|s| - 1] != MAGIC1
    ensures Edge(s[n..]) == Edge(t + s)
  {
  }

  lemma EndOfConcat(t: seq<byte>, s: seq<byte>, n: nat)
    requires n <= |s|
    ensures (t + s)[|t| + n..] == s[n..]
  {
  }

  lemma ResidueOfByte(b: byte)
    ensures Residue([b]) == Edge([b])
  {
    assert [b][1..] == [];
  }

  lemma ResidueOfShort(s: seq<byte>)
    requires 1 <= |s| <= 2 && (|s| == 2 ==> s[0] == MAGIC1) && !StartsMarker(s)
    ensures Residue(s) == Edge(s)
  {
    ResidueOfByte(s[|s| - 1]);
    if |s| == 2 {
      assert s[1..] == [s[1]];
    } else {
      assert s == [s[0]];
    }
  }

  lemma TailMarkerFree(s: seq<byte>, u: seq<byte>)
    requires MarkerFree(s)
    requires |u| <= |s| && u == s[|s| - |u|..]
    ensures MarkerFree(u)
  {
    forall i: nat | MarkerAt(u, i)
      ensures false
    {
      assert MarkerAt(s, i + (|s| - |u|));
    }
  }

  /** A first marker byte means the same after a first marker byte as at the start. */
  lemma MarkerRestarts(gap: seq<byte>, u: seq<byte>)
    requires u == [] || u[0] == MAGIC1
    ensures Events(Edge(gap), u) == Events([], u)
    ensures u != [] ==> Rest(Edge(gap), u) == Rest([], u)
  {
    if u != [] {
      var one, two := [MAGIC1], [MAGIC1, MAGIC1];
      ResidueOfShort(two);
      ResidueOfShort(one);
      assert one + one == two && [] + one == one;
      assert Absorb([], MAGIC1) == (one, None) == Absorb(one, MAGIC1);
    }
  }

  // ---------------------------------------------------------------- refinement

  /** What a division leaves to be remembered. */
  function Remembered(x: Segments): seq<byte> {
    match x
    case End(gap, partial) => if partial == [] then Edge(gap) else partial
    case Item(_, _, rest) => Remembered(rest)
  }

  /** Receiving the bytes of a division gives, byte for byte, the events it predicts. */
  lemma {:induction false} ReceiveJoin(x: Segments)
    requires Valid(x)
    ensures Events([], Join(x)) == Layout(x)
    ensures Rest([], Join(x)) == Remembered(x)
  {
    match x
    case End(gap, partial) => ReceiveEnd(gap, partial);
    case Item(gap, frame, rest) =>
      ReceiveItem(gap, frame, Join(rest));
      ReceiveJoin(rest);
  }

  /** A gap and a frame are received in silence up to the last byte, which emits the frame. */
  lemma ReceiveItem(gap: seq<byte>, frame: Frame, u: seq<byte>)
    requires MarkerFree(gap) && WellFormed(frame)
    ensures var s := gap + Wire(frame) + u;
            && Events([], s) == Nones(|gap| + HEADER + |frame.payload| - 1) + [Some(frame)] + Events([], u)
            && Rest([], s) == Rest([], u)
  {
    Associate(gap, Wire(frame), u);
    ReceiveGap(gap, Wire(frame) + u);
    ReceiveFrame(frame, u);
    var n := HEADER + |frame.payload| - 1;
    NonesJoin(|gap|, n);
    Regroup(Nones(|gap|), Nones(n), [Some(frame)], Events([], u));
  }

  lemma ReceiveEnd(gap: seq<byte>, partial: seq<byte>)
    requires MarkerFree(gap) && IsPartial(partial)
    ensures Events([], gap + partial) == Nones(|gap| + |partial|)
    ensures Rest([], gap + partial) == if partial == [] then Edge(gap) else partial
  {
    ReceiveGap(gap, partial);
    AbsorbFirst(partial);
    NonesJoin(|gap|, |partial|);
  }

  lemma NonesJoin(m: nat, n: nat)
    ensures Nones(m) + Nones(n) == Nones(m + n)
  {
  }

  lemma Regroup<T>(a: seq<T>, b: seq<T>, c: seq<T>, d: seq<T>)
    ensures a + (b + c + d) == a + b + c + d
  {
  }

  lemma AbsorbFirst(u: seq<byte>)
    requires IsPartial(u)
    ensures Rest([], u) == u && Events([], u) == Nones(|u|)
  {
    assert [] + u == u;
    AbsorbPartial([], u);
  }

  /** A marker-free gap is received in silence and does not disturb what follows it. */
  lemma ReceiveGap(gap: seq<byte>, u: seq<byte>)
    requires MarkerFree(gap)
    requires u == [] || u[0] == MAGIC1
    ensures Events([], gap + u) == Nones(|gap|) + Events([], u)
    ensures Rest([], gap + u) == if u == [] then Edge(gap) else Rest([], u)
  {
    assert [] + gap == gap;
    AbsorbGap([], gap);
    FoldAppend([], gap, u);
    MarkerRestarts(gap, u);
  }

  /** A frame is emitted at its last byte, and reception starts over behind it. */
  lemma ReceiveFrame(f: Frame, u: seq<byte>)
    requires WellFormed(f)
    ensures Events([], Wire(f) + u) == Nones(HEADER + |f.payload| - 1) + [Some(f)] + Events([], u)
    ensures Rest([], Wire(f) + u) == Rest([], u)
  {
    FoldAppend([], Wire(f), u);
    FrameOfWire(f);
    assert [] + Wire(f) == Wire(f);
    AbsorbFrame([], Wire(f));
  }

  /**
   * Refinement: over any byte stream the receiver emits exactly the frames of the reference
   * parser, each at the byte that ends it; no marker outside a frame is missed.
   */
  lemma Refinement(s: seq<byte>)
    ensures Events([], s) == Layout(Parse(s))
    ensures Rest([], s) == Remembered(Parse(s))
    ensures Emitted(Events([], s)) == Frames(Parse(s))
  {
    ParseJoin(s);
    ReceiveJoin(Parse(s));
    EmittedLayout(Parse(s));
  }

  /** Round trip through noise: whatever marker-free noise surrounds them, the frames arrive. */
  lemma NoisyRoundTrip(x: Segments)
    requires Valid(x)
    ensures Emitted(Events([], Join(x))) == Frames(x)
  {
    ReceiveJoin(x);
    EmittedLayout(x);
  }

  /** The encoder and the decoder are inverse exactly on well-formed frames. */
  lemma InverseExactlyWhenWellFormed(f: Frame)
    ensures Emitted(Events([], Wire(f))) == [f] && Rest([], Wire(f)) == [] <==> WellFormed(f)
  {
    if WellFormed(f) {
      FrameOfWire(f);
      assert [] + Wire(f) == Wire(f);
      AbsorbFrame([], Wire(f));
      EmittedNones(|Wire(f)| - 1);
      EmittedAppend(Nones(|Wire(f)| - 1), [Some(f)]);
    } else {
      ParseJoin(Wire(f));
      Refinement(Wire(f));
      FramesWellFormed(Parse(Wire(f)));
      assert Frames(Parse(Wire(f))) == [f] ==> f in Frames(Parse(Wire(f)));
    }
  }

  lemma {:induction false} FramesWellFormed(x: Segments)
    requires Valid(x)
    ensures forall f | f in Frames(x) :: WellFormed(f)
  {
    if x.Item? {
      FramesWellFormed(x.rest);
    }
  }

  // ---------------------------------------------------------------- chunks and prefixes

  /** How a stream is cut into chunks does not matter. */
  function EventsOfChunks(t: seq<byte>, chunks: seq<seq<byte>>): seq<Event>
    requires IsPartial(t)
    decreases |chunks|
  {
    if chunks == [] then []
    else Events(t, chunks[0]) + EventsOfChunks(Rest(t, chunks[0]), chunks[1..])
  }

  function Concat(chunks: seq<seq<byte>>): seq<byte> {
    if chunks == [] then [] else chunks[0] + Concat(chunks[1..])
  }

  lemma {:induction false} Chunking(t: seq<byte>, chunks: seq<seq<byte>>)
    requires IsPartial(t)
    ensures EventsOfChunks(t, chunks) == Events(t, Concat(chunks))
    decreases |chunks|
  {
    if chunks != [] {
      Chunking(Rest(t, chunks[0]), chunks[1..]);
      FoldAppend(t, chunks[0], Concat(chunks[1..]));
    }
  }

  predicate IsSuffix(r: seq<byte>, s: seq<byte>) {
    |r| <= |s| && r == s[|s| - |r|..]
  }

  /** What is remembered is the end of what was received. */
  lemma {:induction false} RestIsSuffix(t: seq<byte>, s: seq<byte>)
    requires IsPartial(t)
    ensures IsSuffix(Rest(t, s), t + s)
    decreases |s|
  {
    if s == [] {
      assert t + s == t;
    } else {
      var t', r := Absorb(t, s[0]).0, Rest(t, s);
      assert IsSuffix(r, t' + s[1..]) by { RestIsSuffix(t', s[1..]); }
      assert IsSuffix(t', t + [s[0]]) by { AbsorbIsSuffix(t, s[0]); }
      SuffixOfSuffix(t + [s[0]], t', s[1..], r);
      assert t + s == t + [s[0]] + s[1..];
    }
  }

  lemma AbsorbIsSuffix(t: seq<byte>, b: byte)
    ensures IsSuffix(Absorb(t, b).0, t + [b])
  {
    ResidueIsLongest(t + [b]);
  }

  lemma SuffixOfSuffix(u: seq<byte>, t: seq<byte>, s: seq<byte>, r: seq<byte>)
    requires IsSuffix(t, u) && IsSuffix(r, t + s)
    ensures IsSuffix(r, u + s)
  {
    assert t + s == (u + s)[|u| - |t|..];
  }

  // ---------------------------------------------------------------- self-stabilisation

  /** How many bytes other than the first marker byte can pass before nothing is remembered. */
  function BytesLeft(t: seq<byte>): nat
    requires IsPartial(t)
  {
    if t == [] then 0
    else if |t| == 1 then 0x1_0006
    else if |t| < HEADER then HEADER - |t| + 0xFFFF
    else HEADER + Declared(t) - |t|
  }

  lemma BytesLeftDecreases(t: seq<byte>, b: byte)
    requires IsPartial(t) && t != [] && b != MAGIC1
    ensures BytesLeft(Absorb(t, b).0) < BytesLeft(t)
    ensures Absorb(t, b).1.Some? ==> Absorb(t, b).0 == []
  {
    var s := t + [b];
    if |t| == 1 {
      if b != MAGIC2 {
        ResidueOfShort(s);
      }
    } else if |s| >= HEADER {
      if |t| >= HEADER {
        assert s[6..8] == t[6..8];
      }
    }
  }

  /**
   * Self-stabilisation: from any reachable state, enough bytes without a first marker byte
   * emit at most one frame and leave nothing remembered.
   */
  lemma {:induction false} Stabilise(t: seq<byte>, filler: seq<byte>)
    requires IsPartial(t)
    requires MAGIC1 !in filler
    requires |filler| >= BytesLeft(t)
    ensures Rest(t, filler) == []
    ensures |Emitted(Events(t, filler))| <= if t == [] then 0 else 1
    decreases |filler|
  {
    if filler != [] {
      var b := filler[0];
      if t == [] {
        ResidueOfShort([b]);
        assert [] + [b] == [b];
      } else {
        BytesLeftDecreases(t, b);
      }
      Stabilise(Absorb(t, b).0, filler[1..]);
    }
  }

  /** After the filler, everything is received as by a fresh receiver. */
  lemma Recovery(t: seq<byte>, filler: seq<byte>, x: Segments)
    requires IsPartial(t) && Valid(x)
    requires MAGIC1 !in filler && |filler| >= 65542
    ensures Events(t, filler + Join(x)) == Events(t, filler) + Layout(x)
    ensures |Emitted(Events(t, filler))| <= 1
    ensures Emitted(Events(t, filler + Join(x))) == Emitted(Events(t, filler)) + Frames(x)
  {
    Stabilise(t, filler);
    FoldAppend(t, filler, Join(x));
    ReceiveJoin(x);
    EmittedAppend(Events(t, filler), Layout(x));
    EmittedLayout(x);
  }

  /** The bound is attained: one byte less can leave a frame unfinished. */
  lemma BoundAttained() returns (t: seq<byte>, filler: seq<byte>)
    ensures IsPartial(t) && MAGIC1 !in filler && |filler| == 65541
    ensures Rest(t, filler) != []
  {
    t := [MAGIC1];
    filler := [MAGIC2, 0, 0, 0, 0, 0xFF, 0xFF] + seq(65534, _ => 0);
    assert (t + filler)[6..8] == [0xFF, 0xFF];
    assert IsPartial(t + filler);
    AbsorbPartial(t, filler);
  }
}
