/**
 * The AUP wire format (include/aup.hpp): frames, their layout, and how a whole byte stream
 * divides into noise, frames and an unfinished frame.
 */
module Aup {
  import opened Bytes

  const MAGIC1: byte := 0x5A
  const MAGIC2: byte := 0x9E
  const HEADER: nat := 8

  datatype Frame = Frame(
    checksum: byte, flag: byte, kind: byte, command: byte, length: word, payload: seq<byte>)

  /** The declared length agrees with the payload. */
  predicate WellFormed(f: Frame) {
    f.length == |f.payload|
  }

  /** The layout of a frame on the wire. */
  function Wire(f: Frame): (s: seq<byte>)
    ensures |s| == HEADER + |f.payload|
  {
    [MAGIC1, MAGIC2, f.checksum, f.flag, f.kind, f.command] + Be16(f.length) + f.payload
  }

  // ---------------------------------------------------------------- recognising frames

  predicate StartsMarker(s: seq<byte>) {
    |s| >= 2 && s[0] == MAGIC1 && s[1] == MAGIC2
  }

  /** The payload length that a complete header declares. */
  function Declared(s: seq<byte>): word
    requires |s| >= HEADER
  {
    FromBe16(s[6..8])
  }

  /** `s` is exactly one frame. */
  predicate IsFrame(s: seq<byte>) {
    StartsMarker(s) && |s| >= HEADER && |s| == HEADER + Declared(s)
  }

  /** `s` can be continued to a frame but is not one yet. */
  predicate IsPartial(s: seq<byte>) {
    && (|s| >= 1 ==> s[0] == MAGIC1)
    && (|s| >= 2 ==> s[1] == MAGIC2)
    && (|s| >= HEADER ==> |s| < HEADER + Declared(s))
  }

  /** The frame that a byte sequence lays out. */
  function FrameOf(s: seq<byte>): (f: Frame)
    requires IsFrame(s)
    ensures WellFormed(f) && Wire(f) == s
  {
    var f := Frame(s[2], s[3], s[4], s[5], Declared(s), s[8..]);
    Be16OfFrom(s[6..8]);
    assert s == s[..6] + s[6..8] + s[8..];
    f
  }

  /** The layout is injective on well-formed frames, and `FrameOf` inverts it. */
  lemma FrameOfWire(f: Frame)
    requires WellFormed(f)
    ensures IsFrame(Wire(f)) && FrameOf(Wire(f)) == f
  {
    var s := Wire(f);
    assert s[6..8] == Be16(f.length);
    assert s[8..] == f.payload;
  }

  /** Partial frames are the proper prefixes of frames. */
  lemma PartialMeansPrefix(s: seq<byte>)
    ensures IsPartial(s) <==> exists f :: WellFormed(f) && |s| < |Wire(f)| && s == Wire(f)[..|s|]
  {
    if IsPartial(s) {
      var f := Completion(s);
    }
    if f :| WellFormed(f) && |s| < |Wire(f)| && s == Wire(f)[..|s|] {
      FrameOfWire(f);
      if |s| >= HEADER {
        HeaderOfPrefix(Wire(f), s);
      }
    }
  }

  /** Some frame that a partial frame can become: fill up the header, then the payload. */
  lemma Completion(s: seq<byte>) returns (f: Frame)
    requires IsPartial(s)
    ensures WellFormed(f) && |s| < |Wire(f)| && s == Wire(f)[..|s|]
  {
    var t := if |s| < HEADER then s + [MAGIC1, MAGIC2, 0, 0, 0, 0, 0, 0][|s|..] else s;
    var u := t + seq(HEADER + Declared(t) as int - |t|, _ => 0);
    HeaderOfPrefix(u, t);
    f := FrameOf(u);
    assert u[..|s|] == t[..|s|] == s;
  }

  /** A prefix that holds the whole header declares the same length. */
  lemma HeaderOfPrefix(s: seq<byte>, t: seq<byte>)
    requires |s| >= |t| >= HEADER && t == s[..|t|]
    ensures Declared(t) == Declared(s)
  {
    assert t[6..8] == s[6..8];
  }

  // ---------------------------------------------------------------- the reference parser

  predicate MarkerAt(s: seq<byte>, i: nat) {
    i + 1 < |s| && s[i] == MAGIC1 && s[i + 1] == MAGIC2
  }

  predicate MarkerFree(s: seq<byte>) {
    forall i | 0 <= i < |s| :: !MarkerAt(s, i)
  }

  /** The position of the first marker, or the length of `s` if there is none. */
  function FindMarker(s: seq<byte>): (i: nat)
    ensures i <= |s|
    ensures i < |s| <==> MarkerAt(s, i)
    ensures forall j: nat | j < i :: !MarkerAt(s, j)
  {
    if |s| == 0 then 0
    else if StartsMarker(s) then 0
    else
      var i := FindMarker(s[1..]);
      assert forall j: nat | j > 0 :: MarkerAt(s, j) <==> MarkerAt(s[1..], j - 1);
      i + 1
  }

  /** A stream cut into noise, frames and, at the end, noise and an unfinished frame. */
  datatype Segments =
    | End(gap: seq<byte>, partial: seq<byte>)
    | Item(gap: seq<byte>, frame: Frame, rest: Segments)

  /** No gap holds a marker, frames are well formed, and the last piece is unfinished. */
  predicate Valid(x: Segments) {
    && MarkerFree(x.gap)
    && match x
       case End(_, partial) => partial == [] || (StartsMarker(partial) && IsPartial(partial))
       case Item(_, frame, rest) => WellFormed(frame) && Valid(rest)
  }

  /** The bytes a division accounts for. */
  function Join(x: Segments): seq<byte> {
    match x
    case End(gap, partial) => gap + partial
    case Item(gap, frame, rest) => gap + Wire(frame) + Join(rest)
  }

  function Frames(x: Segments): seq<Frame> {
    match x
    case End(_, _) => []
    case Item(_, frame, rest) => [frame] + Frames(rest)
  }

  /** The reference parser: skip to the first marker and cut there. */
  function Parse(s: seq<byte>): Segments
    decreases |s|, 1
  {
    var i := FindMarker(s);
    Cut(s[..i], s[i..])
  }

  /**
   * Behind the gap: read the header, take exactly the declared number of payload bytes, and
   * start over behind them; or leave an unfinished frame.
   */
  function Cut(gap: seq<byte>, t: seq<byte>): Segments
    requires t == [] || StartsMarker(t)
    decreases |t|, 0
  {
    if Complete(t) then
      FrameAhead(t);
      var n := FrameEnd(t);
      Item(gap, FrameOf(t[..n]), Parse(t[n..]))
    else
      End(gap, t)
  }

  /** The bytes begin with a whole frame. */
  predicate Complete(t: seq<byte>) {
    |t| >= HEADER && |t| >= FrameEnd(t)
  }

  function FrameEnd(t: seq<byte>): (n: nat)
    requires |t| >= HEADER
    ensures n >= HEADER
  {
    HEADER + Declared(t) as int
  }

  lemma FrameAhead(t: seq<byte>)
    requires StartsMarker(t) && Complete(t)
    ensures IsFrame(t[..FrameEnd(t)])
  {
    HeaderOfPrefix(t, t[..FrameEnd(t)]);
  }

  /** Conservation: the parser's division is valid and accounts for every byte once, in order. */
  lemma {:induction false} ParseJoin(s: seq<byte>)
    ensures Valid(Parse(s)) && Join(Parse(s)) == s
    decreases |s|, 1
  {
    var i := FindMarker(s);
    GapMarkerFree(s);
    SplitAt(s, i);
    CutJoin(s[..i], s[i..]);
  }

  lemma {:induction false} CutJoin(gap: seq<byte>, t: seq<byte>)
    requires MarkerFree(gap)
    requires t == [] || StartsMarker(t)
    ensures Valid(Cut(gap, t)) && Join(Cut(gap, t)) == gap + t
    decreases |t|, 0
  {
    if Complete(t) {
      var n := FrameEnd(t);
      FrameAhead(t);
      ParseJoin(t[n..]);
      SplitAt(t, n);
      Associate(gap, t[..n], t[n..]);
    }
  }

  lemma SplitAt<T>(s: seq<T>, n: nat)
    requires n <= |s|
    ensures s == s[..n] + s[n..]
  {
  }

  lemma Associate<T>(a: seq<T>, b: seq<T>, c: seq<T>)
    ensures a + b + c == a + (b + c)
  {
  }

  lemma GapMarkerFree(s: seq<byte>)
    ensures MarkerFree(s[..FindMarker(s)])
  {
    var i := FindMarker(s);
    assert forall j: nat :: MarkerAt(s[..i], j) ==> j < i && MarkerAt(s, j);
  }

  /** A marker-free gap followed by a marker puts the first marker right behind the gap. */
  lemma FindBehindGap(gap: seq<byte>, t: seq<byte>)
    requires MarkerFree(gap)
    requires t == [] || StartsMarker(t)
    ensures FindMarker(gap + t) == |gap|
  {
    var s := gap + t;
    var i := FindMarker(s);
    if t != [] {
      assert MarkerAt(s, |gap|);
    }
    assert i < |gap| && MarkerAt(s, i) ==> MarkerAt(gap, i);
  }

  /** Uniqueness: a valid division is the one the parser finds in its bytes. */
  lemma {:induction false} JoinParse(x: Segments)
    requires Valid(x)
    ensures Parse(Join(x)) == x
  {
    match x
    case End(gap, partial) => ParseBehindGap(gap, partial);
    case Item(gap, frame, rest) =>
      Associate(gap, Wire(frame), Join(rest));
      ParseBehindGap(gap, Wire(frame) + Join(rest));
      CutFrame(gap, frame, Join(rest));
      JoinParse(rest);
  }

  lemma ParseBehindGap(gap: seq<byte>, t: seq<byte>)
    requires MarkerFree(gap)
    requires t == [] || StartsMarker(t)
    ensures Parse(gap + t) == Cut(gap, t)
  {
    FindBehindGap(gap, t);
    assert (gap + t)[..|gap|] == gap && (gap + t)[|gap|..] == t;
  }

  /** The parser takes exactly a frame that lies ahead. */
  lemma CutFrame(gap: seq<byte>, frame: Frame, u: seq<byte>)
    requires WellFormed(frame)
    ensures StartsMarker(Wire(frame) + u)
    ensures Cut(gap, Wire(frame) + u) == Item(gap, frame, Parse(u))
  {
    var w := Wire(frame);
    var t := w + u;
    FrameOfWire(frame);
    assert t[..|w|] == w && t[|w|..] == u;
    HeaderOfPrefix(t, w);
  }

  /** Unique segmentation: two valid divisions of the same bytes are the same division. */
  lemma UniqueSegmentation(x: Segments, y: Segments)
    requires Valid(x) && Valid(y) && Join(x) == Join(y)
    ensures x == y
  {
    JoinParse(x);
    JoinParse(y);
  }
}
