/** The weekly program of include/messages/schedule.hpp: seven days of four switch points. */
module Schedule {
  import opened Bytes
  import opened FixedPoint

  const DAYS: nat := 7
  const ENTRIES: nat := 4
  const PAYLOAD_SIZE: nat := 116

  /** A switch point, with its setpoint of type `T`: degrees in memory, a word on the wire. */
  datatype Entry<T> = Entry(hour: byte, minute: byte, setpoint: T)

  datatype Program<T> = Program(mode: byte, reserved: seq<byte>, days: seq<seq<Entry<T>>>)

  /** The fixed sizes of the source's arrays. */
  predicate Shaped<T>(g: Program<T>) {
    && |g.reserved| == 3 && |g.days| == DAYS
    && forall d | 0 <= d < DAYS :: |g.days[d]| == ENTRIES
  }

  type Weekly = g: Program<real> | Shaped(g)
    witness Program(0, [0, 0, 0], seq(DAYS, _ => seq(ENTRIES, _ => Entry(0, 0, 0.0))))

  // ---------------------------------------------------------------- the grid of offsets

  /** Where byte `k` of entry `e` of day `d` lies. */
  function Offset(d: nat, e: nat, k: nat): (i: nat)
    requires d < DAYS && e < ENTRIES && k < 4
    ensures 4 <= i < PAYLOAD_SIZE
  {
    4 + (d * ENTRIES + e) * 4 + k
  }

  /** Which entry byte lies at an offset. */
  function Locate(i: nat): (r: (nat, nat, nat))
    requires 4 <= i < PAYLOAD_SIZE
    ensures r.0 < DAYS && r.1 < ENTRIES && r.2 < 4
  {
    ((i - 4) / 16, (i - 4) / 4 % 4, (i - 4) % 4)
  }

  /** The entries tile the payload: every offset behind the header belongs to one entry byte. */
  lemma Tiling(d: nat, e: nat, k: nat, i: nat)
    requires d < DAYS && e < ENTRIES && k < 4
    requires 4 <= i < PAYLOAD_SIZE
    ensures Offset(d, e, k) == i <==> Locate(i) == (d, e, k)
  {
    var j := i - 4;
    assert j == j / 16 * 16 + j / 4 % 4 * 4 + j % 4;
    if Offset(d, e, k) == i {
      assert j == d * 16 + e * 4 + k;
      assert j / 4 == d * 4 + e;
    }
  }

  function EntryByte(e: Entry<word>, k: nat): byte
    requires k < 4
  {
    match k
    case 0 => e.hour
    case 1 => e.minute
    case 2 => Be16(e.setpoint)[0]
    case _ => Be16(e.setpoint)[1]
  }

  function ByteAt(g: Program<word>, i: nat): byte
    requires Shaped(g) && i < PAYLOAD_SIZE
  {
    if i == 0 then g.mode
    else if i < 4 then g.reserved[i - 1]
    else
      var (d, e, k) := Locate(i);
      EntryByte(g.days[d][e], k)
  }

  /** The payload that carries a program. */
  function Layout(g: Program<word>): (s: seq<byte>)
    requires Shaped(g)
    ensures |s| == PAYLOAD_SIZE
  {
    seq(PAYLOAD_SIZE, i requires 0 <= i < PAYLOAD_SIZE => ByteAt(g, i))
  }

  function EntryAt(p: seq<byte>, d: nat, e: nat): Entry<word>
    requires |p| == PAYLOAD_SIZE && d < DAYS && e < ENTRIES
  {
    var at := Offset(d, e, 0);
    Entry(p[at], p[at + 1], FromBe16(p[at + 2..at + 4]))
  }

  /** The program that a payload carries. */
  function ProgramOf(p: seq<byte>): (g: Program<word>)
    requires |p| == PAYLOAD_SIZE
    ensures Shaped(g)
  {
    Program(p[0], p[1..4],
            seq(DAYS, d requires 0 <= d < DAYS =>
              seq(ENTRIES, e requires 0 <= e < ENTRIES => EntryAt(p, d, e))))
  }

  lemma EntryOfLayout(g: Program<word>, d: nat, e: nat)
    requires Shaped(g) && d < DAYS && e < ENTRIES
    ensures EntryAt(Layout(g), d, e) == g.days[d][e]
  {
    hide BitOr;
    var p, at := Layout(g), Offset(d, e, 0);
    Tiling(d, e, 0, at);
    Tiling(d, e, 1, at + 1);
    Tiling(d, e, 2, at + 2);
    Tiling(d, e, 3, at + 3);
    assert p[at + 2..at + 4] == Be16(g.days[d][e].setpoint);
  }

  /** The layout is invertible, and every payload of the right size is a layout. */
  lemma LayoutInverse(g: Program<word>, p: seq<byte>)
    requires Shaped(g)
    requires |p| == PAYLOAD_SIZE
    ensures ProgramOf(Layout(g)) == g
    ensures Layout(ProgramOf(p)) == p
  {
    var h := ProgramOf(Layout(g));
    assert h.reserved == g.reserved;
    forall d | 0 <= d < DAYS
      ensures h.days[d] == g.days[d]
    {
      forall e | 0 <= e < ENTRIES
        ensures h.days[d][e] == g.days[d][e]
      {
        EntryOfLayout(g, d, e);
      }
    }
    forall i | 4 <= i < PAYLOAD_SIZE
      ensures ByteAt(ProgramOf(p), i) == p[i]
    {
      ByteOfProgram(p, i);
    }
  }

  lemma ByteOfProgram(p: seq<byte>, i: nat)
    requires |p| == PAYLOAD_SIZE && 4 <= i < PAYLOAD_SIZE
    ensures ByteAt(ProgramOf(p), i) == p[i]
  {
    var (d, e, k) := Locate(i);
    Tiling(d, e, k, i);
    var at := Offset(d, e, 0);
    Be16OfFrom(p[at + 2..at + 4]);
  }

  // ---------------------------------------------------------------- degrees and words

  predicate Encodable(g: Weekly) {
    forall d, e | 0 <= d < DAYS && 0 <= e < ENTRIES :: FitsU16(g.days[d][e].setpoint)
  }

  function EntryToWord(e: Entry<real>): Entry<word>
    requires FitsU16(e.setpoint)
  {
    Entry(e.hour, e.minute, EncodeU16(e.setpoint))
  }

  function EntryToDegrees(e: Entry<word>): Entry<real> {
    Entry(e.hour, e.minute, DecodeI16(e.setpoint))
  }

  function ToWords(g: Weekly): (w: Program<word>)
    requires Encodable(g)
    ensures Shaped(w)
  {
    Program(g.mode, g.reserved,
            seq(DAYS, d requires 0 <= d < DAYS =>
              seq(ENTRIES, e requires 0 <= e < ENTRIES => EntryToWord(g.days[d][e]))))
  }

  function ToDegrees(w: Program<word>): Weekly
    requires Shaped(w)
  {
    Program(w.mode, w.reserved,
            seq(DAYS, d requires 0 <= d < DAYS =>
              seq(ENTRIES, e requires 0 <= e < ENTRIES => EntryToDegrees(w.days[d][e]))))
  }

  // ---------------------------------------------------------------- encode and decode

  /** One switch point: hour, minute and big-endian setpoint. */
  method WriteEntry(p: array<byte>, entry: nat, src: Entry<word>)
    requires entry + 4 <= p.Length
    modifies p
    ensures forall i | entry <= i < entry + 4 :: p[i] == EntryByte(src, i - entry)
    ensures forall i | 0 <= i < p.Length && !(entry <= i < entry + 4) :: p[i] == old(p[i])
  {
    p[entry] := src.hour;
    p[entry + 1] := src.minute;
    ToBe16(p, entry + 2, src.setpoint);
  }

  /** `Schedule::encode`: header bytes, then the entries by day and position. */
  method Encode(g: Weekly) returns (payload: seq<byte>)
    requires Encodable(g)
    ensures payload == Layout(ToWords(g))
  {
    ghost var w := ToWords(g);
    var p := new byte[PAYLOAD_SIZE](_ => 0);
    p[0] := g.mode;
    p[1] := g.reserved[0];
    p[2] := g.reserved[1];
    p[3] := g.reserved[2];
    for d := 0 to DAYS
      invariant forall i | 0 <= i < 4 + d * 16 :: p[i] == ByteAt(w, i)
    {
      for e := 0 to ENTRIES
        invariant forall i | 0 <= i < 4 + d * 16 + e * 4 :: p[i] == ByteAt(w, i)
      {
        var entry := 4 + (d * ENTRIES + e) * 4;
        WriteEntry(p, entry, EntryToWord(g.days[d][e]));
        EntryBytes(w, d, e);
      }
    }
    payload := p[..];
  }

  lemma EntryBytes(w: Program<word>, d: nat, e: nat)
    requires Shaped(w) && d < DAYS && e < ENTRIES
    ensures forall i | Offset(d, e, 0) <= i <= Offset(d, e, 3) ::
              ByteAt(w, i) == EntryByte(w.days[d][e], i - Offset(d, e, 0))
  {
    var at := Offset(d, e, 0);
    forall i | at <= i <= at + 3
      ensures ByteAt(w, i) == EntryByte(w.days[d][e], i - at)
    {
      Tiling(d, e, i - at, i);
    }
  }

  /** The inner loop of `Schedule::decode`: the entries of one day. */
  method DecodeDay(p: seq<byte>, d: nat) returns (day: seq<Entry<real>>)
    requires |p| == PAYLOAD_SIZE && d < DAYS
    ensures |day| == ENTRIES
    ensures forall e | 0 <= e < ENTRIES :: day[e] == EntryToDegrees(EntryAt(p, d, e))
  {
    day := seq(ENTRIES, _ => Entry(0, 0, 0.0));
    for e := 0 to ENTRIES
      invariant |day| == ENTRIES
      invariant forall b | 0 <= b < e :: day[b] == EntryToDegrees(EntryAt(p, d, b))
    {
      var entry := 4 + (d * ENTRIES + e) * 4;
      var src := Entry(p[entry], p[entry + 1], FromBe16(p[entry + 2..entry + 4]));
      assert src == EntryAt(p, d, e);
      day := day[e := EntryToDegrees(src)];
    }
  }

  /** `Schedule::decode`, for a payload of the right size. */
  method Decode(p: seq<byte>) returns (g: Weekly)
    requires |p| == PAYLOAD_SIZE
    ensures g == ToDegrees(ProgramOf(p))
  {
    ghost var target := ToDegrees(ProgramOf(p)).days;
    var days: seq<seq<Entry<real>>> := seq(DAYS, _ => []);
    for d := 0 to DAYS
      invariant |days| == DAYS
      invariant forall a | 0 <= a < d :: days[a] == target[a]
    {
      var day := DecodeDay(p, d);
      assert day == target[d];
      days := days[d := day];
    }
    assert days == target;
    var reserved := [p[1], p[2], p[3]];
    assert reserved == p[1..4];
    g := Program(p[0], reserved, days);
  }

  // ---------------------------------------------------------------- round trips

  predicate Positive(w: Program<word>)
    requires Shaped(w)
  {
    forall d, e | 0 <= d < DAYS && 0 <= e < ENTRIES :: w.days[d][e].setpoint < 0x8000
  }

  /** Casting decoded setpoints back is defined exactly for non-negative words, and exact. */
  lemma WordsOfDegrees(w: Program<word>)
    requires Shaped(w)
    ensures Encodable(ToDegrees(w)) <==> Positive(w)
    ensures Positive(w) ==> ToWords(ToDegrees(w)) == w
  {
    var g := ToDegrees(w);
    forall d, e | 0 <= d < DAYS && 0 <= e < ENTRIES
      ensures g.days[d][e] == EntryToDegrees(w.days[d][e])
      ensures FitsU16(g.days[d][e].setpoint) <==> w.days[d][e].setpoint < 0x8000
      ensures w.days[d][e].setpoint < 0x8000 ==> EntryToWord(g.days[d][e]) == w.days[d][e]
    {
      MixedExact(w.days[d][e].setpoint);
    }
    if Positive(w) {
      assert forall d | 0 <= d < DAYS :: ToWords(g).days[d] == w.days[d];
    }
  }

  /** Bytes to bytes: defined exactly for non-negative setpoints, and then lossless. */
  lemma PayloadRoundTrip(p: seq<byte>)
    requires |p| == PAYLOAD_SIZE
    ensures Encodable(ToDegrees(ProgramOf(p))) <==> Positive(ProgramOf(p))
    ensures Positive(ProgramOf(p)) ==> Layout(ToWords(ToDegrees(ProgramOf(p)))) == p
  {
    WordsOfDegrees(ProgramOf(p));
    LayoutInverse(ProgramOf(p), p);
  }

  ghost predicate Restorable(g: Weekly) {
    forall d, e | 0 <= d < DAYS && 0 <= e < ENTRIES :: OnGrid(g.days[d][e].setpoint, 0, 0x8000)
  }

  /** Values to values: a program comes back exactly when its setpoints are on the grid. */
  lemma ProgramRoundTrip(g: Weekly)
    requires Encodable(g)
    ensures ToDegrees(ProgramOf(Layout(ToWords(g)))) == g <==> Restorable(g)
  {
    var w := ToWords(g);
    LayoutInverse(w, Layout(w));
    var h := ToDegrees(w);
    forall d, e | 0 <= d < DAYS && 0 <= e < ENTRIES
      ensures h.days[d][e] == g.days[d][e] <==> OnGrid(g.days[d][e].setpoint, 0, 0x8000)
    {
      MixedGrid(g.days[d][e].setpoint);
    }
    if Restorable(g) {
      assert forall d | 0 <= d < DAYS :: h.days[d] == g.days[d];
    }
  }

  lemma DecodedIsRestorable(p: seq<byte>)
    requires |p| == PAYLOAD_SIZE && Positive(ProgramOf(p))
    ensures Restorable(ToDegrees(ProgramOf(p)))
  {
    var w := ProgramOf(p);
    var g := ToDegrees(w);
    forall d, e | 0 <= d < DAYS && 0 <= e < ENTRIES
      ensures OnGrid(g.days[d][e].setpoint, 0, 0x8000)
    {
      assert g.days[d][e].setpoint == Quotient(w.days[d][e].setpoint);
    }
  }
}
