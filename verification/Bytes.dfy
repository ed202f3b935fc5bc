/** Bytes, machine words and the big-endian helpers of include/utils.hpp. */
module Bytes {
  type byte = x: int | 0 <= x < 0x100
  type word = x: int | 0 <= x < 0x1_0000
  type dword = x: int | 0 <= x < 0x1_0000_0000

  /** Bitwise or of two non-negative integers, bit by bit. */
  function BitOr(a: nat, b: nat): nat {
    if a == 0 && b == 0 then 0
    else (if a % 2 == 1 || b % 2 == 1 then 1 else 0) + 2 * BitOr(a / 2, b / 2)
  }

  function Power2(n: nat): nat {
    if n == 0 then 1 else 2 * Power2(n - 1)
  }

  /** Or-ing a value into bits that are all clear is addition. */
  lemma {:induction false} BitOrDisjoint(h: nat, l: nat, n: nat)
    requires l < Power2(n)
    ensures BitOr(h * Power2(n), l) == h * Power2(n) + l
  {
    if n == 0 {
      OrZero(h);
    } else {
      var a := h * Power2(n);
      assert a == 2 * (h * Power2(n - 1));
      BitOrDisjoint(h, l / 2, n - 1);
    }
  }

  lemma {:induction false} OrZero(a: nat)
    ensures BitOr(a, 0) == a
  {
    if a != 0 {
      OrZero(a / 2);
    }
  }

  lemma OrByte(h: nat, l: byte)
    ensures BitOr(0x100 * h, l) == 0x100 * h + l
  {
    PowerOfByte();
    BitOrDisjoint(h, l, 8);
  }

  lemma PowerOfByte()
    ensures Power2(8) == 0x100 && Power2(16) == 0x1_0000 && Power2(24) == 0x100_0000
  {
    assert Power2(4) == 16;
    assert Power2(8) == 0x100;
    assert Power2(12) == 0x1000;
    assert Power2(16) == 0x1_0000;
    assert Power2(20) == 0x10_0000;
  }

  /** `from_be16`: shift the first byte up and or the second one in. */
  function FromBe16(s: seq<byte>): (w: word)
    requires |s| == 2
    ensures w == 0x100 * (s[0] as int) + s[1]
  {
    var hi: int, lo: int := s[0], s[1];
    OrByte(hi, lo);
    BitOr(hi * 0x100, lo)
  }

  /** `from_be32`: four shifted bytes or-ed together, left to right. */
  function FromBe32(s: seq<byte>): (w: dword)
    requires |s| == 4
    ensures w == 0x1_0000 * (FromBe16(s[..2]) as int) + FromBe16(s[2..])
  {
    var b0: int, b1: int, b2: int, b3: int := s[0], s[1], s[2], s[3];
    OrFour(s[0], s[1], s[2], s[3]);
    BitOr(BitOr(BitOr(b0 * 0x100_0000, b1 * 0x1_0000), b2 * 0x100), b3)
  }

  lemma OrFour(b0: byte, b1: byte, b2: byte, b3: byte)
    ensures BitOr(BitOr(BitOr(b0 as int * 0x100_0000, b1 as int * 0x1_0000), b2 as int * 0x100), b3)
            == ((b0 as int * 0x100 + b1) * 0x100 + b2) * 0x100 + b3
  {
    PowerOfByte();
    BitOrDisjoint(b0, b1 as int * 0x1_0000, 24);
    BitOrDisjoint(b0 as int * 0x100 + b1, b2 as int * 0x100, 16);
    OrByte(b0 as int * 0x1_0000 + b1 as int * 0x100 + b2, b3);
  }

  /** The big-endian bytes of a 16-bit value, most significant first. */
  function Be16(w: word): (s: seq<byte>)
    ensures |s| == 2 && FromBe16(s) == w
  {
    [w / 0x100, w % 0x100]
  }

  /** The big-endian bytes of a 32-bit value, most significant first. */
  function Be32(w: dword): (s: seq<byte>)
    ensures |s| == 4 && FromBe32(s) == w
  {
    var s := Be16(w / 0x1_0000) + Be16(w % 0x1_0000);
    assert s[..2] == Be16(w / 0x1_0000) && s[2..] == Be16(w % 0x1_0000);
    s
  }

  lemma Be16OfFrom(s: seq<byte>)
    requires |s| == 2
    ensures Be16(FromBe16(s)) == s
  {
  }

  lemma Be32OfFrom(s: seq<byte>)
    requires |s| == 4
    ensures Be32(FromBe32(s)) == s
  {
    var hi: int, lo: int := FromBe16(s[..2]), FromBe16(s[2..]);
    assert FromBe32(s) == 0x1_0000 * hi + lo;
    Be32Halves(hi, lo);
    Be16OfFrom(s[..2]);
    Be16OfFrom(s[2..]);
    assert s == s[..2] + s[2..];
  }

  lemma Be32Halves(hi: word, lo: word)
    ensures Be32(0x1_0000 * (hi as int) + lo) == Be16(hi) + Be16(lo)
  {
    var w: int := 0x1_0000 * (hi as int) + lo;
    assert w / 0x1_0000 == hi && w % 0x1_0000 == lo;
  }

  /** The byte that `value >> 8` leaves after the cast is the high byte of the low half. */
  lemma MiddleByte(w: dword)
    ensures w / 0x100 % 0x100 == w % 0x1_0000 / 0x100
    ensures w / 0x100_0000 == w / 0x1_0000 / 0x100
    ensures w % 0x1_0000 % 0x100 == w % 0x100
  {
    var q, r := w / 0x1_0000, w % 0x1_0000;
    assert w / 0x100 == q * 0x100 + r / 0x100;
  }

  lemma SubSlice(s: seq<byte>, a: nat, b: nat, c: nat, d: nat)
    requires a <= b <= |s| && c <= d <= b - a
    ensures s[a..b][c..d] == s[a + c..a + d]
  {
    forall i | 0 <= i < d - c
      ensures s[a..b][c..d][i] == s[a + c..a + d][i]
    {
    }
  }

  /** `to_be16`: store the high byte, then the low byte. */
  method ToBe16(p: array<byte>, off: nat, value: word)
    requires off + 2 <= p.Length
    modifies p
    ensures p[off] == Be16(value)[0] && p[off + 1] == Be16(value)[1]
    ensures forall j | 0 <= j < p.Length && !(off <= j < off + 2) :: p[j] == old(p[j])
  {
    p[off] := value / 0x100;
    p[off + 1] := value % 0x100;
  }

  /** `to_be32`: store the four bytes, each cast to eight bits. */
  method ToBe32(p: array<byte>, off: nat, value: dword)
    requires off + 4 <= p.Length
    modifies p
    ensures p[off..off + 4] == Be32(value)
    ensures forall j | 0 <= j < p.Length && !(off <= j < off + 4) :: p[j] == old(p[j])
  {
    MiddleByte(value);
    p[off] := value / 0x100_0000;
    p[off + 1] := value / 0x1_0000 % 0x100;
    p[off + 2] := value / 0x100 % 0x100;
    p[off + 3] := value % 0x100;
  }
}
