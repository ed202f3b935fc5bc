/**
 * Temperatures in tenths of a degree on the wire and in single precision in memory: every
 * message multiplies by `SCALE` and truncates to encode, and divides by `SCALE` to decode.
 * A cast whose truncated value does not fit the integer type has no defined result, so the
 * encoders require that it fits.
 */
module FixedPoint {
  import opened Bytes
  import opened Binary
  import Tenfold

  /** `static_cast<float>(n) / SCALE` in single precision. */
  function Quotient(n: int): real {
    Tenfold.Quotient(BINARY32, n)
  }

  /** The integer part of `value * SCALE` in single precision, before the cast to the wire type. */
  function Tenths(t: real): int {
    Tenfold.Tenths(BINARY32, t)
  }

  predicate FitsU16(t: real) {
    0 <= Tenths(t) < 0x1_0000
  }

  predicate FitsI16(t: real) {
    -0x8000 <= Tenths(t) < 0x8000
  }

  /** `static_cast<int16_t>` of a 16-bit word. */
  function ToSigned(w: word): int {
    if w < 0x8000 then w else w - 0x1_0000
  }

  /** `static_cast<uint16_t>` of a 16-bit signed value. */
  function ToUnsigned(n: int): (w: word)
    requires -0x8000 <= n < 0x8000
    ensures ToSigned(w) == n
  {
    if n < 0 then n + 0x1_0000 else n
  }

  /** `static_cast<uint16_t>(t * SCALE)` */
  function EncodeU16(t: real): word
    requires FitsU16(t)
  {
    Tenths(t)
  }

  /** `static_cast<uint16_t>(static_cast<int16_t>(t * SCALE))` */
  function EncodeI16(t: real): word
    requires FitsI16(t)
  {
    ToUnsigned(Tenths(t))
  }

  function DecodeU16(w: word): real {
    Quotient(w)
  }

  function DecodeI16(w: word): real {
    Quotient(ToSigned(w))
  }

  // ---------------------------------------------------------------- exactness

  /** What single precision leaves room for. */
  lemma Single()
    ensures IntScale(1, 23) == 0x80_0000 && IntScale(1, 24) == 0x100_0000
  {
    assert IntScale(1, 4) == 16;
    assert IntScale(1, 8) == 0x100;
    assert IntScale(1, 12) == 0x1000;
    assert IntScale(1, 16) == 0x1_0000;
    assert IntScale(1, 20) == 0x10_0000;
  }

  lemma SingleWithin(n: int)
    requires -0x80_0000 < n < 0x80_0000
    ensures Tenfold.Fine(BINARY32) && Tenfold.Within(BINARY32, n)
  {
    Single();
  }

  /** The nearest single to any tenth (up to 2^23 of them) encodes to exactly that tenth. */
  lemma TenthsOfQuotient(n: int)
    requires -0x80_0000 < n < 0x80_0000
    ensures Quotient(n) == Round(BINARY32, n as real / 10.0)
    ensures Tenths(Quotient(n)) == n
  {
    SingleWithin(n);
    Tenfold.QuotientIsNearest(BINARY32, n);
    Tenfold.TenthsOfQuotient(BINARY32, n);
  }

  /** Every unsigned wire word survives decoding and encoding. */
  lemma UnsignedExact(w: word)
    ensures FitsU16(DecodeU16(w)) && EncodeU16(DecodeU16(w)) == w
  {
    TenthsOfQuotient(w);
  }

  /** Every signed wire word survives decoding and encoding, over the full range. */
  lemma SignedExact(w: word)
    ensures FitsI16(DecodeI16(w)) && EncodeI16(DecodeI16(w)) == w
  {
    TenthsOfQuotient(ToSigned(w));
  }

  /**
   * AllConfig and Schedule decode a word as signed but encode it unsigned: re-encoding is
   * defined exactly for the words below 0x8000, and then it restores them.
   */
  lemma MixedExact(w: word)
    ensures FitsU16(DecodeI16(w)) <==> w < 0x8000
    ensures w < 0x8000 ==> EncodeU16(DecodeI16(w)) == w
  {
    TenthsOfQuotient(ToSigned(w));
  }

  lemma WholeDegreesExact(n: int)
    requires -0x1_0000 < n < 0x1_0000
    ensures Quotient(10 * n) == n as real
    ensures Tenths(n as real) == 10 * n
  {
    SingleWithin(10 * n);
    Tenfold.WholeExact(BINARY32, n);
  }

  // ---------------------------------------------------------------- single precision

  /**
   * A single, by numbers: an integer of at most 24 bits times a power of two from 2^-149 on.
   * The exponent range is not bounded above.
   */
  ghost predicate IsSingle(y: real) {
    exists c: int, k: int :: SingleParts(c, k, y)
  }

  predicate SingleParts(c: int, k: int, y: real) {
    -0x100_0000 <= c <= 0x100_0000 && k >= -149 && y == Scale(c as real, k)
  }

  /** An even significand of full length, or an even number of smallest units. */
  ghost predicate IsEvenSingle(y: real) {
    exists c: int, k: int ::
      SingleParts(c, k, y) && c % 2 == 0 && (k > -149 ==> c <= -0x80_0000 || c >= 0x80_0000)
  }

  /** The single nearest to `x`; of two equally near ones the even one. */
  ghost predicate IsNearest(r: real, x: real) {
    && IsSingle(r)
    && forall y | IsSingle(y) ::
         Abs(r - x) <= Abs(y - x) && (y != r && Abs(r - x) == Abs(y - x) ==> IsEvenSingle(r))
  }

  lemma SingleIsValue(y: real)
    ensures IsSingle(y) <==> IsValue(BINARY32, y)
    ensures IsEvenSingle(y) <==> IsEven(BINARY32, y)
  {
    hide Scale;
    Single();
    assert forall c: int, k: int :: SingleParts(c, k, y) <==> Represents(BINARY32, c, k, y);
  }

  /** Rounding is rounding to the nearest single. */
  lemma RoundsToSingle(x: real)
    ensures IsNearest(Round(BINARY32, x), x)
  {
    hide Round, IsValue, IsEven, IsSingle, IsEvenSingle;
    var r := Round(BINARY32, x);
    SingleIsValue(r);
    RoundIsNearest(BINARY32, x, SomeSingle());
    forall y | IsSingle(y)
      ensures Abs(r - x) <= Abs(y - x)
      ensures y != r && Abs(r - x) == Abs(y - x) ==> IsEvenSingle(r)
    {
      SingleIsValue(y);
      RoundIsNearest(BINARY32, x, y);
    }
  }

  function SomeSingle(): (y: real)
    ensures IsValue(BINARY32, y)
  {
    assert Represents(BINARY32, 1, 0, 1.0);
    1.0
  }

  /** What every word decodes to: the single nearest to the tenth, by its sign bit or without. */
  lemma DecodesToNearest(w: word)
    ensures IsNearest(DecodeU16(w), w as real / 10.0)
    ensures IsNearest(DecodeI16(w), (if w < 0x8000 then w as int else w - 0x1_0000) as real / 10.0)
  {
    hide IsNearest, Round, Tenfold.Quotient, Tenths;
    TenthsOfQuotient(w);
    TenthsOfQuotient(ToSigned(w));
    RoundsToSingle(w as real / 10.0);
    RoundsToSingle(ToSigned(w) as real / 10.0);
  }

  /** `n` is the integer part of `p`, towards zero. */
  predicate IsTruncation(n: int, p: real) {
    if p < 0.0 then n <= 0 && n as real - 1.0 < p <= n as real
    else n >= 0 && n as real <= p < n as real + 1.0
  }

  /** What a temperature encodes to: the truncation of the single nearest to its tenfold. */
  lemma EncodesTruncation(t: real) returns (p: real)
    ensures IsNearest(p, 10.0 * t)
    ensures FitsU16(t) ==> IsTruncation(EncodeU16(t), p)
    ensures FitsI16(t) ==>
              var w := EncodeI16(t);
              IsTruncation(if w < 0x8000 then w as int else w - 0x1_0000, p)
    ensures FitsU16(t) <==> -1.0 < p < 65536.0
    ensures FitsI16(t) <==> -32769.0 < p < 32768.0
  {
    hide IsNearest, Round;
    p := Round(BINARY32, 10.0 * t);
    RoundsToSingle(10.0 * t);
  }

  /** The wire word 213 is the single written 21.3f, in both directions. */
  lemma TwentyOnePointThree()
    ensures DecodeU16(213) == 5583667.0 / 262144.0 == DecodeI16(213)
    ensures FitsU16(5583667.0 / 262144.0) && EncodeU16(5583667.0 / 262144.0) == 213
  {
    hide Round, UlpExponent, Scale, Tenfold.Quotient, Tenfold.Tenths;
    TenthsOfQuotient(213);
    UnitOfTwentyOne();
    NineteenFold(21.3);
    NineteenFold(11167334.0);
    RoundInUnits(BINARY32, 21.3, -19, 11167334);
    UnsignedExact(213);
  }

  lemma UnitOfTwentyOne()
    ensures UlpExponent(BINARY32, 21.3) == -19
  {
    assert Pow2(4) == 16.0 && Pow2(5) == 32.0;
    BinadeOf(21.3, 4);
  }

  lemma NineteenFold(x: real)
    ensures Scale(x, 19) == 524288.0 * x
    ensures Scale(x, -19) == x / 524288.0
  {
    EightTimes(x);
    EightTimes(256.0 * x);
    EightTimes(x / 256.0);
    ScaleTwice(x, 8, 8);
    ScaleTwice(x, -8, -8);
    ByEight(65536.0 * x);
    ByEight(x / 65536.0);
    ScaleTwice(x, 16, 3);
    ScaleTwice(x, -16, -3);
  }

  lemma EightTimes(x: real)
    ensures Scale(x, 8) == 256.0 * x && Scale(x, -8) == x / 256.0
  {
    FourTimes(x);
    FourTimes(16.0 * x);
    FourTimes(x / 16.0);
    ScaleTwice(x, 4, 4);
    ScaleTwice(x, -4, -4);
  }

  lemma FourTimes(x: real)
    ensures Scale(x, 4) == 16.0 * x && Scale(x, -4) == x / 16.0
  {
    ByEight(x);
  }

  // ---------------------------------------------------------------- the grid

  /** `t` is the nearest single to one of the tenths from `lo` up to `hi`. */
  ghost predicate OnGrid(t: real, lo: int, hi: int) {
    exists n: int :: lo <= n < hi && t == Quotient(n)
  }

  lemma UnsignedGrid(t: real)
    requires FitsU16(t)
    ensures DecodeU16(EncodeU16(t)) == t <==> OnGrid(t, 0, 0x1_0000)
  {
    if OnGrid(t, 0, 0x1_0000) {
      var n: int :| 0 <= n < 0x1_0000 && t == Quotient(n);
      UnsignedExact(n);
    }
  }

  lemma SignedGrid(t: real)
    requires FitsI16(t)
    ensures DecodeI16(EncodeI16(t)) == t <==> OnGrid(t, -0x8000, 0x8000)
  {
    if OnGrid(t, -0x8000, 0x8000) {
      var n: int :| -0x8000 <= n < 0x8000 && t == Quotient(n);
      SignedExact(ToUnsigned(n));
    }
  }

  lemma MixedGrid(t: real)
    requires FitsU16(t)
    ensures DecodeI16(EncodeU16(t)) == t <==> OnGrid(t, 0, 0x8000)
  {
    MixedExact(EncodeU16(t));
    if OnGrid(t, 0, 0x8000) {
      var n: int :| 0 <= n < 0x8000 && t == Quotient(n);
      MixedExact(n);
    }
  }

  // ---------------------------------------------------------------- resolution

  /**
   * The rounded product and the truncation together lose less than one tenth, on either
   * side of zero.
   */
  lemma Resolution(t: real)
    requires -0x100_0000 < Tenths(t) < 0x100_0000
    ensures Abs(Tenths(t) as real / 10.0 - t) < 0.1
  {
    Single();
    Tenfold.Resolution(BINARY32, t);
  }

  /** Decoding what was encoded loses less than one tenth in all, wherever the cast is defined. */
  lemma DecodedResolution(t: real)
    ensures FitsU16(t) ==> Abs(DecodeU16(EncodeU16(t)) - t) < 0.1
    ensures FitsI16(t) ==> Abs(DecodeI16(EncodeI16(t)) - t) < 0.1
    ensures FitsU16(t) && FitsI16(t) ==> Abs(DecodeI16(EncodeU16(t)) - t) < 0.1
  {
    if FitsU16(t) || FitsI16(t) {
      SingleWithin(Tenths(t));
      Tenfold.DecodedResolution(BINARY32, t);
    }
  }

  /** Encoding keeps the order of temperatures. */
  lemma TenthsMono(s: real, t: real)
    requires s <= t
    ensures Tenths(s) <= Tenths(t)
  {
    Tenfold.TenthsMono(BINARY32, s, t);
  }
}
