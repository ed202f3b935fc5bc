/**
 * Binary floating point: round to nearest, ties to even, as sections 4.3.1 and 5.4.1 of
 * IEEE 754-2019 define it. A finite value is the real number it stands for. A format is its
 * precision and the exponent of its smallest subnormal, so rounding below is gradual; the
 * exponent range is not bounded above.
 */
module Binary {
  datatype Format = Format(precision: nat, minExponent: int)

  /** binary32 (section 3.6): 24 significant bits, smallest subnormal 2^-149. */
  const BINARY32 := Format(24, -149)

  function Abs(x: real): real {
    if x < 0.0 then -x else x
  }

  function Max(a: int, b: int): int {
    if a < b then b else a
  }

  // ---------------------------------------------------------------- powers of two

  /** `x` times two to the power `k`, by doublings or halvings. */
  function Scale(x: real, k: int): real
    decreases if k < 0 then -k else k
  {
    if k == 0 then x else if k > 0 then 2.0 * Scale(x, k - 1) else Scale(x, k + 1) / 2.0
  }

  lemma {:induction false} ScaleDouble(x: real, k: int)
    ensures Scale(x, k + 1) == 2.0 * Scale(x, k) == Scale(2.0 * x, k)
    decreases if k < 0 then -k else k
  {
    if k > 0 {
      ScaleDouble(x, k - 1);
    } else if k < 0 {
      ScaleDouble(x, k + 1);
    }
  }

  lemma {:induction false} ScaleTwice(x: real, a: int, b: int)
    ensures Scale(Scale(x, a), b) == Scale(x, a + b)
    decreases if b < 0 then -b else b
  {
    if b > 0 {
      ScaleTwice(x, a, b - 1);
      ScaleDouble(x, a + b - 1);
    } else if b < 0 {
      ScaleTwice(x, a, b + 1);
      ScaleDouble(x, a + b);
    }
  }

  lemma ScaleBack(x: real, k: int)
    ensures Scale(Scale(x, k), -k) == x
    ensures Scale(Scale(x, -k), k) == x
  {
    ScaleTwice(x, k, -k);
    ScaleTwice(x, -k, k);
  }

  lemma {:induction false} ScaleLinear(x: real, y: real, k: int)
    ensures Scale(x + y, k) == Scale(x, k) + Scale(y, k)
    ensures Scale(10.0 * x, k) == 10.0 * Scale(x, k)
    decreases if k < 0 then -k else k
  {
    if k > 0 {
      ScaleLinear(x, y, k - 1);
    } else if k < 0 {
      ScaleLinear(x, y, k + 1);
    }
  }

  lemma {:induction false} ScaleNegate(x: real, k: int)
    ensures Scale(-x, k) == -Scale(x, k)
    decreases if k < 0 then -k else k
  {
    if k > 0 {
      ScaleNegate(x, k - 1);
    } else if k < 0 {
      ScaleNegate(x, k + 1);
    }
  }

  lemma {:induction false} ScaleMono(x: real, y: real, k: int)
    ensures x <= y <==> Scale(x, k) <= Scale(y, k)
    decreases if k < 0 then -k else k
  {
    if k > 0 {
      ScaleMono(x, y, k - 1);
    } else if k < 0 {
      ScaleMono(x, y, k + 1);
    }
  }

  lemma {:induction false} ScaleZero(k: int)
    ensures Scale(0.0, k) == 0.0
    decreases if k < 0 then -k else k
  {
    if k > 0 {
      ScaleZero(k - 1);
    } else if k < 0 {
      ScaleZero(k + 1);
    }
  }

  function Pow2(e: int): real {
    Scale(1.0, e)
  }

  lemma Pow2Positive(e: int)
    ensures Pow2(e) > 0.0
  {
    ScaleMono(1.0, 0.0, e);
    ScaleZero(e);
  }

  lemma {:induction false} Pow2Mono(a: int, b: int)
    requires a <= b
    ensures Pow2(a) <= Pow2(b)
    decreases b - a
  {
    if a < b {
      Pow2Mono(a, b - 1);
      ScaleDouble(1.0, b - 1);
      Pow2Positive(b - 1);
    }
  }

  /** A smaller power of two has the smaller exponent. */
  lemma Pow2Below(a: int, b: int)
    requires Pow2(a) < Pow2(b)
    ensures a < b
  {
    if b <= a {
      Pow2Mono(b, a);
    }
  }

  /** `m` times two to the power `n`, as an integer. */
  function IntScale(m: int, n: nat): (r: int)
    ensures r as real == Scale(m as real, n)
    ensures n > 0 ==> r % 2 == 0
    ensures m >= 0 ==> r >= m
  {
    if n == 0 then m else 2 * IntScale(m, n - 1)
  }

  // ---------------------------------------------------------------- exponents

  /** The exponent of the binade that holds `x`. */
  function Exponent(x: real): (e: int)
    requires x > 0.0
    ensures Pow2(e) <= x < Pow2(e + 1)
    decreases if x >= 2.0 then x.Floor else if x < 1.0 then (1.0 / x).Floor else 0
  {
    if x >= 2.0 then
      var e := Exponent(x / 2.0);
      ScaleDouble(1.0, e);
      ScaleDouble(1.0, e + 1);
      e + 1
    else if x < 1.0 then
      HalvingInverse(x);
      var e := Exponent(2.0 * x);
      ScaleDouble(1.0, e - 1);
      ScaleDouble(1.0, e);
      e - 1
    else
      0
  }

  lemma MulMono(x: real, y: real, z: real)
    requires x <= y && z >= 0.0
    ensures x * z <= y * z
  {
  }

  lemma HalvingInverse(x: real)
    requires 0.0 < x < 1.0
    ensures 2.0 * x < 1.0 ==> 0 <= (1.0 / (2.0 * x)).Floor < (1.0 / x).Floor
    ensures (1.0 / x).Floor >= 1
  {
    var y := 1.0 / x;
    assert y * x == 1.0;
    if y <= 1.0 {
      MulMono(y, 1.0, x);
    }
    if 2.0 * x < 1.0 {
      assert 1.0 / (2.0 * x) == y / 2.0;
      if y <= 2.0 {
        MulMono(y, 2.0, x);
      }
    }
  }

  lemma ExponentAtLeast(x: real, e: int)
    requires x > 0.0
    ensures Pow2(e) <= x <==> e <= Exponent(x)
  {
    if Pow2(e) <= x {
      Pow2Below(e, Exponent(x) + 1);
    }
    if e <= Exponent(x) {
      Pow2Mono(e, Exponent(x));
    }
  }

  // ---------------------------------------------------------------- rounding

  /** The nearest integer; a tie goes to the even one. */
  function RoundHalfEven(q: real): (n: int)
    ensures Abs(q - n as real) <= 0.5
    ensures Abs(q - n as real) == 0.5 ==> n % 2 == 0
  {
    var f := q.Floor;
    var d := q - f as real;
    if d < 0.5 then f
    else if d > 0.5 then f + 1
    else if f % 2 == 0 then f else f + 1
  }

  /** An integer within half a unit is the rounding, provided a tie meets an even integer. */
  lemma RoundHalfEvenUnique(q: real, n: int)
    requires Abs(q - n as real) <= 0.5
    requires Abs(q - n as real) == 0.5 ==> n % 2 == 0
    ensures RoundHalfEven(q) == n
  {
  }

  lemma RoundHalfEvenMono(q: real, r: real)
    requires q <= r
    ensures RoundHalfEven(q) <= RoundHalfEven(r)
  {
  }

  /** The exponent of the unit in the last place of `x`. */
  function UlpExponent(f: Format, x: real): int {
    if x == 0.0 then f.minExponent
    else Max(Exponent(Abs(x)) - f.precision + 1, f.minExponent)
  }

  /** The value of the format nearest to `x`, ties to even. */
  function Round(f: Format, x: real): real {
    var k := UlpExponent(f, x);
    Scale(RoundHalfEven(Scale(x, -k)) as real, k)
  }

  /** The rounding in units of the last place. */
  lemma RoundInUnits(f: Format, x: real, k: int, n: int)
    requires k == UlpExponent(f, x)
    requires Abs(Scale(x, -k) - n as real) <= 0.5
    requires Abs(Scale(x, -k) - n as real) == 0.5 ==> n % 2 == 0
    ensures Round(f, x) == Scale(n as real, k)
  {
    RoundHalfEvenUnique(Scale(x, -k), n);
  }

  /** A multiple of the unit in the last place is not changed by rounding. */
  lemma RoundOfMultiple(f: Format, x: real, n: int)
    requires x == Scale(n as real, UlpExponent(f, x))
    ensures Round(f, x) == x
  {
    hide RoundHalfEven;
    var k := UlpExponent(f, x);
    ScaleBack(n as real, k);
    RoundInUnits(f, x, k, n);
  }

  lemma UlpNegate(f: Format, x: real)
    ensures UlpExponent(f, -x) == UlpExponent(f, x)
  {
    assert Abs(-x) == Abs(x);
  }

  /** Rounding is odd: the sign does not matter. */
  lemma RoundNegate(f: Format, x: real)
    ensures Round(f, -x) == -Round(f, x)
  {
    hide RoundHalfEven, UlpExponent, Scale;
    var k := UlpExponent(f, x);
    var n := RoundHalfEven(Scale(x, -k));
    UlpNegate(f, x);
    ScaleNegate(x, -k);
    assert (-n) as real == -(n as real);
    RoundInUnits(f, -x, k, -n);
    ScaleNegate(n as real, k);
  }

  lemma RoundOpposite(f: Format, x: real, y: real)
    requires y == -x
    ensures Round(f, y) == -Round(f, x)
  {
    hide Round;
    RoundNegate(f, x);
  }

  lemma TenthOpposite(f: Format, x: real, y: real)
    requires y == -x
    ensures Round(f, y / 10.0) == -Round(f, x / 10.0)
  {
    hide Round;
    RoundOpposite(f, x / 10.0, y / 10.0);
  }

  lemma RoundOfZero(f: Format)
    ensures Round(f, 0.0) == 0.0
  {
    hide RoundHalfEven;
    ScaleZero(f.minExponent);
    RoundOfMultiple(f, 0.0, 0);
  }

  /** Integers that fit the precision are exact. */
  lemma IntegerExact(f: Format, m: int)
    requires f.precision >= 1 && f.minExponent <= 0
    requires -IntScale(1, f.precision) <= m <= IntScale(1, f.precision)
    ensures Round(f, m as real) == m as real
    decreases m < 0
  {
    hide RoundHalfEven;
    if m < 0 {
      RoundNegate(f, m as real);
      IntegerExact(f, -m);
      assert (-m) as real == -(m as real);
    } else if m == 0 {
      RoundOfZero(f);
    } else {
      var k := UlpExponent(f, m as real);
      if k <= 0 {
        ScaleBack(m as real, k);
        RoundOfMultiple(f, m as real, IntScale(m, -k));
      } else {
        // Only 2^precision itself reaches a unit above one.
        var e := Exponent(m as real);
        ScaleDouble(1.0, f.precision);
        Pow2Positive(f.precision);
        Pow2Below(e, f.precision + 1);
        assert e == f.precision && k == 1;
        assert m == IntScale(1, f.precision);
        ScaleTwice(1.0, f.precision - 1, 1);
        RoundOfMultiple(f, m as real, IntScale(1, f.precision - 1));
      }
    }
  }

  // ---------------------------------------------------------------- nearest values

  /** The integers that fit the precision, times a power of two from the smallest on. */
  ghost predicate IsValue(f: Format, y: real) {
    exists c: int, k: int :: Represents(f, c, k, y)
  }

  predicate Represents(f: Format, c: int, k: int, y: real) {
    IsSignificand(f, c) && k >= f.minExponent && y == Scale(c as real, k)
  }

  predicate IsSignificand(f: Format, c: int) {
    -IntScale(1, f.precision) <= c <= IntScale(1, f.precision)
  }

  /** A value whose significand, as long as it can be made, is even. */
  ghost predicate IsEven(f: Format, y: real)
    requires f.precision >= 1
  {
    exists c: int, k: int ::
      && Represents(f, c, k, y)
      && c % 2 == 0
      && (k > f.minExponent ==> c <= -IntScale(1, f.precision - 1) || c >= IntScale(1, f.precision - 1))
  }

  /** A multiple of a larger unit is a multiple of a smaller one. */
  lemma CommonUnit(c: int, j: int, k: int)
    requires k <= j
    ensures Scale(IntScale(c, j - k) as real, k) == Scale(c as real, j)
  {
    ScaleTwice(c as real, j - k, k);
  }

  /** How far a multiple of a unit is from `x`, in that unit. */
  lemma {:induction false} ScaleAbs(x: real, k: int)
    ensures Abs(Scale(x, k)) == Scale(Abs(x), k)
  {
    ScaleNegate(x, k);
    ScaleMono(0.0, x, k);
    ScaleZero(k);
  }

  lemma DistanceInUnits(x: real, n: int, k: int)
    ensures Abs(Scale(n as real, k) - x) == Scale(Abs(n as real - Scale(x, -k)), k)
  {
    var q := Scale(x, -k);
    ScaleBack(x, k);
    ScaleLinear(n as real, -q, k);
    ScaleNegate(q, k);
    ScaleAbs(n as real - q, k);
  }

  lemma NearestInteger(q: real, m: int)
    ensures Abs(RoundHalfEven(q) as real - q) <= Abs(m as real - q)
    ensures m != RoundHalfEven(q) && Abs(RoundHalfEven(q) as real - q) == Abs(m as real - q) ==>
              RoundHalfEven(q) % 2 == 0
  {
    var n := RoundHalfEven(q);
    if m < n {
      assert m as real <= (n - 1) as real;
    } else if m > n {
      assert m as real >= (n + 1) as real;
    }
  }

  /** No multiple of the unit of `x` is nearer than the rounding; one as near meets an even one. */
  lemma NearestMultiple(f: Format, x: real, m: int)
    ensures var k := UlpExponent(f, x);
            var r, y := Round(f, x), Scale(m as real, k);
            && Abs(r - x) <= Abs(y - x)
            && (y != r && Abs(r - x) == Abs(y - x) ==> RoundHalfEven(Scale(x, -k)) % 2 == 0)
  {
    hide RoundHalfEven, UlpExponent;
    var k := UlpExponent(f, x);
    var q := Scale(x, -k);
    var n := RoundHalfEven(q);
    NearestInteger(q, m);
    DistanceInUnits(x, m, k);
    DistanceInUnits(x, n, k);
    ScaleMono(Abs(n as real - q), Abs(m as real - q), k);
    ScaleMono(Abs(m as real - q), Abs(n as real - q), k);
  }

  /** The power of two that starts the binade of `x`, with the sign of `x`. */
  function BinadeStart(f: Format, x: real): int
    requires f.precision >= 1
  {
    if x < 0.0 then -IntScale(1, f.precision - 1) else IntScale(1, f.precision - 1)
  }

  /** Values with a smaller unit than `x` do not reach into its binade. */
  lemma SmallerUnit(f: Format, x: real, c: int, j: int)
    requires f.precision >= 1
    requires IsSignificand(f, c) && f.minExponent <= j < UlpExponent(f, x)
    ensures var b, y := Scale(BinadeStart(f, x) as real, UlpExponent(f, x)), Scale(c as real, j);
            Abs(b - x) < Abs(y - x) || y == b
  {
    hide Exponent;
    var k := UlpExponent(f, x);
    var e := Exponent(Abs(x));
    assert k == e - f.precision + 1;
    PowerIsMultiple(e, k);
    ScaleNegate(IntScale(1, f.precision - 1) as real, k);
    SmallerValue(f, c, j, e);
  }

  lemma SmallerValue(f: Format, c: int, j: int, e: int)
    requires IsSignificand(f, c) && j + f.precision <= e
    ensures Abs(Scale(c as real, j)) <= Pow2(e)
  {
    ScaleAbs(c as real, j);
    ScaleMono(Abs(c as real), IntScale(1, f.precision) as real, j);
    ScaleTwice(1.0, f.precision, j);
    Pow2Mono(j + f.precision, e);
  }

  /**
   * Rounding gives the nearest value there is; where another is as near, its significand is
   * the even one.
   */
  lemma RoundIsNearest(f: Format, x: real, y: real)
    requires f.precision >= 1 && IsValue(f, y)
    ensures IsValue(f, Round(f, x))
    ensures Abs(Round(f, x) - x) <= Abs(y - x)
    ensures y != Round(f, x) && Abs(Round(f, x) - x) == Abs(y - x) ==> IsEven(f, Round(f, x))
  {
    hide RoundHalfEven, UlpExponent;
    var c: int, j: int :| Represents(f, c, j, y);
    var k := UlpExponent(f, x);
    var n := RoundHalfEven(Scale(x, -k));
    RoundSignificand(f, x);
    assert Represents(f, n, k, Round(f, x));
    var m;
    if j >= k {
      m := IntScale(c, j - k);
      CommonUnit(c, j, k);
    } else {
      m := BinadeStart(f, x);
      SmallerUnit(f, x, c, j);
    }
    NearestMultiple(f, x, m);
  }

  /** The rounded significand fits the precision, and above the subnormals it fills it. */
  lemma RoundSignificand(f: Format, x: real)
    requires f.precision >= 1
    ensures var k := UlpExponent(f, x);
            var n := RoundHalfEven(Scale(x, -k));
            && IsSignificand(f, n) && k >= f.minExponent
            && Round(f, x) == Scale(n as real, k)
            && (k > f.minExponent ==> n <= -IntScale(1, f.precision - 1) || n >= IntScale(1, f.precision - 1))
  {
    hide RoundHalfEven, Exponent, Scale;
    var k := UlpExponent(f, x);
    if x == 0.0 {
      ScaleZero(-k);
      RoundHalfEvenUnique(0.0, 0);
    } else if x > 0.0 {
      SignificandRange(f, x);
    } else {
      UlpNegate(f, x);
      ScaleNegate(x, -k);
      SignificandRange(f, -x);
      RoundHalfEvenOpposite(Scale(x, -k));
    }
  }

  lemma RoundHalfEvenOpposite(q: real)
    ensures RoundHalfEven(-q) == -RoundHalfEven(q)
  {
    RoundHalfEvenUnique(-q, -RoundHalfEven(q));
  }

  lemma SignificandRange(f: Format, x: real)
    requires f.precision >= 1 && x > 0.0
    ensures var k := UlpExponent(f, x);
            var n := RoundHalfEven(Scale(x, -k));
            && 0 <= n <= IntScale(1, f.precision)
            && (k > f.minExponent ==> n >= IntScale(1, f.precision - 1))
  {
    hide RoundHalfEven, Exponent;
    var k, e := UlpExponent(f, x), Exponent(x);
    var full := IntScale(1, f.precision);
    Pow2Mono(e + 1, k + f.precision);
    ScaleMono(x, Pow2(k + f.precision), -k);
    ScaleTwice(1.0, k + f.precision, -k);
    RoundHalfEvenMono(Scale(x, -k), full as real);
    RoundHalfEvenUnique(full as real, full);
    ScaleMono(0.0, x, -k);
    ScaleZero(-k);
    RoundHalfEvenMono(0.0, Scale(x, -k));
    RoundHalfEvenUnique(0.0, 0);
    if k > f.minExponent {
      SignificandFull(f, x);
    }
  }

  // ---------------------------------------------------------------- monotonicity

  lemma UlpMono(f: Format, x: real, y: real)
    requires 0.0 <= x <= y
    ensures UlpExponent(f, x) <= UlpExponent(f, y)
  {
    if x > 0.0 {
      ExponentAtLeast(y, Exponent(x));
    }
  }

  /** Within one binade: what is below (above) a multiple of the unit stays below (above). */
  lemma RoundAgainstMultiple(f: Format, x: real, n: int)
    ensures x <= Scale(n as real, UlpExponent(f, x)) ==> Round(f, x) <= Scale(n as real, UlpExponent(f, x))
    ensures x >= Scale(n as real, UlpExponent(f, x)) ==> Round(f, x) >= Scale(n as real, UlpExponent(f, x))
  {
    var k := UlpExponent(f, x);
    var q, b := Scale(x, -k), Scale(n as real, k);
    ScaleBack(n as real, k);
    assert RoundHalfEven(n as real) == n;
    if x <= b {
      ScaleMono(x, b, -k);
      RoundHalfEvenMono(q, n as real);
      ScaleMono(RoundHalfEven(q) as real, n as real, k);
    }
    if x >= b {
      ScaleMono(b, x, -k);
      RoundHalfEvenMono(n as real, q);
      ScaleMono(n as real, RoundHalfEven(q) as real, k);
    }
  }

  lemma RoundNonNegative(f: Format, x: real)
    requires 0.0 <= x
    ensures 0.0 <= Round(f, x)
  {
    ScaleZero(UlpExponent(f, x));
    RoundAgainstMultiple(f, x, 0);
  }

  lemma RoundMonoPositive(f: Format, x: real, y: real)
    requires f.precision >= 1
    requires 0.0 <= x <= y
    ensures Round(f, x) <= Round(f, y)
  {
    hide Round;
    UlpMono(f, x, y);
    if UlpExponent(f, x) == UlpExponent(f, y) {
      RoundMonoSameUnit(f, x, y);
    } else {
      RoundMonoAcross(f, x, y);
    }
  }

  lemma RoundMonoSameUnit(f: Format, x: real, y: real)
    requires x <= y && UlpExponent(f, x) == UlpExponent(f, y)
    ensures Round(f, x) <= Round(f, y)
  {
    hide RoundHalfEven;
    var k := UlpExponent(f, x);
    var p, q := Scale(x, -k), Scale(y, -k);
    ScaleMono(x, y, -k);
    RoundHalfEvenMono(p, q);
    ScaleMono(RoundHalfEven(p) as real, RoundHalfEven(q) as real, k);
  }

  /** The power of two that starts y's binade separates the two values. */
  lemma RoundMonoAcross(f: Format, x: real, y: real)
    requires f.precision >= 1
    requires 0.0 <= x <= y && UlpExponent(f, x) < UlpExponent(f, y)
    ensures Round(f, x) <= Round(f, y)
  {
    hide Round;
    var j, k, e := UlpExponent(f, x), UlpExponent(f, y), Exponent(y);
    assert k == e - f.precision + 1;
    assert x <= Pow2(e) <= y by {
      if x > 0.0 {
        ExponentAtLeast(x, e);
      } else {
        Pow2Positive(e);
      }
    }
    PowerIsMultiple(e, j);
    PowerIsMultiple(e, k);
    RoundAgainstMultiple(f, x, IntScale(1, e - j));
    RoundAgainstMultiple(f, y, IntScale(1, e - k));
  }

  lemma PowerIsMultiple(e: int, k: int)
    requires k <= e
    ensures Scale(IntScale(1, e - k) as real, k) == Pow2(e)
  {
    ScaleTwice(1.0, e - k, k);
  }

  /** Rounding never reverses the order of two values. */
  lemma RoundMono(f: Format, x: real, y: real)
    requires f.precision >= 1
    requires x <= y
    ensures Round(f, x) <= Round(f, y)
  {
    hide Round;
    if 0.0 <= x {
      RoundMonoPositive(f, x, y);
    } else if y <= 0.0 {
      RoundMonoPositive(f, -y, -x);
      RoundNegate(f, x);
      RoundNegate(f, y);
    } else {
      RoundNonNegative(f, y);
      RoundNonNegative(f, -x);
      RoundNegate(f, x);
    }
  }

  /** The integer part of a rounded value misses the exact value by less than one. */
  lemma RoundWithinOne(f: Format, x: real, n: int)
    requires f.precision >= 1 && f.minExponent <= 0
    requires 0.0 <= x && 0 <= n < IntScale(1, f.precision)
    requires n as real <= Round(f, x) < (n + 1) as real
    ensures (n - 1) as real < x < (n + 1) as real
  {
    hide Round;
    IntegerExact(f, n + 1);
    if (n + 1) as real <= x {
      RoundMono(f, (n + 1) as real, x);
    }
    if n > 0 && x <= (n - 1) as real {
      IntegerExact(f, n - 1);
      RoundMono(f, x, (n - 1) as real);
    }
  }

  // ---------------------------------------------------------------- tenths

  /** A fifth is never a tie, and rounds by at most two fifths. */
  lemma RoundFifth(n: int)
    ensures -2 <= 5 * RoundHalfEven(n as real / 5.0) - n <= 2
  {
    var r := RoundHalfEven(n as real / 5.0);
    var d := 5 * r - n;
    assert d as real == 5.0 * (r as real - n as real / 5.0);
    assert -2.5 <= d as real <= 2.5;
  }

  /** Where a tenth of `m` lies: at least four binades below the precision. */
  lemma TenthExponent(f: Format, m: int)
    requires f.precision >= 1 && f.minExponent <= -3 - f.precision
    requires 1 <= m < IntScale(1, f.precision - 1)
    ensures var e := Exponent(m as real / 10.0);
            UlpExponent(f, m as real / 10.0) == e - f.precision + 1 <= -4
  {
    var x := m as real / 10.0;
    var e := Exponent(x);
    assert Pow2(-4) == 1.0 / 16.0;
    ExponentAtLeast(x, -4);
    ScaleTwice(1.0, f.precision - 4, 3);
    var b := Pow2(f.precision - 4);
    assert Scale(b, 3) == 8.0 * b;
    assert Pow2(f.precision - 1) == 8.0 * b;
    ExponentAtLeast(x, f.precision - 4);
    assert 10.0 * x < 8.0 * b;
  }

  /**
   * The rounded tenth of `m` is `r` units of size 2^k; in those units ten times it misses
   * `m` by at most four, and `r` fills the precision.
   */
  lemma TenthInUnits(f: Format, m: int) returns (r: int, n: int)
    requires f.precision >= 1 && f.minExponent <= -3 - f.precision
    requires 1 <= m < IntScale(1, f.precision - 1)
    ensures var k := UlpExponent(f, m as real / 10.0);
            && k <= -4
            && Round(f, m as real / 10.0) == Scale(r as real, k)
            && m as real == Scale(n as real, k)
            && -4 <= 10 * r - n <= 4
            && r >= IntScale(1, f.precision - 1)
  {
    hide RoundHalfEven;
    var x := m as real / 10.0;
    var k := UlpExponent(f, x);
    TenthExponent(f, m);
    var half := IntScale(m, -k - 1);
    r, n := RoundHalfEven(half as real / 5.0), 2 * half;
    TenthInHalves(m, -k);
    ScaleBack(m as real, k);
    RoundFifth(half);
    SignificandFull(f, x);
  }

  /** A tenth of a multiple of two units is a whole number of fifths. */
  lemma TenthInHalves(m: int, n: nat)
    requires n > 0
    ensures IntScale(m, n) == 2 * IntScale(m, n - 1)
    ensures Scale(m as real / 10.0, n) == IntScale(m, n - 1) as real / 5.0
  {
    ScaleLinear(m as real / 10.0, 0.0, n);
  }

  /** Above the subnormals the rounded significand fills the precision. */
  lemma SignificandFull(f: Format, x: real)
    requires f.precision >= 1 && x > 0.0
    requires UlpExponent(f, x) == Exponent(x) - f.precision + 1
    ensures RoundHalfEven(Scale(x, -UlpExponent(f, x))) >= IntScale(1, f.precision - 1)
  {
    hide RoundHalfEven;
    var k, e := UlpExponent(f, x), Exponent(x);
    ScaleMono(Pow2(e), x, -k);
    ScaleTwice(1.0, e, -k);
    var full := IntScale(1, f.precision - 1);
    RoundHalfEvenMono(full as real, Scale(x, -k));
    RoundHalfEvenUnique(full as real, full);
  }

  /** The unit of ten times the rounded tenth: at least eight times finer units, still below one. */
  lemma ProductUnit(f: Format, m: int, r: int, n: int, k: int)
    requires f.precision >= 1 && f.minExponent <= -3 - f.precision
    requires 1 <= m < IntScale(1, f.precision - 1)
    requires k <= -4 && k >= f.minExponent
    requires m as real == Scale(n as real, k)
    requires -4 <= 10 * r - n <= 4
    requires r >= IntScale(1, f.precision - 1)
    ensures k + 3 <= UlpExponent(f, Scale((10 * r) as real, k)) <= -1
  {
    var p := f.precision;
    var y := Scale((10 * r) as real, k);
    // From below: ten r is at least 2^(p+2).
    ScaleTwice(1.0, p - 1, 3);
    assert Scale(Pow2(p - 1), 3) == 8.0 * Pow2(p - 1);
    ScaleTwice(1.0, p + 2, k);
    ScaleMono(Pow2(p + 2), (10 * r) as real, k);
    Pow2Positive(p + 2 + k);
    ExponentAtLeast(y, p + 2 + k);
    // From above: y misses m by less than one, and m is at most 2^(p-1) - 1.
    ScaleLinear(n as real, 4.0, k);
    ScaleMono((10 * r) as real, n as real + 4.0, k);
    ScaleTwice(1.0, 2, k);
    Pow2Mono(k + 2, -2);
    assert Pow2(-2) == 0.25;
    ExponentAtLeast(y, p - 1);
  }

  /**
   * Ten times the rounded tenth rounds back to the integer. The only possible tie falls on
   * an even significand.
   */
  lemma MultiplyBackPositive(f: Format, m: int)
    requires f.precision >= 1 && f.minExponent <= -3 - f.precision
    requires 1 <= m < IntScale(1, f.precision - 1)
    ensures Round(f, 10.0 * Round(f, m as real / 10.0)) == m as real
  {
    hide Round;
    var k := UlpExponent(f, m as real / 10.0);
    var r, n := TenthInUnits(f, m);
    ProductUnit(f, m, r, n, k);
    ScaleLinear(r as real, 0.0, k);
    assert 10.0 * (r as real) == (10 * r) as real;
    RoundNearMultiple(f, m, 10 * r, n, k);
  }

  /** In units of y the product `a` and the integer differ by at most a half, and it is even. */
  lemma RoundNearMultiple(f: Format, m: int, a: int, n: int, k: int)
    requires m as real == Scale(n as real, k)
    requires -4 <= a - n <= 4
    requires k + 3 <= UlpExponent(f, Scale(a as real, k)) <= -1
    ensures Round(f, Scale(a as real, k)) == m as real
  {
    hide RoundHalfEven;
    var j := UlpExponent(f, Scale(a as real, k));
    ScaleTwice(a as real, k, -j);
    ScaleTwice(n as real, k, -j);
    HalfUnit(a, n, k - j);
    RoundInUnits(f, Scale(a as real, k), j, IntScale(m, -j));
    ScaleBack(m as real, -j);
  }

  lemma HalfUnit(a: int, b: int, d: int)
    requires -4 <= a - b <= 4
    requires d <= -3
    ensures Abs(Scale(a as real, d) - Scale(b as real, d)) <= 0.5
  {
    WithinFour(a, b, d);
    Pow2Mono(d + 2, -1);
    assert Pow2(-1) == 0.5;
  }

  /**
   * Fixed-point exactness: every integer below half the precision survives division by ten
   * and multiplication by ten, each rounded, whatever the precision.
   */
  lemma MultiplyBack(f: Format, m: int)
    requires f.precision >= 1 && f.minExponent <= -3 - f.precision
    requires -IntScale(1, f.precision - 1) < m < IntScale(1, f.precision - 1)
    ensures Round(f, 10.0 * Round(f, m as real / 10.0)) == m as real
  {
    hide Round;
    if m > 0 {
      MultiplyBackPositive(f, m);
    } else if m < 0 {
      MultiplyBackPositive(f, -m);
      var x, y := Round(f, (-m) as real / 10.0), Round(f, m as real / 10.0);
      TenthOpposite(f, (-m) as real, m as real);
      RoundOpposite(f, 10.0 * x, 10.0 * y);
    } else {
      RoundOfZero(f);
    }
  }

  // ---------------------------------------------------------------- truncated products

  /** What rounds to less than an even multiple of its unit lies more than half a unit below it. */
  lemma BelowEven(z: real, n: int)
    requires n % 2 == 0 && RoundHalfEven(z) < n
    ensures z < n as real - 0.5
  {
    var r := RoundHalfEven(z);
    assert r as real <= (n - 1) as real;
  }

  /** Where the unit of `x` is a half or less, what rounds below an integer lies clear below it. */
  lemma RoundsBelowInteger(f: Format, x: real, n: int)
    requires UlpExponent(f, x) <= -1
    requires Round(f, x) < n as real
    ensures x < n as real - Pow2(UlpExponent(f, x) - 1)
  {
    hide RoundHalfEven;
    var j := UlpExponent(f, x);
    var z, target := Scale(x, -j), IntScale(n, -j);
    ScaleBack(n as real, j);
    ScaleMono(target as real, RoundHalfEven(z) as real, j);
    BelowEven(z, target);
    ScaleBelowHalf(x, n as real, j);
  }

  lemma ScaleBelowHalf(x: real, y: real, j: int)
    requires Scale(x, -j) < Scale(y, -j) - 0.5
    ensures x < y - Pow2(j - 1)
  {
    ScaleLinear(y - Pow2(j - 1), Pow2(j - 1), -j);
    ScaleTwice(1.0, j - 1, -j);
    assert Pow2(-1) == 0.5;
    ScaleMono(y - Pow2(j - 1), x, -j);
  }

  /** What rounds to an integer or more lies at most half a unit below it. */
  lemma RoundsAboveInteger(f: Format, x: real, n: int)
    requires UlpExponent(f, x) <= -1
    requires Round(f, x) >= n as real
    ensures x >= n as real - 0.25
  {
    hide RoundHalfEven;
    var j := UlpExponent(f, x);
    var z, target := Scale(x, -j), IntScale(n, -j);
    ScaleBack(n as real, j);
    ScaleMono(target as real, RoundHalfEven(z) as real, j);
    assert z >= target as real - 0.5;
    ScaleAboveHalf(x, n as real, j);
    Pow2Mono(j - 1, -2);
    assert Pow2(-2) == 0.25;
  }

  lemma ScaleAboveHalf(x: real, y: real, j: int)
    requires Scale(x, -j) >= Scale(y, -j) - 0.5
    ensures x >= y - Pow2(j - 1)
  {
    ScaleLinear(y - Pow2(j - 1), Pow2(j - 1), -j);
    ScaleTwice(1.0, j - 1, -j);
    assert Pow2(-1) == 0.5;
    ScaleMono(y - Pow2(j - 1), x, -j);
  }

  /** Below the bound the unit is a half or less. */
  lemma UnitBelowBound(f: Format, x: real)
    requires f.precision >= 1 && f.minExponent <= -1
    requires 0.0 < x < IntScale(1, f.precision - 1) as real
    ensures UlpExponent(f, x) <= -1
  {
    ExponentAtLeast(x, f.precision - 1);
  }

  /** The unit of `x` is at least eight times that of a tenth of any smaller integer. */
  lemma UnitOfTenth(f: Format, x: real, m: int)
    requires f.precision >= 1 && f.minExponent <= -3 - f.precision
    requires 1 <= m < IntScale(1, f.precision - 1) && m as real <= x
    ensures UlpExponent(f, m as real / 10.0) + 3 <= UlpExponent(f, x)
  {
    TenthExponent(f, m);
    var e := Exponent(m as real / 10.0);
    ScaleTwice(1.0, e, 3);
    ByEight(Pow2(e));
    ExponentAtLeast(x, e + 3);
  }

  /**
   * A value whose rounding truncates to `m` lies within one of ten times the rounded tenth of
   * `m`: neither rounding loses what the truncation leaves.
   */
  lemma TruncatedResolution(f: Format, x: real, m: int)
    requires f.precision >= 1 && f.minExponent <= -3 - f.precision
    requires 0.0 <= x && 0 <= m < IntScale(1, f.precision - 1)
    requires m as real <= Round(f, x) < (m + 1) as real
    ensures -1.0 < 10.0 * Round(f, m as real / 10.0) - x < 1.0
  {
    hide Round;
    IntegerExact(f, m + 1);
    if (m + 1) as real <= x {
      RoundMono(f, (m + 1) as real, x);
    }
    if m == 0 {
      RoundOfZero(f);
    } else {
      TruncatedPositive(f, x, m);
    }
  }

  lemma TruncatedPositive(f: Format, x: real, m: int)
    requires f.precision >= 1 && f.minExponent <= -3 - f.precision
    requires 0.0 <= x < (m + 1) as real && 1 <= m < IntScale(1, f.precision - 1)
    requires m as real <= Round(f, x) < (m + 1) as real
    ensures -1.0 < 10.0 * Round(f, m as real / 10.0) - x < 1.0
  {
    hide Round;
    var k := UlpExponent(f, m as real / 10.0);
    RoundOfZero(f);
    UnitBelowBound(f, x);
    RoundsAboveInteger(f, x, m);
    RoundsBelowInteger(f, x, m + 1);
    TenthWithin(f, m);
    Pow2Mono(k + 2, -2);
    assert Pow2(-2) == 0.25;
    if m as real <= x {
      UnitOfTenth(f, x, m);
      Pow2Mono(k + 2, UlpExponent(f, x) - 1);
    }
  }

  /** Ten times the rounded tenth misses the integer by at most four of the tenth's units. */
  lemma TenthWithin(f: Format, m: int)
    requires f.precision >= 1 && f.minExponent <= -3 - f.precision
    requires 1 <= m < IntScale(1, f.precision - 1)
    ensures var k := UlpExponent(f, m as real / 10.0);
            && k <= -4
            && -Pow2(k + 2) <= 10.0 * Round(f, m as real / 10.0) - m as real <= Pow2(k + 2)
  {
    hide Round;
    var k := UlpExponent(f, m as real / 10.0);
    var r, n := TenthInUnits(f, m);
    ScaleLinear(r as real, 0.0, k);
    WithinFour(10 * r, n, k);
  }

  /** Integers at most four apart, in units of 2^d. */
  lemma WithinFour(a: int, b: int, d: int)
    requires -4 <= a - b <= 4
    ensures Abs(Scale(a as real, d) - Scale(b as real, d)) <= Pow2(d + 2)
  {
    ScaleTwice(1.0, 2, d);
    assert Pow2(2) == 4.0;
    ScaleLinear(b as real, 4.0, d);
    ScaleLinear(a as real, 4.0, d);
    ScaleMono(a as real, b as real + 4.0, d);
    ScaleMono(b as real, a as real + 4.0, d);
  }

  /**
   * The bound on the integer matters in every precision from four bits on: this one, below
   * twice the bound, comes back smaller by one.
   */
  lemma MultiplyBackFails(f: Format) returns (m: int)
    requires f.precision >= 4 && f.minExponent <= -3
    ensures IntScale(1, f.precision - 1) <= m < IntScale(1, f.precision)
    ensures Round(f, 10.0 * Round(f, m as real / 10.0)) == (m - 1) as real
  {
    hide Round;
    var b := IntScale(1, f.precision - 4);
    m := 10 * b + 3;
    FourBinades(f.precision);
    assert m as real / 10.0 == b as real + 0.3;
    RoundToEighths(f, b);
    assert 10.0 * (b as real + 0.25) == (2 * (5 * b + 1)) as real + 0.5;
    TieUnit(f, b);
    RoundTieDown(f, 5 * b + 1);
  }

  lemma RoundToEighths(f: Format, b: int)
    requires f.precision >= 4 && f.minExponent <= -3 && b == IntScale(1, f.precision - 4)
    ensures Round(f, b as real + 0.3) == b as real + 0.25
  {
    hide RoundHalfEven;
    var x := b as real + 0.3;
    FourBinades(f.precision);
    BinadeOf(x, f.precision - 4);
    ByEight(x);
    ByEight((8 * b + 2) as real);
    RoundInUnits(f, x, -3, 8 * b + 2);
  }

  lemma ByEight(x: real)
    ensures Scale(x, 3) == 8.0 * x && Scale(x, -3) == x / 8.0
  {
    assert Scale(x, 2) == 4.0 * x && Scale(x, -2) == x / 4.0;
  }

  /** Where the unit is one, half past an even integer rounds down to it. */
  lemma RoundTieDown(f: Format, h: int)
    requires UlpExponent(f, (2 * h) as real + 0.5) == 0
    ensures Round(f, (2 * h) as real + 0.5) == (2 * h) as real
  {
    hide UlpExponent, Round;
    RoundInUnits(f, (2 * h) as real + 0.5, 0, 2 * h);
  }

  lemma TieUnit(f: Format, b: int)
    requires f.precision >= 4 && f.minExponent <= -3 && b == IntScale(1, f.precision - 4)
    ensures UlpExponent(f, (2 * (5 * b + 1)) as real + 0.5) == 0
  {
    hide IntScale, Scale;
    FourBinades(f.precision);
    BinadeOf((2 * (5 * b + 1)) as real + 0.5, f.precision - 1);
  }

  lemma FourBinades(p: nat)
    requires p >= 4
    ensures var b := IntScale(1, p - 4);
            && b >= 1
            && Pow2(p - 4) == b as real && Pow2(p - 3) == (2 * b) as real
            && Pow2(p - 1) == (8 * b) as real && Pow2(p) == (16 * b) as real
            && IntScale(1, p - 1) == 8 * b && IntScale(1, p) == 16 * b
  {
    var b := IntScale(1, p - 4);
    assert IntScale(1, p - 3) == 2 * b;
    assert IntScale(1, p - 2) == 4 * b;
    assert IntScale(1, p - 1) == 8 * b;
  }

  lemma BinadeOf(x: real, e: int)
    requires x > 0.0 && Pow2(e) <= x < Pow2(e + 1)
    ensures Exponent(x) == e
  {
    ExponentAtLeast(x, e);
    ExponentAtLeast(x, e + 1);
  }
}
