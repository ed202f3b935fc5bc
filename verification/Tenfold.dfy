/**
 * Tenths in binary floating point, for every format: the rounded product with ten, truncated,
 * and the rounded quotient by ten.
 */
module Tenfold {
  import opened Binary

  /** The format is fine enough for every tenth to be a normal number. */
  predicate Fine(f: Format) {
    f.precision >= 1 && f.minExponent <= -3 - f.precision
  }

  /** The integers below half the precision. */
  predicate Within(f: Format, n: int)
    requires f.precision >= 1
  {
    -IntScale(1, f.precision - 1) < n < IntScale(1, f.precision - 1)
  }

  /** Ten times `t`, rounded. */
  function Product(f: Format, t: real): real {
    Round(f, 10.0 * t)
  }

  /** An integer, converted, and a tenth of it, rounded. */
  function Quotient(f: Format, n: int): real {
    Round(f, Round(f, n as real) / 10.0)
  }

  /** Conversion to an integer type discards the fraction. */
  function Truncate(x: real): int {
    if x < 0.0 then -((-x).Floor) else x.Floor
  }

  /** The tenths of `t` that remain of the rounded product. */
  function Tenths(f: Format, t: real): int {
    Truncate(Product(f, t))
  }

  // ---------------------------------------------------------------- exactness

  /** A quotient is the nearest value to the exact tenth. */
  lemma QuotientIsNearest(f: Format, n: int)
    requires Fine(f) && Within(f, n)
    ensures Quotient(f, n) == Round(f, n as real / 10.0)
  {
    hide Round;
    assert IntScale(1, f.precision - 1) <= IntScale(1, f.precision);
    IntegerExact(f, n);
  }

  /** The value nearest to any tenth has exactly that many tenths. */
  lemma TenthsOfQuotient(f: Format, n: int)
    requires Fine(f) && Within(f, n)
    ensures Tenths(f, Quotient(f, n)) == n
  {
    hide Round;
    QuotientIsNearest(f, n);
    MultiplyBack(f, n);
    TruncateInteger(n);
  }

  lemma TruncateInteger(n: int)
    ensures Truncate(n as real) == n
  {
  }

  /** Whole numbers are exact in both directions. */
  lemma WholeExact(f: Format, n: int)
    requires Fine(f) && Within(f, 10 * n)
    ensures Quotient(f, 10 * n) == n as real
    ensures Tenths(f, n as real) == 10 * n
  {
    hide Round;
    TenthsOfQuotient(f, 10 * n);
    QuotientIsNearest(f, 10 * n);
    assert (10 * n) as real / 10.0 == n as real;
    IntegerExact(f, n);
  }

  // ---------------------------------------------------------------- order and sign

  lemma TruncateMono(x: real, y: real)
    requires x <= y
    ensures Truncate(x) <= Truncate(y)
  {
  }

  /** Neither rounding nor truncation reverses the order. */
  lemma TenthsMono(f: Format, s: real, t: real)
    requires f.precision >= 1 && s <= t
    ensures Tenths(f, s) <= Tenths(f, t)
  {
    hide Round;
    RoundMono(f, 10.0 * s, 10.0 * t);
    TruncateMono(Product(f, s), Product(f, t));
  }

  lemma TruncateNegate(x: real)
    ensures Truncate(-x) == -Truncate(x)
  {
  }

  lemma ProductNegate(f: Format, t: real)
    ensures Product(f, -t) == -Product(f, t)
  {
    hide Round;
    RoundOpposite(f, 10.0 * t, 10.0 * -t);
  }

  lemma TenthsNegate(f: Format, t: real)
    ensures Tenths(f, -t) == -Tenths(f, t)
  {
    hide Round;
    ProductNegate(f, t);
    TruncateNegate(Product(f, t));
  }

  lemma QuotientNegate(f: Format, n: int)
    ensures Quotient(f, -n) == -Quotient(f, n)
  {
    hide Round;
    RoundOpposite(f, n as real, (-n) as real);
    TenthOpposite(f, Round(f, n as real), Round(f, (-n) as real));
  }

  // ---------------------------------------------------------------- resolution

  /** A non-negative value lies between its tenths and one more, both after rounding. */
  lemma TenthsBracket(f: Format, t: real)
    requires t >= 0.0
    ensures 0 <= Tenths(f, t)
    ensures Tenths(f, t) as real <= Product(f, t) < (Tenths(f, t) + 1) as real
  {
    hide Round;
    RoundNonNegative(f, 10.0 * t);
  }

  /** The exact tenths miss the value by less than one tenth. */
  lemma Resolution(f: Format, t: real)
    requires Fine(f)
    requires -IntScale(1, f.precision) < Tenths(f, t) < IntScale(1, f.precision)
    ensures Abs(Tenths(f, t) as real / 10.0 - t) < 0.1
    decreases t < 0.0
  {
    hide Round;
    if t < 0.0 {
      TenthsNegate(f, t);
      Resolution(f, -t);
    } else {
      TenthsBracket(f, t);
      RoundWithinOne(f, 10.0 * t, Tenths(f, t));
    }
  }

  /** So does the value that they decode to: three roundings lose no more than one truncation. */
  lemma DecodedResolution(f: Format, t: real)
    requires Fine(f) && Within(f, Tenths(f, t))
    ensures Abs(Quotient(f, Tenths(f, t)) - t) < 0.1
  {
    hide Round;
    var n := Tenths(f, t);
    if t < 0.0 {
      TenthsNegate(f, t);
      QuotientNegate(f, n);
      QuotientResolution(f, -t, -n);
    } else {
      QuotientResolution(f, t, n);
    }
  }

  lemma QuotientResolution(f: Format, t: real, n: int)
    requires Fine(f) && Within(f, n)
    requires t >= 0.0 && n == Tenths(f, t)
    ensures Abs(Quotient(f, n) - t) < 0.1
  {
    hide Round;
    TenthsBracket(f, t);
    QuotientIsNearest(f, n);
    TruncatedResolution(f, 10.0 * t, n);
  }
}
