/** Conversion of an `Edm.Duration` to a standard duration, a whole number of nanoseconds. */
module StdDurations {
  import opened Wrappers
  import opened Arithmetic
  import opened Decimals

  const U64_MAX := 0xFFFF_FFFF_FFFF_FFFF

  datatype ConvertError = CannotConvertNegative | ValueTooBig

  /** Rounds num / den to the nearest integer, a tie to the even one. */
  function Round(num: nat, den: nat): nat
    requires den > 0
  {
    var (q, r) := DivMod(num, den);
    if 2 * r < den || (2 * r == den && q % 2 == 0) then q else q + 1
  }

  /** A count of units as a duration, if it fits in 64 bits. */
  function Units(count: nat, nanos: nat): Result<nat, ConvertError> {
    if count > U64_MAX then Err(ValueTooBig) else Ok(count * nanos)
  }

  /** `TryFrom<EdmDuration> for StdDuration`: seconds, milliseconds or microseconds if they are exact,
      else rounded nanoseconds; each count must fit in 64 bits. */
  function ToStd(d: Decimal): Result<nat, ConvertError> {
    var (m, u) := (d.mantissa, Pow10(d.scale));
    if m < 0 then Err(CannotConvertNegative)
    else if DivMod(m, u).1 == 0 then Units(DivMod(m, u).0, 1_000_000_000)
    else if DivMod(m * 1000, u).1 == 0 then Units(DivMod(m * 1000, u).0, 1_000_000)
    else if DivMod(m * 1_000_000, u).1 == 0 then Units(DivMod(m * 1_000_000, u).0, 1000)
    else Units(Round(m * 1_000_000_000, u), 1)
  }

  // ---------- rounding ----------

  lemma RoundIsNearest(num: nat, den: nat)
    requires den > 0
    ensures var q := Round(num, den);
            2 * (q * den - num) <= den && 2 * (num - q * den) <= den
    ensures num % den == 0 ==> Round(num, den) * den == num
    ensures 2 * (Round(num, den) * den - num) == den || 2 * (num - Round(num, den) * den) == den
            ==> Round(num, den) % 2 == 0
  {
    DivModLaw(num, den);
    var (q, r) := DivMod(num, den);
    assert (q + 1) * den == q * den + den;
  }

  /** An exact quotient is its own rounding. */
  lemma RoundExact(num: nat, den: nat, q: nat)
    requires den > 0 && num == q * den
    ensures Round(num, den) == q
  {
    Unique(num, den, q, 0);
  }

  /** Rounding is monotone, also between different denominators. */
  lemma RoundMonotone(x: nat, d: nat, y: nat, e: nat)
    requires d > 0 && e > 0 && x * e <= y * d
    ensures Round(x, d) <= Round(y, e)
  {
    hide Round;
    var (p, q) := (Round(x, d), Round(y, e));
    RoundIsNearest(x, d);
    RoundIsNearest(y, e);
    if p > q {
      NoCrossing(x, d, y, e, p, q);
    }
  }

  /** Two rounded values cannot cross: they would both be ties at the same midpoint, and go the same way. */
  lemma NoCrossing(x: nat, d: nat, y: nat, e: nat, p: nat, q: nat)
    requires d > 0 && e > 0 && x * e <= y * d && p > q
    requires 2 * (p * d - x) <= d && 2 * (y - q * e) <= e
    ensures p == q + 1 && 2 * (p * d - x) == d && 2 * (y - q * e) == e
  {
    Distribute(2 * p - 1, d);
    Distribute(2 * q, e);
    MulAssociative(2, p, d);
    MulAssociative(2, q, e);
    MulAssociative(2, x, e);
    MulAssociative(2, y, d);
    Between(2 * p - 1, d, 2 * x, 2 * y, 2 * q + 1, e);
  }

  lemma Distribute(a: int, k: int)
    ensures (a + 1) * k == a * k + k
  {
  }

  /** a <= x / d <= y / e <= b, with a not below b. */
  lemma Between(a: int, d: nat, x: int, y: int, b: int, e: nat)
    requires d > 0 && e > 0 && b <= a
    requires a * d <= x && x * e <= y * d && y <= b * e
    ensures a == b && a * d == x && y == b * e
  {
    var w := d * e;
    assert w == e * d && w > 0;
    Scale(a, d, x, e);
    Scale(b, e, y, d);
    MulCancels(a, b, w);
  }

  /** Comparing a * d with x in units of 1 / e. */
  lemma Scale(a: int, d: nat, x: int, e: nat)
    requires e > 0
    ensures a * d <= x ==> a * (d * e) <= x * e
    ensures x <= a * d ==> x * e <= a * (d * e)
    ensures a * (d * e) == x * e ==> a * d == x
  {
    MulAssociative(a, d, e);
    MulCancels(a * d, x, e);
    if a * d <= x { MulMonotone(a * d, x, e); }
    if x <= a * d { MulMonotone(x, a * d, e); }
  }

  // ---------- the conversion ----------

  /** Whichever branch answers, the answer is the exact value rounded to nanoseconds. */
  lemma AnswerIsRounded(d: Decimal)
    requires ToStd(d).Ok?
    ensures d.mantissa >= 0 && ToStd(d).value == Round(d.mantissa * 1_000_000_000, Pow10(d.scale))
  {
    hide Round;
    var (m, u) := (d.mantissa, Pow10(d.scale));
    ExactUnits(m, u, 1, 1_000_000_000);
    ExactUnits(m, u, 1000, 1_000_000);
    ExactUnits(m, u, 1_000_000, 1000);
  }

  lemma ExactUnits(m: nat, u: nat, k: nat, nanos: nat)
    requires u > 0 && k * nanos == 1_000_000_000
    ensures DivMod(m * k, u).1 == 0 ==> DivMod(m * k, u).0 * nanos == Round(m * 1_000_000_000, u)
  {
    hide Round, DivMod;
    DivModLaw(m * k, u);
    var (q, r) := DivMod(m * k, u);
    if r == 0 {
      assert m * 1_000_000_000 == m * (k * nanos) == (m * k) * nanos;
      assert (q * u) * nanos == (q * nanos) * u;
      RoundExact(m * 1_000_000_000, u, q * nanos);
    }
  }

  /** A converted duration is within half a nanosecond of the exact value, and exact if that is a whole
      number of nanoseconds. */
  lemma WithinHalfANanosecond(d: Decimal)
    requires ToStd(d).Ok?
    ensures var (exact, u, got) := (d.mantissa * 1_000_000_000, Pow10(d.scale), ToStd(d).value);
            && 2 * (got * u - exact) <= u && 2 * (exact - got * u) <= u
            && (exact % u == 0 ==> got * u == exact)
  {
    AnswerIsRounded(d);
    RoundIsNearest(d.mantissa * 1_000_000_000, Pow10(d.scale));
  }

  /** Conversion is monotone across its branches and across scales. */
  lemma ConversionIsMonotone(a: Decimal, b: Decimal)
    requires ToStd(a).Ok? && ToStd(b).Ok?
    requires a.mantissa * Pow10(b.scale) <= b.mantissa * Pow10(a.scale)
    ensures ToStd(a).value <= ToStd(b).value
  {
    hide ToStd, Round;
    AnswerIsRounded(a);
    AnswerIsRounded(b);
    var (x, d, y, e) := (a.mantissa, Pow10(a.scale), b.mantissa, Pow10(b.scale));
    Scaled(x, e);
    Scaled(y, d);
    RoundMonotone(x * 1_000_000_000, d, y * 1_000_000_000, e);
  }

  lemma Scaled(x: nat, e: nat)
    ensures x * 1_000_000_000 * e == (x * e) * 1_000_000_000
  {
  }

  // ---------- when it succeeds ----------

  /** Ten to this power is the number of units per second the conversion counts in: seconds, milliseconds
      or microseconds if the fraction has at most 0, 3 or 6 digits without trailing zeros, else
      nanoseconds. */
  function UnitExponent(d: Decimal): nat {
    var digits := Normalize(d).scale;
    if digits == 0 then 0 else if digits <= 3 then 3 else if digits <= 6 then 6 else 9
  }

  /** Not negative, and the count of those units, rounded, is below 2^64. */
  predicate FitsStd(d: Decimal) {
    d.mantissa >= 0 && Round(d.mantissa * Pow10(UnitExponent(d)), Pow10(d.scale)) <= U64_MAX
  }

  /** A decimal has at most k fraction digits if and only if it is a multiple of 10^-k. */
  lemma {:induction false} FractionDigits(m: nat, scale: nat, k: nat)
    ensures Normalize(Decimal(m, scale)).scale <= k <==> DivMod(m * Pow10(k), Pow10(scale)).1 == 0
    decreases scale
  {
    hide DivMod, Pow10;
    Pow10Next(scale);
    if scale == 0 {
      Unique(m * Pow10(k), 1, m * Pow10(k), 0);
    } else if m % 10 == 0 {
      FractionDigits(m / 10, scale - 1, k);
      DivModTen(m / 10 * Pow10(k), 1, Pow10(scale - 1));
      MulAssociative(10, m / 10, Pow10(k));
    } else if scale <= k {
      Pow10Adds(scale, k - scale);
      MulAssociative(m, Pow10(scale), Pow10(k - scale));
      Unique(m * Pow10(k), Pow10(scale), m * Pow10(k - scale), 0);
    } else {
      Pow10Adds(k, scale - k);
      Pow10Next(scale - k);
      Indivisible(m, Pow10(k), Pow10(scale - k - 1));
    }
  }

  lemma Indivisible(m: nat, v: nat, w: nat)
    requires m % 10 != 0 && v > 0 && w > 0
    ensures v * (10 * w) > 0 && DivMod(m * v, v * (10 * w)).1 != 0
  {
    hide DivMod;
    DivModLaw(m * v, v * (10 * w));
    var (q, r) := DivMod(m * v, v * (10 * w));
    if r == 0 {
      MulAssociative(q, v, 10 * w);
      MulCancels(m, q * (10 * w), v);
      TenTimes(q, w);
      LastDigitZero(m, q * w);
    }
  }

  lemma LastDigitZero(m: nat, x: nat)
    requires m == 10 * x
    ensures m % 10 == 0
  {
  }

  lemma Powers()
    ensures Pow10(0) == 1 && Pow10(3) == 1000 && Pow10(6) == 1_000_000 && Pow10(9) == 1_000_000_000
  {
    Pow10Adds(3, 3);
    Pow10Adds(3, 6);
  }

  /** An exact count of units is its own rounding. */
  lemma ExactCount(m: nat, k: nat, u: nat)
    requires u > 0 && DivMod(m * k, u).1 == 0
    ensures Round(m * k, u) == DivMod(m * k, u).0
  {
    hide Round;
    DivModLaw(m * k, u);
    RoundExact(m * k, u, DivMod(m * k, u).0);
  }

  /** Exactly the durations that are not negative and whose count of units fits in 64 bits convert; a
      negative one and one that is too big are told apart. */
  lemma ConvertsIffFits(d: Decimal)
    ensures ToStd(d).Ok? <==> FitsStd(d)
    ensures ToStd(d) == Err(CannotConvertNegative) <==> d.mantissa < 0
  {
    hide DivMod, Round, Normalize;
    if d.mantissa >= 0 {
      var (m, u) := (d.mantissa, Pow10(d.scale));
      Powers();
      FractionDigits(m, d.scale, 0);
      FractionDigits(m, d.scale, 3);
      FractionDigits(m, d.scale, 6);
      var k := Pow10(UnitExponent(d));
      if UnitExponent(d) < 9 { ExactCount(m, k, u); }
    }
  }

  /** A duration converts if one at least as long and counted in the same or smaller units does. */
  lemma SuccessIsMonotoneWithinUnits(a: Decimal, b: Decimal)
    requires 0 <= a.mantissa && a.mantissa * Pow10(b.scale) <= b.mantissa * Pow10(a.scale)
    requires UnitExponent(a) <= UnitExponent(b) && ToStd(b).Ok?
    ensures ToStd(a).Ok? && ToStd(a).value <= ToStd(b).value
  {
    hide ToStd, Round, UnitExponent, Pow10;
    ConvertsIffFits(a);
    ConvertsIffFits(b);
    var (j, k) := (UnitExponent(a), UnitExponent(b));
    Pow10Adds(j, k - j);
    MulMonotone(1, Pow10(k - j), Pow10(j));
    InUnits(a.mantissa, Pow10(a.scale), b.mantissa, Pow10(b.scale), Pow10(j), Pow10(k));
    RoundMonotone(a.mantissa * Pow10(j), Pow10(a.scale), b.mantissa * Pow10(k), Pow10(b.scale));
    ConversionIsMonotone(a, b);
  }

  lemma InUnits(x: nat, d: nat, y: nat, e: nat, v: nat, w: nat)
    requires x * e <= y * d && v <= w
    ensures (x * v) * e <= (y * w) * d
  {
    MulAssociative(x, e, v);
    MulAssociative(y, d, w);
    MulMonotone(x * e, y * d, v);
    MulMonotone(v, w, y * d);
  }

  /** Every duration that is not negative and of at most 2^64 - 1 nanoseconds, rounded, converts. */
  lemma ShortDurationsConvert(d: Decimal)
    requires d.mantissa >= 0 && Round(d.mantissa * 1_000_000_000, Pow10(d.scale)) <= U64_MAX
    ensures ToStd(d).Ok?
  {
    hide Round;
    var (m, u) := (d.mantissa, Pow10(d.scale));
    ExactUnits(m, u, 1, 1_000_000_000);
    ExactUnits(m, u, 1000, 1_000_000);
    ExactUnits(m, u, 1_000_000, 1000);
    assert m * 1 == m;
  }

  /** Beyond that, whether a duration converts depends on its precision and not only on its size:
      10^11 seconds and 10^11 + 1 seconds do, and 10^11 seconds and one nanosecond does not. */
  lemma SuccessIsNotMonotone()
    ensures ToStd(Decimal(100_000_000_000, 0)).Ok?
    ensures ToStd(Decimal(100_000_000_000_000_000_001, 9)) == Err(ValueTooBig)
    ensures ToStd(Decimal(100_000_000_001, 0)).Ok?
  {
    Powers();
  }
}
