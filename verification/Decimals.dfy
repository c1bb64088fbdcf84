/** Exact decimals as a mantissa and a scale, and their decimal text. */
module Decimals {
  import opened Wrappers
  import opened Arithmetic

  /** mantissa / 10^scale. */
  datatype Decimal = Decimal(mantissa: int, scale: nat)

  function Pow10(n: nat): (p: nat)
    ensures p > 0
  {
    if n == 0 then 1 else 10 * Pow10(n - 1)
  }

  lemma Pow10Next(n: nat)
    ensures Pow10(n) == if n == 0 then 1 else 10 * Pow10(n - 1)
  {
  }

  const ZERO := Decimal(0, 0)

  /** Without trailing zeros in the fraction. */
  function Normalize(d: Decimal): Decimal
    decreases d.scale
  {
    if d.scale > 0 && d.mantissa % 10 == 0 then Normalize(Decimal(d.mantissa / 10, d.scale - 1)) else d
  }

  predicate Normal(d: Decimal) { d.scale == 0 || d.mantissa % 10 != 0 }

  function Add(a: Decimal, b: Decimal): Decimal {
    var s := Max(a.scale, b.scale);
    Decimal(a.mantissa * Pow10(s - a.scale) + b.mantissa * Pow10(s - b.scale), s)
  }

  function Times(a: Decimal, k: int): Decimal { Decimal(a.mantissa * k, a.scale) }

  /** Equal values. */
  ghost predicate Same(a: Decimal, b: Decimal) {
    a.mantissa * Pow10(b.scale) == b.mantissa * Pow10(a.scale)
  }

  // ---------- text ----------

  predicate IsDigit(c: char) { '0' <= c <= '9' }

  predicate Numeric(c: char) { IsDigit(c) || c == '.' }

  predicate AllDigits(s: string) { forall i :: 0 <= i < |s| ==> IsDigit(s[i]) }

  predicate AllNumeric(s: string) { forall i :: 0 <= i < |s| ==> Numeric(s[i]) }

  function Digit(n: nat): (c: char)
    requires n < 10
    ensures IsDigit(c)
  {
    ('0' as int + n) as char
  }

  function Value(s: string): nat
    requires AllDigits(s)
  {
    if s == "" then 0 else 10 * Value(s[..|s| - 1]) + (s[|s| - 1] as int - '0' as int)
  }

  function PrintNat(n: nat): (s: string)
    ensures s != "" && AllDigits(s)
  {
    if n < 10 then [Digit(n)] else PrintNat(n / 10) + [Digit(n % 10)]
  }

  /** Exactly `width` digits. */
  function Padded(n: nat, width: nat): (s: string)
    ensures |s| == width && AllDigits(s)
  {
    if width == 0 then "" else Padded(n / 10, width - 1) + [Digit(n % 10)]
  }

  /** Quotient and remainder. */
  function DivMod(m: nat, u: nat): (nat, nat)
    requires u > 0
  {
    DivNat(m, u);
    (m / u, m % u)
  }

  lemma DivNat(m: nat, u: nat)
    requires u > 0
    ensures m / u >= 0 && m == (m / u) * u + m % u && 0 <= m % u < u
  {
  }

  lemma DivModLaw(m: nat, u: nat)
    requires u > 0
    ensures var (q, r) := DivMod(m, u);
            m == q * u + r && r < u
  {
  }

  /** Quotient and remainder are unique. */
  lemma Unique(m: nat, u: nat, q: nat, r: nat)
    requires u > 0 && m == q * u + r && r < u
    ensures DivMod(m, u) == (q, r)
  {
    DivModLaw(m, u);
    var (q', r') := DivMod(m, u);
    if q < q' {
      MulMonotone(q + 1, q', u);
    } else if q' < q {
      MulMonotone(q' + 1, q, u);
    }
  }

  lemma DivModTen(m: nat, k: nat, u: nat)
    requires k > 0 && u > 0
    ensures DivMod(10 * m, k * (10 * u)) == (DivMod(m, k * u).0, 10 * DivMod(m, k * u).1)
  {
    hide DivMod;
    DivModLaw(m, k * u);
    var (q, r) := DivMod(m, k * u);
    assert k * (10 * u) == 10 * (k * u);
    assert q * (10 * (k * u)) == 10 * (q * (k * u));
    Unique(10 * m, 10 * (k * u), q, 10 * r);
  }

  /** The display of a decimal that is not negative. */
  function PrintDecimal(d: Decimal): (s: string)
    requires d.mantissa >= 0
    ensures s != "" && AllNumeric(s)
  {
    var (whole, fraction) := DivMod(d.mantissa, Pow10(d.scale));
    PrintNat(whole) + if d.scale == 0 then "" else "." + Padded(fraction, d.scale)
  }

  /** Place of the first point, or the length. */
  function Point(s: string): (k: nat)
    requires AllNumeric(s)
    ensures k <= |s| && AllDigits(s[..k])
    ensures k < |s| ==> s[k] == '.'
  {
    if s == "" || s[0] == '.' then 0
    else
      var k := 1 + Point(s[1..]);
      assert s[..k] == [s[0]] + s[1..][..k - 1];
      k
  }

  /** Reads digits with at most one point and at least one digit. */
  function ParseDecimal(s: string): Option<Decimal>
    requires AllNumeric(s)
  {
    var k := Point(s);
    if k == |s| then (if s == "" then None else Some(Decimal(Value(s[..k]), 0)))
    else
      var fraction := s[k + 1..];
      if |s| == 1 || '.' in fraction then None
      else Some(Decimal(Value(s[..k] + fraction), |fraction|))
  }

  // ---------- text round trips ----------

  lemma TenTimes(a: int, b: int)
    ensures 10 * (a * b) == a * (10 * b) == (10 * a) * b
  {
  }

  lemma {:induction false} ValueConcat(a: string, b: string)
    requires AllDigits(a) && AllDigits(b)
    ensures AllDigits(a + b) && Value(a + b) == Value(a) * Pow10(|b|) + Value(b)
    decreases |b|
  {
    hide Pow10;
    if b == "" {
      Pow10Next(0);
      assert a + b == a;
    } else {
      var rest := b[..|b| - 1];
      assert (a + b)[..|a + b| - 1] == a + rest;
      ValueConcat(a, rest);
      Pow10Next(|b|);
      TenTimes(Value(a), Pow10(|rest|));
    }
  }

  lemma {:induction false} ValueOfPrinted(n: nat)
    ensures Value(PrintNat(n)) == n
  {
    if n >= 10 {
      ValueOfPrinted(n / 10);
      assert PrintNat(n)[..|PrintNat(n)| - 1] == PrintNat(n / 10);
    }
  }

  lemma {:induction false} ValueOfPadded(n: nat, width: nat)
    requires n < Pow10(width)
    ensures Value(Padded(n, width)) == n
  {
    if width > 0 {
      ValueOfPadded(n / 10, width - 1);
      assert Padded(n, width)[..width - 1] == Padded(n / 10, width - 1);
    }
  }

  lemma {:induction false} PointAfterDigits(a: string, b: string)
    requires AllDigits(a) && AllNumeric(b) && (b == "" || b[0] == '.')
    ensures AllNumeric(a + b) && Point(a + b) == |a|
    decreases |a|
  {
    if a == "" {
      assert a + b == b;
    } else {
      assert (a + b)[1..] == a[1..] + b;
      PointAfterDigits(a[1..], b);
    }
  }

  /** A printed decimal reads back as itself, scale included. */
  lemma ParsePrinted(d: Decimal)
    requires d.mantissa >= 0
    ensures ParseDecimal(PrintDecimal(d)) == Some(d)
  {
    hide DivMod, Value, PrintNat, Padded, Point;
    DivModLaw(d.mantissa, Pow10(d.scale));
    var (q, r) := DivMod(d.mantissa, Pow10(d.scale));
    var whole := PrintNat(q);
    ValueOfPrinted(q);
    if d.scale == 0 {
      PointAfterDigits(whole, "");
      assert PrintDecimal(d) == whole && whole + "" == whole;
      assert whole[..|whole|] == whole;
    } else {
      var fraction := Padded(r, d.scale);
      var s := whole + ("." + fraction);
      ValueOfPadded(r, d.scale);
      PointAfterDigits(whole, "." + fraction);
      assert PrintDecimal(d) == s && s[..|whole|] == whole && s[|whole| + 1..] == fraction;
      ValueConcat(whole, fraction);
    }
  }

  // ---------- normal forms ----------

  lemma {:induction false} NormalizeIsNormal(d: Decimal)
    ensures Normal(Normalize(d)) && Same(Normalize(d), d)
    ensures d.mantissa >= 0 <==> Normalize(d).mantissa >= 0
    ensures d.mantissa == 0 <==> Normalize(d).mantissa == 0
    ensures Normalize(d).scale <= d.scale
    decreases d.scale
  {
    if d.scale > 0 && d.mantissa % 10 == 0 {
      var e := Decimal(d.mantissa / 10, d.scale - 1);
      NormalizeIsNormal(e);
      var n := Normalize(e);
      TenTimes(n.mantissa, Pow10(e.scale));
      TenTimes(e.mantissa, Pow10(n.scale));
      assert d.mantissa == 10 * e.mantissa;
    }
  }

  lemma {:induction false} Pow10Adds(a: nat, b: nat)
    ensures Pow10(a + b) == Pow10(a) * Pow10(b)
  {
    if a > 0 { Pow10Adds(a - 1, b); }
  }
}
