/** `Edm.Duration`: its text, its reader and what they keep (lexical form of dayTimeDuration, section
    3.4.27 of XML Schema 1.1 Part 2). A duration is an exact decimal number of seconds. */
module EdmDurations {
  import opened Wrappers
  import opened Arithmetic
  import opened Decimals

  datatype ParseError = InvalidEdmDuration

  // ---------- printing ----------

  /** A magnitude of m units, u to the second, in days, hours, minutes and units of seconds. */
  datatype Parts = Parts(days: nat, hours: nat, minutes: nat, rest: nat)

  function PartsOf(m: nat, u: nat): (p: Parts)
    requires u > 0
    ensures p.hours < 24 && p.minutes < 60 && p.rest < 60 * u
    ensures m == (p.days * 86400 + p.hours * 3600 + p.minutes * 60) * u + p.rest
  {
    var (days, r1) := DivMod(m, 86400 * u);
    var (hours, r2) := DivMod(r1, 3600 * u);
    var (minutes, r3) := DivMod(r2, 60 * u);
    DivModLaw(m, 86400 * u);
    DivModLaw(r1, 3600 * u);
    DivModLaw(r2, 60 * u);
    PartsAddUp(m, u, days, r1, hours, r2, minutes, r3);
    Parts(days, hours, minutes, r3)
  }

  lemma PartsAddUp(m: nat, u: nat, days: nat, r1: nat, hours: nat, r2: nat, minutes: nat, r3: nat)
    requires u > 0
    requires m == days * (86400 * u) + r1 && r1 < 86400 * u
    requires r1 == hours * (3600 * u) + r2 && r2 < 3600 * u
    requires r2 == minutes * (60 * u) + r3 && r3 < 60 * u
    ensures hours < 24 && minutes < 60
    ensures m == (days * 86400 + hours * 3600 + minutes * 60) * u + r3
  {
    FewerThan(hours, 3600 * u, r1, 24);
    FewerThan(minutes, 60 * u, r2, 60);
    assert days * (86400 * u) == days * 86400 * u;
    assert hours * (3600 * u) == hours * 3600 * u;
    assert minutes * (60 * u) == minutes * 60 * u;
    assert (days * 86400 + hours * 3600 + minutes * 60) * u == days * 86400 * u + hours * 3600 * u + minutes * 60 * u;
  }

  lemma FewerThan(q: nat, a: nat, r: nat, k: nat)
    requires q * a <= r < k * a
    ensures q < k
  {
  }

  function Designated(n: nat, unit: char): string {
    if n == 0 then "" else PrintNat(n) + [unit]
  }

  /** The time part, from `T` on; absent when nothing is left after the days. */
  function TimeText(p: Parts, scale: nat): string {
    if p.hours == 0 && p.minutes == 0 && p.rest == 0 then ""
    else
      NormalizeIsNormal(Decimal(p.rest, scale));
      "T" + Designated(p.hours, 'H') + Designated(p.minutes, 'M') + PrintDecimal(Normalize(Decimal(p.rest, scale))) + "S"
  }

  /** `Display`. */
  function Text(d: Decimal): string {
    if d.mantissa == 0 then "PT0S"
    else if d.mantissa < 0 then "-P" + Magnitude(Decimal(-d.mantissa, d.scale))
    else "P" + Magnitude(d)
  }

  function Magnitude(d: Decimal): string
    requires d.mantissa >= 0
  {
    var p := PartsOf(d.mantissa, Pow10(d.scale));
    Designated(p.days, 'D') + TimeText(p, d.scale)
  }

  /** The writer as the source runs it, piece by piece. */
  method Display(d: Decimal) returns (f: string)
    ensures f == Text(d)
  {
    hide DivMod, Normalize, Pow10, Designated, PrintDecimal;
    if d.mantissa == 0 { return "PT0S"; }
    var value;
    if d.mantissa < 0 {
      f := "-P";
      value := -d.mantissa;
    } else {
      f := "P";
      value := d.mantissa;
    }
    var u := Pow10(d.scale);
    var (days, left) := DivMod(value, 86400 * u);
    AnythingLeft(value, u);
    f := f + Designated(days, 'D');
    if left != 0 {
      var time := DisplayTime(left, d.scale);
      f := f + time;
    }
  }

  /** The time part of a magnitude of whole units that is not zero. */
  method DisplayTime(left: nat, scale: nat) returns (f: string)
    ensures var (hours, r) := DivMod(left, 3600 * Pow10(scale));
            var (minutes, rest) := DivMod(r, 60 * Pow10(scale));
            Normalize(Decimal(rest, scale)).mantissa >= 0
            && f == "T" + Designated(hours, 'H') + Designated(minutes, 'M') + PrintDecimal(Normalize(Decimal(rest, scale))) + "S"
  {
    hide DivMod, Normalize, Pow10, PrintDecimal;
    var u := Pow10(scale);
    f := "T";
    var (hours, r) := DivMod(left, 3600 * u);
    f := f + Designated(hours, 'H');
    var (minutes, rest) := DivMod(r, 60 * u);
    f := f + Designated(minutes, 'M');
    NormalizeIsNormal(Decimal(rest, scale));
    f := f + PrintDecimal(Normalize(Decimal(rest, scale)));
    f := f + "S";
  }

  lemma AnythingLeft(m: nat, u: nat)
    requires u > 0
    ensures var (days, left) := DivMod(m, 86400 * u);
            var p := PartsOf(m, u);
            left == 0 <==> p.hours == 0 && p.minutes == 0 && p.rest == 0
  {
  }

  // ---------- reading ----------

  /** Number of leading digits and points. */
  function NumericLen(s: string): (k: nat)
    ensures k <= |s| && AllNumeric(s[..k])
    ensures k < |s| ==> !Numeric(s[k])
  {
    if s == "" || !Numeric(s[0]) then 0
    else
      var k := 1 + NumericLen(s[1..]);
      assert s[..k] == [s[0]] + s[1..][..k - 1];
      k
  }

  /** `take_digits`: the digits, the character after them and what follows it. */
  function TakeDigits(s: string): (r: (string, Option<char>, string))
    ensures AllNumeric(r.0)
    ensures r.1.Some? ==> |r.2| < |s|
  {
    var k := NumericLen(s);
    if k == |s| then (assert s[..k] == s; (s, None, "")) else (s[..k], Some(s[k]), s[k + 1..])
  }

  function Weight(unit: char): Option<nat> {
    match unit
    case 'H' => Some(3600)
    case 'M' => Some(60)
    case 'S' => Some(1)
    case _ => None
  }

  /** The loop over the time components; digits without a designator at the end are dropped. */
  function ReadTime(s: string, sum: Decimal): Result<Decimal, ParseError>
    decreases |s|
  {
    var (digits, unit, rest) := TakeDigits(s);
    if unit.None? then Ok(sum)
    else
      var weight := Weight(unit.value);
      if weight.None? then Err(InvalidEdmDuration)
      else
        match ParseDecimal(digits)
        case None => Err(InvalidEdmDuration)
        case Some(d) => ReadTime(rest, Add(sum, Times(d, weight.value)))
  }

  /** What follows `P`; a number before `T` is dropped. */
  function ReadMagnitude(s: string): Result<Decimal, ParseError> {
    var (digits, next, rest) := TakeDigits(s);
    if next == Some('T') then ReadTime(rest, ZERO)
    else if next == Some('D') && (rest == "" || rest[0] == 'T') then
      match ParseDecimal(digits)
      case None => Err(InvalidEdmDuration)
      case Some(d) =>
        if rest == "" then Ok(Times(d, 86400)) else ReadTime(rest[1..], Add(ZERO, Times(d, 86400)))
    else Err(InvalidEdmDuration)
  }

  function Signed(r: Result<Decimal, ParseError>, sign: int): Result<Decimal, ParseError> {
    if r.Err? then r else Ok(Times(r.value, sign))
  }

  /** `from_str`. */
  function Parse(s: string): Result<Decimal, ParseError> {
    if s == "" then Err(InvalidEdmDuration)
    else if s[0] == '-' then
      if |s| == 1 || s[1] != 'P' then Err(InvalidEdmDuration) else Signed(ReadMagnitude(s[2..]), -1)
    else if s[0] != 'P' then Err(InvalidEdmDuration)
    else Signed(ReadMagnitude(s[1..]), 1)
  }

  /** The reader as the source runs it, over the characters left. */
  method FromStr(v: string) returns (r: Result<Decimal, ParseError>)
    ensures r == Parse(v)
  {
    var chars := v;
    if chars == "" { return Err(InvalidEdmDuration); }
    var p := chars[0];
    chars := chars[1..];
    var neg := 1;
    if p == '-' {
      neg := -1;
      if chars == "" { return Err(InvalidEdmDuration); }
      p := chars[0];
      chars := chars[1..];
    }
    if p != 'P' { return Err(InvalidEdmDuration); }
    assert chars == if neg == 1 then v[1..] else v[2..];
    ghost var body := chars;
    var sum := ZERO;
    var (digits, next, rest) := TakeDigits(chars);
    if next == Some('T') {
      chars := rest;
    } else if next == Some('D') && (rest == "" || rest[0] == 'T') {
      var d := ParseDecimal(digits);
      if d.None? { return Err(InvalidEdmDuration); }
      if rest == "" { return Ok(Times(Times(d.value, 86400), neg)); }
      sum := Add(sum, Times(d.value, 86400));
      chars := rest[1..];
    } else {
      return Err(InvalidEdmDuration);
    }
    assert ReadTime(chars, sum) == ReadMagnitude(body);
    while true
      invariant ReadTime(chars, sum) == ReadMagnitude(body)
      decreases |chars|
    {
      var (digits, unit, rest) := TakeDigits(chars);
      if unit.None? { break; }
      var weight := Weight(unit.value);
      if weight.None? { return Err(InvalidEdmDuration); }
      var d := ParseDecimal(digits);
      if d.None? { return Err(InvalidEdmDuration); }
      sum := Add(sum, Times(d.value, weight.value));
      chars := rest;
    }
    r := Ok(Times(sum, neg));
  }

  // ---------- reading what was written ----------

  datatype Component = Component(value: Decimal, unit: char)

  predicate Sensible(c: Component) {
    c.value.mantissa >= 0 && Weight(c.unit).Some?
  }

  predicate AllSensible(cs: seq<Component>) {
    forall i :: 0 <= i < |cs| ==> Sensible(cs[i])
  }

  function Render(cs: seq<Component>): string
    requires AllSensible(cs)
  {
    if cs == [] then "" else assert Sensible(cs[0]); PrintDecimal(cs[0].value) + [cs[0].unit] + Render(cs[1..])
  }

  function Total(sum: Decimal, cs: seq<Component>): Decimal
    requires AllSensible(cs)
    decreases |cs|
  {
    if cs == [] then sum else assert Sensible(cs[0]); Total(Add(sum, Times(cs[0].value, Weight(cs[0].unit).value)), cs[1..])
  }

  lemma {:induction false} TakesNumber(number: string, c: char, rest: string)
    requires AllNumeric(number) && !Numeric(c)
    ensures TakeDigits(number + [c] + rest) == (number, Some(c), rest)
  {
    var s := number + [c] + rest;
    NumberLen(number, c, rest);
    assert s[..|number|] == number && s[|number|] == c && s[|number| + 1..] == rest;
  }

  lemma {:induction false} NumberLen(number: string, c: char, rest: string)
    requires AllNumeric(number) && !Numeric(c)
    ensures NumericLen(number + [c] + rest) == |number|
    decreases |number|
  {
    var s := number + [c] + rest;
    if number != "" {
      assert s[1..] == number[1..] + [c] + rest;
      NumberLen(number[1..], c, rest);
    }
  }

  /** The reader adds up components in whatever order and number they come. */
  lemma {:induction false} ReadsComponents(cs: seq<Component>, sum: Decimal)
    requires AllSensible(cs)
    ensures ReadTime(Render(cs), sum) == Ok(Total(sum, cs))
    decreases |cs|
  {
    if cs != [] {
      var (number, unit) := (PrintDecimal(cs[0].value), cs[0].unit);
      TakesNumber(number, unit, Render(cs[1..]));
      ParsePrinted(cs[0].value);
      ReadsComponents(cs[1..], Add(sum, Times(cs[0].value, Weight(unit).value)));
    }
  }

  /** Adding a multiple of ten leaves the last digit alone. */
  lemma LastDigit(t: nat, rest: nat)
    ensures (10 * t + rest) % 10 == rest % 10
    ensures rest % 10 == 0 ==> (10 * t + rest) / 10 == t + rest / 10
  {
  }

  /** Normalizing commutes with adding whole seconds. */
  lemma {:induction false} NormalizeWhole(k: nat, rest: nat, scale: nat)
    ensures var n := Normalize(Decimal(rest, scale));
            Normalize(Decimal(k * Pow10(scale) + rest, scale)) == Decimal(k * Pow10(n.scale) + n.mantissa, n.scale)
    decreases scale
  {
    hide Pow10;
    if scale > 0 {
      var u := Pow10(scale - 1);
      Pow10Next(scale);
      TenTimes(k, u);
      LastDigit(k * u, rest);
      if rest % 10 == 0 {
        NormalizeWhole(k, rest / 10, scale - 1);
      }
    }
  }

  lemma {:induction false} NormalizeNegative(m: int, scale: nat)
    ensures Normalize(Decimal(-m, scale)) == Times(Normalize(Decimal(m, scale)), -1)
    decreases scale
  {
    if scale > 0 && m % 10 == 0 {
      assert (-m) % 10 == 0 && (-m) / 10 == -(m / 10);
      NormalizeNegative(m / 10, scale - 1);
    }
  }

  lemma {:induction false} NormalizeZero(scale: nat)
    ensures Normalize(Decimal(0, scale)) == ZERO
  {
    if scale > 0 { NormalizeZero(scale - 1); }
  }

  // ---------- the round trip ----------

  function Whole(n: nat, unit: char): (cs: seq<Component>)
    requires Weight(unit).Some?
    ensures AllSensible(cs)
  {
    if n == 0 then [] else [Component(Decimal(n, 0), unit)]
  }

  lemma {:induction false} RenderJoined(a: seq<Component>, b: seq<Component>)
    requires AllSensible(a) && AllSensible(b)
    ensures AllSensible(a + b) && Render(a + b) == Render(a) + Render(b)
    decreases |a|
  {
    hide PrintDecimal, Sensible;
    if a == [] {
      assert a + b == b;
    } else {
      assert (a + b)[1..] == a[1..] + b;
      RenderJoined(a[1..], b);
    }
  }

  lemma {:induction false} TotalJoined(a: seq<Component>, b: seq<Component>, sum: Decimal)
    requires AllSensible(a) && AllSensible(b)
    ensures AllSensible(a + b) && Total(sum, a + b) == Total(Total(sum, a), b)
    decreases |a|
  {
    hide Add, Times;
    if a == [] {
      assert a + b == b;
    } else {
      assert (a + b)[1..] == a[1..] + b;
      assert Sensible(a[0]);
      TotalJoined(a[1..], b, Add(sum, Times(a[0].value, Weight(a[0].unit).value)));
    }
  }

  lemma OneComponent(c: Component, sum: Decimal)
    requires Sensible(c)
    ensures Render([c]) == PrintDecimal(c.value) + [c.unit]
    ensures Total(sum, [c]) == Add(sum, Times(c.value, Weight(c.unit).value))
  {
  }

  lemma WholeComponent(n: nat, unit: char, k: nat)
    requires Weight(unit).Some?
    ensures Render(Whole(n, unit)) == Designated(n, unit)
    ensures Total(Decimal(k, 0), Whole(n, unit)) == Decimal(k + n * Weight(unit).value, 0)
  {
  }

  lemma AddWhole(k: nat, n: Decimal)
    ensures Add(Decimal(k, 0), Times(n, 1)) == Decimal(k * Pow10(n.scale) + n.mantissa, n.scale)
    ensures Add(ZERO, Times(Decimal(k, 0), 86400)) == Decimal(k * 86400, 0)
  {
  }

  /** The components of a time part: their text and their sum. */
  lemma TimeComponents(hours: nat, minutes: nat, seconds: Decimal, k: nat) returns (cs: seq<Component>)
    requires seconds.mantissa >= 0
    ensures AllSensible(cs)
    ensures Render(cs) == Designated(hours, 'H') + Designated(minutes, 'M') + PrintDecimal(seconds) + "S"
    ensures Total(Decimal(k, 0), cs) == Add(Decimal(k + hours * 3600 + minutes * 60, 0), Times(seconds, 1))
  {
    hide Render, Total, PrintDecimal, Designated, Whole, Add, Times;
    var (h, m, s) := (Whole(hours, 'H'), Whole(minutes, 'M'), [Component(seconds, 'S')]);
    var k1 := k + hours * 3600;
    WholeComponent(hours, 'H', k);
    WholeComponent(minutes, 'M', k1);
    OneComponent(s[0], Decimal(k1 + minutes * 60, 0));
    assert AllSensible(s);
    RenderJoined(m, s);
    RenderJoined(h, m + s);
    TotalJoined(m, s, Decimal(k1, 0));
    TotalJoined(h, m + s, Decimal(k, 0));
    cs := h + (m + s);
  }

  /** The time part reads as the whole seconds so far plus its own. */
  lemma ReadsTimeText(p: Parts, scale: nat, k: nat)
    requires TimeText(p, scale) != ""
    ensures var n := Normalize(Decimal(p.rest, scale));
            var whole := k + p.hours * 3600 + p.minutes * 60;
            && TimeText(p, scale)[0] == 'T'
            && ReadTime(TimeText(p, scale)[1..], Decimal(k, 0)) ==
               Ok(Decimal(whole * Pow10(n.scale) + n.mantissa, n.scale))
  {
    hide ReadTime, Render, Total, PrintDecimal, Normalize, Pow10, Designated, Same, Normal, Add, Times;
    var n := Normalize(Decimal(p.rest, scale));
    NormalizeIsNormal(Decimal(p.rest, scale));
    var cs := TimeComponents(p.hours, p.minutes, n, k);
    ReadsComponents(cs, Decimal(k, 0));
    assert TimeText(p, scale)[1..] == Render(cs);
    AddWhole(k + p.hours * 3600 + p.minutes * 60, n);
  }

  /** The day part, and what is left for the time. */
  lemma ReadsDays(days: nat, time: string)
    requires time == "" || time[0] == 'T'
    requires days > 0 || time != ""
    ensures ReadMagnitude(Designated(days, 'D') + time) ==
            if time == "" then Ok(Decimal(days * 86400, 0)) else ReadTime(time[1..], Decimal(days * 86400, 0))
  {
    hide ReadTime, TakeDigits, ParseDecimal, PrintNat, Add;
    AddWhole(days, ZERO);
    if days > 0 {
      TakesNumber(PrintNat(days), 'D', time);
      ParsePrinted(Decimal(days, 0));
      WholeComponent(days, 'H', 0);
      PrintsWhole(days);
    } else {
      TakesNumber("", 'T', time[1..]);
      assert "" + ['T'] + time[1..] == time;
      assert Designated(days, 'D') + time == time;
    }
  }

  lemma PrintsWhole(n: nat)
    ensures PrintDecimal(Decimal(n, 0)) == PrintNat(n)
  {
  }

  /** What `P` is followed by reads back as the magnitude, in normal form. */
  lemma ReadsMagnitude(d: Decimal)
    requires d.mantissa > 0
    ensures ReadMagnitude(Magnitude(d)) == Ok(Normalize(d))
  {
    hide ReadTime, ReadMagnitude, Normalize, Pow10, Designated, PartsOf, PrintDecimal;
    var p := PartsOf(d.mantissa, Pow10(d.scale));
    var time := TimeText(p, d.scale);
    NormalParts(d);
    if time != "" {
      ReadsTimeText(p, d.scale, p.days * 86400);
    }
    ReadsDays(p.days, time);
  }

  /** The normal form of a magnitude from its parts. */
  lemma NormalParts(d: Decimal)
    requires d.mantissa > 0
    ensures var p := PartsOf(d.mantissa, Pow10(d.scale));
            var n := Normalize(Decimal(p.rest, d.scale));
            var whole := p.days * 86400 + p.hours * 3600 + p.minutes * 60;
            && Normalize(d) == Decimal(whole * Pow10(n.scale) + n.mantissa, n.scale)
            && (p.hours == 0 && p.minutes == 0 && p.rest == 0 ==> p.days > 0 && Normalize(d) == Decimal(p.days * 86400, 0))
  {
    hide Normalize, PartsOf, Pow10;
    var p := PartsOf(d.mantissa, Pow10(d.scale));
    var whole := p.days * 86400 + p.hours * 3600 + p.minutes * 60;
    NormalizeWhole(whole, p.rest, d.scale);
    assert d == Decimal(whole * Pow10(d.scale) + p.rest, d.scale);
    if p.rest == 0 {
      NormalizeZero(d.scale);
      NoScale(whole);
    }
  }

  lemma NoScale(k: nat)
    ensures k * Pow10(0) == k
  {
  }

  /** Every duration, printed and read, is the same duration in normal form. */
  lemma RoundTrip(d: Decimal)
    ensures Parse(Text(d)) == Ok(Normalize(d))
    ensures Same(Normalize(d), d)
  {
    hide Normalize, ReadMagnitude, Magnitude, Pow10, Same, Normal;
    NormalizeIsNormal(d);
    if d.mantissa == 0 {
      NormalizeZero(d.scale);
      ReadsZero();
    } else if d.mantissa < 0 {
      var e := Decimal(-d.mantissa, d.scale);
      ReadsMagnitude(e);
      NormalizeNegative(-d.mantissa, d.scale);
      assert Text(d)[2..] == Magnitude(e);
    } else {
      ReadsMagnitude(d);
      assert Text(d)[1..] == Magnitude(d);
    }
  }

  lemma ReadsZero()
    ensures Parse("PT0S") == Ok(ZERO)
  {
    hide ReadTime, TakeDigits;
    TakesNumber("", 'T', "0S");
    assert "PT0S"[1..] == "" + ['T'] + "0S";
    ReadsZeroSeconds();
  }

  lemma ReadsZeroSeconds()
    ensures ReadTime("0S", ZERO) == Ok(ZERO)
  {
    TakesNumber("0", 'S', "");
    assert "0S" == "0" + ['S'] + "";
    assert ParseDecimal("0") == Some(ZERO) by {
      PrintsWhole(0);
      ParsePrinted(ZERO);
    }
  }

  // ---------- the text depends on the value only ----------

  lemma PartsTen(m: nat, u: nat)
    requires u > 0
    ensures PartsOf(10 * m, 10 * u) == PartsOf(m, u).(rest := 10 * PartsOf(m, u).rest)
  {
    hide DivMod;
    var (days, r1) := DivMod(m, 86400 * u);
    var (hours, r2) := DivMod(r1, 3600 * u);
    DivModTen(m, 86400, u);
    DivModTen(r1, 3600, u);
    DivModTen(r2, 60, u);
  }

  lemma MagnitudeTen(m: nat, scale: nat)
    ensures Magnitude(Decimal(10 * m, scale + 1)) == Magnitude(Decimal(m, scale))
  {
    hide PartsOf, PrintDecimal, Designated;
    PartsTen(m, Pow10(scale));
    var p := PartsOf(m, Pow10(scale));
    assert Pow10(scale + 1) == 10 * Pow10(scale);
    NormalizeTen(p.rest, scale);
  }

  lemma NormalizeTen(m: nat, scale: nat)
    ensures Normalize(Decimal(10 * m, scale + 1)) == Normalize(Decimal(m, scale))
  {
  }

  lemma {:induction false} TextOfNormal(d: Decimal)
    ensures Text(Normalize(d)) == Text(d)
    decreases d.scale
  {
    hide Magnitude;
    if d.scale > 0 && d.mantissa % 10 == 0 {
      var e := Decimal(d.mantissa / 10, d.scale - 1);
      TextOfNormal(e);
      if d.mantissa > 0 {
        MagnitudeTen(e.mantissa, e.scale);
      } else if d.mantissa < 0 {
        MagnitudeTen(-e.mantissa, e.scale);
      }
    }
  }

  /** Printing what was read from any accepted input gives a text that reads and prints as itself. */
  lemma PrintingIsAFixedPoint(s: string)
    requires Parse(s).Ok?
    ensures var text := Text(Parse(s).value);
            Parse(text).Ok? && Text(Parse(text).value) == text
  {
    hide Parse, Text;
    RoundTrip(Parse(s).value);
    TextOfNormal(Parse(s).value);
  }
}
