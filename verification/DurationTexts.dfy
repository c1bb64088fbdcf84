/** Which texts the duration reader takes, and for which values; it refuses all others. */
module DurationTexts {
  import opened Wrappers
  import opened Arithmetic
  import opened Decimals
  import opened EdmDurations

  /** A number with its designator. */
  datatype Token = Token(number: string, unit: char)

  ghost predicate TokenOk(t: Token) {
    AllNumeric(t.number) && ParseDecimal(t.number).Some? && t.unit in {'H', 'M', 'S'}
  }

  ghost predicate TokensOk(ts: seq<Token>) {
    forall i :: 0 <= i < |ts| ==> TokenOk(ts[i])
  }

  ghost function Written(ts: seq<Token>): string {
    if ts == [] then "" else ts[0].number + [ts[0].unit] + Written(ts[1..])
  }

  /** The seconds in one hour, minute or second. */
  ghost function SecondsIn(unit: char): int {
    if unit == 'H' then 3600 else if unit == 'M' then 60 else 1
  }

  ghost function Sum(start: Decimal, ts: seq<Token>): Decimal
    requires TokensOk(ts)
    decreases |ts|
  {
    if ts == [] then start
    else
      assert TokenOk(ts[0]);
      Sum(Add(start, Times(ParseDecimal(ts[0].number).value, SecondsIn(ts[0].unit))), ts[1..])
  }

  /** A sign, `P`, a number that stands for days or for nothing, and after a `T` numbers with designators
      in any order and digits that stand for nothing. */
  datatype Lexed = Lexed(negative: bool, number: string, days: bool, time: Option<seq<Token>>, tail: string)

  ghost predicate LexedOk(l: Lexed) {
    && AllNumeric(l.number) && (l.days ==> ParseDecimal(l.number).Some?)
    && (l.days || l.time.Some?)
    && (l.time.Some? ==> TokensOk(l.time.value) && AllNumeric(l.tail))
  }

  ghost function TimePart(l: Lexed): string {
    if l.time.Some? then "T" + (Written(l.time.value) + l.tail) else ""
  }

  ghost function BodyOf(l: Lexed): string {
    if l.days then l.number + ['D'] + TimePart(l) else l.number + TimePart(l)
  }

  ghost function TextOf(l: Lexed): string {
    (if l.negative then "-P" else "P") + BodyOf(l)
  }

  ghost function MagnitudeOf(l: Lexed): Decimal
    requires LexedOk(l)
  {
    var days := if l.days then Times(ParseDecimal(l.number).value, 86400) else ZERO;
    if l.time.None? then days else Sum(if l.days then Add(ZERO, days) else ZERO, l.time.value)
  }

  ghost function ValueOf(l: Lexed): Decimal
    requires LexedOk(l)
  {
    Times(MagnitudeOf(l), if l.negative then -1 else 1)
  }

  // ---------- what is read ----------

  lemma {:induction false} AllTaken(s: string)
    requires AllNumeric(s)
    ensures TakeDigits(s) == (s, None, "")
  {
    if s != "" { AllTaken(s[1..]); }
  }

  lemma {:induction false} ReadsTokens(ts: seq<Token>, tail: string, sum: Decimal)
    requires TokensOk(ts) && AllNumeric(tail)
    ensures ReadTime(Written(ts) + tail, sum) == Ok(Sum(sum, ts))
    decreases |ts|
  {
    hide TakeDigits, Add, Times, ParseDecimal;
    if ts == [] {
      assert Written(ts) + tail == tail;
      AllTaken(tail);
    } else {
      var rest := Written(ts[1..]) + tail;
      assert TokenOk(ts[0]);
      assert Written(ts) + tail == ts[0].number + [ts[0].unit] + rest;
      TakesNumber(ts[0].number, ts[0].unit, rest);
      ReadsTokens(ts[1..], tail, Add(sum, Times(ParseDecimal(ts[0].number).value, SecondsIn(ts[0].unit))));
    }
  }

  lemma ReadsBody(l: Lexed)
    requires LexedOk(l)
    ensures ReadMagnitude(BodyOf(l)) == Ok(MagnitudeOf(l))
  {
    hide TakeDigits, Add, Times, ParseDecimal, ReadTime, Sum, Written;
    var time := TimePart(l);
    if l.time.Some? {
      ReadsTokens(l.time.value, l.tail, if l.days then Add(ZERO, Times(ParseDecimal(l.number).value, 86400)) else ZERO);
      assert time[0] == 'T' && time[1..] == Written(l.time.value) + l.tail;
    }
    if l.days {
      TakesNumber(l.number, 'D', time);
    } else {
      TakesNumber(l.number, 'T', time[1..]);
      assert BodyOf(l) == l.number + ['T'] + time[1..];
    }
  }

  /** Every such text is read, as the value it stands for. */
  lemma ReadsDuration(l: Lexed)
    requires LexedOk(l)
    ensures Parse(TextOf(l)) == Ok(ValueOf(l))
  {
    hide ReadMagnitude, BodyOf, MagnitudeOf;
    ReadsBody(l);
    var s := TextOf(l);
    assert if l.negative then s[2..] == BodyOf(l) else s[1..] == BodyOf(l);
  }

  // ---------- nothing else is ----------

  lemma DigitsCut(s: string)
    ensures var (number, next, rest) := TakeDigits(s);
            AllNumeric(number) && s == if next.Some? then number + [next.value] + rest else number
  {
  }

  lemma {:induction false} TokensRead(s: string, sum: Decimal) returns (ts: seq<Token>, tail: string)
    requires ReadTime(s, sum).Ok?
    ensures TokensOk(ts) && AllNumeric(tail) && s == Written(ts) + tail
    decreases |s|
  {
    hide ParseDecimal, Add, Times, TakeDigits;
    var (number, unit, rest) := TakeDigits(s);
    DigitsCut(s);
    if unit.None? {
      ts, tail := [], s;
    } else {
      var more;
      more, tail := TokensRead(rest, Add(sum, Times(ParseDecimal(number).value, Weight(unit.value).value)));
      var t := Token(number, unit.value);
      ts := [t] + more;
      Longer(t, more);
    }
  }

  lemma Longer(t: Token, ts: seq<Token>)
    requires TokenOk(t) && TokensOk(ts)
    ensures TokensOk([t] + ts) && Written([t] + ts) == t.number + [t.unit] + Written(ts)
  {
    assert ([t] + ts)[1..] == ts;
  }

  lemma BodyRead(s: string, negative: bool) returns (l: Lexed)
    requires ReadMagnitude(s).Ok?
    ensures LexedOk(l) && BodyOf(l) == s && l.negative == negative
  {
    hide ReadTime, ParseDecimal, Add, Times, Written, TokensOk, TakeDigits;
    var (number, next, rest) := TakeDigits(s);
    DigitsCut(s);
    if next == Some('T') {
      var ts, tail := TokensRead(rest, ZERO);
      l := Lexed(negative, number, false, Some(ts), tail);
      Designator(number, 'T', rest);
    } else if rest == "" {
      l := Lexed(negative, number, true, None, "");
    } else {
      var ts, tail := TokensRead(rest[1..], Add(ZERO, Times(ParseDecimal(number).value, 86400)));
      l := Lexed(negative, number, true, Some(ts), tail);
      assert rest == "T" + rest[1..];
    }
  }

  lemma Designator(number: string, c: char, rest: string)
    ensures number + [c] + rest == number + ([c] + rest)
  {
  }

  /** A text is read if and only if it has this form; every other one is refused as invalid. */
  lemma ReadsExactlyDurations(s: string)
    ensures Parse(s).Ok? <==> exists l :: LexedOk(l) && s == TextOf(l)
    ensures Parse(s).Err? ==> Parse(s) == Err(InvalidEdmDuration)
  {
    hide ReadMagnitude, LexedOk, BodyOf;
    if Parse(s).Err? {
      match Parse(s).error
      case InvalidEdmDuration =>
    } else {
      var negative := s[0] == '-';
      var l := BodyRead(if negative then s[2..] else s[1..], negative);
      assert s == TextOf(l);
    }
    forall l | LexedOk(l) && s == TextOf(l) ensures Parse(s).Ok? {
      ReadsDuration(l);
    }
  }

  // ---------- what numbers mean ----------

  lemma PointIs(a: string, b: string)
    requires AllDigits(a) && AllNumeric(b)
    ensures var s := a + ("." + b);
            AllNumeric(s) && Point(s) == |a| && |s| == |a| + 1 + |b| && s[..|a|] == a && s[|a| + 1..] == b
  {
    PointAfterDigits(a, "." + b);
  }

  lemma DigitsAlone(a: string)
    requires AllDigits(a)
    ensures AllNumeric(a) && Point(a) == |a|
  {
    PointAfterDigits(a, "");
    assert a + "" == a;
  }

  /** A number is digits, or digits around one point, with at least one digit; its fraction keeps its
      digits. */
  lemma NumbersRead(a: string, b: string)
    requires AllDigits(a) && AllDigits(b)
    ensures AllNumeric(a) && ParseDecimal(a) == if a == "" then None else Some(Decimal(Value(a), 0))
    ensures AllNumeric(a + ("." + b))
    ensures ParseDecimal(a + ("." + b)) ==
            if a == "" && b == "" then None else Some(Decimal(Value(a) * Pow10(|b|) + Value(b), |b|))
  {
    hide Value, Pow10, Point;
    DigitsAlone(a);
    assert a[..|a|] == a;
    PointIs(a, b);
    ValueConcat(a, b);
  }

  /** Two points make no number. */
  lemma TwoPoints(a: string, b: string)
    requires AllDigits(a) && AllNumeric(b) && '.' in b
    ensures AllNumeric(a + ("." + b)) && ParseDecimal(a + ("." + b)) == None
  {
    hide Value, Point;
    PointIs(a, b);
  }

  lemma DigitsMean()
    ensures Value("0") == 0 && Value("1") == 1 && Value("2") == 2 && Value("3") == 3 && Value("4") == 4
    ensures Value("5") == 5 && Value("6") == 6 && Value("7") == 7 && Value("8") == 8 && Value("9") == 9
  {
  }

  /** Adding decimals of any two scales is exact: a / u + b / v == c / w, multiplied out. */
  lemma AddIsExact(a: Decimal, b: Decimal)
    ensures var (c, u, v) := (Add(a, b), Pow10(a.scale), Pow10(b.scale));
            c.mantissa * (u * v) == (a.mantissa * v + b.mantissa * u) * Pow10(c.scale)
  {
    hide Pow10;
    var s := Max(a.scale, b.scale);
    Pow10Adds(a.scale, s - a.scale);
    Pow10Adds(b.scale, s - b.scale);
    MultipliedOut(a.mantissa, b.mantissa, Pow10(a.scale), Pow10(b.scale), Pow10(s - a.scale), Pow10(s - b.scale), Pow10(s));
  }

  lemma MultipliedOut(a: int, b: int, u: int, v: int, x: int, y: int, w: int)
    requires w == u * x && w == v * y
    ensures (a * x + b * y) * (u * v) == (a * v + b * u) * w
  {
    assert (a * x) * (u * v) == (a * v) * (u * x);
    assert (b * y) * (u * v) == (b * u) * (v * y);
  }

  // ---------- what is written ----------

  ghost function TextOfParts(days: nat, hours: nat, minutes: nat, seconds: Decimal): string
    requires seconds.mantissa >= 0
  {
    "P" + ((if days > 0 then PrintNat(days) + "D" else "")
           + if hours == 0 && minutes == 0 && seconds.mantissa == 0 then ""
             else "T" + (if hours > 0 then PrintNat(hours) + "H" else "")
                  + (if minutes > 0 then PrintNat(minutes) + "M" else "") + PrintDecimal(seconds) + "S")
  }

  ghost function Minutes(p: Parts): nat { p.days * 1440 + p.hours * 60 + p.minutes }

  lemma InMinutes(p: Parts, u: nat)
    ensures (p.days * 86400 + p.hours * 3600 + p.minutes * 60) * u == Minutes(p) * (60 * u)
  {
    assert p.days * 86400 + p.hours * 3600 + p.minutes * 60 == Minutes(p) * 60;
    MulAssociative(Minutes(p), 60, u);
  }

  lemma MinutesOf(m: nat, u: nat)
    requires u > 0
    ensures PartsOf(m, u).rest < 60 * u && m == Minutes(PartsOf(m, u)) * (60 * u) + PartsOf(m, u).rest
  {
    hide PartsOf, Minutes;
    InMinutes(PartsOf(m, u), u);
  }

  lemma SameMinutes(p: Parts, q: Parts)
    requires p.hours < 24 && p.minutes < 60 && q.hours < 24 && q.minutes < 60
    ensures Minutes(p) == Minutes(q) && p.rest == q.rest ==> p == q
  {
    hide DivMod;
    Split(p);
    Split(q);
  }

  lemma Split(p: Parts)
    requires p.hours < 24 && p.minutes < 60
    ensures DivMod(Minutes(p), 1440) == (p.days, p.hours * 60 + p.minutes)
    ensures DivMod(p.hours * 60 + p.minutes, 60) == (p.hours, p.minutes)
  {
    Unique(Minutes(p), 1440, p.days, p.hours * 60 + p.minutes);
    Unique(p.hours * 60 + p.minutes, 60, p.hours, p.minutes);
  }

  /** The parts are the only ones within their bounds. */
  lemma OnlyParts(m: nat, u: nat, q: Parts)
    requires u > 0 && q.hours < 24 && q.minutes < 60 && q.rest < 60 * u && m == Minutes(q) * (60 * u) + q.rest
    ensures PartsOf(m, u) == q
  {
    hide PartsOf, Minutes, DivMod;
    MinutesOf(m, u);
    Unique(m, 60 * u, Minutes(q), q.rest);
    Unique(m, 60 * u, Minutes(PartsOf(m, u)), PartsOf(m, u).rest);
    SameMinutes(PartsOf(m, u), q);
  }

  /** A duration of that many days, hours below 24, minutes below 60 and normal seconds below 60 is written
      as those numbers, without those that are zero but for the seconds of a time part. */
  lemma WritesParts(days: nat, hours: nat, minutes: nat, seconds: Decimal)
    requires hours < 24 && minutes < 60 && 0 <= seconds.mantissa < 60 * Pow10(seconds.scale) && Normal(seconds)
    requires days > 0 || hours > 0 || minutes > 0 || seconds.mantissa > 0
    ensures var whole := days * 86400 + hours * 3600 + minutes * 60;
            Text(Decimal(whole * Pow10(seconds.scale) + seconds.mantissa, seconds.scale)) ==
            TextOfParts(days, hours, minutes, seconds)
  {
    hide PartsOf, PrintNat, PrintDecimal, Pow10, Normalize, Text, TextOfParts, Minutes;
    var u := Pow10(seconds.scale);
    var whole := days * 86400 + hours * 3600 + minutes * 60;
    var d := Decimal(whole * u + seconds.mantissa, seconds.scale);
    var p := Parts(days, hours, minutes, seconds.mantissa);
    InMinutes(p, u);
    OnlyParts(d.mantissa, u, p);
    Positive(whole, u, seconds.mantissa);
    Normalized(seconds);
    WrittenParts(d, p, seconds);
  }

  lemma Positive(whole: nat, u: nat, rest: nat)
    requires u > 0 && (whole > 0 || rest > 0)
    ensures whole * u + rest > 0
  {
    if whole > 0 { MulMonotone(1, whole, u); }
  }

  lemma Normalized(d: Decimal)
    requires Normal(d)
    ensures Normalize(d) == d
  {
  }

  lemma WrittenParts(d: Decimal, p: Parts, seconds: Decimal)
    requires d.mantissa > 0 && PartsOf(d.mantissa, Pow10(d.scale)) == p
    requires seconds == Decimal(p.rest, d.scale) && Normalize(seconds) == seconds
    ensures Text(d) == TextOfParts(p.days, p.hours, p.minutes, seconds)
  {
    hide PartsOf, PrintNat, PrintDecimal, Pow10, Normalize;
  }
}
