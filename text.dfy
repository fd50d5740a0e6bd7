/**
 * The text forms of a DateTime64(p) value: the three accepted input forms plus
 * the empty string, and the canonical output form YYYY-MM-DD HH:MM:SS[.f...]
 * with exactly p fractional digits.
 */
module DateTimeText {
  import opened Wrappers
  import opened Arith
  import opened Int64
  import opened Decimal
  import opened Calendar
  import opened Ticks

  const SecondsPerDay: int := 86400

  /** YYYY-MM-DD with a real calendar day, or None. */
  function ParseDate(t: string): Option<Date>
    requires |t| == 10
  {
    if AllDigits(t[..4]) && t[4] == '-' && AllDigits(t[5..7]) && t[7] == '-' && AllDigits(t[8..]) then
      var d := Date(Value(t[..4]), Value(t[5..7]), Value(t[8..]));
      if ValidDate(d) then Some(d) else None
    else
      None
  }

  /** HH:MM:SS with hour <= 23, minute <= 59 and second <= 59, as seconds of the day, or None. */
  function ParseClock(t: string): Option<int>
    requires |t| == 8
  {
    if AllDigits(t[..2]) && t[2] == ':' && AllDigits(t[3..5]) && t[5] == ':' && AllDigits(t[6..]) then
      var h, m, s := Value(t[..2]), Value(t[3..5]), Value(t[6..]);
      if h <= 23 && m <= 59 && s <= 59 then Some(3600 * h + 60 * m + s) else None
    else
      None
  }

  /** The nanoseconds a fraction of 1 to 9 digits stands for: the digits padded on the right to nine. */
  function FractionNanos(f: string): (n: Nanos)
    requires AllDigits(f) && 1 <= |f| <= 9
  {
    ValueBound(f);
    Pow10Add(|f|, 9 - |f|);
    assert Pow10(9) == 1_000_000_000;
    ScaledBelow(Value(f), Pow10(|f|), Pow10(9 - |f|), Pow10(9));
    Value(f) * Pow10(9 - |f|)
  }

  /** What follows HH:MM:SS: nothing, or '.' and 1 to 9 digits, as nanoseconds; None otherwise. */
  function ParseFraction(tail: string): Option<Nanos>
  {
    if tail == [] then Some(0)
    else if tail[0] == '.' && 2 <= |tail| <= 10 && AllDigits(tail[1..]) then Some(FractionNanos(tail[1..]))
    else None
  }

  /**
   * One text row as an instant: "" is the epoch; otherwise YYYY-MM-DD (midnight),
   * YYYY-MM-DD HH:MM:SS, or YYYY-MM-DD HH:MM:SS.f with 1 to 9 fraction digits.
   * Anything else is None.
   */
  function ParseText(s: string): (r: Option<Instant>)
    ensures s == [] ==> r == Some(Instant(0, 0))
  {
    if s == [] then Some(Instant(0, 0))
    else if |s| == 10 then
      match ParseDate(s)
      case None => None
      case Some(d) => Some(Instant(DaysFromCivil(d) * SecondsPerDay, 0))
    else if |s| < 19 || s[10] != ' ' then None
    else
      match (ParseDate(s[..10]), ParseClock(s[11..19]), ParseFraction(s[19..]))
      case (Some(d), Some(sod), Some(n)) => Some(Instant(DaysFromCivil(d) * SecondsPerDay + sod, n))
      case _ => None
  }

  /** One text row as a tick count at precision p, or None when it is malformed. */
  function ParseTicks(s: string, p: Precision): (r: Option<int>)
    ensures r.Some? ==> IsInt64(r.value)
    ensures r.Some? <==> ParseText(s).Some?
  {
    match ParseText(s)
    case None => None
    case Some(i) => Some(ToTicks(i, p))
  }

  /** A year as Go prints it: at least four digits, with a minus sign before a negative year. */
  function YearText(y: int): string
  {
    if y < 0 then "-" + AtLeast(-y, 4) else AtLeast(y, 4)
  }

  /** YYYY-MM-DD. */
  function DateText(d: Date): string
    requires ValidDate(d)
  {
    YearText(d.year) + "-" + Fixed(d.month, 2) + "-" + Fixed(d.day, 2)
  }

  /** HH:MM:SS of a second of the day. */
  function ClockText(sod: int): (r: string)
    requires 0 <= sod < SecondsPerDay
    ensures |r| == 8
  {
    Fixed(sod / 3600, 2) + ":" + Fixed(sod / 60 % 60, 2) + ":" + Fixed(sod % 60, 2)
  }

  /** The canonical text of a date, a second of the day and fraction digits (no '.' when there are none). */
  function Render(d: Date, sod: int, fraction: string): string
    requires ValidDate(d) && 0 <= sod < SecondsPerDay
  {
    DateText(d) + " " + ClockText(sod) + (if fraction == [] then "" else "." + fraction)
  }

  /** The fraction digits of a tick count at precision p: exactly p digits. */
  function FractionDigits(t: int, p: Precision): (f: string)
    ensures |f| == p && AllDigits(f)
  {
    Fixed(t % Scale(p), p)
  }

  /** A date's text has ten characters when its year has four digits, and never fewer. */
  lemma DateTextLength(d: Date)
    requires ValidDate(d)
    ensures |DateText(d)| >= 10
    ensures 0 <= d.year <= 9999 ==> |DateText(d)| == 10
  {
    if 0 <= d.year <= 9999 {
      AtLeastIsFixed(d.year, 4);
    }
  }

  /** A tick count as text: t / 10^p whole seconds since the epoch, then t % 10^p as p digits. */
  function FormatTicks(t: int, p: Precision): (s: string)
    ensures |s| >= CanonicalLength(p)
    ensures 0 <= YearOfTicks(t, p) <= 9999 ==> |s| == CanonicalLength(p)
  {
    var seconds := t / Scale(p);
    DateTextLength(CivilFromDays(seconds / SecondsPerDay));
    Render(CivilFromDays(seconds / SecondsPerDay), seconds % SecondsPerDay, FractionDigits(t, p))
  }

  /** The calendar year a tick count falls in. */
  function YearOfTicks(t: int, p: Precision): int
  {
    CivilFromDays(t / Scale(p) / SecondsPerDay).year
  }

  /** The length of the canonical text at precision p. */
  function CanonicalLength(p: Precision): nat
  {
    if p == 0 then 19 else 20 + p
  }

  /** The instant the fields of a canonical text stand for. */
  function FieldsInstant(d: Date, sod: int, fraction: string): Instant
    requires ValidDate(d) && AllDigits(fraction) && |fraction| <= 9
  {
    Instant(DaysFromCivil(d) * SecondsPerDay + sod, if fraction == [] then 0 else FractionNanos(fraction))
  }

  lemma ParseDateText(d: Date)
    requires ValidDate(d) && 0 <= d.year <= 9999
    ensures |DateText(d)| == 10 && ParseDate(DateText(d)) == Some(d)
  {
    var t, ys := DateText(d), YearText(d.year);
    AtLeastIsFixed(d.year, 4);
    assert t[..4] == ys && t[5..7] == Fixed(d.month, 2) && t[8..] == Fixed(d.day, 2);
    ValueOfFixed(d.year, 4);
    ValueOfFixed(d.month, 2);
    ValueOfFixed(d.day, 2);
  }

  lemma ParseClockText(sod: int)
    requires 0 <= sod < SecondsPerDay
    ensures ParseClock(ClockText(sod)) == Some(sod)
  {
    ClockFields(sod);
    ParseClockOfFields(sod / 3600, sod / 60 % 60, sod % 60);
  }

  /** Hour, minute and second written as two digits each, separated by ':', parse back to their second of the day. */
  lemma ParseClockOfFields(h: nat, m: nat, s: nat)
    requires h <= 23 && m <= 59 && s <= 59
    ensures ParseClock(Fixed(h, 2) + ":" + Fixed(m, 2) + ":" + Fixed(s, 2)) == Some(3600 * h + 60 * m + s)
  {
    ValueOfFixed(h, 2);
    ValueOfFixed(m, 2);
    ValueOfFixed(s, 2);
    ParseClockOfDigits(Fixed(h, 2) + ":" + Fixed(m, 2) + ":" + Fixed(s, 2), Fixed(h, 2), Fixed(m, 2), Fixed(s, 2), h, m, s);
  }

  /** Two-digit hour, minute and second fields separated by ':' parse to the second of the day they denote. */
  lemma ParseClockOfDigits(t: string, hh: string, mm: string, ss: string, h: int, m: int, s: int)
    requires |hh| == 2 && |mm| == 2 && |ss| == 2 && AllDigits(hh) && AllDigits(mm) && AllDigits(ss)
    requires Value(hh) == h <= 23 && Value(mm) == m <= 59 && Value(ss) == s <= 59
    requires t == hh + ":" + mm + ":" + ss
    ensures ParseClock(t) == Some(3600 * h + 60 * m + s)
  {
    assert t[..2] == hh && t[3..5] == mm && t[6..] == ss;
    assert t[2] == ':' && t[5] == ':';
    ParseClockOfParts(t, h, m, s);
  }

  lemma ParseClockOfParts(t: string, h: int, m: int, s: int)
    requires |t| == 8 && t[2] == ':' && t[5] == ':'
    requires AllDigits(t[..2]) && AllDigits(t[3..5]) && AllDigits(t[6..])
    requires Value(t[..2]) == h <= 23 && Value(t[3..5]) == m <= 59 && Value(t[6..]) == s <= 59
    ensures ParseClock(t) == Some(3600 * h + 60 * m + s)
  {
  }

  /** Hours, minutes and seconds of a second of the day are in range and add back up to it. */
  lemma ClockFields(sod: int)
    requires 0 <= sod < SecondsPerDay
    ensures 0 <= sod / 3600 <= 23 && 0 <= sod / 60 % 60 <= 59 && 0 <= sod % 60 <= 59
    ensures 3600 * (sod / 3600) + 60 * (sod / 60 % 60) + sod % 60 == sod
  {
    var h, m, s := sod / 3600, sod / 60 % 60, sod % 60;
    var mm := sod / 60;
    assert sod == 60 * mm + s;
    assert mm == 60 * (mm / 60) + m;
    DivModUnique(sod, 3600, mm / 60, 60 * m + s);
  }

  /** Rendering a four-digit-year date, a time of day and a fraction, then parsing, recovers them. */
  lemma ParseRender(d: Date, sod: int, fraction: string)
    requires ValidDate(d) && 0 <= d.year <= 9999 && 0 <= sod < SecondsPerDay
    requires AllDigits(fraction) && |fraction| <= 9
    ensures ParseText(Render(d, sod, fraction)) == Some(FieldsInstant(d, sod, fraction))
  {
    var s := Render(d, sod, fraction);
    ParseDateText(d);
    var tail := if fraction == [] then "" else "." + fraction;
    assert s[..10] == DateText(d) && s[10] == ' ' && s[11..19] == ClockText(sod) && s[19..] == tail by {
      assert s == DateText(d) + " " + ClockText(sod) + tail;
    }
    ParseClockText(sod);
    ParseOfPieces(s, d, sod, fraction);
  }

  /** A text whose date, ' ', time of day and fraction tail each parse, parses to the instant they make up. */
  lemma ParseOfPieces(s: string, d: Date, sod: int, f: string)
    requires |s| >= 19 && s[10] == ' ' && ParseDate(s[..10]) == Some(d) && ParseClock(s[11..19]) == Some(sod)
    requires AllDigits(f) && |f| <= 9 && s[19..] == (if f == [] then "" else "." + f)
    ensures ParseText(s) == Some(FieldsInstant(d, sod, f))
  {
    if f != [] {
      assert s[19..][1..] == f;
    }
  }

  lemma DateTextOfParse(t: string)
    requires |t| == 10 && ParseDate(t).Some?
    ensures var d := ParseDate(t).value; 0 <= d.year <= 9999 && DateText(d) == t
  {
    var d := ParseDate(t).value;
    ValueBound(t[..4]);
    FixedOfValue(t[..4]);
    FixedOfValue(t[5..7]);
    FixedOfValue(t[8..]);
    AtLeastIsFixed(d.year, 4);
    assert t == t[..4] + "-" + t[5..7] + "-" + t[8..];
  }

  lemma ClockTextOfParse(t: string)
    requires |t| == 8 && ParseClock(t).Some?
    ensures var sod := ParseClock(t).value; 0 <= sod < SecondsPerDay && ClockText(sod) == t
  {
    var sod := ParseClock(t).value;
    var h, m, s := Value(t[..2]), Value(t[3..5]), Value(t[6..]);
    DivModUnique(sod, 3600, h, 60 * m + s);
    DivModUnique(sod, 60, 60 * h + m, s);
    DivModUnique(60 * h + m, 60, h, m);
    FixedOfValue(t[..2]);
    FixedOfValue(t[3..5]);
    FixedOfValue(t[6..]);
    assert t == t[..2] + ":" + t[3..5] + ":" + t[6..];
  }

  /** The fraction digits of a text with a time of day; empty when there are none. */
  function FractionField(s: string): string
  {
    if |s| <= 20 then [] else s[20..]
  }

  /** Every parsable text with a time of day is the rendering of the fields it parses to. */
  lemma RenderOfParse(s: string)
    requires |s| >= 19 && ParseText(s).Some?
    ensures ParseDate(s[..10]).Some? && ParseClock(s[11..19]).Some?
    ensures var d, sod, f := ParseDate(s[..10]).value, ParseClock(s[11..19]).value, FractionField(s);
      0 <= d.year <= 9999 && 0 <= sod < SecondsPerDay && AllDigits(f) && |f| <= 9 &&
      Render(d, sod, f) == s && ParseText(s) == Some(FieldsInstant(d, sod, f))
  {
    assert s[10] == ' ' && ParseDate(s[..10]).Some? && ParseClock(s[11..19]).Some? && ParseFraction(s[19..]).Some?;
    var d, sod, f := ParseDate(s[..10]).value, ParseClock(s[11..19]).value, FractionField(s);
    var tail := s[19..];
    assert ParseFraction(tail) == Some(FieldsInstant(d, sod, f).nanos) by {
      if |s| > 19 {
        assert |s| > 20 && tail[1..] == f;
      }
    }
    assert ParseText(s) == Some(FieldsInstant(d, sod, f));
    DateTextOfParse(s[..10]);
    ClockTextOfParse(s[11..19]);
    RenderOfPieces(s, d, sod, f);
  }

  /** A text made of a date, ' ', a time of day and, when there is more, '.' and the fraction, is their rendering. */
  lemma RenderOfPieces(s: string, d: Date, sod: int, f: string)
    requires |s| >= 19 && ValidDate(d) && 0 <= sod < SecondsPerDay
    requires DateText(d) == s[..10] && s[10] == ' ' && ClockText(sod) == s[11..19]
    requires |s| == 19 ==> f == []
    requires |s| > 19 ==> |s| > 20 && s[19] == '.' && f == s[20..]
    ensures Render(d, sod, f) == s
  {
    var tail := if f == [] then "" else "." + f;
    assert s[19..] == tail by {
      if |s| > 19 {
        assert s[19..] == "." + f;
      }
    }
    assert Render(d, sod, f) == DateText(d) + " " + ClockText(sod) + tail;
    assert s == s[..10] + " " + s[11..19] + s[19..];
  }

  /** p fraction digits stand for whole ticks: their value times the nanoseconds of a tick. */
  lemma NanosOfFraction(f: string, p: Precision)
    requires 0 < p && AllDigits(f) && |f| == p
    ensures FractionNanos(f) == Value(f) * TickNanos(p)
    ensures Truncate(Instant(0, FractionNanos(f)), p).nanos == FractionNanos(f)
  {
    MulDivCancel(Value(f), TickNanos(p));
  }

  /**
   * Formatting a tick count and parsing the text back at the same precision gives the
   * tick count again, for every 64-bit tick count whose year has four digits.
   */
  lemma ParseFormatRoundTrip(t: int, p: Precision)
    requires IsInt64(t) && 0 <= YearOfTicks(t, p) <= 9999
    ensures ParseTicks(FormatTicks(t, p), p) == Some(t)
  {
    var seconds := t / Scale(p);
    var d, sod, f := CivilFromDays(seconds / SecondsPerDay), seconds % SecondsPerDay, FractionDigits(t, p);
    assert FormatTicks(t, p) == Render(d, sod, f);
    ParseRender(d, sod, f);
    InstantOfFields(t, p);
    TicksRoundTrip(t, p);
  }

  /** The instant of a tick count is the one its date, time of day and fraction digits stand for. */
  lemma InstantOfFields(t: int, p: Precision)
    ensures var seconds := t / Scale(p);
      FromTicks(t, p) == FieldsInstant(CivilFromDays(seconds / SecondsPerDay), seconds % SecondsPerDay, FractionDigits(t, p))
  {
    var S := Scale(p);
    var seconds := t / S;
    var d, sod := CivilFromDays(seconds / SecondsPerDay), seconds % SecondsPerDay;
    assert DaysFromCivil(d) * SecondsPerDay + sod == seconds;
    if p > 0 {
      ValueOfFixed(t % S, p);
      NanosOfFraction(FractionDigits(t, p), p);
    }
  }

  /** A tick count whose instant is made of a date, a time of day and p fraction digits renders as them. */
  lemma FormatOfFields(t: int, p: Precision, d: Date, sod: int, f: string)
    requires ValidDate(d) && 0 <= sod < SecondsPerDay && AllDigits(f) && |f| == p
    requires FromTicks(t, p) == FieldsInstant(d, sod, f)
    ensures FormatTicks(t, p) == Render(d, sod, f)
  {
    var S := Scale(p);
    DivModUnique(t / S, SecondsPerDay, DaysFromCivil(d), sod);
    CivilFromDaysFromCivil(d);
    if p > 0 {
      NanosOfFraction(f, p);
      FractionFromNanos(t % S, Value(f), p);
      FixedOfValue(f);
    }
    assert FractionDigits(t, p) == f;
  }

  /** Fields with exactly p fraction digits survive the trip through their tick count. */
  lemma FormatFieldsRoundTrip(d: Date, sod: int, f: string, p: Precision)
    requires ValidDate(d) && 0 <= sod < SecondsPerDay && AllDigits(f) && |f| == p
    requires IsInt64(ExactTicks(FieldsInstant(d, sod, f), p))
    ensures FormatTicks(ToTicks(FieldsInstant(d, sod, f), p), p) == Render(d, sod, f)
  {
    var i := FieldsInstant(d, sod, f);
    if p > 0 {
      NanosOfFraction(f, p);
    }
    assert Truncate(i, p) == i;
    InstantRoundTrip(i, p);
    FormatOfFields(ToTicks(i, p), p, d, sod, f);
  }

  /**
   * A text in canonical form for precision p (a time of day and exactly p fraction
   * digits) is reproduced by parsing and formatting it, whenever its tick count fits
   * in 64 bits.
   */
  lemma FormatParseRoundTrip(s: string, p: Precision)
    requires |s| == CanonicalLength(p) && ParseText(s).Some?
    requires IsInt64(ExactTicks(ParseText(s).value, p))
    ensures FormatTicks(ParseTicks(s, p).value, p) == s
  {
    RenderOfParse(s);
    var d, sod, f := ParseDate(s[..10]).value, ParseClock(s[11..19]).value, FractionField(s);
    assert |f| == p;
    FormatFieldsRoundTrip(d, sod, f, p);
    assert ParseTicks(s, p).value == ToTicks(FieldsInstant(d, sod, f), p);
  }

  lemma FractionFromNanos(r: int, v: int, p: Precision)
    requires r * TickNanos(p) == v * TickNanos(p)
    ensures r == v
  {
    if r < v {
      MulMono(TickNanos(p), r + 1, v);
    } else if v < r {
      MulMono(TickNanos(p), v + 1, r);
    }
  }

  /** The canonical text of the zero value, 1970-01-01 00:00:00 with p zero fraction digits. */
  function ZeroText(p: Precision): string
  {
    "1970-01-01 00:00:00" + (if p == 0 then "" else "." + Fixed(0, p))
  }

  /**
   * The zero value: tick 0 renders as ZeroText(p), and the empty string and that text
   * both ingest as tick 0.
   */
  lemma ZeroValue(p: Precision)
    ensures FormatTicks(0, p) == ZeroText(p)
    ensures ParseTicks("", p) == Some(0) && ParseTicks(ZeroText(p), p) == Some(0)
  {
    ZeroFormat(p);
    EpochText();
    ParseFormatRoundTrip(0, p);
  }

  lemma ZeroFormat(p: Precision)
    ensures FormatTicks(0, p) == ZeroText(p)
  {
    var epoch, f := Date(1970, 1, 1), Fixed(0, p);
    ValueOfFixed(0, p);
    assert DaysFromCivil(epoch) == 0;
    assert FromTicks(0, p) == Instant(0, 0) == FieldsInstant(epoch, 0, f);
    FormatOfFields(0, p, epoch, 0, f);
    ZeroTextIsRender(p);
  }

  lemma ZeroTextIsRender(p: Precision)
    ensures ZeroText(p) == Render(Date(1970, 1, 1), 0, Fixed(0, p))
  {
    EpochText();
    EpochJoined();
    var f := Fixed(0, p);
    assert Render(Date(1970, 1, 1), 0, f) == DateText(Date(1970, 1, 1)) + " " + ClockText(0) + (if f == [] then "" else "." + f);
  }

  lemma EpochJoined()
    ensures "1970-01-01" + " " + "00:00:00" == "1970-01-01 00:00:00"
  {
  }

  /** Day 0 is 1970-01-01 and second 0 of the day is 00:00:00. */
  lemma EpochText()
    ensures CivilFromDays(0) == Date(1970, 1, 1)
    ensures DateText(Date(1970, 1, 1)) == "1970-01-01" && ClockText(0) == "00:00:00"
  {
    EpochDay();
    EpochDateText();
    MidnightClockText();
  }

  /** Day 0 is 1970-01-01. */
  lemma EpochDay()
    ensures CivilFromDays(0) == Date(1970, 1, 1)
  {
    var epoch := Date(1970, 1, 1);
    assert DaysFromCivil(epoch) == 0;
    CivilFromDaysFromCivil(epoch);
  }

  /** The text of 1970-01-01. */
  lemma EpochDateText()
    ensures DateText(Date(1970, 1, 1)) == "1970-01-01"
  {
    AtLeastIsFixed(1970, 4);
  }

  /** The text of second 0 of the day. */
  lemma MidnightClockText()
    ensures ClockText(0) == "00:00:00"
  {
  }

  /**
   * An accepted non-empty row is a date, a date and time, or a date and time with 1 to 9
   * fraction digits, and its instant falls on the day its first ten characters name.
   */
  lemma AcceptedForms(s: string)
    requires s != [] && ParseText(s).Some?
    ensures |s| == 10 || |s| == 19 || (21 <= |s| <= 29 && s[19] == '.')
    ensures ParseDate(s[..10]).Some?
    ensures ParseText(s).value.seconds / SecondsPerDay == DaysFromCivil(ParseDate(s[..10]).value)
  {
    if |s| == 10 {
      assert s[..10] == s;
      var d := ParseDate(s).value;
      DivideSplit(DaysFromCivil(d) * SecondsPerDay, DaysFromCivil(d), 0, SecondsPerDay);
    } else {
      assert |s| >= 19 && ParseDate(s[..10]).Some? && ParseClock(s[11..19]).Some? && ParseFraction(s[19..]).Some?;
      if |s| > 19 {
        assert s[19..][0] == s[19];
      }
      var d, sod := ParseDate(s[..10]).value, ParseClock(s[11..19]).value;
      DivideSplit(DaysFromCivil(d) * SecondsPerDay + sod, DaysFromCivil(d), sod, SecondsPerDay);
    }
  }

  /** A date alone is read as midnight of that date. */
  lemma DateOnlyIsMidnight(s: string)
    requires |s| == 10
    ensures ParseText(s) == ParseText(s + " 00:00:00")
  {
    var s' := s + " 00:00:00";
    assert s'[..10] == s && s'[11..19] == "00:00:00" && s'[19..] == [];
    ValueOfZeros("00");
    assert "00:00:00"[..2] == "00" && "00:00:00"[3..5] == "00" && "00:00:00"[6..] == "00";
    assert ParseClock("00:00:00") == Some(0);
  }

  /** Appending '.' and 1 to 9 digits to a date and time sets the nanoseconds and nothing else. */
  lemma ParseWithFraction(x: string, f: string)
    requires |x| == 19 && AllDigits(f) && 1 <= |f| <= 9
    ensures ParseText(x + "." + f) ==
      match ParseText(x)
      case None => None
      case Some(i) => Some(Instant(i.seconds, FractionNanos(f)))
  {
    var s := x + "." + f;
    assert s[..10] == x[..10] && s[10] == x[10] && s[11..19] == x[11..19];
    assert s[19..] == "." + f && ("." + f)[1..] == f;
    assert x[19..] == [];
  }

  /** Fraction digits that are all zeros change nothing. */
  lemma ZeroFractionIgnored(x: string, z: string)
    requires |x| == 19 && 1 <= |z| <= 9
    requires forall k :: 0 <= k < |z| ==> z[k] == '0'
    ensures ParseText(x + "." + z) == ParseText(x)
  {
    ValueOfZeros(z);
    ParseWithFraction(x, z);
    if ParseText(x).Some? {
      assert ParseText(x).value.nanos == 0;
    }
  }

  /** The text left when the fraction f is cut to p digits (and the '.' dropped when p is 0). */
  function TruncatedText(x: string, f: string, p: Precision): string
    requires p <= |f|
  {
    if p == 0 then x else x + "." + f[..p]
  }

  /** Fraction digits beyond the first p fall below one tick and are dropped. */
  lemma TicksOfLongFraction(f: string, p: Precision)
    requires AllDigits(f) && p < |f| <= 9
    ensures AllDigits(f[..p]) && FractionNanos(f) / TickNanos(p) == Value(f[..p])
  {
    LeadingDigits(f, p);
    NanosPerTick(f, p);
  }

  /** The first k digits of a digit string are its value divided by 10 to the number of the others. */
  lemma LeadingDigits(f: string, k: nat)
    requires AllDigits(f) && k <= |f|
    ensures AllDigits(f[..k]) && Value(f) / Pow10(|f| - k) == Value(f[..k])
  {
    ValueSplit(f, k);
    ValueBound(f[k..]);
    DivideSplit(Value(f), Value(f[..k]), Value(f[k..]), Pow10(|f| - k));
  }

  /** Dividing the nanoseconds of a fraction into ticks drops the digits past the precision. */
  lemma NanosPerTick(f: string, p: Precision)
    requires AllDigits(f) && p < |f| <= 9
    ensures FractionNanos(f) / TickNanos(p) == Value(f) / Pow10(|f| - p)
  {
    var v, high, low := Value(f), Pow10(|f| - p), Pow10(9 - |f|);
    Pow10Add(|f| - p, 9 - |f|);
    DivScaled(v, high, low, FractionNanos(f), TickNanos(p));
  }

  /**
   * Digits beyond the precision are truncated, never rounded: a text with a longer
   * fraction ingests as the same tick count as the text with its fraction cut to p digits.
   */
  lemma TruncationNotRounding(x: string, f: string, p: Precision)
    requires |x| == 19 && AllDigits(f) && p < |f| <= 9
    ensures ParseTicks(x + "." + f, p) == ParseTicks(TruncatedText(x, f, p), p)
  {
    ParseWithFraction(x, f);
    var cut := f[..p];
    var n1 := FractionNanos(f);
    assert n1 / TickNanos(p) == Value(cut) by { TicksOfLongFraction(f, p); }
    var n2: Nanos := if p == 0 then 0 else FractionNanos(cut);
    assert n2 / TickNanos(p) == Value(cut) by {
      if p == 0 {
        assert cut == [];
      } else {
        NanosOfFraction(cut, p);
        MulDivCancel(Value(cut), TickNanos(p));
      }
    }
    if p > 0 {
      ParseWithFraction(x, cut);
    }
    match ParseText(x)
    case None =>
    case Some(i) =>
      assert i.nanos == 0;
      assert ParseText(TruncatedText(x, f, p)) == Some(Instant(i.seconds, n2));
      SameTickCount(i.seconds, n1, n2, p);
  }

  lemma SameTickCount(seconds: int, n1: Nanos, n2: Nanos, p: Precision)
    requires n1 / TickNanos(p) == n2 / TickNanos(p)
    ensures ToTicks(Instant(seconds, n1), p) == ToTicks(Instant(seconds, n2), p)
  {
    assert ExactTicks(Instant(seconds, n1), p) == ExactTicks(Instant(seconds, n2), p);
  }

  /** Up to precision 7 every accepted text has a tick count that fits in 64 bits. */
  lemma TextTicksFit(s: string, p: Precision)
    requires p <= 7 && ParseText(s).Some?
    ensures IsInt64(ExactTicks(ParseText(s).value, p))
  {
    var i := ParseText(s).value;
    var S := Scale(p);
    Pow10Mono(p, 7);
    assert -62167219200 <= i.seconds < 253402300800 by {
      if |s| == 10 {
        assert s[..10] == s;
        DateTextOfParse(s);
        FourDigitYearDays(ParseDate(s).value);
      } else if |s| >= 19 {
        RenderOfParse(s);
        FourDigitYearDays(ParseDate(s[..10]).value);
      }
    }
    MulBounds(i.seconds, -62167219200, 253402300800, S, 10000000);
    assert 0 <= i.nanos / TickNanos(p) < S by {
      ScaleTimesTickNanos(p);
      DivBelow(i.nanos, S, TickNanos(p));
    }
  }
}
