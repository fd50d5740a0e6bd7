/**
 * The rows of the DateTime64(3) text table: what each row ingests as and how it
 * renders back, derived from the general properties of the text functions.
 */
module TextVectors {
  import opened Wrappers
  import opened Decimal
  import opened Calendar
  import opened Ticks
  import opened DateTimeText

  /**
   * At precision 3, a four-digit-year date text, a blank, a time text, '.' and 3 digits
   * ingest and render back unchanged.
   */
  lemma CanonicalRow(d: Date, sod: int, f: string, date: string, clock: string)
    requires ValidDate(d) && 0 <= d.year <= 9999 && 0 <= sod < SecondsPerDay
    requires AllDigits(f) && |f| == 3
    requires DateText(d) == date && ClockText(sod) == clock
    ensures ParseTicks(date + " " + clock + "." + f, 3).Some?
    ensures FormatTicks(ParseTicks(date + " " + clock + "." + f, 3).value, 3) == date + " " + clock + "." + f
  {
    var s := Render(d, sod, f);
    assert s == date + " " + clock + "." + f;
    ParseRender(d, sod, f);
    assert |s| == 23;
    TextTicksFit(s, 3);
    FormatParseRoundTrip(s, 3);
  }

  /** A date text, a blank and a time text parse. */
  lemma WholeSecondsParse(d: Date, sod: int, date: string, clock: string)
    requires ValidDate(d) && 0 <= d.year <= 9999 && 0 <= sod < SecondsPerDay
    requires DateText(d) == date && ClockText(sod) == clock
    ensures ParseText(date + " " + clock).Some?
  {
    assert Render(d, sod, "") == date + " " + clock;
    ParseRender(d, sod, "");
  }

  // Evaluation helpers. Each one states an equality between literal texts of the test
  // table, so that the row lemmas below do not evaluate the text functions on literals
  // inside their own, larger proofs. They model nothing on their own.

  lemma Date1950() ensures DateText(Date(1950, 1, 2)) == "1950-01-02" {
    Year1950(); Month01(); Day02();
  }
  lemma Date1970() ensures DateText(Date(1970, 1, 2)) == "1970-01-02" {
    Year1970(); Month01(); Day02();
  }
  lemma Date2019() ensures DateText(Date(2019, 1, 1)) == "2019-01-01" {
    Year2019(); Month01();
  }
  lemma Date2020() ensures DateText(Date(2020, 1, 2)) == "2020-01-02" {
    Year2020(); Month01(); Day02();
  }
  lemma Year1950() ensures YearText(1950) == "1950" { }
  lemma Year1970() ensures YearText(1970) == "1970" { }
  lemma Year2019() ensures YearText(2019) == "2019" { }
  lemma Year2020() ensures YearText(2020) == "2020" { }
  lemma Month01() ensures Fixed(1, 2) == "01" { }
  lemma Day02() ensures Fixed(2, 2) == "02" { }

  lemma ClockAfternoon() ensures ClockText(54245) == "15:04:05" { }
  lemma ClockMidnight() ensures ClockText(0) == "00:00:00" { }

  lemma JoinedCanonical()
    ensures "1950-01-02" + " " + "15:04:05" + "." + "000" == "1950-01-02 15:04:05.000"
    ensures "2020-01-02" + " " + "15:04:05" + "." + "000" == "2020-01-02 15:04:05.000"
    ensures "2019-01-01" + " " + "00:00:00" + "." + "000" == "2019-01-01 00:00:00.000"
  { }

  lemma JoinedDateOnly()
    ensures "1950-01-02" + " 00:00:00" + "." + "000" == "1950-01-02 00:00:00.000"
    ensures "1950-01-02" + " " + "00:00:00" + "." + "000" == "1950-01-02 00:00:00.000"
  { }

  lemma JoinedWholeSecond()
    ensures "2020-01-02 15:04:05" + "." + "000" == "2020-01-02 15:04:05.000"
    ensures "2020-01-02" + " " + "15:04:05" + "." + "000" == "2020-01-02 15:04:05.000"
  { }

  lemma JoinedFraction()
    ensures "2020-01-02" + " " + "15:04:05" + "." + "322" == "2020-01-02 15:04:05.322"
  { }

  lemma JoinedRejected()
    ensures "1970-01-02" + " " + "15:04:05" == "1970-01-02 15:04:05"
  { }

  lemma JoinedTruncated()
    ensures "2020-01-02 15:04:05" + "." + "9996" == "2020-01-02 15:04:05.9996"
    ensures "2020-01-02" + " " + "15:04:05" + "." + "999" == "2020-01-02 15:04:05.999"
  { }

  lemma ZeroText3() ensures ZeroText(3) == "1970-01-01 00:00:00.000" { }

  lemma TruncatedJoined()
    ensures TruncatedText("2020-01-02 15:04:05", "9996", 3) == "2020-01-02 15:04:05.999"
  {
    assert "9996"[..3] == "999";
  }

  /** Rows already in canonical form render back exactly as written, 1950 (before the epoch) included. */
  lemma CanonicalRowsUnchanged()
    ensures ParseTicks("1950-01-02 15:04:05.000", 3).Some?
    ensures FormatTicks(ParseTicks("1950-01-02 15:04:05.000", 3).value, 3) == "1950-01-02 15:04:05.000"
    ensures ParseTicks("2020-01-02 15:04:05.000", 3).Some?
    ensures FormatTicks(ParseTicks("2020-01-02 15:04:05.000", 3).value, 3) == "2020-01-02 15:04:05.000"
    ensures ParseTicks("2019-01-01 00:00:00.000", 3).Some?
    ensures FormatTicks(ParseTicks("2019-01-01 00:00:00.000", 3).value, 3) == "2019-01-01 00:00:00.000"
  {
    Date1950(); Date2020(); Date2019(); ClockAfternoon(); ClockMidnight();
    CanonicalRow(Date(1950, 1, 2), 54245, "000", "1950-01-02", "15:04:05");
    CanonicalRow(Date(2020, 1, 2), 54245, "000", "2020-01-02", "15:04:05");
    CanonicalRow(Date(2019, 1, 1), 0, "000", "2019-01-01", "00:00:00");
    JoinedCanonical();
  }

  /** A date alone ingests as its midnight. */
  lemma DateOnlyRow()
    ensures ParseTicks("1950-01-02", 3).Some?
    ensures FormatTicks(ParseTicks("1950-01-02", 3).value, 3) == "1950-01-02 00:00:00.000"
  {
    Date1950(); ClockMidnight();
    CanonicalRow(Date(1950, 1, 2), 0, "000", "1950-01-02", "00:00:00");
    JoinedDateOnly();
    MidnightRow("1950-01-02", "1950-01-02 00:00:00.000");
  }

  lemma MidnightRow(date: string, canonical: string)
    requires |date| == 10 && canonical == date + " 00:00:00" + "." + "000"
    ensures ParseTicks(date, 3) == ParseTicks(canonical, 3)
  {
    DateOnlyIsMidnight(date);
    ZeroFractionIgnored(date + " 00:00:00", "000");
  }

  /** A time without fraction renders with p zero digits. */
  lemma WholeSecondRow()
    ensures ParseTicks("2020-01-02 15:04:05", 3).Some?
    ensures FormatTicks(ParseTicks("2020-01-02 15:04:05", 3).value, 3) == "2020-01-02 15:04:05.000"
  {
    Date2020(); ClockAfternoon();
    CanonicalRow(Date(2020, 1, 2), 54245, "000", "2020-01-02", "15:04:05");
    JoinedWholeSecond();
    ZeroFractionRow("2020-01-02 15:04:05", "2020-01-02 15:04:05.000");
  }

  lemma ZeroFractionRow(x: string, canonical: string)
    requires |x| == 19 && canonical == x + "." + "000"
    ensures ParseTicks(x, 3) == ParseTicks(canonical, 3)
  {
    ZeroFractionIgnored(x, "000");
  }

  /** A fraction of exactly p digits is kept. */
  lemma FractionRow()
    ensures ParseTicks("2020-01-02 15:04:05.322", 3).Some?
    ensures FormatTicks(ParseTicks("2020-01-02 15:04:05.322", 3).value, 3) == "2020-01-02 15:04:05.322"
  {
    Date2020(); ClockAfternoon();
    CanonicalRow(Date(2020, 1, 2), 54245, "322", "2020-01-02", "15:04:05");
    JoinedFraction();
  }

  /** The empty string ingests as the epoch. */
  lemma EmptyRow()
    ensures ParseTicks("", 3) == Some(0)
    ensures FormatTicks(0, 3) == "1970-01-01 00:00:00.000"
    ensures FormatTicks(ParseTicks("", 3).value, 3) == "1970-01-01 00:00:00.000"
  {
    ZeroValue(3);
    ZeroText3();
  }

  /** Text after the date that is not a blank is refused; the row before it is accepted. */
  lemma RejectedRow()
    ensures ParseText("1970-01-02 15:04:05").Some?
    ensures ParseText("2020-01-02pp 15:04:05") == None
  {
    Date1970(); ClockAfternoon();
    WholeSecondsParse(Date(1970, 1, 2), 54245, "1970-01-02", "15:04:05");
    JoinedRejected();
    BadSeparator();
  }

  lemma BadSeparator() ensures ParseText("2020-01-02pp 15:04:05") == None {
    var s := "2020-01-02pp 15:04:05";
    assert |s| == 21 && s[10] == 'p';
  }

  /** Fraction digits past the precision are cut off, not rounded: .9996 at precision 3 renders as .999. */
  lemma TruncatedRow()
    ensures ParseTicks("2020-01-02 15:04:05.9996", 3).Some?
    ensures FormatTicks(ParseTicks("2020-01-02 15:04:05.9996", 3).value, 3) == "2020-01-02 15:04:05.999"
  {
    Date2020(); ClockAfternoon();
    CanonicalRow(Date(2020, 1, 2), 54245, "999", "2020-01-02", "15:04:05");
    JoinedTruncated();
    TruncationNotRounding("2020-01-02 15:04:05", "9996", 3);
    TruncatedJoined();
  }
}
