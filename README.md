# DateTime64(p) column data store

This is a Dafny model of the ClickHouse `DateTime64(p)` column of the Go driver's column-data layer. A column has a precision `p` between 0 and 9. It keeps a fixed buffer of `capacity` signed 64-bit tick counts, and the first `length` of them are materialised. One tick is `10^(9-p)` nanoseconds, and tick 0 is 1970-01-01 00:00:00.

The column does the following:
- It is created from a type name such as `DateTime64(3)` and a capacity, by a fallible factory or by the infallible `MustMakeColumnData`.
- It appends batches of text rows. Each row is one of:
  - the empty string, which becomes the epoch;
  - `YYYY-MM-DD`, read as midnight;
  - `YYYY-MM-DD HH:MM:SS`;
  - the same with `.` and 1 to 9 fraction digits. Digits past `p` are truncated, never rounded.
- It appends batches of native values: time instants, or values of any other kind.
- Both kinds of batch stop at the first row that cannot be converted. The rows before it are kept, and the count and the error name that row.
- It projects element `i` as `YYYY-MM-DD HH:MM:SS` followed by exactly `p` fraction digits. There is no `.` at `p = 0`.
- It writes its ticks to an encoder. It reads `capacity` ticks back from a decoder into a fresh column.
- It reports `Len`, `Zero` and `ZeroString`, and it is closed with `Close`.

The implementation file of the column is not part of this model. The behaviour modelled is the one the column's tests in `driver/lib/data/column/datetime64_test.go` assert. Where the tests are silent, the choices are these:
- The year is printed as Go prints it: at least four digits, with `-` before a negative year.
- The calendar is the proleptic Gregorian one.
- Ticks are split into seconds and a remainder by floor division.
- A product that leaves the 64-bit range wraps around, as a Go `int64` does.

Files:
- `wrappers.dfy`: `Option`, `Result` and the error kinds.
- `arith.dfy`: division facts and powers of ten.
- `decimal.dfy`: digit strings.
- `int64.dfy`: the 64-bit range and wrap-around.
- `calendar.dfy`: civil dates and days since the epoch.
- `ticks.dfy`: instants and tick counts.
- `text.dfy`: the text grammar and the canonical text.
- `typename.dfy`: the type-name parser.
- `ingest.dfy`: batch semantics with partial progress.
- `column.dfy`: the column and the tick stream.
- `vectors.dfy`: the text rows of the tests.
- `scenarios.dfy`: the test scenarios as a whole.

## Model

| member | source | states |
|---|---|---|
| TypeName.ParseTypeNameCharacterised | driver/lib/data/column/datetime64_test.go:63 | A type name is accepted exactly when it is `DateTime64(` + a non-empty digit string denoting at most 9 + `)`, and the precision is the value of those digits; every other name is a TypeDescriptorError |
| TypeName.TypeNameRoundTrip | driver/lib/data/column/datetime64_test.go:63 | The name `DateTime64(p)` of every precision p parses back to p |
| TypeName.PrecisionAboveNineRefused | driver/lib/data/column/datetime64_test.go:63 | A precision of 10 or more is refused, however many digits it has |
| TypeName.TestTypeNames | driver/lib/data/column/datetime64_test.go:127 | `DateTime64(3)` and `DateTime64(6)`, the names the tests use, give precisions 3 and 6 |
| TypeName.ParseTypeName | driver/lib/data/column/datetime64_test.go:63 | The type-name parser used by both factories: every name it refuses gives a TypeDescriptorError; which names it accepts, and with what precision, is characterised by ParseTypeNameCharacterised and TypeNameRoundTrip |
| TypeName.Find | driver/lib/data/column/datetime64_test.go:63 | Finds the first `(` of a type name: the index holds the character and no earlier index does; None when it is absent |
| Calendar.DaysFromCivil | driver/lib/data/column/datetime64_test.go:28-30 | A valid date's day number since 1970-01-01 lies within the span of its own year, for years before and after 1970; it is inverted by CivilFromDays (CivilFromDaysFromCivil) and is injective (DaysFromCivilInjective) |
| Calendar.CivilFromDays | driver/lib/data/column/datetime64_test.go:28-30 | Every day number, before or after 1970, is the day number of a valid civil date |
| Calendar.YearAndDay | driver/lib/data/column/datetime64_test.go:28-30 | The 400/100/4/1-year decomposition finds the year a day falls in and a day of that year within its length |
| Calendar.MonthOf | driver/lib/data/column/datetime64_test.go:28-30 | The month found contains the day of the year |
| Calendar.CivilFromDaysFromCivil | driver/lib/data/column/datetime64_test.go:28-30 | A valid date converted to days since the epoch and back is the same date; 1950 is included |
| Calendar.DaysFromCivilInjective | driver/lib/data/column/datetime64_test.go:28-30 | Two valid dates with the same day number are equal |
| Calendar.YearStartNext | driver/lib/data/column/datetime64_test.go:28-30 | Consecutive years start a year's length of days apart |
| Calendar.YearStartMono | driver/lib/data/column/datetime64_test.go:28-30 | Year starts increase with the year |
| Calendar.FourDigitYearDays | driver/lib/data/column/datetime64_test.go:28-30 | Dates with a four-digit year lie between day -719528 (0000-01-01) and day 2932896 (9999-12-31) |
| Int64.Wrap | driver/lib/data/column/datetime64_test.go:108 | The wrapped value is in the int64 range, congruent to the input modulo 2^64, and equal to it when the input already fits |
| Ticks.ToTicks | driver/lib/data/column/datetime64_test.go:104-113 | An instant's tick count is an int64, and it is seconds × 10^p + nanoseconds / 10^(9-p) whenever that fits |
| Ticks.FromTicks | driver/lib/data/column/datetime64_test.go:76-79 | The instant a tick count stands for has no sub-tick nanoseconds (truncating it changes nothing); TicksRoundTrip and InstantRoundTrip make it the inverse of ToTicks |
| Ticks.TicksRoundTrip | driver/lib/data/column/datetime64_test.go:76-79 | Every int64 tick count comes back from the instant it stands for |
| Ticks.InstantRoundTrip | driver/lib/data/column/datetime64_test.go:104-113 | An instant whose tick count fits comes back from that count truncated to whole ticks |
| Ticks.ToTicksOfTruncate | driver/lib/data/column/datetime64_test.go:104-113 | Truncating an instant to whole ticks does not change its tick count |
| DateTimeText.ParseText | driver/lib/data/column/datetime64_test.go:25-66 | The row grammar: the empty row is the epoch; the accepted forms are characterised by AcceptedForms, ParseRender, RenderOfParse and DateOnlyIsMidnight |
| DateTimeText.AcceptedForms | driver/lib/data/column/datetime64_test.go:25-66 | An accepted non-empty row is a date (10 characters), a date and time (19), or a date and time with `.` and 1 to 9 digits, and its instant falls on the day its date part names |
| DateTimeText.ParseTicks | driver/lib/data/column/datetime64_test.go:65 | A row is accepted exactly when it parses to an instant, and its tick count is an int64 |
| DateTimeText.ParseRender | driver/lib/data/column/datetime64_test.go:37-39 | Parsing the rendering of a four-digit-year date, a time of day and a fraction gives back the instant they stand for |
| DateTimeText.RenderOfParse | driver/lib/data/column/datetime64_test.go:37-39 | Every accepted text with a time of day is the rendering of the date, time and fraction it parses to |
| DateTimeText.ParseDateText | driver/lib/data/column/datetime64_test.go:37 | `YYYY-MM-DD` of a four-digit-year date parses back to that date |
| DateTimeText.ParseClockText | driver/lib/data/column/datetime64_test.go:38 | `HH:MM:SS` of a second of the day parses back to that second |
| DateTimeText.DateTextOfParse | driver/lib/data/column/datetime64_test.go:37 | An accepted `YYYY-MM-DD` is the text of the date it parses to |
| DateTimeText.ClockTextOfParse | driver/lib/data/column/datetime64_test.go:38 | An accepted `HH:MM:SS` is the text of the second it parses to |
| DateTimeText.ClockFields | driver/lib/data/column/datetime64_test.go:38 | Hours, minutes and seconds of a second of the day are in range and add back up to it |
| DateTimeText.FormatTicks | driver/lib/data/column/datetime64_test.go:76-79 | The projection of a tick count is at least the canonical length for p, and exactly it when the year has four digits; characterised by FormatOfFields, ParseFormatRoundTrip and FormatParseRoundTrip |
| DateTimeText.DateTextLength | driver/lib/data/column/datetime64_test.go:76-79 | A date's text has ten characters when its year has four digits, and never fewer |
| DateTimeText.ParseFormatRoundTrip | driver/lib/data/column/datetime64_test.go:76-79 | Formatting any int64 tick count whose year has four digits and parsing the text back at the same precision gives the tick count again |
| DateTimeText.InstantOfFields | driver/lib/data/column/datetime64_test.go:76-79 | A tick count's instant is the one its formatted date, time of day and fraction digits stand for |
| DateTimeText.FormatParseRoundTrip | driver/lib/data/column/datetime64_test.go:25-33 | A text in canonical form for p (exactly p fraction digits) comes back unchanged from parsing and formatting, whenever its tick count fits in 64 bits |
| DateTimeText.FormatOfFields | driver/lib/data/column/datetime64_test.go:25-33 | A tick count whose instant is made of a date, a time of day and p digits formats as them |
| DateTimeText.FormatFieldsRoundTrip | driver/lib/data/column/datetime64_test.go:25-33 | Fields with exactly p fraction digits survive the trip through their tick count |
| DateTimeText.NanosOfFraction | driver/lib/data/column/datetime64_test.go:39 | p fraction digits are whole ticks, and truncating to ticks keeps them |
| DateTimeText.ZeroValue | driver/lib/data/column/datetime64_test.go:43-51 | Tick 0 renders as `1970-01-01 00:00:00` with p zero digits, and both the empty text and that text ingest as tick 0 |
| DateTimeText.ZeroFormat | driver/lib/data/column/datetime64_test.go:48 | Tick 0 formats as the zero text |
| DateTimeText.EpochText | driver/lib/data/column/datetime64_test.go:48 | Day 0 is 1970-01-01, and second 0 of the day renders as `00:00:00` |
| DateTimeText.DateOnlyIsMidnight | driver/lib/data/column/datetime64_test.go:37-39 | A date alone parses exactly as that date at `00:00:00` |
| DateTimeText.ParseWithFraction | driver/lib/data/column/datetime64_test.go:38-39 | Adding `.` and 1 to 9 digits to a date and time changes only the nanoseconds |
| DateTimeText.ZeroFractionIgnored | driver/lib/data/column/datetime64_test.go:38-39 | Fraction digits that are all zeros change nothing |
| DateTimeText.TicksOfLongFraction | driver/lib/data/column/datetime64_test.go:39 | With more digits than p, the ticks are the first p digits |
| DateTimeText.TruncationNotRounding | driver/lib/data/column/datetime64_test.go:39 | A fraction longer than p ingests as the same tick count as that fraction cut to p digits (truncation, no carry) |
| DateTimeText.TextTicksFit | driver/lib/data/column/datetime64_test.go:65 | Up to precision 7, every accepted text has a tick count inside the int64 range |
| Ingestion.IngestTexts | driver/lib/data/column/datetime64_test.go:53-59 | A text batch keeps the ticks of its longest parsing prefix and names the first row that does not parse, with its index |
| Ingestion.IngestValues | driver/lib/data/column/datetime64_test.go:114-123 | A value batch keeps the ticks of its longest prefix of instants and names the first other value's index as a TypeMismatch |
| Ingestion.TextOutcomeUnique | driver/lib/data/column/datetime64_test.go:53-59 | The outcome of a text batch is determined by that characterisation |
| Ingestion.ValueOutcomeUnique | driver/lib/data/column/datetime64_test.go:114-123 | The outcome of a value batch is determined by that characterisation |
| Ingestion.TextsContinue | driver/lib/data/column/datetime64_test.go:65 | A fully ingested prefix followed by a parsing row ingests in full, with that row's ticks appended |
| Ingestion.TextsStopAt | driver/lib/data/column/datetime64_test.go:53-59 | A fully ingested prefix followed by a bad row decides the whole batch: that prefix's ticks and a TimeParseError naming the row |
| Ingestion.ValuesContinue | driver/lib/data/column/datetime64_test.go:128 | A prefix of instants followed by one more instant ingests in full |
| Ingestion.ValuesStopAt | driver/lib/data/column/datetime64_test.go:114-123 | A prefix of instants followed by another kind of value decides the whole batch, with a TypeMismatch at its index |
| Ingestion.AllTextsParse | driver/lib/data/column/datetime64_test.go:70-73 | A text batch raises no error exactly when every row parses |
| Column.TickStream.constructor | driver/lib/data/column/datetime64_test.go:180-182 | A new stream is empty |
| Column.TickStream.Write | driver/lib/data/column/datetime64_test.go:194 | Writing a word appends it at the end of the stream |
| Column.TickStream.Read | driver/lib/data/column/datetime64_test.go:199 | Reading takes the front word off the stream, or gives None when the stream is empty |
| Column.DateTime64ColumnData.constructor | driver/lib/data/column/datetime64_test.go:63 | A new column has the given precision and capacity and no elements |
| Column.DateTime64ColumnData.Append | driver/lib/data/column/datetime64_test.go:65 | Storing a tick in the next free slot appends it to the ticks |
| Column.DateTime64ColumnData.ReadFromTexts | driver/lib/data/column/datetime64_test.go:65-73 | The ticks become the old ticks followed by the batch's ingested ticks; the count and the error are the batch outcome's |
| Column.DateTime64ColumnData.ReadFromValues | driver/lib/data/column/datetime64_test.go:128-135 | The ticks become the old ticks followed by the value batch's ingested ticks; the count and the error are that outcome's |
| Column.DateTime64ColumnData.GetString | driver/lib/data/column/datetime64_test.go:76-79 | Element i projects to text exactly when i < Len, otherwise OutOfRange(i); a four-digit-year element's text parses back to its tick count |
| Column.DateTime64ColumnData.Len | driver/lib/data/column/datetime64_test.go:207 | The length is the number of ticks and at most the capacity |
| Column.DateTime64ColumnData.Zero | driver/lib/data/column/datetime64_test.go:208 | The zero value is the instant of tick 0 at the column's precision |
| Column.DateTime64ColumnData.ZeroString | driver/lib/data/column/datetime64_test.go:209 | The zero string is the zero text of the precision; it and the empty text both ingest as tick 0 |
| Column.DateTime64ColumnData.WriteToEncoder | driver/lib/data/column/datetime64_test.go:194 | The stream gains the column's ticks, in element order |
| Column.DateTime64ColumnData.ReadFromDecoder | driver/lib/data/column/datetime64_test.go:198-199 | The contents become the first `capacity` words of the stream; a shorter stream gives UnexpectedEndOfStream and keeps the words read |
| Column.DateTime64ColumnData.Close | driver/lib/data/column/datetime64_test.go:210-211 | Closing marks the column closed and keeps its ticks |
| Column.ProjectionOfContents | driver/lib/data/column/datetime64_test.go:76-79 | A materialised element projects to the canonical text of its tick count at the column's precision |
| Column.SameTicksSameStrings | driver/lib/data/column/datetime64_test.go:201-205 | Two columns of one precision with the same ticks project the same text at every index |
| Column.MakeColumnData | driver/lib/data/column/datetime64_test.go:63 | A bad type name gives its TypeDescriptorError; a good one gives a fresh empty open column of that precision and capacity |
| Column.MustMakeColumnData | driver/lib/data/column/datetime64_test.go:185 | For a valid type name, a fresh empty open column of that precision and capacity |
| TextVectors.CanonicalRow | driver/lib/data/column/datetime64_test.go:28-30 | At precision 3, a four-digit-year date, a time and 3 digits ingest and render back unchanged |
| TextVectors.CanonicalRowsUnchanged | driver/lib/data/column/datetime64_test.go:28-30 | `1950-01-02 15:04:05.000`, `2020-01-02 15:04:05.000` and `2019-01-01 00:00:00.000` render back unchanged |
| TextVectors.DateOnlyRow | driver/lib/data/column/datetime64_test.go:37-39 | `1950-01-02` renders as `1950-01-02 00:00:00.000` |
| TextVectors.MidnightRow | driver/lib/data/column/datetime64_test.go:37-39 | At precision 3, a date alone ingests as that date at midnight with `.000` |
| TextVectors.WholeSecondRow | driver/lib/data/column/datetime64_test.go:37-39 | `2020-01-02 15:04:05` renders as `2020-01-02 15:04:05.000` |
| TextVectors.ZeroFractionRow | driver/lib/data/column/datetime64_test.go:37-39 | At precision 3, a date and time ingest as they do with `.000` appended |
| TextVectors.FractionRow | driver/lib/data/column/datetime64_test.go:37-39 | `2020-01-02 15:04:05.322` keeps `.322` |
| TextVectors.EmptyRow | driver/lib/data/column/datetime64_test.go:46-48 | The empty row is tick 0 and renders as `1970-01-01 00:00:00.000` |
| TextVectors.RejectedRow | driver/lib/data/column/datetime64_test.go:55 | `1970-01-02 15:04:05` is accepted and `2020-01-02pp 15:04:05` is refused |
| TextVectors.TruncatedRow | driver/lib/data/column/datetime64_test.go:39 | `2020-01-02 15:04:05.9996` at precision 3 renders as `.999`, with no carry into the seconds |
| Scenarios.RowsRenderAs | driver/lib/data/column/datetime64_test.go:75-80 | A batch whose rows each parse and render as the wanted texts is ingested in full and renders so, element by element |
| Scenarios.ThreeRowsRenderAs | driver/lib/data/column/datetime64_test.go:75-80 | The same, for three rows given one by one |
| Scenarios.CanonicalBatch | driver/lib/data/column/datetime64_test.go:25-33 | The canonical batch is ingested in full (3 rows, no error), and each element renders as its input |
| Scenarios.MixedFormBatch | driver/lib/data/column/datetime64_test.go:34-42 | The three text forms are ingested in full and render in canonical form |
| Scenarios.EmptyRowBatch | driver/lib/data/column/datetime64_test.go:43-51 | An empty first row becomes `1970-01-01 00:00:00.000`, and the rows after it keep their own values |
| Scenarios.MalformedRowBatch | driver/lib/data/column/datetime64_test.go:53-59 | The malformed second row stops the batch after one row, with a TimeParseError naming that row and index 1 |
| Scenarios.InstantBatch | driver/lib/data/column/datetime64_test.go:104-113 | Both instants are appended (count 2, no error); `time.Unix(0, -9e17)` is tick -900000000000000 at precision 6 |
| Scenarios.MismatchBatch | driver/lib/data/column/datetime64_test.go:114-123 | An instant followed by `123` appends one tick and reports a TypeMismatch at index 1 |
| Scenarios.CopyThroughStream | driver/lib/data/column/datetime64_test.go:194-199 | Encoding a full column and decoding into a fresh column of the same type and capacity reproduces its ticks |
| Scenarios.EncoderDecoderRoundTrip | driver/lib/data/column/datetime64_test.go:180-211 | The original has precision p and holds exactly the ticks the batch semantics gives for the texts; after the trip through the stream the copy has precision p and the same ticks, projects element i as the canonical text of the i-th ingested tick, and agrees with the original on Len, GetString, Zero and ZeroString; both are closed; the error case is exactly a row that does not parse |
| Scenarios.CopyProjections | driver/lib/data/column/datetime64_test.go:201-205 | A copy with the same ticks and precision projects every element as the original does, namely as the canonical text of its tick count |
| Scenarios.CopyRendersAs | driver/lib/data/column/datetime64_test.go:185-205 | For a batch that renders as want at precision 3, every row is read and the decoded copy projects element i as want[i] |
| Scenarios.MixedFormCopy | driver/lib/data/column/datetime64_test.go:34-42 | The mixed-form rows read back from the stream as `1950-01-02 00:00:00.000`, `2020-01-02 15:04:05.000` and `2020-01-02 15:04:05.322` |

## Left out

- Time zones: instants are naive pairs of seconds since the epoch and nanoseconds, and text is read and written in one fixed offset.
- `time.Now()`: it is a parameter of the lemmas that use it.
- The byte layout of the encoder and decoder, and `bytes.Buffer`: the wire is a sequence of int64 words shared by writer and reader.
- sdk/param/param.go: it holds connection-option names only and is not part of this model.
- Go's `interface{}` dispatch over other column types: the factory knows only `DateTime64(p)`, and a native value is either an instant or a value of another kind.
- Timezone arguments in type names (`DateTime64(3, 'UTC')`) and blanks inside the parentheses are refused, not parsed.
- Column.MustMakeColumnData: its panic on a bad name is a precondition.
- Column.DateTime64ColumnData.GetString: an index past the length is reported as OutOfRange, a choice of this model. Its round trip back to the element is stated only for elements whose year has four digits, for the reason given under ParseFormatRoundTrip.
- Column.DateTime64ColumnData.ReadFromTexts: the batch must fit the capacity (`length + |texts| <= capacity`), a precondition every call in the tests meets. The same holds for ReadFromValues.
- Column.DateTime64ColumnData.WriteToEncoder: the error a failing writer would return is not modelled, since the stream cannot fail.
- Column.DateTime64ColumnData.Close: releasing the buffer is not modelled. Closing sets a flag, always succeeds, and leaves the contents readable.
- DateTimeText.ParseFormatRoundTrip: it is stated only for tick counts whose year has four digits (0 to 9999). Other years print with more digits or a sign, and the text grammar does not read those back.
- DateTimeText.FormatParseRoundTrip: it needs the tick count to fit in 64 bits. At precision 8 and 9, far years overflow and wrap, as a Go int64 does.
