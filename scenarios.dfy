/**
 * The column behaviours the DateTime64 tests assert: whole batches of text rows and of
 * native values, the partial count on a bad row, and the trip through the encoder and
 * decoder into a fresh column.
 */
module Scenarios {
  import opened Wrappers
  import opened Ticks
  import opened DateTimeText
  import opened TypeName
  import opened Ingestion
  import opened Column
  import opened TextVectors

  /** The batch is appended in full and element k renders as want[k]. */
  ghost predicate RendersAs(texts: seq<string>, p: Precision, want: seq<string>)
  {
    var r := IngestTexts(texts, p);
    r.error.None? && |r.ticks| == |want| &&
    forall k :: 0 <= k < |want| ==> FormatTicks(r.ticks[k], p) == want[k]
  }

  /** A batch renders as want when each of its rows, taken alone, parses and renders as the matching entry. */
  lemma RowsRenderAs(texts: seq<string>, p: Precision, want: seq<string>)
    requires |texts| == |want|
    requires forall k :: 0 <= k < |texts| ==> ParseTicks(texts[k], p).Some?
    requires forall k :: 0 <= k < |texts| ==> FormatTicks(ParseTicks(texts[k], p).value, p) == want[k]
    ensures RendersAs(texts, p, want)
  {
    AllTextsParse(texts, p);
  }

  /** Three rows that each render as their entry of want render so as a batch. */
  lemma ThreeRowsRenderAs(a: string, b: string, c: string, p: Precision, want: seq<string>)
    requires |want| == 3
    requires ParseTicks(a, p).Some? && FormatTicks(ParseTicks(a, p).value, p) == want[0]
    requires ParseTicks(b, p).Some? && FormatTicks(ParseTicks(b, p).value, p) == want[1]
    requires ParseTicks(c, p).Some? && FormatTicks(ParseTicks(c, p).value, p) == want[2]
    ensures RendersAs([a, b, c], p, want)
  {
    var texts := [a, b, c];
    forall k | 0 <= k < 3
      ensures ParseTicks(texts[k], p).Some? && FormatTicks(ParseTicks(texts[k], p).value, p) == want[k]
    {
      if k == 0 { assert texts[k] == a; } else if k == 1 { assert texts[k] == b; } else { assert texts[k] == c; }
    }
    RowsRenderAs(texts, p, want);
  }

  /** Canonical rows render back unchanged, and the count is the number of rows. */
  lemma CanonicalBatch(texts: seq<string>)
    requires texts == ["1950-01-02 15:04:05.000", "2020-01-02 15:04:05.000", "2019-01-01 00:00:00.000"]
    ensures RendersAs(texts, 3, texts)
  {
    CanonicalRowsUnchanged();
    ThreeRowsRenderAs(texts[0], texts[1], texts[2], 3, texts);
    assert [texts[0], texts[1], texts[2]] == texts;
  }

  /** The three accepted forms are normalised to the canonical one. */
  lemma MixedFormBatch(texts: seq<string>, want: seq<string>)
    requires texts == ["1950-01-02", "2020-01-02 15:04:05", "2020-01-02 15:04:05.322"]
    requires want == ["1950-01-02 00:00:00.000", "2020-01-02 15:04:05.000", "2020-01-02 15:04:05.322"]
    ensures RendersAs(texts, 3, want)
  {
    DateOnlyRow();
    WholeSecondRow();
    FractionRow();
    ThreeRowsRenderAs(texts[0], texts[1], texts[2], 3, want);
    assert [texts[0], texts[1], texts[2]] == texts;
  }

  /** An empty row becomes the epoch and the rows after it keep their own values. */
  lemma EmptyRowBatch(texts: seq<string>, want: seq<string>)
    requires texts == ["", "1950-01-02 15:04:05.000", "2020-01-02 15:04:05.000"]
    requires want == ["1970-01-01 00:00:00.000", "1950-01-02 15:04:05.000", "2020-01-02 15:04:05.000"]
    ensures RendersAs(texts, 3, want)
  {
    EmptyRow();
    CanonicalRowsUnchanged();
    ThreeRowsRenderAs(texts[0], texts[1], texts[2], 3, want);
    assert [texts[0], texts[1], texts[2]] == texts;
  }

  /** A malformed second row stops the batch after one row, with the error naming that row. */
  lemma MalformedRowBatch()
    ensures |IngestTexts(["1970-01-02 15:04:05", "2020-01-02pp 15:04:05"], 3).ticks| == 1
    ensures IngestTexts(["1970-01-02 15:04:05", "2020-01-02pp 15:04:05"], 3).error ==
      Some(TimeParseError("2020-01-02pp 15:04:05", 1))
  {
    RejectedRow();
    var texts := ["1970-01-02 15:04:05", "2020-01-02pp 15:04:05"];
    var r := Ingested([ParseTicks(texts[0], 3).value], Some(TimeParseError(texts[1], 1)));
    TextOutcomeUnique(texts, 3, r);
  }

  /** Two instants, however far before the epoch, are both appended; the first one's ticks are exact. */
  lemma InstantBatch(now: Instant)
    ensures IngestValues([Time(Instant(-900_000_000, 0)), Time(now)], 6) ==
      Ingested([-900_000_000_000_000, ToTicks(now, 6)], None)
  {
    var values := [Time(Instant(-900_000_000, 0)), Time(now)];
    assert ExactTicks(Instant(-900_000_000, 0), 6) == -900_000_000_000_000;
    ValueOutcomeUnique(values, 6, Ingested([-900_000_000_000_000, ToTicks(now, 6)], None));
  }

  /** A value that is not an instant stops the batch after the instant before it. */
  lemma MismatchBatch(now: Instant)
    ensures IngestValues([Time(now), Other], 6) == Ingested([ToTicks(now, 6)], Some(TypeMismatch(1)))
  {
    ValueOutcomeUnique([Time(now), Other], 6, Ingested([ToTicks(now, 6)], Some(TypeMismatch(1))));
  }

  /**
   * Fills a DateTime64(p) column of capacity |texts| from texts, writes it to a stream and
   * reads it back into a fresh column of the same type and capacity, then closes both.
   */
  method EncoderDecoderRoundTrip(p: Precision, texts: seq<string>)
    returns (original: DateTime64ColumnData, copy: DateTime64ColumnData, n: nat, err: Option<Error>)
    ensures err.None? <==> forall k :: 0 <= k < |texts| ==> ParseTicks(texts[k], p).Some?
    ensures original.Valid() && n == |IngestTexts(texts, p).ticks|
    ensures original.precision == p && original.Contents() == IngestTexts(texts, p).ticks
    ensures err.None? ==> copy.Valid() && copy.precision == p && copy.Contents() == original.Contents()
    ensures err.None? ==>
      forall i: nat :: i < |texts| ==> copy.GetString(i) == Ok(FormatTicks(IngestTexts(texts, p).ticks[i], p))
    ensures err.None? ==> copy.Valid() && original.raw != copy.raw
    ensures err.None? ==>
      n == |texts| && copy.Len() == original.Len() == |texts| &&
      (forall i: nat :: i < |texts| ==> copy.GetString(i) == original.GetString(i)) &&
      copy.Zero() == original.Zero() && copy.ZeroString() == original.ZeroString() &&
      original.closed && copy.closed
  {
    TypeNameRoundTrip(p);
    original := MustMakeColumnData(TypeNameOf(p), |texts|);
    n, err := original.ReadFromTexts(texts);
    AllTextsParse(texts, p);
    copy := original;
    if err.Some? {
      return;
    }
    copy := CopyThroughStream(original);
    original.Close();
    copy.Close();
    CopyProjections(original, copy, IngestTexts(texts, p).ticks);
  }

  /** A copy holding the same ticks at the same precision projects every element as the original does. */
  lemma CopyProjections(original: DateTime64ColumnData, copy: DateTime64ColumnData, ticks: seq<int>)
    requires original.Valid() && copy.Valid() && copy.precision == original.precision
    requires original.Contents() == ticks && copy.Contents() == ticks
    ensures forall i: nat :: i < |ticks| ==>
      copy.GetString(i) == original.GetString(i) && copy.GetString(i) == Ok(FormatTicks(ticks[i], copy.precision))
  {
    forall i: nat | i < |ticks|
      ensures copy.GetString(i) == original.GetString(i)
      ensures copy.GetString(i) == Ok(FormatTicks(ticks[i], copy.precision))
    {
      SameTicksSameStrings(copy, original, i);
      ProjectionOfContents(copy, i);
    }
  }

  /**
   * The encoder-decoder test on a batch that renders as want at precision 3: every row
   * is read, and the decoded copy projects element i as want[i].
   */
  method CopyRendersAs(texts: seq<string>, want: seq<string>) returns (copy: DateTime64ColumnData, n: nat)
    requires RendersAs(texts, 3, want)
    ensures copy.Valid() && copy.precision == 3
    ensures n == |want| && copy.Len() == |want|
    ensures forall i: nat :: i < |want| ==> copy.GetString(i) == Ok(want[i])
  {
    var original, err;
    original, copy, n, err := EncoderDecoderRoundTrip(3, texts);
  }

  /** The mixed-form rows survive the encoder and decoder in canonical form, 1950 included. */
  method MixedFormCopy() returns (copy: DateTime64ColumnData)
    ensures copy.Valid() && copy.Len() == 3
    ensures copy.GetString(0) == Ok("1950-01-02 00:00:00.000")
    ensures copy.GetString(1) == Ok("2020-01-02 15:04:05.000")
    ensures copy.GetString(2) == Ok("2020-01-02 15:04:05.322")
  {
    var texts := ["1950-01-02", "2020-01-02 15:04:05", "2020-01-02 15:04:05.322"];
    var want := ["1950-01-02 00:00:00.000", "2020-01-02 15:04:05.000", "2020-01-02 15:04:05.322"];
    MixedFormBatch(texts, want);
    var n;
    copy, n := CopyRendersAs(texts, want);
    assert copy.GetString(0) == Ok(want[0]) && copy.GetString(1) == Ok(want[1]) && copy.GetString(2) == Ok(want[2]);
  }

  /**
   * Writes a full column to a fresh stream and reads the stream into a fresh column of
   * the same type and capacity.
   */
  method CopyThroughStream(original: DateTime64ColumnData) returns (copy: DateTime64ColumnData)
    requires original.Valid() && original.length == original.capacity
    ensures fresh(copy) && fresh(copy.raw) && copy.Valid() && !copy.closed
    ensures copy.precision == original.precision && copy.capacity == original.capacity
    ensures copy.Contents() == original.Contents()
  {
    var stream := new TickStream();
    ghost var written := original.Contents();
    original.WriteToEncoder(stream);
    assert stream.words == written && |written| == original.capacity;
    TypeNameRoundTrip(original.precision);
    copy := MustMakeColumnData(TypeNameOf(original.precision), original.capacity);
    var decoded := copy.ReadFromDecoder(stream);
    assert written[..original.capacity] == written;
  }
}
