/**
 * Batch ingestion with partial progress: rows are converted in order, and the first
 * row that cannot be converted stops the batch, after the rows before it were kept.
 */
module Ingestion {
  import opened Wrappers
  import opened Int64
  import opened Ticks
  import opened DateTimeText

  /** A value handed to ReadFromValues: a time instant, or a value of any other kind. */
  datatype NativeValue = Time(instant: Instant) | Other

  /** The outcome of a batch: the ticks appended, and the error that stopped the batch, if any. */
  datatype Ingested = Ingested(ticks: seq<int>, error: Option<Error>)

  /** r keeps the ticks of the longest prefix of texts that parses, and names the row that stopped it. */
  ghost predicate TextOutcome(texts: seq<string>, p: Precision, r: Ingested)
  {
    |r.ticks| <= |texts| &&
    (r.error.None? <==> |r.ticks| == |texts|) &&
    (forall k :: 0 <= k < |r.ticks| ==> ParseTicks(texts[k], p) == Some(r.ticks[k])) &&
    (r.error.Some? ==>
       ParseTicks(texts[|r.ticks|], p).None? && r.error.value == TimeParseError(texts[|r.ticks|], |r.ticks|))
  }

  /** r keeps the ticks of the longest prefix of values that are instants, and names the value that stopped it. */
  ghost predicate ValueOutcome(values: seq<NativeValue>, p: Precision, r: Ingested)
  {
    |r.ticks| <= |values| &&
    (r.error.None? <==> |r.ticks| == |values|) &&
    (forall k :: 0 <= k < |r.ticks| ==> values[k].Time? && r.ticks[k] == ToTicks(values[k].instant, p)) &&
    (r.error.Some? ==> values[|r.ticks|].Other? && r.error.value == TypeMismatch(|r.ticks|))
  }

  /** Ingesting text rows at precision p, one row after another. */
  function IngestTexts(texts: seq<string>, p: Precision): (r: Ingested)
    ensures TextOutcome(texts, p, r)
    ensures forall k :: 0 <= k < |r.ticks| ==> IsInt64(r.ticks[k])
  {
    if texts == [] then Ingested([], None)
    else
      var init, last := texts[..|texts| - 1], texts[|texts| - 1];
      assert texts == init + [last];
      var prev := IngestTexts(init, p);
      if prev.error.Some? then
        StoppedTextOutcome(init, last, p, prev);
        prev
      else
        var parsed := ParseTicks(last, p);
        if parsed.None? then
          StopTextOutcome(init, last, p, prev);
          Ingested(prev.ticks, Some(TimeParseError(last, |init|)))
        else
          ExtendTextOutcome(init, last, p, prev);
          Ingested(prev.ticks + [parsed.value], None)
  }

  /** A batch already stopped stays stopped, with the same outcome, when a row is added. */
  lemma StoppedTextOutcome(init: seq<string>, last: string, p: Precision, r: Ingested)
    requires TextOutcome(init, p, r) && r.error.Some?
    ensures TextOutcome(init + [last], p, r)
  {
    var texts := init + [last];
    assert forall k :: 0 <= k < |init| ==> texts[k] == init[k];
  }

  /** A fully ingested batch stops at an added row that does not parse. */
  lemma StopTextOutcome(init: seq<string>, last: string, p: Precision, r: Ingested)
    requires TextOutcome(init, p, r) && r.error.None? && ParseTicks(last, p).None?
    ensures TextOutcome(init + [last], p, Ingested(r.ticks, Some(TimeParseError(last, |init|))))
  {
    var texts := init + [last];
    assert forall k :: 0 <= k < |init| ==> texts[k] == init[k];
    assert texts[|init|] == last;
  }

  /** A fully ingested batch takes an added row that parses. */
  lemma ExtendTextOutcome(init: seq<string>, last: string, p: Precision, r: Ingested)
    requires TextOutcome(init, p, r) && r.error.None? && ParseTicks(last, p).Some?
    ensures TextOutcome(init + [last], p, Ingested(r.ticks + [ParseTicks(last, p).value], None))
  {
    var texts, ticks := init + [last], r.ticks + [ParseTicks(last, p).value];
    assert forall k :: 0 <= k < |init| ==> texts[k] == init[k] && ticks[k] == r.ticks[k];
    assert texts[|init|] == last && ticks[|init|] == ParseTicks(last, p).value;
  }

  /** Ingesting native values at precision p, one value after another. */
  function IngestValues(values: seq<NativeValue>, p: Precision): (r: Ingested)
    ensures ValueOutcome(values, p, r)
    ensures forall k :: 0 <= k < |r.ticks| ==> IsInt64(r.ticks[k])
  {
    if values == [] then Ingested([], None)
    else
      var prev := IngestValues(values[..|values| - 1], p);
      if prev.error.Some? then prev
      else
        match values[|values| - 1]
        case Other => Ingested(prev.ticks, Some(TypeMismatch(|values| - 1)))
        case Time(i) => Ingested(prev.ticks + [ToTicks(i, p)], None)
  }

  /** The outcome of a text batch is determined by its characterisation. */
  lemma TextOutcomeUnique(texts: seq<string>, p: Precision, r: Ingested)
    requires TextOutcome(texts, p, r)
    ensures r == IngestTexts(texts, p)
  {
    var R := IngestTexts(texts, p);
    assert |r.ticks| == |R.ticks|;
    assert r.ticks == R.ticks;
  }

  /** The outcome of a value batch is determined by its characterisation. */
  lemma ValueOutcomeUnique(values: seq<NativeValue>, p: Precision, r: Ingested)
    requires ValueOutcome(values, p, r)
    ensures r == IngestValues(values, p)
  {
    var R := IngestValues(values, p);
    assert |r.ticks| == |R.ticks|;
    assert r.ticks == R.ticks;
  }

  /** A prefix that ingests in full, followed by a row that parses, ingests in full. */
  lemma TextsContinue(texts: seq<string>, i: nat, p: Precision)
    requires i < |texts| && IngestTexts(texts[..i], p).error.None? && ParseTicks(texts[i], p).Some?
    ensures IngestTexts(texts[..i + 1], p) == Ingested(IngestTexts(texts[..i], p).ticks + [ParseTicks(texts[i], p).value], None)
  {
    assert texts[..i + 1][..i] == texts[..i];
  }

  /** A prefix that ingests in full, followed by a row that does not parse, decides the whole batch. */
  lemma TextsStopAt(texts: seq<string>, i: nat, p: Precision)
    requires i < |texts| && IngestTexts(texts[..i], p).error.None? && ParseTicks(texts[i], p).None?
    ensures IngestTexts(texts, p) == Ingested(IngestTexts(texts[..i], p).ticks, Some(TimeParseError(texts[i], i)))
  {
    var prev := IngestTexts(texts[..i], p);
    assert forall k :: 0 <= k < i ==> texts[..i][k] == texts[k];
    TextOutcomeUnique(texts, p, Ingested(prev.ticks, Some(TimeParseError(texts[i], i))));
  }

  /** A prefix of instants followed by one more instant ingests in full. */
  lemma ValuesContinue(values: seq<NativeValue>, i: nat, p: Precision)
    requires i < |values| && IngestValues(values[..i], p).error.None? && values[i].Time?
    ensures IngestValues(values[..i + 1], p) == Ingested(IngestValues(values[..i], p).ticks + [ToTicks(values[i].instant, p)], None)
  {
    assert values[..i + 1][..i] == values[..i];
  }

  /** A prefix of instants followed by a value of another kind decides the whole batch. */
  lemma ValuesStopAt(values: seq<NativeValue>, i: nat, p: Precision)
    requires i < |values| && IngestValues(values[..i], p).error.None? && values[i].Other?
    ensures IngestValues(values, p) == Ingested(IngestValues(values[..i], p).ticks, Some(TypeMismatch(i)))
  {
    var prev := IngestValues(values[..i], p);
    assert forall k :: 0 <= k < i ==> values[..i][k] == values[k];
    ValueOutcomeUnique(values, p, Ingested(prev.ticks, Some(TypeMismatch(i))));
  }

  /** A batch of texts that all parse is appended in full, each row as its own tick count. */
  lemma AllTextsParse(texts: seq<string>, p: Precision)
    ensures IngestTexts(texts, p).error.None? <==> (forall k :: 0 <= k < |texts| ==> ParseTicks(texts[k], p).Some?)
  {
    var r := IngestTexts(texts, p);
    if r.error.Some? {
      assert ParseTicks(texts[|r.ticks|], p).None?;
    }
  }
}
