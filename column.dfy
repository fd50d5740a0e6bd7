/**
 * The DateTime64(p) column data store: a fixed buffer of `capacity` int64 tick counts
 * of which the first `length` are materialised, filled by batches of text rows or
 * native values, projected to text, and exchanged with a stream of 64-bit words.
 */
module Column {
  import opened Wrappers
  import opened Int64
  import opened Ticks
  import opened DateTimeText
  import opened TypeName
  import opened Ingestion

  /** The wire: 64-bit words, written at the end and read from the front. */
  class TickStream {
    var words: seq<int>

    ghost predicate Valid()
      reads this
    {
      forall k :: 0 <= k < |words| ==> IsInt64(words[k])
    }

    constructor ()
      ensures Valid() && words == []
    {
      words := [];
    }

    method Write(w: int)
      requires Valid() && IsInt64(w)
      modifies this
      ensures Valid() && words == old(words) + [w]
    {
      words := words + [w];
    }

    /** The front word, or None when the stream is exhausted. */
    method Read() returns (w: Option<int>)
      requires Valid()
      modifies this
      ensures Valid()
      ensures old(words) == [] ==> w == None && words == []
      ensures old(words) != [] ==> w == Some(old(words)[0]) && IsInt64(w.value) && words == old(words)[1..]
    {
      if words == [] {
        w := None;
      } else {
        w := Some(words[0]);
        words := words[1..];
      }
    }
  }

  class DateTime64ColumnData {
    const precision: Precision
    const capacity: nat
    const raw: array<int>
    var length: nat
    var closed: bool

    ghost predicate Valid()
      reads this, raw
    {
      raw.Length == capacity && length <= capacity &&
      forall k :: 0 <= k < length ==> IsInt64(raw[k])
    }

    /** The materialised tick counts, in element order. */
    ghost function Contents(): seq<int>
      reads this, raw
      requires Valid()
    {
      raw[..length]
    }

    constructor (p: Precision, capacity: nat)
      ensures Valid() && fresh(raw)
      ensures precision == p && this.capacity == capacity && Contents() == [] && !closed
    {
      precision := p;
      this.capacity := capacity;
      raw := new int[capacity](_ => 0);
      length := 0;
      closed := false;
    }

    /** Stores one tick count in the next free slot. */
    method Append(t: int)
      requires Valid() && length < capacity && IsInt64(t)
      modifies this, raw
      ensures Valid() && closed == old(closed)
      ensures Contents() == old(Contents()) + [t]
    {
      raw[length] := t;
      length := length + 1;
      assert raw[..length] == old(raw[..length]) + [t];
    }

    /**
     * Appends one tick count per text row, in order, and stops at the first row that
     * matches none of the accepted forms; returns the number of rows appended.
     */
    method ReadFromTexts(texts: seq<string>) returns (n: nat, err: Option<Error>)
      requires Valid() && length + |texts| <= capacity
      modifies this, raw
      ensures Valid() && closed == old(closed)
      ensures Contents() == old(Contents()) + IngestTexts(texts, precision).ticks
      ensures n == |IngestTexts(texts, precision).ticks| && err == IngestTexts(texts, precision).error
    {
      var i := 0;
      while i < |texts|
        invariant 0 <= i <= |texts| && Valid() && closed == old(closed)
        invariant length == old(length) + i
        invariant IngestTexts(texts[..i], precision).error.None?
        invariant Contents() == old(Contents()) + IngestTexts(texts[..i], precision).ticks
      {
        var parsed := ParseTicks(texts[i], precision);
        if parsed.None? {
          TextsStopAt(texts, i, precision);
          return i, Some(TimeParseError(texts[i], i));
        }
        TextsContinue(texts, i, precision);
        Append(parsed.value);
        i := i + 1;
      }
      assert texts[..i] == texts;
      return i, None;
    }

    /**
     * Appends the tick count of each native value, in order, and stops at the first value
     * that is not a time instant; returns the number of values appended.
     */
    method ReadFromValues(values: seq<NativeValue>) returns (n: nat, err: Option<Error>)
      requires Valid() && length + |values| <= capacity
      modifies this, raw
      ensures Valid() && closed == old(closed)
      ensures Contents() == old(Contents()) + IngestValues(values, precision).ticks
      ensures n == |IngestValues(values, precision).ticks| && err == IngestValues(values, precision).error
    {
      var i := 0;
      while i < |values|
        invariant 0 <= i <= |values| && Valid() && closed == old(closed)
        invariant length == old(length) + i
        invariant IngestValues(values[..i], precision).error.None?
        invariant Contents() == old(Contents()) + IngestValues(values[..i], precision).ticks
      {
        if values[i].Other? {
          ValuesStopAt(values, i, precision);
          return i, Some(TypeMismatch(i));
        }
        ValuesContinue(values, i, precision);
        Append(ToTicks(values[i].instant, precision));
        i := i + 1;
      }
      assert values[..i] == values;
      return i, None;
    }

    /** The canonical text of element i; an index at or past the length is out of range. */
    function GetString(i: nat): (r: Result<string, Error>)
      reads this, raw
      requires Valid()
      ensures i >= length <==> r == Err(OutOfRange(i))
      ensures i < length ==> r.Ok?
      ensures i < length && 0 <= YearOfTicks(raw[i], precision) <= 9999 ==> ParseTicks(r.value, precision) == Some(raw[i])
    {
      if i >= length then Err(OutOfRange(i))
      else
        FourDigitRoundTrip(raw[i], precision);
        Ok(FormatTicks(raw[i], precision))
    }

    /** The number of materialised elements. */
    function Len(): (n: nat)
      reads this, raw
      requires Valid()
      ensures n == |Contents()| && n <= capacity
    {
      length
    }

    /** The zero value: the instant whose tick count is 0 at every precision, the epoch. */
    function Zero(): (z: Instant)
      ensures ToTicks(z, precision) == 0
      ensures FromTicks(0, precision) == z
    {
      assert 0 / Scale(precision) == 0 && 0 % Scale(precision) == 0;
      Instant(0, 0)
    }

    /** The canonical text of the zero value; the empty text and this text both ingest as tick 0. */
    function ZeroString(): (s: string)
      ensures s == ZeroText(precision)
      ensures ParseTicks(s, precision) == Some(0) && ParseTicks("", precision) == Some(0)
    {
      ZeroValue(precision);
      FormatTicks(0, precision)
    }

    /** Writes the materialised tick counts to the stream, in element order. */
    method WriteToEncoder(encoder: TickStream)
      requires Valid() && encoder.Valid()
      modifies encoder
      ensures encoder.Valid() && encoder.words == old(encoder.words) + Contents()
    {
      var i := 0;
      while i < length
        invariant 0 <= i <= length && encoder.Valid()
        invariant encoder.words == old(encoder.words) + raw[..i]
      {
        encoder.Write(raw[i]);
        assert raw[..i + 1] == raw[..i] + [raw[i]];
        i := i + 1;
      }
      assert raw[..length] == Contents();
    }

    /**
     * Replaces the contents by `capacity` words read from the stream. A stream that ends
     * early leaves the words read so far as the contents and reports UnexpectedEndOfStream.
     */
    method ReadFromDecoder(decoder: TickStream) returns (err: Option<Error>)
      requires Valid() && decoder.Valid()
      modifies this, raw, decoder
      ensures Valid() && decoder.Valid() && closed == old(closed)
      ensures capacity <= |old(decoder.words)| ==>
        err == None && Contents() == old(decoder.words)[..capacity] && decoder.words == old(decoder.words)[capacity..]
      ensures |old(decoder.words)| < capacity ==>
        err == Some(UnexpectedEndOfStream) && Contents() == old(decoder.words) && decoder.words == []
    {
      ghost var input := decoder.words;
      length := 0;
      var i := 0;
      while i < capacity
        invariant 0 <= i <= capacity && length == i && Valid() && decoder.Valid()
        invariant i <= |input| && decoder.words == input[i..] && raw[..i] == input[..i]
        invariant closed == old(closed)
      {
        var w := decoder.Read();
        match w
        case None =>
          assert input[..i] == input;
          return Some(UnexpectedEndOfStream);
        case Some(t) =>
          raw[i] := t;
          assert input[i..][1..] == input[i + 1..];
          length := i + 1;
          i := i + 1;
      }
      return None;
    }

    /** Disposal: marks the column closed; the contents stay readable. */
    method Close()
      requires Valid()
      modifies this
      ensures Valid() && closed && length == old(length) && Contents() == old(Contents())
    {
      closed := true;
    }
  }

  /** The text of a tick count whose year has four digits parses back to that count. */
  lemma FourDigitRoundTrip(t: int, p: Precision)
    requires IsInt64(t)
    ensures 0 <= YearOfTicks(t, p) <= 9999 ==> ParseTicks(FormatTicks(t, p), p) == Some(t)
  {
    if 0 <= YearOfTicks(t, p) <= 9999 {
      ParseFormatRoundTrip(t, p);
    }
  }

  /** A materialised element projects to the canonical text of its tick count. */
  lemma ProjectionOfContents(c: DateTime64ColumnData, i: nat)
    requires c.Valid() && i < c.length
    ensures c.GetString(i) == Ok(FormatTicks(c.Contents()[i], c.precision))
  {
  }

  /** Two valid columns of the same precision holding the same ticks project the same strings. */
  lemma SameTicksSameStrings(a: DateTime64ColumnData, b: DateTime64ColumnData, i: nat)
    requires a.Valid() && b.Valid() && a.precision == b.precision && a.Contents() == b.Contents()
    ensures a.GetString(i) == b.GetString(i)
  {
    if i < a.length {
      assert a.raw[i] == a.Contents()[i] == b.Contents()[i] == b.raw[i];
    }
  }

  /** The fallible factory: resolves the type name and allocates a column of the given capacity. */
  method MakeColumnData(typeName: string, capacity: nat) returns (r: Result<DateTime64ColumnData, Error>)
    ensures ParseTypeName(typeName).Err? ==> r == Err(ParseTypeName(typeName).error)
    ensures ParseTypeName(typeName).Ok? ==> r.Ok? && fresh(r.value) && fresh(r.value.raw) && r.value.Valid() && !r.value.closed
    ensures ParseTypeName(typeName).Ok? ==>
      r.value.precision == ParseTypeName(typeName).value && r.value.capacity == capacity && r.value.Contents() == []
  {
    match ParseTypeName(typeName)
    case Err(e) =>
      r := Err(e);
    case Ok(p) =>
      var c := new DateTime64ColumnData(p, capacity);
      r := Ok(c);
  }

  /** The infallible factory, for names known to be valid. */
  method MustMakeColumnData(typeName: string, capacity: nat) returns (c: DateTime64ColumnData)
    requires ParseTypeName(typeName).Ok?
    ensures fresh(c) && fresh(c.raw) && c.Valid() && !c.closed
    ensures c.precision == ParseTypeName(typeName).value && c.capacity == capacity && c.Contents() == []
  {
    c := new DateTime64ColumnData(ParseTypeName(typeName).value, capacity);
  }
}
