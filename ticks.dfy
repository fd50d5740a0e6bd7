/**
 * DateTime64(p) ticks: a tick is 10^(9 - p) nanoseconds, so a whole second is
 * 10^p ticks. A native instant is a count of seconds since 1970-01-01 00:00:00
 * plus a nanosecond part, as Go's time.Time carries it.
 */
module Ticks {
  import opened Arith
  import opened Int64

  /** The precision of a DateTime64 column: the number of fractional-second digits. */
  type Precision = p: nat | p <= 9

  type Nanos = n: int | 0 <= n < 1_000_000_000

  datatype Instant = Instant(seconds: int, nanos: Nanos)

  /** Ticks per second at precision p. */
  function Scale(p: Precision): (s: nat)
    ensures s >= 1
  {
    Pow10(p)
  }

  /** Nanoseconds per tick at precision p. */
  function TickNanos(p: Precision): (s: nat)
    ensures s >= 1
  {
    Pow10(9 - p)
  }

  lemma ScaleTimesTickNanos(p: Precision)
    ensures Scale(p) * TickNanos(p) == 1_000_000_000
  {
    Pow10Add(p, 9 - p);
  }

  /** The exact tick count of an instant, before it is stored in 64 bits. */
  function ExactTicks(i: Instant, p: Precision): int
  {
    i.seconds * Scale(p) + i.nanos / TickNanos(p)
  }

  /** An instant as a 64-bit tick count: sub-tick nanoseconds are dropped, and the count wraps. */
  function ToTicks(i: Instant, p: Precision): (t: int)
    ensures IsInt64(t)
    ensures IsInt64(ExactTicks(i, p)) ==> t == ExactTicks(i, p)
  {
    Wrap(ExactTicks(i, p))
  }

  /** The instant a tick count stands for: t / Scale whole seconds and t % Scale ticks. */
  function FromTicks(t: int, p: Precision): (i: Instant)
    ensures Truncate(i, p) == i
  {
    ScaleTimesTickNanos(p);
    MulMono(TickNanos(p), t % Scale(p), Scale(p) - 1);
    MulDivCancel(t % Scale(p), TickNanos(p));
    Instant(t / Scale(p), t % Scale(p) * TickNanos(p))
  }

  /** An instant with its nanoseconds cut down to whole ticks (truncated, never rounded). */
  function Truncate(i: Instant, p: Precision): (r: Instant)
  {
    RoundDownBelow(i.nanos, TickNanos(p));
    Instant(i.seconds, i.nanos / TickNanos(p) * TickNanos(p))
  }

  /** A tick count survives the trip through its instant. */
  lemma TicksRoundTrip(t: int, p: Precision)
    requires IsInt64(t)
    ensures ToTicks(FromTicks(t, p), p) == t
  {
    var S, N := Scale(p), TickNanos(p);
    var q, r := t / S, t % S;
    assert FromTicks(t, p) == Instant(q, r * N);
    assert r * N / N == r by { MulDivCancel(r, N); }
    assert q * S + r == t;
    assert ExactTicks(FromTicks(t, p), p) == t;
  }

  /** An instant comes back from its tick count truncated to whole ticks, provided the count fits in 64 bits. */
  lemma InstantRoundTrip(i: Instant, p: Precision)
    requires IsInt64(ExactTicks(i, p))
    ensures FromTicks(ToTicks(i, p), p) == Truncate(i, p)
  {
    var S, N := Scale(p), TickNanos(p);
    ScaleTimesTickNanos(p);
    DivBelow(i.nanos, S, N);
    DivModUnique(ExactTicks(i, p), S, i.seconds, i.nanos / N);
  }

  /** Instants that agree down to whole ticks have the same tick count. */
  lemma ToTicksOfTruncate(i: Instant, p: Precision)
    ensures ToTicks(Truncate(i, p), p) == ToTicks(i, p)
  {
    MulDivCancel(i.nanos / TickNanos(p), TickNanos(p));
  }
}
