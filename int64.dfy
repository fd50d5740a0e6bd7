/** The 64-bit signed words a DateTime64 column stores and puts on the wire. */
module Int64 {

  const MinInt64: int := -0x8000_0000_0000_0000
  const MaxInt64: int := 0x7FFF_FFFF_FFFF_FFFF
  const TwoTo64: int := 0x1_0000_0000_0000_0000

  predicate IsInt64(x: int) { MinInt64 <= x <= MaxInt64 }

  /** Two's-complement wrap-around of an unbounded integer into an int64, as a Go int64 product does. */
  function Wrap(x: int): (r: int)
    ensures IsInt64(r)
    ensures (r - x) % TwoTo64 == 0
    ensures IsInt64(x) ==> r == x
  {
    var r := (x - MinInt64) % TwoTo64 + MinInt64;
    assert x - MinInt64 == TwoTo64 * ((x - MinInt64) / TwoTo64) + (x - MinInt64) % TwoTo64;
    assert r - x == -TwoTo64 * ((x - MinInt64) / TwoTo64);
    r
  }
}
