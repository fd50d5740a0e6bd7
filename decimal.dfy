/** Decimal digit strings: the fixed-width fields of the timestamp text forms. */
module Decimal {
  import opened Arith

  predicate IsDigit(c: char) { '0' <= c <= '9' }

  predicate AllDigits(s: string) { forall i :: 0 <= i < |s| ==> IsDigit(s[i]) }

  function DigitValue(c: char): nat
    requires IsDigit(c)
  {
    c as int - '0' as int
  }

  function DigitChar(d: nat): (c: char)
    requires d < 10
    ensures IsDigit(c) && DigitValue(c) == d
  {
    ('0' as int + d) as char
  }

  /** The number a digit string denotes, most significant digit first. */
  function Value(s: string): nat
    requires AllDigits(s)
  {
    if s == [] then 0 else 10 * Value(s[..|s| - 1]) + DigitValue(s[|s| - 1])
  }

  /** n rendered with exactly w digits: zero-padded on the left, high digits dropped. */
  function Fixed(n: nat, w: nat): (r: string)
    ensures |r| == w && AllDigits(r)
  {
    if w == 0 then [] else Fixed(n / 10, w - 1) + [DigitChar(n % 10)]
  }

  /** n rendered with at least w digits, zero-padded on the left (Go's appendInt). */
  function AtLeast(n: nat, w: nat): (r: string)
    ensures AllDigits(r) && |r| >= w
    decreases n
  {
    if n < Pow10(w) then Fixed(n, w) else AtLeast(n / 10, w) + [DigitChar(n % 10)]
  }

  lemma {:induction false} ValueBound(s: string)
    requires AllDigits(s)
    ensures Value(s) < Pow10(|s|)
  {
    if s != [] {
      ValueBound(s[..|s| - 1]);
    }
  }

  /** Rendering with w digits and reading back gives n whenever n has at most w digits. */
  lemma {:induction false} ValueOfFixed(n: nat, w: nat)
    requires n < Pow10(w)
    ensures Value(Fixed(n, w)) == n
  {
    if w > 0 {
      DivBelow(n, Pow10(w - 1), 10);
      ValueOfFixed(n / 10, w - 1);
      var r := Fixed(n, w);
      assert r[..w - 1] == Fixed(n / 10, w - 1);
    }
  }

  /** Reading a digit string and rendering it at its own width gives the string back. */
  lemma {:induction false} FixedOfValue(s: string)
    requires AllDigits(s)
    ensures Fixed(Value(s), |s|) == s
  {
    if s != [] {
      var init, last := s[..|s| - 1], s[|s| - 1];
      FixedOfValue(init);
      DivModUnique(Value(s), 10, Value(init), DigitValue(last));
      assert s == init + [last];
      assert Fixed(Value(s), |s|) == Fixed(Value(init), |init|) + [DigitChar(DigitValue(last))];
    }
  }

  /** Below 10^w, AtLeast pads to exactly w digits. */
  lemma AtLeastIsFixed(n: nat, w: nat)
    requires n < Pow10(w)
    ensures AtLeast(n, w) == Fixed(n, w)
  {
  }

  /** Whatever its width, AtLeast(n, w) denotes n. */
  lemma {:induction false} ValueOfAtLeast(n: nat, w: nat)
    ensures Value(AtLeast(n, w)) == n
    decreases n
  {
    if n < Pow10(w) {
      ValueOfFixed(n, w);
    } else {
      ValueOfAtLeast(n / 10, w);
      var r := AtLeast(n, w);
      assert r[..|r| - 1] == AtLeast(n / 10, w);
    }
  }

  /** A string of zeros denotes zero. */
  lemma {:induction false} ValueOfZeros(s: string)
    requires forall i :: 0 <= i < |s| ==> s[i] == '0'
    ensures AllDigits(s) && Value(s) == 0
  {
    if s != [] {
      ValueOfZeros(s[..|s| - 1]);
    }
  }

  /** Splitting a digit string after k digits splits its value. */
  lemma {:induction false} ValueSplit(s: string, k: nat)
    requires AllDigits(s) && k <= |s|
    ensures AllDigits(s[..k]) && AllDigits(s[k..])
    ensures Value(s) == Value(s[..k]) * Pow10(|s| - k) + Value(s[k..])
    decreases |s|
  {
    if k == |s| {
      assert s[..k] == s;
    } else {
      var init, last := s[..|s| - 1], s[|s| - 1];
      ValueSplit(init, k);
      assert init[..k] == s[..k];
      var tail := init[k..];
      assert s[k..] == tail + [last];
      ValueSnoc(tail, last);
      ValueSnoc(init, last);
      assert init + [last] == s;
      assert Value(s) == 10 * Value(init) + DigitValue(last);
      assert Value(s[k..]) == 10 * Value(tail) + DigitValue(last);
      assert Pow10(|s| - k) == 10 * Pow10(|s| - 1 - k);
      ShiftDigit(Value(s[..k]), Pow10(|s| - 1 - k), Value(tail), DigitValue(last));
    }
  }

  lemma ValueSnoc(t: string, c: char)
    requires AllDigits(t) && IsDigit(c)
    ensures AllDigits(t + [c]) && Value(t + [c]) == 10 * Value(t) + DigitValue(c)
  {
    assert (t + [c])[..|t|] == t;
  }

  lemma ShiftDigit(a: int, p: int, b: int, d: int)
    ensures 10 * (a * p + b) + d == a * (10 * p) + (10 * b + d)
  {
  }
}
