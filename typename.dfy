/**
 * The type name of a DateTime64 column: the base name, then one integer parameter
 * in parentheses, the precision, which must lie between 0 and 9.
 */
module TypeName {
  import opened Wrappers
  import opened Decimal
  import opened Ticks

  const BaseName: string := "DateTime64"

  /** The index of the first occurrence of c in s, if any. */
  function Find(s: string, c: char): (r: Option<nat>)
    ensures r.Some? ==> r.value < |s| && s[r.value] == c && c !in s[..r.value]
    ensures r.None? ==> c !in s
  {
    if s == [] then None
    else if s[0] == c then Some(0)
    else
      match Find(s[1..], c)
      case None => None
      case Some(i) =>
        assert s[..i + 1] == [s[0]] + s[1..][..i];
        Some(i + 1)
  }

  /**
   * Splits at the first '(' and requires the name to end in ')'; the base name must be
   * DateTime64 and the parameter a digit string denoting at most 9. A parameter list
   * with more or fewer than one parameter is not a digit string, so it is refused as well.
   */
  function ParseTypeName(s: string): (r: Result<Precision, Error>)
    ensures r.Err? ==> r.error.TypeDescriptorError?
  {
    match Find(s, '(')
    case None => Err(TypeDescriptorError(s))
    case Some(open) =>
      if s[..open] != BaseName then Err(TypeDescriptorError(s[..open]))
      else if s[|s| - 1] != ')' || open == |s| - 1 then Err(TypeDescriptorError(s))
      else
        var token := s[open + 1..|s| - 1];
        if token == [] || !AllDigits(token) || Value(token) > 9 then Err(TypeDescriptorError(token))
        else Ok(Value(token))
  }

  /** The parameter text of a name that starts with "DateTime64(" and ends with ")". */
  function Parameter(s: string): string
    requires |s| >= 12
  {
    s[11..|s| - 1]
  }

  /** "DateTime64(", a non-empty digit string denoting at most 9, ")". */
  predicate WellFormed(s: string)
  {
    |s| >= 13 && s[..11] == BaseName + "(" && s[|s| - 1] == ')' &&
    AllDigits(Parameter(s)) && Value(Parameter(s)) <= 9
  }

  /** The canonical name of the type at precision p. */
  function TypeNameOf(p: Precision): string
  {
    BaseName + "(" + Fixed(p, 1) + ")"
  }

  /** A name is accepted exactly when it is well formed, and the precision is the value of its parameter. */
  lemma ParseTypeNameCharacterised(s: string)
    ensures ParseTypeName(s).Ok? <==> WellFormed(s)
    ensures ParseTypeName(s).Ok? ==> WellFormed(s) && ParseTypeName(s).value == Value(Parameter(s))
    ensures ParseTypeName(s).Err? ==> ParseTypeName(s).error.TypeDescriptorError?
  {
    var f := Find(s, '(');
    if WellFormed(s) {
      assert s[10] == '(';
      assert '(' !in s[..10] by { assert s[..10] == BaseName; }
      assert f.Some? && f.value == 10;
      assert s[..10] == BaseName;
    }
    if f.Some? && s[..f.value] == BaseName {
      assert f.value == 10;
    }
  }

  /** Every precision's canonical name parses back to that precision. */
  lemma TypeNameRoundTrip(p: Precision)
    ensures ParseTypeName(TypeNameOf(p)) == Ok(p)
  {
    var s := TypeNameOf(p);
    ValueOfFixed(p, 1);
    assert s[..11] == BaseName + "(" && Parameter(s) == Fixed(p, 1);
    ParseTypeNameCharacterised(s);
  }

  /** A precision of 10 or more is refused, however it is written. */
  lemma PrecisionAboveNineRefused(n: nat)
    requires n > 9
    ensures ParseTypeName(BaseName + "(" + AtLeast(n, 1) + ")").Err?
  {
    var s := BaseName + "(" + AtLeast(n, 1) + ")";
    ValueOfAtLeast(n, 1);
    assert Parameter(s) == AtLeast(n, 1);
    ParseTypeNameCharacterised(s);
  }

  /** The names the column tests are built with. */
  lemma TestTypeNames()
    ensures ParseTypeName("DateTime64(3)") == Ok(3)
    ensures ParseTypeName("DateTime64(6)") == Ok(6)
  {
    TypeNameRoundTrip(3);
    TypeNameRoundTrip(6);
    assert TypeNameOf(3) == "DateTime64(3)";
    assert TypeNameOf(6) == "DateTime64(6)";
  }
}
