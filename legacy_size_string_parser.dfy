/**
 * The size-string parser of src/SizeStringParser.php: trims its input, reads
 * a numeric string as a whole byte count, and otherwise matches
 * `^([0-9\.]+)\s*?([A-Za-z]+)$` to split a number from a unit.
 */
module LegacySizeStringParser {
  import opened Wrappers
  import opened Errors
  import opened Text

  /** The parts `parse` returns: the value, and the unit exactly as written. */
  datatype SizeParts = SizeParts(value: Number, unit: string)

  /**
   * `s` reads as `d + w + u + t` under SIZE_STRING_PATTERN: a run of digits
   * and dots, whitespace, a run of letters, and an end that `$` accepts
   * (nothing, or one final line feed).
   */
  ghost predicate SplitsAs(s: string, d: string, w: string, u: string, t: string) {
    && s == d + w + u + t
    && d != [] && All(d, IsDigitOrDot)
    && All(w, IsSpace)
    && u != [] && All(u, IsLetter)
    && (t == [] || t == "\n")
  }

  /**
   * `preg_match(SIZE_STRING_PATTERN, s)`: the two captured groups, or `None`
   * when the pattern does not match. The three character classes are
   * disjoint, so each greedy or lazy part can only take its whole run.
   */
  function MatchPattern(s: string): (r: Option<(string, string)>)
    ensures r.Some? ==> exists w, t :: SplitsAs(s, r.value.0, w, r.value.1, t)
  {
    var n := Span(s, IsDigitOrDot);
    var rest := s[n..];
    var w := Span(rest, IsSpace);
    var after := rest[w..];
    var l := Span(after, IsLetter);
    if n > 0 && l > 0 && (after[l..] == [] || after[l..] == "\n") then
      CutFour(s, rest, after, n, w, l);
      assert SplitsAs(s, s[..n], rest[..w], after[..l], after[l..]);
      Some((s[..n], after[..l]))
    else None
  }

  /** Every string of the pattern's shape matches, with exactly those groups. */
  lemma MatchPatternComplete(s: string, d: string, w: string, u: string, t: string)
    requires SplitsAs(s, d, w, u, t)
    ensures MatchPattern(s) == Some((d, u))
  {
    var rest, after := w + u + t, u + t;
    assert s == d + rest && rest == w + after;
    SpanOfPrefix(s, d, rest, IsDigitOrDot);
    SpanOfPrefix(rest, w, after, IsSpace);
    SpanOfPrefix(after, u, t, IsLetter);
  }

  /**
   * `parseNumericString`: a numeric string whose float value equals its
   * `intval` is that integer count of bytes; any other is an error carrying
   * the float value.
   */
  function ParseNumericString(s: string): (r: Result<SizeParts, Error>)
    ensures r.Success? ==> r.value.unit == "B" && r.value.value.Int? && r.value.value.i as real == LeadingNumber(s)
    ensures r.Failure? ==> r.error == MissingUnit(LeadingNumber(s)) && LeadingNumber(s).Floor as real != LeadingNumber(s)
  {
    var intVal := Truncate(LeadingNumber(s));
    var floatVal := LeadingNumber(s);
    TruncateExact(floatVal);
    if floatVal == intVal as real then Success(SizeParts(Int(intVal), "B"))
    else Failure(MissingUnit(floatVal))
  }

  /**
   * A numeric string is accepted exactly when the digits after its decimal
   * point, if any, are worth nothing: "1000" and "12.00" pass, "1.5" does not.
   */
  lemma NumericAcceptedIffNoFraction(s: string)
    ensures ParseNumericString(s).Success? <==> DigitsValue(FractionPart(Unsigned(s))) == 0
  {
    var u := Unsigned(s);
    var i := DigitsValue(IntegerPart(u));
    var f := FractionPart(u);
    var frac := DigitsValue(f) as real / Pow10(|f|) as real;
    assert UnsignedPrefixValue(u) == i as real + frac;
    var v := LeadingNumber(s);
    assert v == i as real + frac || v == -(i as real + frac);
    if DigitsValue(f) == 0 {
      assert frac == 0.0;
      TruncateWhole(i);
      TruncateWhole(-(i as int));
    } else {
      DigitsValueBound(f);
      FractionBetween(DigitsValue(f), Pow10(|f|));
      TruncateFraction(i, frac);
    }
  }

  lemma FractionBetween(a: nat, b: nat)
    requires 0 < a < b
    ensures 0.0 < a as real / b as real < 1.0
  {
  }

  lemma TruncateFraction(i: nat, frac: real)
    requires 0.0 < frac < 1.0
    ensures Truncate(i as real + frac) as real != i as real + frac
    ensures Truncate(-(i as real + frac)) as real != -(i as real + frac)
  {
    var x := i as real + frac;
    var n := Truncate(x);
    assert n as real <= x < n as real + 1.0;
    assert n < i + 1 && n > i - 1;
    var m := Truncate(-x);
    assert m as real - 1.0 < -x <= m as real;
    assert m < 1 - i && m + i > -1;
  }

  /** `parseNonNumericString`: the value read from the digit run, and the letters as written. */
  function ParseNonNumericString(s: string): (r: Result<SizeParts, Error>)
    ensures r.Success? ==> exists d, w, t :: SplitsAs(s, d, w, r.value.unit, t) && r.value.value == Float(LeadingNumber(d))
    ensures r.Failure? ==> r.error == CouldNotParse(s)
  {
    match MatchPattern(s)
    case Some((d, u)) => Success(SizeParts(Float(LeadingNumber(d)), u))
    case None => Failure(CouldNotParse(s))
  }

  /**
   * `parse`: trim, then a numeric string is a byte count and anything else
   * must be a number followed by a unit.
   */
  function Parse(sizeString: string): (r: Result<SizeParts, Error>)
    ensures var s := Trim(sizeString);
      r.Success? && r.value.value.Int? ==> IsNumeric(s) && r.value.unit == "B" && r.value.value.i as real == LeadingNumber(s)
    ensures var s := Trim(sizeString);
      r.Success? && r.value.value.Float? ==> exists d, w, t :: SplitsAs(s, d, w, r.value.unit, t) && r.value.value.x == LeadingNumber(d)
    ensures var s := Trim(sizeString);
      r.Failure? ==> if IsNumeric(s) then r.error == MissingUnit(LeadingNumber(s)) else r.error == CouldNotParse(s)
  {
    var s := Trim(sizeString);
    if IsNumeric(s) then ParseNumericString(s) else ParseNonNumericString(s)
  }

  /** Surrounding whitespace makes no difference. */
  lemma ParseIgnoresSurroundingSpace(sizeString: string)
    ensures Parse(Trim(sizeString)) == Parse(sizeString)
  {
    var s := Trim(sizeString);
    TrimIdempotent(sizeString);
    if IsNumeric(s) {
      assert Parse(s) == ParseNumericString(s);
      assert Parse(sizeString) == ParseNumericString(s);
    } else {
      assert Parse(s) == ParseNonNumericString(s);
      assert Parse(sizeString) == ParseNonNumericString(s);
    }
  }

  /** A trimmed string of the pattern's shape parses to its number and its unit as written. */
  lemma ParseComplete(sizeString: string, d: string, w: string, u: string, t: string)
    requires SplitsAs(Trim(sizeString), d, w, u, t)
    ensures Parse(sizeString) == Success(SizeParts(Float(LeadingNumber(d)), u))
  {
    var s := Trim(sizeString);
    assert s[|d| + |w|] == u[0];
    NumericHasNoLetter(s, |d| + |w|);
    assert Parse(sizeString) == ParseNonNumericString(s);
    MatchPatternComplete(s, d, w, u, t);
  }

  /** The digits of a whole number parse as that many bytes. */
  lemma ParseCount(n: nat)
    ensures Parse(NatString(n)) == Success(SizeParts(Int(n), "B"))
  {
    var s := NatString(n);
    TrimPlain(s);
    NatStringNumeric(n);
    TruncateWhole(n);
    assert Parse(s) == ParseNumericString(s);
  }

  /** A whole number, whitespace and a unit parse as that number of that unit, spelt as written. */
  lemma ParseCountAndUnit(n: nat, w: string, u: string)
    requires All(w, IsSpace) && u != [] && All(u, IsLetter)
    ensures Parse(NatString(n) + w + u) == Success(SizeParts(Float(n as real), u))
  {
    var d := NatString(n);
    var s := d + w + u;
    assert s[0] == d[0] && s[|s| - 1] == u[|u| - 1];
    TrimPlain(s);
    assert SplitsAs(s, d, w, u, []) by {
      assert s == d + w + u + [];
      assert All(d, IsDigitOrDot);
    }
    ParseComplete(s, d, w, u, []);
    NatStringNumeric(n);
  }

  /** "1000" is 1000 bytes. */
  lemma ParseWholeCount()
    ensures Parse("1000") == Success(SizeParts(Int(1000), "B"))
  {
    assert NatString(1000) == "1000";
    ParseCount(1000);
  }

  /** "10k" is 10 of unit "k". */
  lemma ParseNumberAndUnit()
    ensures Parse("10k") == Success(SizeParts(Float(10.0), "k"))
  {
    assert NatString(10) + "" + "k" == "10k";
    ParseCountAndUnit(10, "", "k");
  }

  /** "1.5" is a fractional count without a unit: rejected. */
  lemma ParseFractionWithoutUnit()
    ensures Parse("1.5").Failure?
  {
    FractionSteps();
    NumericAcceptedIffNoFraction("1.5");
  }

  lemma FractionSteps()
    ensures Trim("1.5") == "1.5" && IsNumeric("1.5")
    ensures ParseNumericString("1.5").Success? <==> Parse("1.5").Success?
    ensures DigitsValue(FractionPart(Unsigned("1.5"))) == 5
  {
    var s := "1.5";
    TrimPlain(s);
    assert IntegerPart(s) == "1" by { SpanUnique(s, 1, IsDigit); }
    assert FractionPart(s) == "5" by { SpanUnique(s[2..], 1, IsDigit); }
    assert DigitsValue("5") == 5 by { assert "5"[..0] == []; }
  }

  /** Anything but a final line feed after the unit makes the string unparseable: "10 MB x". */
  lemma ParseRejectsTrailingText(sizeString: string, d: string, w: string, u: string, x: string)
    requires Trim(sizeString) == d + w + u + x
    requires d != [] && All(d, IsDigitOrDot) && All(w, IsSpace) && u != [] && All(u, IsLetter)
    requires x != [] && !IsLetter(x[0]) && x != "\n"
    ensures Parse(sizeString) == Failure(CouldNotParse(Trim(sizeString)))
  {
    var s := Trim(sizeString);
    assert s[|d| + |w|] == u[0];
    NumericHasNoLetter(s, |d| + |w|);
    assert Parse(sizeString) == ParseNonNumericString(s);
    MatchPatternRejectsTrailing(s, d, w, u, x);
  }

  lemma MatchPatternRejectsTrailing(s: string, d: string, w: string, u: string, x: string)
    requires s == d + w + u + x
    requires d != [] && All(d, IsDigitOrDot) && All(w, IsSpace) && u != [] && All(u, IsLetter)
    requires x != [] && !IsLetter(x[0]) && x != "\n"
    ensures MatchPattern(s) == None
  {
    var rest, after := w + u + x, u + x;
    assert s == d + rest && rest == w + after;
    SpanOfPrefix(s, d, rest, IsDigitOrDot);
    SpanOfPrefix(rest, w, after, IsSpace);
    SpanOfPrefix(after, u, x, IsLetter);
  }

  /** A unit before the number makes the string unparseable: "MB 10". */
  lemma ParseRejectsLeadingUnit(sizeString: string)
    requires Trim(sizeString) != [] && IsLetter(Trim(sizeString)[0])
    ensures Parse(sizeString) == Failure(CouldNotParse(Trim(sizeString)))
  {
    var s := Trim(sizeString);
    NumericHasNoLetter(s, 0);
    assert Parse(sizeString) == ParseNonNumericString(s);
    SpanUnique(s, 0, IsDigitOrDot);
    assert MatchPattern(s) == None;
  }
}
