/**
 * The size-string parser of src/FileSize/Parser/SizeStringParser.php: one
 * anchored match of `^([0-9\.-]+)\s*?([A-Za-z]+)?$`, with no trimming,
 * followed by an `is_numeric` check of the captured number. The number is
 * returned as the text that was captured, the unit as written or absent.
 */
module SizeStringParser {
  import opened Wrappers
  import opened Errors
  import opened Text

  /** The parts `parse` returns: the number as captured, and the unit if one was written. */
  datatype SizeParts = SizeParts(value: string, unit: Option<string>)

  /**
   * `s` reads as `d + w + u + t` under SIZE_STRING_PATTERN: a run of digits,
   * dots and minus signs, whitespace, a possibly empty run of letters, and an
   * end that `$` accepts (nothing, or one final line feed).
   */
  ghost predicate SplitsAs(s: string, d: string, w: string, u: string, t: string) {
    && s == d + w + u + t
    && d != [] && All(d, IsDigitDotOrMinus)
    && All(w, IsSpace)
    && All(u, IsLetter)
    && (t == [] || t == "\n")
  }

  /** A unit group that took part in the match is set; an empty one is not (PHP's `null`). */
  function UnitGroup(u: string): (r: Option<string>)
    ensures r.None? <==> u == []
  {
    if u == [] then None else Some(u)
  }

  /**
   * `preg_match(SIZE_STRING_PATTERN, s)`: the number group and the (possibly
   * empty) unit group, or `None` when the pattern does not match. The
   * character classes of the three parts are disjoint, so each part takes its
   * whole run; a lazy `\s*?` that stops short of a final line feed captures
   * the same groups as one that takes it.
   */
  function MatchPattern(s: string): (r: Option<(string, string)>)
    ensures r.Some? ==> exists w, t :: SplitsAs(s, r.value.0, w, r.value.1, t)
  {
    var n := Span(s, IsDigitDotOrMinus);
    var rest := s[n..];
    var w := Span(rest, IsSpace);
    var after := rest[w..];
    var l := Span(after, IsLetter);
    if n > 0 && (after[l..] == [] || after[l..] == "\n") then
      CutFour(s, rest, after, n, w, l);
      assert SplitsAs(s, s[..n], rest[..w], after[..l], after[l..]);
      Some((s[..n], after[..l]))
    else None
  }

  /** Every string of the pattern's shape matches, with exactly those groups. */
  lemma MatchPatternComplete(s: string, d: string, w: string, u: string, t: string)
    requires SplitsAs(s, d, w, u, t)
    ensures MatchPattern(s) == Some((d, u))
  {
    var rest := w + u + t;
    assert s == d + rest;
    SpanOfPrefix(s, d, rest, IsDigitDotOrMinus);
    UnitRun(rest, w, u, t);
  }

  /** After the number, the whitespace and letter runs capture exactly `u` and leave an accepted end. */
  lemma UnitRun(rest: string, w: string, u: string, t: string)
    requires rest == w + u + t && All(w, IsSpace) && All(u, IsLetter) && (t == [] || t == "\n")
    ensures var after := rest[Span(rest, IsSpace)..];
      var l := Span(after, IsLetter);
      after[..l] == u && (after[l..] == [] || after[l..] == "\n")
  {
    if u == [] {
      assert All(rest, IsSpace) by {
        forall k | 0 <= k < |rest| ensures IsSpace(rest[k]) {
          if k < |w| { assert rest[k] == w[k]; } else { assert rest[k] == t[k - |w|]; }
        }
      }
      assert rest[..|rest|] == rest;
      SpanUnique(rest, |rest|, IsSpace);
      assert rest[|rest|..] == [];
    } else {
      var after := u + t;
      assert rest == w + after;
      SpanOfPrefix(rest, w, after, IsSpace);
      SpanOfPrefix(after, u, t, IsLetter);
    }
  }

  /**
   * `parse`: the captured number must also be numeric; the value is the
   * captured text itself and the unit is `None` when no letters were
   * written. Any other input is an error naming the input.
   */
  function Parse(size: string): (r: Result<SizeParts, Error>)
    ensures r.Success? ==> IsNumeric(r.value.value)
    ensures r.Success? ==> exists w, t :: SplitsAs(size, r.value.value, w, UnitText(r.value.unit), t)
    ensures r.Failure? ==> r.error == CouldNotParse(size)
  {
    match MatchPattern(size)
    case None => Failure(CouldNotParse(size))
    case Some((d, u)) =>
      if !IsNumeric(d) then Failure(CouldNotParse(size))
      else
        assert UnitText(UnitGroup(u)) == u;
        Success(SizeParts(d, UnitGroup(u)))
  }

  /** The letters of a unit group, the empty string for an absent one. */
  function UnitText(unit: Option<string>): string {
    if unit.Some? then unit.value else []
  }

  /** A string of the pattern's shape with a numeric number parses to exactly its parts. */
  lemma ParseComplete(size: string, d: string, w: string, u: string, t: string)
    requires SplitsAs(size, d, w, u, t) && IsNumeric(d)
    ensures Parse(size) == Success(SizeParts(d, UnitGroup(u)))
  {
    MatchPatternComplete(size, d, w, u, t);
  }

  /** A number that is not numeric, such as "1.2.3", "5-" or "--1", is rejected. */
  lemma ParseRejectsNonNumeric(size: string, d: string, w: string, u: string, t: string)
    requires SplitsAs(size, d, w, u, t) && !IsNumeric(d)
    ensures Parse(size) == Failure(CouldNotParse(size))
  {
    MatchPatternComplete(size, d, w, u, t);
  }

  /** Nothing is trimmed: a string starting with anything but a digit, dot or minus is rejected. */
  lemma ParseRejectsLeadingOther(size: string)
    requires size != [] && !IsDigitDotOrMinus(size[0])
    ensures Parse(size) == Failure(CouldNotParse(size))
  {
    assert Span(size, IsDigitDotOrMinus) == 0;
  }

  /** An `int` argument, rendered as PHP renders it, parses to its own digits with no unit. */
  lemma ParseInt(n: int)
    ensures Parse(IntString(n)) == Success(SizeParts(IntString(n), None))
  {
    var s := IntString(n);
    var m: nat := if n < 0 then -n else n;
    NatStringNumeric(m);
    var digits := NatString(m);
    assert IsUnsignedDecimal(digits);
    assert All(s, IsDigitDotOrMinus);
    assert IsNumeric(s);
    assert SplitsAs(s, s, [], [], []) by { assert s == s + [] + [] + []; }
    ParseComplete(s, s, [], [], []);
  }

  /** "150" is 150 with no unit. */
  lemma ParseCountWithoutUnit()
    ensures Parse("150") == Success(SizeParts("150", None))
  {
    assert IntString(150) == "150";
    ParseInt(150);
  }

  /** "1.2.3 MB" has a run of digits and dots that is not a number. */
  lemma ParseRejectsTwoDots()
    ensures Parse("1.2.3 MB") == Failure(CouldNotParse("1.2.3 MB"))
  {
    var d := "1.2.3";
    assert SplitsAs("1.2.3 MB", d, " ", "MB", []) by {
      assert "1.2.3 MB" == d + " " + "MB" + [];
    }
    assert IntegerPart(d) == "1" by { SpanUnique(d, 1, IsDigit); }
    assert d[1..] == ".2.3";
    assert !All(d[1..][1..], IsDigit) by { assert d[1..][1..][1] == '.'; }
    ParseRejectsNonNumeric("1.2.3 MB", d, " ", "MB", []);
  }
}
