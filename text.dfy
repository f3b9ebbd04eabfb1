/**
 * The string primitives of PHP that the library relies on, restricted to what
 * it feeds them: ASCII `strtolower`, `trim`, `str_replace`, the character
 * classes of its regular expressions, a plain decimal `is_numeric`, the
 * numeric prefix read by `(float)`/`floatval`, and the decimal rendering of
 * an integer that `strlen($int)` and string interpolation see.
 */
module Text {

  // ---------------------------------------------------------------------
  // Character classes

  predicate IsDigit(c: char) { '0' <= c <= '9' }

  predicate IsUpper(c: char) { 'A' <= c <= 'Z' }

  predicate IsLower(c: char) { 'a' <= c <= 'z' }

  /** `[A-Za-z]` */
  predicate IsLetter(c: char) { IsUpper(c) || IsLower(c) }

  /** `[0-9\.]` */
  predicate IsDigitOrDot(c: char) { IsDigit(c) || c == '.' }

  /** `[0-9\.-]` */
  predicate IsDigitDotOrMinus(c: char) { IsDigitOrDot(c) || c == '-' }

  /** PCRE `\s`: space, tab, line feed, vertical tab, form feed, carriage return. */
  predicate IsSpace(c: char) {
    c == ' ' || c == '\t' || c == '\n' || c == '\U{000B}' || c == '\U{000C}' || c == '\r'
  }

  /** The characters PHP's `trim` strips by default. */
  predicate IsTrimmed(c: char) {
    c == ' ' || c == '\t' || c == '\n' || c == '\r' || c == '\0' || c == '\U{000B}'
  }

  /** Every character of `s` is in the class. */
  predicate All(s: string, inClass: char -> bool) {
    forall i :: 0 <= i < |s| ==> inClass(s[i])
  }

  /** Length of the longest prefix of `s` whose characters are all in the class. */
  function Span(s: string, inClass: char -> bool): (n: nat)
    ensures n <= |s|
    ensures All(s[..n], inClass)
    ensures n < |s| ==> !inClass(s[n])
  {
    if s == [] || !inClass(s[0]) then 0 else 1 + Span(s[1..], inClass)
  }

  /** Cutting a string into three successive pieces and what follows loses nothing. */
  lemma CutFour(s: string, rest: string, after: string, n: nat, w: nat, l: nat)
    requires n <= |s| && rest == s[n..] && w <= |rest| && after == rest[w..] && l <= |after|
    ensures s == s[..n] + rest[..w] + after[..l] + after[l..]
  {
    var b, c := n + w, n + w + l;
    assert rest[..w] == s[n..b];
    assert after[..l] == s[b..c] && after[l..] == s[c..];
    assert s[..n] + s[n..b] == s[..b];
    assert s[..b] + s[b..c] == s[..c];
    assert s[..c] + s[c..] == s;
  }

  /** A prefix that is in the class and stops where the class stops is the span. */
  lemma {:induction false} SpanUnique(s: string, n: nat, inClass: char -> bool)
    requires n <= |s| && All(s[..n], inClass)
    requires n < |s| ==> !inClass(s[n])
    ensures Span(s, inClass) == n
  {
    if n > 0 {
      assert s[1..][..n - 1] == s[1..n];
      SpanUnique(s[1..], n - 1, inClass);
    }
  }

  /** The run at the start of `d + rest` is all of `d` when `rest` does not continue it. */
  lemma SpanOfPrefix(s: string, d: string, rest: string, inClass: char -> bool)
    requires s == d + rest && All(d, inClass)
    requires rest == [] || !inClass(rest[0])
    ensures Span(s, inClass) == |d| && s[..|d|] == d && s[|d|..] == rest
  {
    assert s[..|d|] == d;
    if rest != [] {
      assert s[|d|] == rest[0];
    }
    SpanUnique(s, |d|, inClass);
  }

  // ---------------------------------------------------------------------
  // strtolower

  /** One character through `strtolower`: 'A'..'Z' move 32 code points up to 'a'..'z'. */
  function LowerChar(c: char): (d: char)
    ensures !IsUpper(d)
    ensures IsLetter(c) <==> IsLetter(d)
    ensures IsUpper(c) ==> IsLower(d) && d as int == c as int + 32
    ensures !IsUpper(c) ==> d == c
  {
    if IsUpper(c) then (c as int - 'A' as int + 'a' as int) as char else c
  }

  /** PHP 8 `strtolower`: ASCII upper-case letters become lower-case, nothing else changes. */
  function ToLower(s: string): (r: string)
    ensures |r| == |s|
    ensures forall i :: 0 <= i < |s| ==> r[i] == LowerChar(s[i])
    ensures forall i :: 0 <= i < |s| && IsUpper(s[i]) ==> r[i] as int == s[i] as int + 32
    ensures forall i :: 0 <= i < |s| && !IsUpper(s[i]) ==> r[i] == s[i]
  {
    seq(|s|, i requires 0 <= i < |s| => LowerChar(s[i]))
  }

  /** No character of `s` is an upper-case ASCII letter. */
  predicate NoUpper(s: string) {
    forall i :: 0 <= i < |s| ==> !IsUpper(s[i])
  }

  lemma ToLowerKeepsLowercase(s: string)
    requires NoUpper(s)
    ensures ToLower(s) == s
  {
    forall i | 0 <= i < |s| ensures ToLower(s)[i] == s[i] {
      assert !IsUpper(s[i]);
    }
  }

  lemma ToLowerIdempotent(s: string)
    ensures ToLower(ToLower(s)) == ToLower(s)
  {
    ToLowerKeepsLowercase(ToLower(s));
  }

  // ---------------------------------------------------------------------
  // trim

  function TrimLeft(s: string): (r: string)
    ensures |r| <= |s| && r == s[|s| - |r|..]
    ensures All(s[..|s| - |r|], IsTrimmed)
    ensures r != [] ==> !IsTrimmed(r[0])
  {
    if s != [] && IsTrimmed(s[0]) then
      var r := TrimLeft(s[1..]);
      assert s[..|s| - |r|] == [s[0]] + s[1..][..|s| - 1 - |r|];
      r
    else s
  }

  function TrimRight(s: string): (r: string)
    ensures |r| <= |s| && r == s[..|r|]
    ensures All(s[|r|..], IsTrimmed)
    ensures r != [] ==> !IsTrimmed(r[|r| - 1])
  {
    if s != [] && IsTrimmed(s[|s| - 1]) then
      var r := TrimRight(s[..|s| - 1]);
      assert s[|r|..] == s[..|s| - 1][|r|..] + [s[|s| - 1]];
      r
    else s
  }

  /** PHP `trim`: strip the default characters from both ends. */
  function Trim(s: string): (r: string)
    ensures exists i, j :: 0 <= i <= j <= |s| && r == s[i..j] && All(s[..i], IsTrimmed) && All(s[j..], IsTrimmed)
    ensures r != [] ==> !IsTrimmed(r[0]) && !IsTrimmed(r[|r| - 1])
  {
    var l := TrimLeft(s);
    var r := TrimRight(l);
    TrimCut(s, l, r);
    r
  }

  /** A suffix `l` of `s`, then a prefix `r` of `l`, each cutting away only trimmed characters. */
  lemma TrimCut(s: string, l: string, r: string)
    requires |l| <= |s| && l == s[|s| - |l|..] && All(s[..|s| - |l|], IsTrimmed)
    requires |r| <= |l| && r == l[..|r|] && All(l[|r|..], IsTrimmed)
    ensures exists i, j :: 0 <= i <= j <= |s| && r == s[i..j] && All(s[..i], IsTrimmed) && All(s[j..], IsTrimmed)
  {
    var i := |s| - |l|;
    var j := i + |r|;
    assert r == s[i..j];
    assert s[j..] == l[|r|..];
  }

  /** A string that neither starts nor ends with a trimmed character is its own trim. */
  lemma TrimPlain(s: string)
    requires s != [] && !IsTrimmed(s[0]) && !IsTrimmed(s[|s| - 1])
    ensures Trim(s) == s
  {
    assert TrimLeft(s) == s;
    assert TrimRight(s) == s;
  }

  /** Trimming twice is trimming once. */
  lemma TrimIdempotent(s: string)
    ensures Trim(Trim(s)) == Trim(s)
  {
    var r := Trim(s);
    assert TrimLeft(r) == r;
    assert TrimRight(r) == r;
  }

  // ---------------------------------------------------------------------
  // str_replace

  /** `pat` occurs in `s` starting at position `i`. */
  predicate OccursAt(s: string, pat: string, i: nat) {
    i + |pat| <= |s| && s[i..i + |pat|] == pat
  }

  predicate Contains(s: string, pat: string) {
    exists i: nat | i <= |s| :: OccursAt(s, pat, i)
  }

  /**
   * PHP `str_replace(pat, rep, s)` for one non-empty pattern: scan left to
   * right, replacing each occurrence and continuing after it.
   */
  function ReplaceAll(s: string, pat: string, rep: string): (r: string)
    requires pat != []
    decreases |s|
  {
    if |s| < |pat| then s
    else if s[..|pat|] == pat then rep + ReplaceAll(s[|pat|..], pat, rep)
    else [s[0]] + ReplaceAll(s[1..], pat, rep)
  }

  /** A string that does not contain the pattern is left as it is. */
  lemma {:induction false} ReplaceAllAbsent(s: string, pat: string, rep: string)
    requires pat != [] && !Contains(s, pat)
    ensures ReplaceAll(s, pat, rep) == s
  {
    if |s| >= |pat| {
      assert !OccursAt(s, pat, 0);
      assert s[..|pat|] != pat;
      forall i: nat | i <= |s[1..]| ensures !OccursAt(s[1..], pat, i) {
        assert !OccursAt(s, pat, i + 1);
        if i + |pat| <= |s[1..]| {
          assert s[1..][i..i + |pat|] == s[i + 1..i + 1 + |pat|];
        }
      }
      ReplaceAllAbsent(s[1..], pat, rep);
    }
  }

  /** A string containing "bytes" contains an 's'. */
  lemma ContainsBytesHasS(a: string)
    requires Contains(a, "bytes")
    ensures exists k :: 0 <= k < |a| && a[k] == 's'
  {
    var i: nat :| i <= |a| && OccursAt(a, "bytes", i);
    assert a[i..i + 5][4] == 's';
  }

  /** Rewriting a string without upper-case letters by a lower-case replacement keeps it so. */
  lemma {:induction false} ReplaceAllNoUpper(s: string, pat: string, rep: string)
    requires pat != [] && NoUpper(s) && NoUpper(rep)
    ensures NoUpper(ReplaceAll(s, pat, rep))
    decreases |s|
  {
    if |s| >= |pat| {
      if s[..|pat|] == pat {
        ReplaceAllNoUpper(s[|pat|..], pat, rep);
      } else {
        ReplaceAllNoUpper(s[1..], pat, rep);
      }
    }
  }

  /**
   * Appending "s" to a word that ends in "byte" and has no other 's' makes
   * exactly one occurrence of "bytes", at the end, so the rewrite takes the
   * "s" off again.
   */
  lemma {:induction false} ReplacePluralBytes(p: string)
    requires forall k :: 0 <= k < |p| ==> p[k] != 's'
    ensures ReplaceAll(p + "bytes", "bytes", "byte") == p + "byte"
  {
    var s := p + "bytes";
    if p == [] {
      assert s == "bytes";
      assert s[5..] == [];
    } else {
      assert s[..5] != "bytes" by {
        if |p| >= 5 { assert s[..5][4] == p[4]; } else { assert s[..5][4] == s[4] == "bytes"[4 - |p|]; }
      }
      assert s[1..] == p[1..] + "bytes";
      ReplacePluralBytes(p[1..]);
      assert [p[0]] + (p[1..] + "byte") == p + "byte";
    }
  }

  // ---------------------------------------------------------------------
  // Decimal numbers

  function DigitValue(c: char): nat
    requires IsDigit(c)
  {
    c as int - '0' as int
  }

  /** The value of a run of decimal digits, most significant first. */
  function DigitsValue(d: string): nat
    requires All(d, IsDigit)
  {
    if d == [] then 0 else 10 * DigitsValue(d[..|d| - 1]) + DigitValue(d[|d| - 1])
  }

  function Pow10(n: nat): (r: nat)
    ensures r >= 1
  {
    if n == 0 then 1 else 10 * Pow10(n - 1)
  }

  /** `10^p` for any integer `p`, as an exact real. */
  function Pow10Real(p: int): (r: real)
    ensures r > 0.0
  {
    if p >= 0 then Pow10(p) as real else 1.0 / Pow10(-p) as real
  }

  /** A digit run is below ten to the power of its length. */
  lemma {:induction false} DigitsValueBound(d: string)
    requires All(d, IsDigit)
    ensures DigitsValue(d) < Pow10(|d|)
  {
    if d != [] {
      DigitsValueBound(d[..|d| - 1]);
    }
  }

  /** `s` is `digits ('.' digits)?` read from its start: the integer and fraction digit runs. */
  function IntegerPart(s: string): (d: string)
    ensures All(d, IsDigit) && |d| <= |s| && d == s[..|d|]
  {
    s[..Span(s, IsDigit)]
  }

  function FractionPart(s: string): (d: string)
    ensures All(d, IsDigit)
  {
    var rest := s[|IntegerPart(s)|..];
    if rest != [] && rest[0] == '.' then rest[1..][..Span(rest[1..], IsDigit)] else []
  }

  /** The magnitude written by `digits ('.' digits)?` at the start of `s`; 0 when there is none. */
  function UnsignedPrefixValue(s: string): (v: real)
    ensures v >= 0.0
  {
    var f := FractionPart(s);
    DigitsValue(IntegerPart(s)) as real + DigitsValue(f) as real / Pow10(|f|) as real
  }

  /**
   * The number PHP's `(float)`/`floatval` reads from the start of a string,
   * over the decimal grammar `'-'? digits ('.' digits)?` (exponents and a
   * leading `+` or whitespace are not modelled). A string with no such
   * prefix, such as `"."` or `""`, reads as 0.
   */
  function LeadingNumber(s: string): real
  {
    if s != [] && s[0] == '-' then -UnsignedPrefixValue(s[1..]) else UnsignedPrefixValue(s)
  }

  /** `digits '.' digits` reads as its whole part plus its fraction digits over a power of ten. */
  lemma DecimalValue(i: string, f: string)
    requires i != [] && All(i, IsDigit) && All(f, IsDigit)
    ensures LeadingNumber(i + ("." + f)) == DigitsValue(i) as real + DigitsValue(f) as real / Pow10(|f|) as real
  {
    DecimalParts(i, f);
    UnsignedPrefixOfParts(i + ("." + f), i, f);
  }

  lemma DecimalParts(i: string, f: string)
    requires i != [] && All(i, IsDigit) && All(f, IsDigit)
    ensures LeadingNumber(i + ("." + f)) == UnsignedPrefixValue(i + ("." + f))
    ensures IntegerPart(i + ("." + f)) == i && FractionPart(i + ("." + f)) == f
  {
    var s := i + ("." + f);
    assert s[0] == i[0];
    SpanOfPrefix(s, i, "." + f, IsDigit);
    assert ("." + f)[1..] == f + [];
    SpanOfPrefix(f + [], f, [], IsDigit);
  }

  /** `digits '.' digits` is numeric. */
  lemma DecimalNumeric(i: string, f: string)
    requires i != [] && All(i, IsDigit) && All(f, IsDigit)
    ensures IsNumeric(i + ("." + f))
  {
    DecimalParts(i, f);
    var s := i + ("." + f);
    assert s[|i|..] == "." + f;
  }

  lemma UnsignedPrefixOfParts(s: string, i: string, f: string)
    requires All(i, IsDigit) && All(f, IsDigit)
    requires IntegerPart(s) == i && FractionPart(s) == f
    ensures UnsignedPrefixValue(s) == DigitsValue(i) as real + DigitsValue(f) as real / Pow10(|f|) as real
  {
  }

  /** PHP's `(int)` cast of a float, and `intval` of a numeric string: truncation toward zero. */
  function Truncate(x: real): (n: int)
    ensures x >= 0.0 ==> n as real <= x < n as real + 1.0
    ensures x < 0.0 ==> n as real - 1.0 < x <= n as real
  {
    if x >= 0.0 then x.Floor else -((-x).Floor)
  }

  /** Truncation keeps exactly the whole numbers, as the floor does. */
  lemma TruncateExact(x: real)
    ensures Truncate(x) as real == x <==> x.Floor as real == x
  {
    if x < 0.0 {
      var m := (-x).Floor;
      if m as real == -x {
        assert x == (-m) as real;
        WholeFloor(-m);
      }
      if x.Floor as real == x {
        var k := x.Floor;
        assert -x == (-k) as real;
        WholeFloor(-k);
      }
    }
  }

  lemma WholeFloor(n: int)
    ensures (n as real).Floor == n
  {
  }

  /** A whole number is kept as it is. */
  lemma TruncateWhole(n: int)
    ensures Truncate(n as real) == n
  {
  }

  /** Unsigned decimal literal: `digits ('.' digits*)?` or `'.' digits`, with at least one digit. */
  predicate IsUnsignedDecimal(s: string) {
    var n := |IntegerPart(s)|;
    var rest := s[n..];
    || (rest == [] && n > 0)
    || (rest != [] && rest[0] == '.' && All(rest[1..], IsDigit) && (n > 0 || |rest| > 1))
  }

  /**
   * PHP `is_numeric`, restricted to plain decimals: an optional minus sign and
   * an unsigned decimal literal, and nothing else.
   */
  predicate IsNumeric(s: string) {
    if s != [] && s[0] == '-' then IsUnsignedDecimal(s[1..]) else IsUnsignedDecimal(s)
  }

  /** The digits of a numeric string after its optional minus sign. */
  function Unsigned(s: string): string {
    if s != [] && s[0] == '-' then s[1..] else s
  }

  /** A string holding a letter is not numeric. */
  lemma NumericHasNoLetter(s: string, k: nat)
    requires k < |s| && IsLetter(s[k])
    ensures !IsNumeric(s)
  {
    var u := Unsigned(s);
    if s[0] == '-' {
      assert k > 0;
      assert u[k - 1] == s[k];
      UnsignedHasNoLetter(u, k - 1);
    } else {
      UnsignedHasNoLetter(u, k);
    }
  }

  lemma UnsignedHasNoLetter(u: string, j: nat)
    requires j < |u| && IsLetter(u[j])
    ensures !IsUnsignedDecimal(u)
  {
    var n := |IntegerPart(u)|;
    assert u[..n] == IntegerPart(u) && !IsDigit(u[j]);
    assert j >= n;
    var rest := u[n..];
    assert rest[j - n] == u[j];
    if j > n {
      assert rest[1..][j - n - 1] == u[j];
    }
  }

  // ---------------------------------------------------------------------
  // Rendering an integer

  function DigitChar(d: nat): (c: char)
    requires d < 10
    ensures IsDigit(c)
  {
    ('0' as int + d) as char
  }

  /** Decimal digits of a natural number, no leading zeros ("0" for zero). */
  function NatString(n: nat): (s: string)
    ensures |s| >= 1 && All(s, IsDigit)
    decreases n
  {
    if n < 10 then [DigitChar(n)] else NatString(n / 10) + [DigitChar(n % 10)]
  }

  /** How PHP renders an int as a string: its digits, with `-` in front when negative. */
  function IntString(n: int): (s: string)
    ensures |s| >= 1
  {
    if n < 0 then "-" + NatString(-n) else NatString(n)
  }

  /** Reading the rendered digits back gives the number. */
  lemma {:induction false} NatStringValue(n: nat)
    ensures DigitsValue(NatString(n)) == n
  {
    if n >= 10 {
      NatStringValue(n / 10);
      var s := NatString(n);
      assert s[..|s| - 1] == NatString(n / 10);
    }
  }

  /** The rendered digits of a natural number are a numeric string worth that number. */
  lemma NatStringNumeric(n: nat)
    ensures IsNumeric(NatString(n))
    ensures LeadingNumber(NatString(n)) == n as real
  {
    var s := NatString(n);
    SpanUnique(s, |s|, IsDigit);
    assert IntegerPart(s) == s;
    assert FractionPart(s) == [];
    NatStringValue(n);
  }

  /** A decimal rendering has nothing for `trim` to cut. */
  lemma NatStringTrimmed(n: nat)
    ensures Trim(NatString(n)) == NatString(n)
  {
    var s := NatString(n);
    assert IsDigit(s[0]) && IsDigit(s[|s| - 1]);
    TrimPlain(s);
  }

  /** A positive number has `d` digits exactly when `10^(d-1) <= n < 10^d`. */
  lemma {:induction false} NatStringLength(n: nat, d: nat)
    requires d >= 1 && Pow10(d - 1) <= n < Pow10(d)
    ensures |NatString(n)| == d
  {
    if d > 1 {
      assert n >= 10 by { Pow10Monotone(1, d - 1); }
      NatStringLength(n / 10, d - 1);
    }
  }

  lemma {:induction false} Pow10Monotone(a: nat, b: nat)
    requires a <= b
    ensures Pow10(a) <= Pow10(b)
  {
    if a < b {
      Pow10Monotone(a, b - 1);
    }
  }

  /** Larger natural numbers never have fewer digits. */
  lemma {:induction false} NatStringLengthMonotone(a: nat, b: nat)
    requires a <= b
    ensures |NatString(a)| <= |NatString(b)|
  {
    if a >= 10 {
      NatStringLengthMonotone(a / 10, b / 10);
    }
  }
}
