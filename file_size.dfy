/**
 * The `FileSize` class of src/FileSize.php: a byte count that is parsed from
 * size strings such as "123 megabytes", changed in place by `add`,
 * `subtract`, `multiply` and `divide`, and read back in any unit by `as` and
 * `asAuto`. Its private unit table is the nine-tier table of src/UnitMap.php.
 */
module FileSize {
  import opened Wrappers
  import opened Errors
  import opened Text
  import opened UnitTable
  import opened LegacyUnitMap
  import opened ScaleMath

  /** The key of the byte tier, the unit of every count `stringToBytes` returns. */
  const BYTE: string := "B"

  // ---------------------------------------------------------------------
  // parseSizeString

  /** The parts `parseSizeString` returns: the number as text, and the unit as written. */
  datatype SizeParts = SizeParts(value: string, unit: string)

  /** No line feed, except possibly as the last character: what `.*$` accepts. */
  predicate LineEnd(x: string) {
    forall i :: 0 <= i < |x| - 1 ==> x[i] != '\n'
  }

  /**
   * From position `k` on, `s` reads as `([0-9\.]+)\s*?([a-zA-Z]+).*$`: a run of
   * digits and dots `d`, whitespace `w`, the whole run of letters `u`, and a
   * rest `x` that `.*$` accepts.
   */
  ghost predicate SplitsAt(s: string, k: nat, d: string, w: string, u: string, x: string) {
    && k <= |s| && s[k..] == d + w + u + x
    && d != [] && All(d, IsDigitOrDot)
    && All(w, IsSpace)
    && u != [] && All(u, IsLetter)
    && (x == [] || !IsLetter(x[0]))
    && LineEnd(x)
  }

  /**
   * The pattern's groups when the lazy `^.*?` stops at position `k`. The
   * classes of the three groups are disjoint, so each takes its whole run;
   * the greedy letter group takes every letter and `.*$` the rest.
   */
  function MatchAt(s: string, k: nat): Option<(string, string)>
    requires k <= |s|
  {
    MatchRest(s[k..])
  }

  /** The groups of `([0-9\.]+)\s*?([a-zA-Z]+).*$` matched from the start of `t`. */
  function MatchRest(t: string): Option<(string, string)> {
    var n := Span(t, IsDigitOrDot);
    var rest := t[n..];
    var w := Span(rest, IsSpace);
    var after := rest[w..];
    var l := Span(after, IsLetter);
    if n > 0 && l > 0 && LineEnd(after[l..]) then Some((t[..n], after[..l])) else None
  }

  /** What `MatchAt` finds is a split at `k`. */
  lemma MatchAtSound(s: string, k: nat)
    requires k <= |s| && MatchAt(s, k).Some?
    ensures SplitsAt(s, k, MatchAt(s, k).value.0, Witness(s[k..]).0, MatchAt(s, k).value.1, Witness(s[k..]).1)
  {
    MatchRestSound(s[k..]);
  }

  lemma MatchRestSound(t: string)
    requires MatchRest(t).Some?
    ensures var (d, u) := MatchRest(t).value; var (w, x) := Witness(t);
      && t == d + w + u + x
      && d != [] && All(d, IsDigitOrDot) && All(w, IsSpace) && u != [] && All(u, IsLetter)
      && (x == [] || !IsLetter(x[0])) && LineEnd(x)
  {
    var n := Span(t, IsDigitOrDot);
    var rest := t[n..];
    var w := Span(rest, IsSpace);
    var after := rest[w..];
    var l := Span(after, IsLetter);
    CutFour(t, rest, after, n, w, l);
  }

  /** The whitespace and the rest that a match leaves around its two groups. */
  function Witness(t: string): (string, string) {
    var n := Span(t, IsDigitOrDot);
    var rest := t[n..];
    var w := Span(rest, IsSpace);
    var after := rest[w..];
    var l := Span(after, IsLetter);
    (rest[..w], after[l..])
  }

  /** Every split at `k` is the one `MatchAt` finds. */
  lemma MatchAtComplete(s: string, k: nat, d: string, w: string, u: string, x: string)
    requires SplitsAt(s, k, d, w, u, x)
    ensures MatchAt(s, k) == Some((d, u))
  {
    MatchRestComplete(s[k..], d, w, u, x);
  }

  lemma MatchRestComplete(t: string, d: string, w: string, u: string, x: string)
    requires t == d + w + u + x
    requires d != [] && All(d, IsDigitOrDot) && All(w, IsSpace) && u != [] && All(u, IsLetter)
    requires (x == [] || !IsLetter(x[0])) && LineEnd(x)
    ensures MatchRest(t) == Some((d, u))
  {
    var rest, after := w + u + x, u + x;
    assert t == d + rest && rest == w + after;
    SpanOfPrefix(t, d, rest, IsDigitOrDot);
    SpanOfPrefix(rest, w, after, IsSpace);
    SpanOfPrefix(after, u, x, IsLetter);
  }

  /** `s[k..j]` holds no line feed: `.` can cross it. */
  predicate NoLineFeed(s: string, k: nat, j: nat)
    requires k <= j <= |s|
  {
    forall i :: k <= i < j ==> s[i] != '\n'
  }

  /**
   * The lazy `^.*?` from position `k` on: the first position, reached
   * without crossing a line feed, at which the rest of the pattern matches.
   */
  function FirstMatch(s: string, k: nat): (r: Option<nat>)
    requires k <= |s|
    ensures r.Some? ==> k <= r.value <= |s| && NoLineFeed(s, k, r.value) && MatchAt(s, r.value).Some?
    ensures r.Some? ==> forall i :: k <= i < r.value ==> MatchAt(s, i).None?
    ensures r.None? ==> forall j :: k <= j <= |s| && NoLineFeed(s, k, j) ==> MatchAt(s, j).None?
    decreases |s| - k
  {
    if MatchAt(s, k).Some? then Some(k)
    else if k < |s| && s[k] != '\n' then
      var r := FirstMatch(s, k + 1);
      FirstMatchStep(s, k, r);
      r
    else
      NoLineFeedStop(s, k);
      None
  }

  /** No match at `k` and no line feed there: the search from `k + 1` answers for `k` as well. */
  lemma FirstMatchStep(s: string, k: nat, r: Option<nat>)
    requires k < |s| && s[k] != '\n' && MatchAt(s, k).None?
    requires r.Some? ==> k + 1 <= r.value <= |s| && NoLineFeed(s, k + 1, r.value) && MatchAt(s, r.value).Some?
    requires r.Some? ==> forall i :: k + 1 <= i < r.value ==> MatchAt(s, i).None?
    requires r.None? ==> forall j :: k + 1 <= j <= |s| && NoLineFeed(s, k + 1, j) ==> MatchAt(s, j).None?
    ensures r.Some? ==> k <= r.value <= |s| && NoLineFeed(s, k, r.value) && MatchAt(s, r.value).Some?
    ensures r.Some? ==> forall i :: k <= i < r.value ==> MatchAt(s, i).None?
    ensures r.None? ==> forall j :: k <= j <= |s| && NoLineFeed(s, k, j) ==> MatchAt(s, j).None?
  {
    NoLineFeedStep(s, k);
  }

  lemma NoLineFeedStop(s: string, k: nat)
    requires k == |s| || (k < |s| && s[k] == '\n')
    ensures forall j :: k < j <= |s| ==> !NoLineFeed(s, k, j)
  {
  }

  lemma NoLineFeedStep(s: string, k: nat)
    requires k < |s| && s[k] != '\n'
    ensures forall j :: k + 1 <= j <= |s| ==> (NoLineFeed(s, k, j) <==> NoLineFeed(s, k + 1, j))
  {
  }

  /**
   * `parseSizeString`: trim; a numeric string is a count of bytes, and
   * anything else is searched for its first number followed by letters.
   * When nothing matches, PHP reads both groups as `null`, which behaves as
   * the empty string from then on.
   */
  function ParseSizeString(sizeString: string): (r: SizeParts)
    ensures IsNumeric(Trim(sizeString)) ==> r == SizeParts(Trim(sizeString), BYTE)
  {
    var s := Trim(sizeString);
    if IsNumeric(s) then SizeParts(s, BYTE)
    else match FirstMatch(s, 0)
      case Some(k) => var (d, u) := MatchAt(s, k).value; SizeParts(d, u)
      case None => SizeParts([], [])
  }

  /** No split of the pattern starts at `k`. */
  ghost predicate NoSplitAt(s: string, k: nat) {
    forall d, w, u, x :: !SplitsAt(s, k, d, w, u, x)
  }

  lemma NoMatchNoSplit(s: string, k: nat)
    requires k <= |s| && MatchAt(s, k).None?
    ensures NoSplitAt(s, k)
  {
    forall d, w, u, x | SplitsAt(s, k, d, w, u, x) ensures false {
      MatchAtComplete(s, k, d, w, u, x);
    }
  }

  /**
   * What `parseSizeString` finds in a string that is not numeric: the number
   * and the unit of the leftmost split of the pattern that starts before any
   * line feed; when there is none, two empty strings.
   */
  lemma ParseSizeStringFinds(sizeString: string)
    requires !IsNumeric(Trim(sizeString))
    ensures var r := ParseSizeString(sizeString); var s := Trim(sizeString);
      r.unit != [] ==>
        exists k: nat, w, x :: SplitsAt(s, k, r.value, w, r.unit, x) && NoLineFeed(s, 0, k)
          && forall i :: 0 <= i < k ==> NoSplitAt(s, i)
    ensures var r := ParseSizeString(sizeString); var s := Trim(sizeString);
      r.unit == [] ==>
        r.value == [] && forall k :: 0 <= k <= |s| && NoLineFeed(s, 0, k) ==> NoSplitAt(s, k)
  {
    var s := Trim(sizeString);
    match FirstMatch(s, 0)
    case Some(k) => FoundSplit(s, k);
    case None => NoSplitBeforeLineFeed(s);
  }

  /** The lazy search stops at `k`: its groups are a split there, and no split starts earlier. */
  lemma FoundSplit(s: string, k: nat)
    requires FirstMatch(s, 0) == Some(k)
    ensures k <= |s| && MatchAt(s, k).Some? && NoLineFeed(s, 0, k)
    ensures SplitsAt(s, k, MatchAt(s, k).value.0, Witness(s[k..]).0, MatchAt(s, k).value.1, Witness(s[k..]).1)
    ensures forall i :: 0 <= i < k ==> NoSplitAt(s, i)
  {
    MatchAtSound(s, k);
    NoSplitBefore(s, k);
  }

  /** No position before `k` starts a match, so none starts a split. */
  lemma NoSplitBefore(s: string, k: nat)
    requires k <= |s| && forall i :: 0 <= i < k ==> MatchAt(s, i).None?
    ensures forall i :: 0 <= i < k ==> NoSplitAt(s, i)
  {
    forall i | 0 <= i < k ensures NoSplitAt(s, i) {
      NoMatchNoSplit(s, i);
    }
  }

  /** The lazy search finds nothing: no split starts before the first line feed. */
  lemma NoSplitBeforeLineFeed(s: string)
    requires FirstMatch(s, 0).None?
    ensures forall k :: 0 <= k <= |s| && NoLineFeed(s, 0, k) ==> NoSplitAt(s, k)
  {
    forall k | 0 <= k <= |s| && NoLineFeed(s, 0, k) ensures NoSplitAt(s, k) {
      NoMatchNoSplit(s, k);
    }
  }

  // ---------------------------------------------------------------------
  // getUnit, byteFactor, convert

  /**
   * `getUnit`: the key of the first tier listing the lower-cased unit
   * string. The class carries its own copy of the table in src/UnitMap.php
   * and the same search as `UnitMap::lookup`, so it is that lookup.
   */
  function GetUnit(unitString: string): Result<string, Error> {
    Lookup(unitString)
  }

  /**
   * `array_search($key, array_keys($unitMap))` as a number: the tier of a
   * key; PHP's `false` for any other string counts as 0 in arithmetic.
   */
  function TierOf(key: string): nat {
    match KeyPosition(Map, key)
    case Some(i) => i
    case None => 0
  }

  lemma TierOfKey(i: nat)
    requires i < |Map|
    ensures TierOf(Map[i].key) == i
  {
    MapDistinctKeys();
  }

  /** PHP `round($x, $p)` on an exact value: to the nearest multiple of `10^-p`, halves away from zero. */
  function Round(x: real, p: int): (r: real)
    ensures r * Pow10Real(p) == NearestInt(x * Pow10Real(p)) as real
  {
    NearestInt(x * Pow10Real(p)) as real / Pow10Real(p)
  }

  /** The integer nearest to `y`, a half going away from zero. */
  function NearestInt(y: real): (n: int)
    ensures -0.5 <= n as real - y <= 0.5
    ensures n as real - y == 0.5 ==> y > 0.0
    ensures n as real - y == -0.5 ==> y < 0.0
  {
    if y >= 0.0 then (y + 0.5).Floor else -((-y + 0.5).Floor)
  }

  /**
   * `convert`: resolve both units; between different tiers scale by
   * `byteFactor(from - to)`; a result in bytes is cast to `int`, and any
   * other is rounded when the precision is not zero (`null` and `0` both
   * mean "do not round").
   */
  function Convert(size: real, fromUnit: string, toUnit: string, precision: int): (r: Result<Number, Error>)
    ensures r.Success? <==> GetUnit(fromUnit).Success? && GetUnit(toUnit).Success?
    ensures GetUnit(fromUnit).Failure? ==> r == Failure(GetUnit(fromUnit).error)
    ensures GetUnit(fromUnit).Success? && GetUnit(toUnit).Failure? ==> r == Failure(GetUnit(toUnit).error)
    ensures r.Success? ==> (r.value.Int? <==> GetUnit(toUnit).value == BYTE)
  {
    match GetUnit(fromUnit)
    case Failure(e) => Failure(e)
    case Success(from) =>
      match GetUnit(toUnit)
      case Failure(e) => Failure(e)
      case Success(to) =>
        var scaled := if from != to then Scaled(size, TierOf(from), TierOf(to)) else size;
        Success(Finish(scaled, to, precision))
  }

  /** `(float) $size * byteFactor($index1 - $index2)`: the amount moved from tier `index1` to tier `index2`. */
  function Scaled(size: real, index1: int, index2: int): real {
    size * BytesByFactor(index1 - index2)
  }

  /** Within one tier nothing is scaled: `byteFactor(0)` is 1. */
  lemma ScaledSameTier(size: real, i: int)
    ensures Scaled(size, i, i) == size
  {
    assert BytesByFactor(0) == 1.0;
  }

  /**
   * The tail of `convert`, once the amount is in the target unit `to`: an
   * `int` for bytes, otherwise a float, rounded unless the precision is 0.
   */
  function Finish(scaled: real, to: string, precision: int): Number {
    if to == BYTE then Int(Truncate(scaled))
    else if precision != 0 then Float(Round(scaled, precision))
    else Float(scaled)
  }

  /**
   * Converting from tier `i` to tier `j` scales by `1024^(i-j)`, whatever
   * spelling names the two units; the same tier means no scaling at all.
   */
  lemma ConvertScales(size: real, fromUnit: string, toUnit: string, precision: int, i: nat, j: nat)
    requires i < |Map| && ToLower(fromUnit) in Map[i].aliases
    requires j < |Map| && ToLower(toUnit) in Map[j].aliases
    ensures Convert(size, fromUnit, toUnit, precision) == Success(Finish(Scaled(size, i, j), Map[j].key, precision))
  {
    GetUnitOf(fromUnit, i);
    GetUnitOf(toUnit, j);
    KeysDiffer(i, j);
    TierOfKey(i);
    TierOfKey(j);
    var from, to := Map[i].key, Map[j].key;
    var scaled := if from != to then Scaled(size, TierOf(from), TierOf(to)) else size;
    if i == j {
      ScaledSameTier(size, i);
    } else {
      assert scaled == Scaled(size, i, j);
    }
    assert Convert(size, fromUnit, toUnit, precision) == Success(Finish(scaled, to, precision));
  }

  /** A unit string listed in tier `i` names that tier's key. */
  lemma GetUnitOf(unitString: string, i: nat)
    requires i < |Map| && ToLower(unitString) in Map[i].aliases
    ensures GetUnit(unitString) == Success(Map[i].key)
  {
    LookupResolves(unitString, i);
  }

  /** Distinct tiers have distinct keys, and only the first is "B". */
  lemma KeysDiffer(i: nat, j: nat)
    requires i < |Map| && j < |Map|
    ensures Map[i].key == Map[j].key <==> i == j
    ensures Map[j].key == BYTE <==> j == 0
  {
    MapDistinctKeys();
  }

  /** Moving an amount to another tier and back gives the amount back. */
  lemma ScaledInverse(size: real, i: int, j: int)
    ensures Scaled(Scaled(size, i, j), j, i) == size
  {
    var a, b := BytesByFactor(i - j), BytesByFactor(j - i);
    BytesByFactorInverse(i - j);
    assert a * b == 1.0;
    assert (size * a) * b == size * (a * b);
  }

  /** Converting to another tier and back, without rounding, gives the amount back. */
  lemma ConvertRoundTrip(size: real, fromUnit: string, toUnit: string, i: nat, j: nat)
    requires 0 < i < |Map| && ToLower(fromUnit) in Map[i].aliases
    requires 0 < j < |Map| && ToLower(toUnit) in Map[j].aliases
    ensures Convert(size, fromUnit, toUnit, 0) == Success(Float(Scaled(size, i, j)))
    ensures Convert(Scaled(size, i, j), toUnit, fromUnit, 0) == Success(Float(size))
  {
    KeysDiffer(i, j);
    KeysDiffer(j, i);
    ConvertScales(size, fromUnit, toUnit, 0, i, j);
    ConvertScales(Scaled(size, i, j), toUnit, fromUnit, 0, j, i);
    ScaledInverse(size, i, j);
  }

  // ---------------------------------------------------------------------
  // stringToBytes

  /**
   * `stringToBytes`: parse the size string, then convert its number from its
   * unit to bytes. A string with no recognisable unit, including one that
   * matched nothing and so has the empty unit, is an error naming that unit.
   */
  function StringToBytes(sizeString: string): Result<int, Error> {
    var parts := ParseSizeString(sizeString);
    ToBytes(LeadingNumber(parts.value), parts.unit)
  }

  /**
   * `convert($size, $unit, 'B')`: an amount in some unit as a whole byte
   * count. A numeric string `$size` is read as the number it starts with.
   */
  function ToBytes(size: real, unit: string): Result<int, Error> {
    LookupOwnKey(0);
    match Convert(size, unit, BYTE, 0)
    case Failure(e) => Failure(e)
    case Success(n) => Success(n.i)
  }

  /** "B" names the byte tier. */
  lemma ByteUnit()
    ensures "b" in Map[0].aliases && ToLower(BYTE) == "b" && Map[0].key == BYTE
  {
  }

  /** Tier `i` to bytes multiplies by `1024^i`. */
  lemma ScaledToBytes(size: real, i: nat)
    ensures Scaled(size, i, 0) == size * Pow(1024, i) as real
    ensures Truncate(Scaled(size, i, 0)) == Truncate(size * Pow(1024, i) as real)
  {
    var p := Pow(1024, i) as real;
    BytesByFactorIsPow(i);
    assert BytesByFactor(i - 0) == p;
    assert Scaled(size, i, 0) == size * p;
  }

  /** Converting a unit string of tier `i` to "B" truncates the amount scaled by `1024^i`. */
  lemma ConvertToBytes(size: real, unit: string, i: nat)
    requires i < |Map| && ToLower(unit) in Map[i].aliases
    ensures Convert(size, unit, BYTE, 0) == Success(Int(Truncate(Scaled(size, i, 0))))
  {
    ByteUnit();
    ConvertScales(size, unit, BYTE, 0, i, 0);
  }

  /**
   * A unit string of tier `i` makes the amount `1024^i` bytes each, the
   * product cut toward zero to a whole byte count.
   */
  lemma ToBytesScales(size: real, unit: string, i: nat)
    requires i < |Map| && ToLower(unit) in Map[i].aliases
    ensures ToBytes(size, unit) == Success(Truncate(size * Pow(1024, i) as real))
  {
    ConvertToBytes(size, unit, i);
    ToBytesOf(size, unit, i);
  }

  lemma ToBytesOf(size: real, unit: string, i: nat)
    requires Convert(size, unit, BYTE, 0) == Success(Int(Truncate(Scaled(size, i, 0))))
    ensures ToBytes(size, unit) == Success(Truncate(size * Pow(1024, i) as real))
  {
    ScaledToBytes(size, i);
  }

  /** An unrecognised unit string is an error naming it. */
  lemma ToBytesUnknown(size: real, unit: string)
    requires forall i :: 0 <= i < |Map| ==> ToLower(unit) !in Map[i].aliases
    ensures ToBytes(size, unit) == Failure(UnrecognizedUnit(unit))
  {
  }

  /** A numeric string is a count of bytes: its value cut toward zero. */
  lemma StringToBytesNumeric(sizeString: string)
    requires IsNumeric(Trim(sizeString))
    ensures StringToBytes(sizeString) == Success(Truncate(LeadingNumber(Trim(sizeString))))
  {
    ByteUnit();
    ToBytesScales(LeadingNumber(Trim(sizeString)), BYTE, 0);
  }

  /** Digits, optional whitespace and letters parse as exactly those digits and letters. */
  lemma ParseSizeStringOfCount(n: nat, w: string, u: string)
    requires All(w, IsSpace) && u != [] && All(u, IsLetter)
    ensures ParseSizeString(NatString(n) + w + u) == SizeParts(NatString(n), u)
  {
    ParseSizeStringOfNumber(NatString(n), w, u);
  }

  /**
   * A run of digits and dots, optional whitespace and letters parse as
   * exactly that run and those letters: "1.2345 KB" has the groups "1.2345"
   * and "KB".
   */
  lemma ParseSizeStringOfNumber(d: string, w: string, u: string)
    requires d != [] && All(d, IsDigitOrDot)
    requires All(w, IsSpace) && u != [] && All(u, IsLetter)
    ensures ParseSizeString(d + w + u) == SizeParts(d, u)
  {
    var s := d + w + u;
    assert s[0] == d[0] && s[|s| - 1] == u[|u| - 1];
    TrimPlain(s);
    assert s[|d| + |w|] == u[0];
    NumericHasNoLetter(s, |d| + |w|);
    SplitsWhole(s, d, w, u);
    MatchAtComplete(s, 0, d, w, u, []);
  }

  /** A whole string of digits and dots, whitespace and letters splits at its start with nothing left over. */
  lemma SplitsWhole(s: string, d: string, w: string, u: string)
    requires s == d + w + u && d != [] && All(d, IsDigitOrDot)
    requires All(w, IsSpace) && u != [] && All(u, IsLetter)
    ensures SplitsAt(s, 0, d, w, u, [])
  {
    assert s[0..] == s;
    assert s + [] == s;
  }

  /**
   * Digits, optional whitespace and a unit string of tier `i`: exactly
   * `n * 1024^i` bytes, whatever the case of the unit.
   */
  lemma StringToBytesOfCount(n: nat, w: string, u: string, i: nat)
    requires All(w, IsSpace) && u != [] && All(u, IsLetter)
    requires i < |Map| && ToLower(u) in Map[i].aliases
    ensures StringToBytes(NatString(n) + w + u) == Success(TierBytes(n, i))
  {
    ParseSizeStringOfCount(n, w, u);
    NatStringNumeric(n);
    CountToBytes(n, u, i);
  }

  /**
   * A run of digits and dots, optional whitespace and a unit string: the
   * number the run starts with, converted from that unit to bytes.
   */
  lemma StringToBytesOfRun(s: string, d: string, w: string, u: string, x: real)
    requires s == d + w + u && LeadingNumber(d) == x
    requires d != [] && All(d, IsDigitOrDot)
    requires All(w, IsSpace) && u != [] && All(u, IsLetter)
    ensures StringToBytes(s) == ToBytes(x, u)
  {
    ParseSizeStringOfNumber(d, w, u);
    StringToBytesOfParts(s, d, u, x);
  }

  lemma StringToBytesOfParts(s: string, d: string, u: string, x: real)
    requires ParseSizeString(s) == SizeParts(d, u) && LeadingNumber(d) == x
    ensures StringToBytes(s) == ToBytes(x, u)
  {
  }

  /**
   * `s` is a run of digits and dots `d` that reads as `x`, optional
   * whitespace `w` and a unit string `u` of tier `k`; `n` is `x` scaled
   * from tier `k` down to bytes and cut toward zero.
   */
  ghost predicate SpellsAmount(s: string, d: string, w: string, u: string, k: nat, x: real, n: int) {
    && s == d + w + u
    && d != [] && All(d, IsDigitOrDot)
    && All(w, IsSpace) && u != [] && All(u, IsLetter)
    && k < |Map| && ToLower(u) in Map[k].aliases
    && LeadingNumber(d) == x && n == Truncate(Scaled(x, k, 0))
  }

  /** Such a string is `n` bytes: a fractional amount is cut toward zero. */
  lemma StringToBytesOfReading(s: string, d: string, w: string, u: string, k: nat, x: real, n: int)
    requires SpellsAmount(s, d, w, u, k, x, n)
    ensures StringToBytes(s) == Success(n)
  {
    StringToBytesOfRun(s, d, w, u, x);
    ToBytesReading(x, u, k);
  }

  /** An amount `x` in a unit of tier `i` is `x` scaled from tier `i` to bytes, cut toward zero. */
  lemma ToBytesReading(x: real, u: string, i: nat)
    requires i < |Map| && ToLower(u) in Map[i].aliases
    ensures ToBytes(x, u) == Success(Truncate(Scaled(x, i, 0)))
  {
    ConvertToBytes(x, u, i);
  }

  /** A whole count of `n` in a unit of tier `i` is `n * 1024^i` bytes. */
  lemma CountToBytes(n: nat, u: string, i: nat)
    requires i < |Map| && ToLower(u) in Map[i].aliases
    ensures ToBytes(n as real, u) == Success(TierBytes(n, i))
  {
    ToBytesScales(n as real, u, i);
    TierBytesTruncate(n, i);
  }

  // ---------------------------------------------------------------------
  // The byte count and its operations

  /** PHP truthiness of a string: "" and "0" are false (an omitted argument, `null`, reads as ""). */
  predicate Falsy(sizeString: string) {
    sizeString == "" || sizeString == "0"
  }

  /** What the constructor stores: 0 for a falsy argument, otherwise the string's byte count. */
  function InitialBytes(sizeString: string): Result<int, Error> {
    if Falsy(sizeString) then Success(0) else StringToBytes(sizeString)
  }

  /**
   * The falsy test only matters for the empty string: "0" counts 0 bytes
   * anyway, while "" on its own would be an unrecognised empty unit.
   */
  lemma InitialBytesGuard(sizeString: string)
    ensures sizeString != "" ==> InitialBytes(sizeString) == StringToBytes(sizeString)
    ensures InitialBytes("") == Success(0)
    ensures StringToBytes("") == Failure(UnrecognizedUnit(""))
  {
    ZeroCountsZero();
    EmptyIsUnknown();
  }

  lemma ZeroCountsZero()
    ensures StringToBytes("0") == Success(0)
  {
    assert NatString(0) == "0";
    StringToBytesOfNat(0);
  }

  lemma EmptyIsUnknown()
    ensures StringToBytes("") == Failure(UnrecognizedUnit(""))
  {
    EmptyParsesEmpty();
    EmptyNoAlias();
    ToBytesUnknown(LeadingNumber(""), "");
  }

  lemma EmptyParsesEmpty()
    ensures ParseSizeString("") == SizeParts("", "")
  {
    assert Trim("") == "";
    assert MatchAt("", 0).None?;
  }

  lemma EmptyNoAlias()
    ensures forall i :: 0 <= i < |Map| ==> ToLower("") !in Map[i].aliases
  {
    forall i | 0 <= i < |Map| ensures ToLower("") !in Map[i].aliases {
      if ToLower("") in Map[i].aliases {
        AliasInitials(i, ToLower(""));
      }
    }
  }

  /** `subtract`'s rule: take `d` bytes away, stopping at 0. */
  function LessBytes(bytes: int, d: int): (r: int)
    ensures r >= 0
  {
    if d < bytes then bytes - d else 0
  }

  /** Subtracting what was just added gives back any non-negative count. */
  lemma LessBytesUndoesAdd(bytes: int, d: int)
    requires bytes >= 0
    ensures LessBytes(bytes + d, d) == bytes
  {
  }

  /** Subtracting a non-negative amount never grows a non-negative count, and subtracting nothing keeps it. */
  lemma LessBytesShrinks(bytes: int, d: int)
    requires bytes >= 0 && d >= 0
    ensures LessBytes(bytes, d) <= bytes
    ensures LessBytes(bytes, 0) == bytes
    ensures LessBytes(bytes, d) == 0 <==> d >= bytes
  {
  }

  /** `multiply`'s rule: the smallest whole byte count not below `bytes * n`. */
  function TimesBytes(bytes: int, n: real): (r: int)
    ensures bytes as real * n <= r as real < bytes as real * n + 1.0
  {
    ByteFormat(bytes as real * n)
  }

  /** `divide`'s rule: multiply by `1 / n`; dividing by zero is an error. */
  function OverBytes(bytes: int, n: real): (r: Result<int, Error>)
    ensures r.Failure? <==> n == 0.0
    ensures r.Failure? ==> r.error == DivisionByZero
  {
    if n == 0.0 then Failure(DivisionByZero) else Success(TimesBytes(bytes, 1.0 / n))
  }

  /** Multiplying by 1 keeps the count; multiplying by a whole number is exact. */
  lemma TimesBytesWhole(bytes: int, k: int)
    ensures TimesBytes(bytes, 1.0) == bytes
    ensures TimesBytes(bytes, k as real) == bytes * k
  {
    assert (bytes * k) as real == bytes as real * k as real;
  }

  /** Dividing by a non-zero whole number undoes multiplying by it. */
  lemma OverBytesUndoesTimes(bytes: int, k: int)
    requires k != 0
    ensures OverBytes(TimesBytes(bytes, k as real), k as real) == Success(bytes)
  {
    TimesBytesWhole(bytes, k);
    var m := TimesBytes(bytes, k as real);
    assert m as real == bytes as real * k as real;
    assert m as real * (1.0 / k as real) == bytes as real;
    ByteFormatIdempotent(bytes, 0.0);
    assert TimesBytes(m, 1.0 / k as real) == ByteFormat(bytes as real);
  }

  /** Dividing by a positive whole number and multiplying back never loses bytes. */
  lemma TimesBytesUndoesOver(bytes: int, k: int)
    requires k > 0
    ensures OverBytes(bytes, k as real).Success?
    ensures TimesBytes(OverBytes(bytes, k as real).value, k as real) >= bytes
  {
    var q := OverBytes(bytes, k as real).value;
    assert bytes as real * (1.0 / k as real) <= q as real;
    TimesBytesWhole(q, k);
    assert bytes as real <= q as real * k as real;
    assert (q * k) as real == q as real * k as real;
  }

  /** What `asAuto` returns: the plain byte count below 1000 bytes, otherwise a value to format. */
  datatype Display =
    | Plain(text: string)
    | Fixed(value: real, precision: int, unit: string)

  class FileSize {
    /** `$bytes`: the number of bytes in this file size. */
    var bytes: int

    /** `new FileSize()`: zero bytes. */
    constructor ()
      ensures bytes == 0
    {
      bytes := 0;
    }

    /**
     * `new FileSize($sizeString)`: a new object holding the string's byte
     * count (0 for a falsy string), or the error `stringToBytes` throws.
     */
    static method Create(sizeString: string) returns (r: Result<FileSize, Error>)
      ensures r.Success? <==> InitialBytes(sizeString).Success?
      ensures r.Success? ==> fresh(r.value) && r.value.bytes == InitialBytes(sizeString).value
      ensures r.Failure? ==> r.error == InitialBytes(sizeString).error
    {
      var b := if Falsy(sizeString) then Success(0) else StringToBytes(sizeString);
      if b.Failure? {
        return Failure(b.error);
      }
      var f := new FileSize();
      f.bytes := b.value;
      return Success(f);
    }

    /** `add`: the string's byte count is added; an unparsable string changes nothing. */
    method Add(sizeString: string) returns (r: Outcome<Error>)
      modifies this
      ensures r.Pass? <==> StringToBytes(sizeString).Success?
      ensures r.Pass? ==> bytes == old(bytes) + StringToBytes(sizeString).value
      ensures r.Fail? ==> r.error == StringToBytes(sizeString).error && bytes == old(bytes)
    {
      var d := StringToBytes(sizeString);
      if d.Failure? {
        return Fail(d.error);
      }
      bytes := bytes + d.value;
      return Pass;
    }

    /** `subtract`: the string's byte count is taken away, stopping at 0 bytes. */
    method Subtract(sizeString: string) returns (r: Outcome<Error>)
      modifies this
      ensures r.Pass? <==> StringToBytes(sizeString).Success?
      ensures r.Pass? ==> bytes == LessBytes(old(bytes), StringToBytes(sizeString).value) && bytes >= 0
      ensures r.Fail? ==> r.error == StringToBytes(sizeString).error && bytes == old(bytes)
    {
      var d := StringToBytes(sizeString);
      if d.Failure? {
        return Fail(d.error);
      }
      bytes := LessBytes(bytes, d.value);
      return Pass;
    }

    /** `multiply`: the count times `n`, rounded up to whole bytes. */
    method Multiply(n: real)
      modifies this
      ensures bytes == TimesBytes(old(bytes), n)
      ensures old(bytes) as real * n <= bytes as real < old(bytes) as real * n + 1.0
    {
      bytes := ByteFormat(bytes as real * n);
    }

    /** `divide`: multiply by `1 / n`; dividing by zero fails and changes nothing. */
    method Divide(n: real) returns (r: Outcome<Error>)
      modifies this
      ensures r.Fail? <==> n == 0.0
      ensures r.Fail? ==> r.error == DivisionByZero && bytes == old(bytes)
      ensures r.Pass? ==> Success(bytes) == OverBytes(old(bytes), n)
    {
      if n == 0.0 {
        return Fail(DivisionByZero);
      }
      Multiply(1.0 / n);
      return Pass;
    }

    /** `as`: the count converted from bytes to `newUnit`. */
    function As(newUnit: string, precision: int): (r: Result<Number, Error>)
      reads this
      ensures r.Success? <==> GetUnit(newUnit).Success?
      ensures r.Failure? ==> r.error == UnrecognizedUnit(newUnit)
    {
      ByteUnit();
      Convert(bytes as real, BYTE, newUnit, precision)
    }

    /**
     * `asAuto`: the tier is picked from the count's decimal length; the byte
     * tier shows the count itself, every other tier a value to format with
     * `precision` decimals. A tier past the table has no unit (PHP's
     * undefined index).
     */
    function AsAuto(precision: Number): (r: Result<Display, Error>)
      reads this
      ensures r.Failure? <==> precision.Float?
      ensures r.Failure? ==> r.error == PrecisionNotInteger
    {
      if precision.Float? then Failure(PrecisionNotInteger)
      else
        var factor := FactorByBytes(bytes);
        var unit := if factor < |Map| then Map[factor].key else "";
        if unit == BYTE then Success(Plain(IntString(bytes) + " B"))
        else
          Pow2Positive(factor);
          Success(Fixed(bytes as real / BytesByFactor(factor), precision.i, unit))
    }
  }

  /** Scaling from bytes down to tier `i` divides by `1024^i`. */
  lemma ScaledFromBytes(size: real, i: nat)
    ensures Scaled(size, 0, i) * Pow(1024, i) as real == size
  {
    BytesByFactorIsPow(-(i as int));
  }

  /**
   * `as` into a unit of tier `i`: the count scaled down to that tier, then
   * finished as `convert` finishes it (a whole count for the byte tier, a
   * rounded value when a precision is given).
   */
  lemma AsScales(f: FileSize, newUnit: string, precision: int, i: nat)
    requires i < |Map| && ToLower(newUnit) in Map[i].aliases
    ensures f.As(newUnit, precision) == Success(Finish(Scaled(f.bytes as real, 0, i), Map[i].key, precision))
  {
    ByteUnit();
    ConvertScales(f.bytes as real, BYTE, newUnit, precision, 0, i);
  }

  /** `as('B')` is the count itself, whatever the precision. */
  lemma AsBytes(f: FileSize, precision: int)
    ensures f.As(BYTE, precision) == Success(Int(f.bytes))
  {
    ByteUnit();
    AsScales(f, BYTE, precision, 0);
    ScaledSameTier(f.bytes as real, 0);
  }

  /**
   * Without rounding, `as` into a larger unit gives the exact quotient, and
   * converting that value back to bytes gives the count.
   */
  lemma AsRoundTrip(f: FileSize, newUnit: string, i: nat)
    requires 0 < i < |Map| && ToLower(newUnit) in Map[i].aliases
    ensures f.As(newUnit, 0) == Success(Float(Scaled(f.bytes as real, 0, i)))
    ensures ToBytes(Scaled(f.bytes as real, 0, i), newUnit) == Success(f.bytes)
  {
    AsScales(f, newUnit, 0, i);
    KeysDiffer(0, i);
    var x := Scaled(f.bytes as real, 0, i);
    ConvertToBytes(x, newUnit, i);
    ScaledInverse(f.bytes as real, 0, i);
    TruncateWhole(f.bytes);
    ToBytesWhole(x, newUnit, f.bytes);
  }

  lemma ToBytesWhole(x: real, unit: string, n: int)
    requires Convert(x, unit, BYTE, 0) == Success(Int(n))
    ensures ToBytes(x, unit) == Success(n)
  {
  }

  /**
   * From 1000 bytes on `asAuto` shows a value in a larger unit; below that
   * it shows the count itself followed by " B".
   */
  lemma AsAutoPlain(f: FileSize, p: int)
    requires f.bytes >= 0
    ensures f.AsAuto(Int(p)).Success?
    ensures f.AsAuto(Int(p)).value.Plain? <==> f.bytes < 1000
    ensures f.bytes < 1000 ==> f.AsAuto(Int(p)) == Success(Plain(IntString(f.bytes) + " B"))
  {
    FactorByBytesFirstTiers(f.bytes);
    if f.bytes >= 1000 {
      FactorByBytesMonotone(1000, f.bytes);
      FactorByBytesFirstTiers(1000);
      var k := FactorByBytes(f.bytes);
      if k < |Map| {
        KeysDiffer(0, k);
      }
    }
  }

  /** The value `asAuto` formats stays below 1000 and keeps the requested precision. */
  lemma AsAutoBound(f: FileSize, p: int)
    requires f.bytes >= 0
    ensures f.AsAuto(Int(p)).value.Fixed? ==>
      0.0 <= f.AsAuto(Int(p)).value.value < 1000.0 && f.AsAuto(Int(p)).value.precision == p
  {
    FactorByBytesDisplayBound(f.bytes);
  }

  /**
   * A count in `[1000^k, 1000^(k+1))` decimal, for a tier `k` past bytes,
   * is shown in tier `k`'s unit as the count divided by `1024^k`.
   */
  lemma AsAutoTier(f: FileSize, p: int, k: nat)
    requires 0 < k < |Map| && Pow10(3 * k) <= f.bytes < Pow10(3 * k + 3)
    ensures f.AsAuto(Int(p)) == Success(Fixed(f.bytes as real / Pow(1024, k) as real, p, Map[k].key))
  {
    FactorByBytesOfRange(f.bytes, k);
    KeysDiffer(0, k);
    BytesByFactorIsPow(k);
  }

  /** A count of 10^27 bytes or more has no tier in the table: the unit is empty. */
  lemma AsAutoPastTable(f: FileSize, p: int)
    requires f.bytes >= Pow10(27)
    ensures f.AsAuto(Int(p)).value.Fixed? && f.AsAuto(Int(p)).value.unit == ""
  {
    FactorByBytesRange(f.bytes);
    var k := FactorByBytes(f.bytes);
    if k < 9 {
      Pow10Monotone(3 * k + 3, 27);
    }
  }

  /** `asAuto`'s value for a tier past bytes is what `as` gives for that tier's key without rounding. */
  lemma AsAutoAgreesWithAs(f: FileSize, p: int, k: nat)
    requires 0 < k < |Map| && Pow10(3 * k) <= f.bytes < Pow10(3 * k + 3)
    ensures f.AsAuto(Int(p)).Success? && f.AsAuto(Int(p)).value.Fixed?
    ensures f.As(Map[k].key, 0) == Success(Float(f.AsAuto(Int(p)).value.value))
  {
    FactorByBytesOfRange(f.bytes, k);
    KeysDiffer(0, k);
    KeyLowered(k);
    AsRoundTrip(f, Map[k].key, k);
    ScaledDown(f.bytes as real, k);
  }

  /** Scaling down to tier `k` is dividing by that tier's byte count. */
  lemma ScaledDown(size: real, k: nat)
    ensures BytesByFactor(k) > 0.0 && Scaled(size, 0, k) == size / BytesByFactor(k)
  {
    Pow2Positive(k);
    BytesByFactorInverse(k);
  }

  /** Rounding a whole number to a non-negative number of decimals keeps it. */
  lemma RoundWhole(n: int, p: int)
    requires p >= 0
    ensures Round(n as real, p) == n as real
  {
    var q := Pow10(p);
    assert Pow10Real(p) == q as real;
    WholeProduct(n, q, Pow10Real(p));
    RoundExact(n as real, p, n * q);
  }

  /** A value that is already a whole multiple of `10^-p` is unchanged by rounding to `p` decimals. */
  lemma RoundExact(x: real, p: int, m: int)
    requires x * Pow10Real(p) == m as real
    ensures Round(x, p) == x
  {
    NearestIntOf(x * Pow10Real(p), m);
    RoundScaled(x, p);
    CancelFactor(Round(x, p), Pow10Real(p), x, m);
  }

  lemma RoundScaled(x: real, p: int)
    ensures Round(x, p) * Pow10Real(p) == NearestInt(x * Pow10Real(p)) as real
  {
  }

  lemma WholeProduct(n: int, q: nat, scale: real)
    requires scale == q as real
    ensures n as real * scale == (n * q) as real
  {
  }

  lemma NearestIntOf(y: real, m: int)
    requires y == m as real
    ensures NearestInt(y) == m
  {
  }

  lemma CancelFactor(r: real, scale: real, x: real, m: int)
    requires scale > 0.0 && r * scale == m as real && x * scale == m as real
    ensures r == x
  {
  }

  /** `n` whole units of tier `i`, scaled from bytes back down to tier `i`, are `n`. */
  lemma ScaledTierBytes(n: nat, i: nat)
    ensures Scaled(TierBytes(n, i) as real, 0, i) == n as real
  {
    TierBytesIsProduct(n, i);
    BytesByFactorIsPow(-(i as int));
    var q := Pow(1024, i) as real;
    assert TierBytes(n, i) as real == n as real * q;
    assert n as real * q * (1.0 / q) == n as real;
  }

  /**
   * A count of whole units of a tier past bytes reads back in that tier's
   * unit as exactly that number, for any non-negative precision.
   */
  lemma AsWholeUnits(f: FileSize, newUnit: string, precision: int, i: nat, n: nat)
    requires 0 < i < |Map| && ToLower(newUnit) in Map[i].aliases
    requires precision >= 0 && f.bytes == TierBytes(n, i)
    ensures f.As(newUnit, precision) == Success(Float(n as real))
  {
    AsScales(f, newUnit, precision, i);
    KeysDiffer(0, i);
    ScaledTierBytes(n, i);
    RoundWhole(n, precision);
  }

  // ---------------------------------------------------------------------
  // Worked examples

  /** A bare count of bytes, written in decimal, is that count. */
  lemma StringToBytesOfNat(n: nat)
    ensures StringToBytes(NatString(n)) == Success(n)
  {
    var s := NatString(n);
    NatStringNumeric(n);
    NatStringTrimmed(n);
    StringToBytesNumeric(s);
    TruncateWhole(n);
  }

  lemma TierBytesValues()
    ensures TierBytes(123, 2) == 128974848
    ensures TierBytes(150, 1) == 153600
    ensures TierBytes(300, 1) == 307200
    ensures TierBytes(1, 3) == 1073741824
    ensures TierBytes(525, 3) == 563714457600
  {
  }

  /** "123 megabytes" is 123 * 1024^2 bytes. */
  lemma MegabytesExample()
    ensures StringToBytes("123 megabytes") == Success(128974848)
  {
    assert NatString(123) == "123";
    assert ToLower("megabytes") == "megabytes";
    assert "123 megabytes" == NatString(123) + " " + "megabytes";
    StringToBytesOfCount(123, " ", "megabytes", 2);
    TierBytesValues();
  }

  /** "123M" is 123 * 1024^2 bytes. */
  lemma LetterExample()
    ensures StringToBytes("123M") == Success(128974848)
  {
    assert NatString(123) == "123";
    assert ToLower("M") == "m";
    assert "123M" == NatString(123) + "" + "M";
    StringToBytesOfCount(123, "", "M", 2);
    TierBytesValues();
  }

  /** "150 KiB" and "150 kilobytes" are both 150 * 1024 bytes. */
  lemma KibibytesExample()
    ensures StringToBytes("150 KiB") == Success(153600)
  {
    assert NatString(150) == "150";
    assert ToLower("KiB") == "kib";
    assert "150 KiB" == NatString(150) + " " + "KiB";
    StringToBytesOfCount(150, " ", "KiB", 1);
    TierBytesValues();
  }

  lemma KilobytesExample()
    ensures StringToBytes("150 kilobytes") == Success(153600)
  {
    assert NatString(150) == "150";
    assert ToLower("kilobytes") == "kilobytes";
    assert "150 kilobytes" == NatString(150) + " " + "kilobytes";
    StringToBytesOfCount(150, " ", "kilobytes", 1);
    TierBytesValues();
  }

  /** '123 megabytes' plus '150 KiB', read back in bytes, is 129128448. */
  method AddExample() returns (r: Result<Number, Error>)
    ensures r == Success(Int(129128448))
  {
    MegabytesExample();
    KibibytesExample();
    InitialBytesGuard("123 megabytes");
    var c := FileSize.Create("123 megabytes");
    var size := c.value;
    var o := size.Add("150 KiB");
    AsBytes(size, 2);
    r := size.As(BYTE, 2);
  }

  /** '123M' minus '150 kilobytes', read back in bytes, is 128821248. */
  method SubtractExample() returns (r: Result<Number, Error>)
    ensures r == Success(Int(128821248))
  {
    LetterExample();
    KilobytesExample();
    InitialBytesGuard("123M");
    var c := FileSize.Create("123M");
    var size := c.value;
    var o := size.Subtract("150 kilobytes");
    AsBytes(size, 2);
    r := size.As(BYTE, 2);
  }

  /** "300K" is 300 * 1024 bytes. */
  lemma ThreeHundredKExample()
    ensures StringToBytes("300K") == Success(307200)
  {
    assert NatString(300) == "300";
    assert ToLower("K") == "k";
    assert "300K" == NatString(300) + "" + "K";
    StringToBytesOfCount(300, "", "K", 1);
    TierBytesValues();
  }

  /** "1 Gigabyte" is 1024^3 bytes. */
  lemma GigabyteExample()
    ensures StringToBytes("1 Gigabyte") == Success(1073741824)
  {
    assert NatString(1) == "1";
    assert ToLower("Gigabyte") == "gigabyte";
    assert "1 Gigabyte" == NatString(1) + " " + "Gigabyte";
    StringToBytesOfCount(1, " ", "Gigabyte", 3);
    TierBytesValues();
  }

  /** "525 Gigabytes" is 525 * 1024^3 bytes. */
  lemma GigabytesExample()
    ensures StringToBytes("525 Gigabytes") == Success(TierBytes(525, 3))
  {
    assert NatString(525) == "525";
    assert ToLower("Gigabytes") == "gigabytes";
    assert "525 Gigabytes" == NatString(525) + " " + "Gigabytes";
    StringToBytesOfCount(525, " ", "Gigabytes", 3);
  }

  /** Halving 307200 bytes gives 153600 = 150 * 1024 bytes. */
  lemma HalfExample()
    ensures OverBytes(307200, 2.0) == Success(TierBytes(150, 1))
  {
    TierBytesValues();
    assert 307200.0 * (1.0 / 2.0) == 153600 as real;
    ByteFormatIdempotent(153600, 0.0);
  }

  /** '300K' divided by 2, read back in KB, is 150. */
  method DivideExample() returns (r: Result<Number, Error>)
    ensures r == Success(Float(150.0))
  {
    ThreeHundredKExample();
    InitialBytesGuard("300K");
    var c := FileSize.Create("300K");
    var size := c.value;
    var o := size.Divide(2.0);
    HalfExample();
    KilobytesReading(size);
    r := size.As("KB", 2);
  }

  /** 150 * 1024 bytes read in KB are 150. */
  lemma KilobytesReading(f: FileSize)
    requires f.bytes == TierBytes(150, 1)
    ensures f.As("KB", 2) == Success(Float(150.0))
  {
    KeyLowered(1);
    assert Map[1].key == "KB";
    AsWholeUnits(f, Map[1].key, 2, 1, 150);
  }

  /** '1 Gigabyte', read back in bytes, is 1073741824. */
  method ConvertDownExample() returns (r: Result<Number, Error>)
    ensures r == Success(Int(1073741824))
  {
    GigabyteExample();
    InitialBytesGuard("1 Gigabyte");
    var c := FileSize.Create("1 Gigabyte");
    var size := c.value;
    AsBytes(size, 2);
    r := size.As(BYTE, 2);
  }

  /** '525 Gigabytes', read back in GB, is 525. */
  method NoConvertExample() returns (r: Result<Number, Error>)
    ensures r == Success(Float(525.0))
  {
    GigabytesExample();
    InitialBytesGuard("525 Gigabytes");
    var c := FileSize.Create("525 Gigabytes");
    var size := c.value;
    WholeGigabytesReading(size);
    r := size.As("GB", 2);
  }

  /** 525 * 1024^3 bytes read in GB are 525. */
  lemma WholeGigabytesReading(f: FileSize)
    requires f.bytes == TierBytes(525, 3)
    ensures f.As("GB", 2) == Success(Float(525.0))
  {
    KeyLowered(3);
    assert Map[3].key == "GB";
    AsWholeUnits(f, Map[3].key, 2, 3, 525);
  }

  /** "100 m" is 100 * 1024^2 bytes. */
  lemma HundredMExample()
    ensures StringToBytes("100 m") == Success(104857600)
  {
    assert NatString(100) == "100";
    assert ToLower("m") == "m";
    assert "100 m" == NatString(100) + " " + "m";
    StringToBytesOfCount(100, " ", "m", 2);
    assert TierBytes(100, 2) == 104857600;
  }

  /** 104857600 bytes times 7.5 are 786432000 bytes: 0.732421875 GB, 0.73 to two decimals. */
  lemma SevenAndAHalfValues()
    ensures TimesBytes(104857600, 7.5) == 786432000
    ensures Scaled(786432000 as real, 0, 3) == 0.732421875
    ensures Round(0.732421875, 2) == 0.73
  {
    ByteFormatIdempotent(786432000, 0.0);
    assert 104857600 as real * 7.5 == 786432000 as real;
    BytesByFactorIsPow(-3);
    assert Pow(1024, 3) == 1073741824;
    assert Pow10Real(2) == 100.0;
    assert NearestInt(0.732421875 * 100.0) == 73;
  }

  /** '100 m' multiplied by 7.5, read back in GB to two decimals, is 0.73. */
  method MultiplyExample() returns (r: Result<Number, Error>)
    ensures r == Success(Float(0.73))
  {
    HundredMExample();
    InitialBytesGuard("100 m");
    var c := FileSize.Create("100 m");
    var size := c.value;
    size.Multiply(7.5);
    SevenAndAHalfValues();
    GigabytesReading(size);
    r := size.As("GB", 2);
  }

  /** 786432000 bytes read in GB to two decimals are 0.73. */
  lemma GigabytesReading(f: FileSize)
    requires f.bytes == 786432000
    ensures f.As("GB", 2) == Success(Float(0.73))
  {
    SevenAndAHalfValues();
    KeyLowered(3);
    assert Map[3].key == "GB";
    AsScales(f, Map[3].key, 2, 3);
    KeysDiffer(0, 3);
  }

  /** "1.2345 KB" is the decimal 1.2345, a space and "KB", which names the kilobyte tier. */
  lemma KilobyteUnit()
    ensures "1.2345 KB" == "1.2345" + " " + "KB"
    ensures All(" ", IsSpace) && All("KB", IsLetter)
    ensures 1 < |Map| && ToLower("KB") in Map[1].aliases
  {
    assert ToLower("KB") == "kb";
  }

  /** The digits of "1.2345" make 1 + 2345 / 10^4. */
  lemma FractionalDigits()
    ensures 1.2345 == DigitsValue("1") as real + DigitsValue("2345") as real / Pow10(|"2345"|) as real
  {
    assert "1"[..0] == [];
    assert "2345"[..3] == "234" && "234"[..2] == "23" && "23"[..1] == "2" && "2"[..0] == [];
    assert Pow10(4) == 10000;
  }

  /** "1.2345 KB" is 1.2345 * 1024 = 1264.128 bytes, cut toward zero to 1264. */
  lemma FractionalKilobytesExample()
    ensures StringToBytes("1.2345 KB") == Success(1264)
  {
    FractionalKilobytesSpelling();
    StringToBytesOfReading("1.2345 KB", "1.2345", " ", "KB", 1, 1.2345, 1264);
  }

  /** "1.2345 KB" spells 1.2345 kilobytes, which are 1264 bytes. */
  lemma FractionalKilobytesSpelling()
    ensures SpellsAmount("1.2345 KB", "1.2345", " ", "KB", 1, 1.2345, 1264)
  {
    KilobyteUnit();
    FractionalCountValue();
    KilobyteTruncation(1.2345, 1);
  }

  /** "1.2345" reads as the number 1.2345. */
  lemma FractionalCountValue()
    ensures "1.2345" != [] && All("1.2345", IsDigitOrDot)
    ensures LeadingNumber("1.2345") == 1.2345
  {
    assert "1.2345" == "1" + ("." + "2345");
    DecimalValue("1", "2345");
    FractionalDigits();
  }

  /** 1.2345 KB are 1264.128 bytes, 1264 once cut toward zero. */
  lemma KilobyteTruncation(x: real, k: nat)
    requires x == 1.2345 && k == 1
    ensures Truncate(Scaled(x, k, 0)) == 1264
  {
    ScaledToBytes(x, k);
    assert Pow(1024, k) == 1024;
    assert x * 1024 as real == 1264.128;
  }

  /**
   * 1264 bytes times 0.333 are 420.912, rounded up to 421 bytes: below 1000,
   * so `asAuto` shows "421 B".
   */
  lemma ThirdOfFractionalValues()
    ensures TimesBytes(1264, 0.333) == 421
    ensures IntString(421) + " B" == "421 B"
  {
    assert 1264 as real * 0.333 == 420.912;
    assert NatString(421) == "421";
  }

  /** '1.2345 KB' multiplied by 0.333 shows as "421 B" in `asAuto`. */
  method AutoExample() returns (r: Result<Display, Error>)
    ensures r == Success(Plain("421 B"))
  {
    FractionalKilobytesExample();
    InitialBytesGuard("1.2345 KB");
    var c := FileSize.Create("1.2345 KB");
    var size := c.value;
    size.Multiply(0.333);
    ThirdOfFractionalValues();
    AsAutoPlain(size, 2);
    r := size.AsAuto(Int(2));
  }
}
