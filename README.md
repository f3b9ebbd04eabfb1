# php-filesize in Dafny

A model of the core of the PHP library `php-filesize`, which parses
human-written sizes such as "123 megabytes", "150 KiB" or "300K", keeps a
byte count, does arithmetic on it and converts it to other units (binary
tiers B, KB, MB, ... YB, 1024 apart).

The library exists in two generations and both are modelled:

- the legacy single class `FileSize` (src/FileSize.php): its `$unitMap`,
  `getUnit`, `parseSizeString`, `stringToBytes`, `convert`, `byteFactor`,
  and the mutators `add`, `subtract`, `multiply` and `divide` over the
  `$bytes` field, plus `as` and `asAuto`. Module `FileSize`; the object is
  the class `FileSize.FileSize` whose `bytes` field the methods update.
- the helper classes: the unit tables of src/UnitMap.php (`LegacyUnitMap`,
  with `keys` and `lookup`) and src/UnitMap/UnitMap.php (`UnitMap`, which
  adds `BYTE` and the "kibibyte"-style aliases); the two unit mappers
  src/UnitMapper.php (`LegacyUnitMapper`) and
  src/FileSize/UnitMap/UnitMapper.php (`UnitMapper`), each a class whose
  memo table (`$mappedStrings`, `$cache`) `KeyFromString` updates; the two
  size-string parsers src/SizeStringParser.php (`LegacySizeStringParser`)
  and src/FileSize/Parser/SizeStringParser.php (`SizeStringParser`); and
  the numeric helpers of src/FileSize/Math/Math.php (`ScaleMath`, with
  the exponent law of `bytesByFactor` in `ScaleLaws`).

Shared pieces: `Wrappers` (Option, Result, Outcome and PHP's `int|float`
as `Number`), `Errors` (one constructor per exception the core throws),
`Text` (PHP's `strtolower`, `trim`, `str_replace`, `is_numeric`,
`floatval`, `(int)` and the decimal rendering of an integer) and
`UnitTable` (a tier table as a sequence of key and alias list, the
first-match search that PHP's `foreach`/`in_array` loop performs, and
`sanitizeUnitString`).

Numbers: PHP integers are unbounded `int`; PHP floats are exact `real`s.
`(int)` truncates toward zero (`Text.Truncate`), `ceil` is
`ScaleMath.ByteFormat`, `round` rounds half away from zero
(`FileSize.NearestInt`). Exceptions become `Failure` results carrying an
`Errors.Error`, so every throwing path is modelled rather than excluded.

Regular expressions are modelled by what they capture: the legacy
`/^.*?([0-9\.]+)\s*?([a-zA-Z]+).*$/` by the first start position (not
past a line feed, as `.` does not cross one) from which digits, optional
whitespace and letters follow; the anchored patterns of the two parsers
by a split of the whole string into digits, whitespace, letters and an
end that `$` accepts (nothing or one final line feed).

The tests at tests/FileSizeTest.php:80-86 expect "422 B" from `asAuto` after
`new FileSize('1.2345 KB')` and `multiply(0.333)`. The code of src/FileSize.php
gives "421 B": `(int)` at src/FileSize.php:224 cuts 1264.128 bytes to 1264,
and `multiply` at src/FileSize.php:83 rounds 1264 * 0.333 = 420.912 up to 421.
The model follows the code (`FileSize.AutoExample`); 422 would need the
1264.128 bytes rounded up to 1265 first (1265 * 0.333 = 421.245).

## Model

| member | source | states |
|---|---|---|
| Text.ToLower | src/UnitMap.php:36 | `strtolower`: same length, each ASCII upper-case letter moved 32 code points up to its lower-case letter, every other character kept |
| Text.LowerChar | src/UnitMap.php:36 | one character through `strtolower`: 'A'..'Z' become 'a'..'z' (32 code points up), anything else is kept, and the result is never upper-case |
| Text.ToLowerIdempotent | src/UnitMap.php:36 | lowering twice is lowering once |
| Text.Trim | src/FileSize.php:176 | `trim`: the result is a contiguous piece of the input with only PHP's six trimmed characters cut from either side, and it neither starts nor ends with one |
| Text.TrimIdempotent | src/SizeStringParser.php:24 | trimming a trimmed string changes nothing |
| Text.ReplacePluralBytes | src/UnitMapper.php:77 | `str_replace('bytes','byte', p + "bytes")` is `p + "byte"` when `p` has no 's' |
| Text.NatStringNumeric | src/SizeStringParser.php:26 | the decimal rendering of a count is numeric and `floatval` reads it back as the count |
| Text.NatStringValue | src/FileSize/Math/Math.php:30 | the decimal digits of `n` denote `n` |
| Text.DecimalValue | src/FileSize.php:219 | `(float)` of `digits '.' digits` is the whole part plus the fraction digits over `10^n`, `n` being their number |
| Text.DecimalNumeric | src/FileSize.php:179 | `is_numeric` accepts `digits '.' digits` |
| Text.NumericHasNoLetter | src/FileSize.php:179 | `is_numeric` rejects every string holding a letter |
| Text.Truncate | src/FileSize.php:224 | `(int)` of a float: the integer at most one away toward zero, at or below a non-negative value and at or above a negative one |
| Text.TruncateExact | src/FileSize.php:224 | `(int)` keeps a value exactly when it is a whole number |
| Text.TruncateWhole | src/FileSize.php:224 | `(int)` of a whole number is that number |
| UnitTable.FirstTier | src/UnitMap.php:38-44 | the `foreach`/`in_array` search: answers the first tier whose list holds the string, or nothing exactly when no list holds it |
| UnitTable.KeyPosition | src/UnitMapper.php:53 | `array_search` over the keys: the first position holding the key, or nothing exactly when it is not a key |
| UnitTable.SanitizeIgnoresCase | src/UnitMapper.php:75-78 | sanitising a string and its lower-case form give the same result |
| UnitTable.SanitizePlural | src/FileSize/UnitMap/UnitMapper.php:97-100 | sanitising lower-case `p + "bytes"` gives `p + "byte"` |
| UnitTable.SanitizeKeeps | src/UnitMapper.php:75-78 | a lower-case string without "bytes" is left as it is |
| LegacyUnitMap.TableKeys | src/UnitMap.php:29-32 | `keys()` lists B, KB, MB, GB, TB, PB, EB, ZB, YB in that order |
| LegacyUnitMap.Lookup | src/UnitMap.php:34-45 | succeeds exactly when the lowered string is an alias of some tier, then answers that tier's key; otherwise the unrecognised-unit error naming the string as given |
| LegacyUnitMap.MapDisjoint | src/UnitMap.php:12-22 | no alias is listed under two keys, so the search order never matters |
| LegacyUnitMap.MapDistinctKeys | src/UnitMap.php:12-22 | the nine keys are pairwise different |
| LegacyUnitMap.LookupCaseInsensitive | src/UnitMap.php:34-45 | a string and its lower-case form are recognised alike and get the same key |
| LegacyUnitMap.LookupOwnKey | src/UnitMap.php:34-45 | every key, looked up, answers itself |
| LegacyUnitMap.LookupAlias | src/UnitMap.php:34-45 | every listed alias answers its own tier's key |
| UnitMap.KeysInOrder | src/UnitMap/UnitMap.php:14-31 | the keys are B ... YB in order and the first is `BYTE` |
| UnitMap.MapDisjoint | src/UnitMap/UnitMap.php:21-31 | no alias is listed under two keys |
| UnitMap.NoAliasContainsBytes | src/UnitMap/UnitMap.php:21-31 | no alias contains "bytes", so sanitising leaves every alias unchanged |
| UnitMap.AliasInitials | src/UnitMap/UnitMap.php:21-31 | every alias of tier `i` starts with the letter of that tier (b, k, m, g, ...) |
| UnitMapper.Resolve | src/FileSize/UnitMap/UnitMapper.php:47-67 | the uncached answer: "B" as given is `BYTE`; otherwise success exactly when the sanitised string is an alias, then a key of the table; failure names the string |
| UnitMapper.Flip | src/FileSize/UnitMap/UnitMapper.php:33 | `array_flip`: the same keys, each mapped to a position holding it, the last such position |
| UnitMapper.UnitMapper.constructor | src/FileSize/UnitMap/UnitMapper.php:30-39 | `by_index` is the table's key list, `by_string` its flip, the cache empty |
| UnitMapper.UnitMapper.KeyFromString | src/FileSize/UnitMap/UnitMapper.php:47-67 | answers exactly the uncached resolution; a successful search of an uncached string other than "B" adds that one entry, everything else leaves the cache as it was; the cache only ever holds correct answers |
| UnitMapper.UnitMapper.IndexFromKey | src/FileSize/UnitMap/UnitMapper.php:75-78 | the position of a key in the table |
| UnitMapper.UnitMapper.KeyFromIndex | src/FileSize/UnitMap/UnitMapper.php:86-89 | the key at a position of the table |
| UnitMapper.KeyIndexRoundTrip | src/FileSize/UnitMap/UnitMapper.php:75-89 | key to position to key gives the key back |
| UnitMapper.IndexKeyRoundTrip | src/FileSize/UnitMap/UnitMapper.php:75-89 | position to key to position gives the position back |
| UnitMapper.ResolveAlias | src/FileSize/UnitMap/UnitMapper.php:57-64 | every alias resolves to its own tier's key |
| UnitMapper.ResolveIgnoresCase | src/FileSize/UnitMap/UnitMapper.php:97-100 | a unit string and its lower-case form are recognised alike and get the same key |
| UnitMapper.ResolvePlural | src/FileSize/UnitMap/UnitMapper.php:97-100 | "kibibytes" resolves like "kibibyte": the plural of an alias ending in "byte" gets that alias's key |
| LegacyUnitMapper.Resolve | src/UnitMapper.php:23-43 | as `UnitMapper.Resolve`, over the table of src/UnitMap.php |
| LegacyUnitMapper.UnitMapper.constructor | src/UnitMapper.php:15 | the store of mapped strings starts empty |
| LegacyUnitMapper.UnitMapper.KeyFromString | src/UnitMapper.php:23-43 | answers exactly the unremembered resolution; only a successful search of a new string other than "B" adds an entry, and that entry is the answer |
| LegacyUnitMapper.UnitMapper.IndexFromKey | src/UnitMapper.php:51-54 | the position of the key among the keys, or `None` (PHP's `false`) exactly when it is not a key |
| LegacyUnitMapper.UnitMapper.KeyFromIndex | src/UnitMapper.php:62-67 | the key at a position of the table |
| LegacyUnitMapper.IndexKeyRoundTrip | src/UnitMapper.php:51-67 | position to key to position gives the position back |
| LegacyUnitMapper.KeyIndexRoundTrip | src/UnitMapper.php:51-67 | a string with a position is the key at that position |
| LegacyUnitMapper.ResolveIsLookupOfSanitized | src/UnitMapper.php:33-40 | apart from the "B" short-cut the mapper recognises the same strings as `UnitMap::lookup` of the sanitised string, with the same keys |
| LegacyUnitMapper.ResolveIgnoresCase | src/UnitMapper.php:75-78 | a string and its lower-case form get the same key |
| LegacyUnitMapper.ResolveAlias | src/UnitMapper.php:35-40 | every alias, plurals such as "kilobytes" included, resolves to its own tier's key |
| SizeStringParser.MatchPattern | src/FileSize/Parser/SizeStringParser.php:21 | a match always splits the whole input into number run, whitespace, letters and an accepted end, the groups being the number run and the letters |
| SizeStringParser.MatchPatternComplete | src/FileSize/Parser/SizeStringParser.php:21 | every string of the pattern's shape matches, with exactly those groups |
| SizeStringParser.UnitGroup | src/FileSize/Parser/SizeStringParser.php:38 | the unit is absent exactly when no letters were captured |
| SizeStringParser.Parse | src/FileSize/Parser/SizeStringParser.php:29-41 | on success the value is numeric and the input is that value, whitespace, the unit and an accepted end; otherwise the could-not-parse error naming the input |
| SizeStringParser.ParseComplete | src/FileSize/Parser/SizeStringParser.php:29-41 | every input of the pattern's shape with a numeric number parses to exactly its parts |
| SizeStringParser.ParseRejectsNonNumeric | src/FileSize/Parser/SizeStringParser.php:33-35 | a captured run such as "1.2.3" that is not numeric is rejected |
| SizeStringParser.ParseRejectsLeadingOther | src/FileSize/Parser/SizeStringParser.php:31-35 | nothing is trimmed: an input starting with anything but a digit, dot or minus is rejected |
| SizeStringParser.ParseInt | src/FileSize/Parser/SizeStringParser.php:26-40 | an integer, rendered as PHP renders it, parses to its own digits with no unit |
| SizeStringParser.ParseCountWithoutUnit | src/FileSize/Parser/SizeStringParser.php:16 | "150" parses to "150" with no unit |
| SizeStringParser.ParseRejectsTwoDots | src/FileSize/Parser/SizeStringParser.php:33-35 | "1.2.3 MB" is rejected |
| LegacySizeStringParser.MatchPattern | src/SizeStringParser.php:14 | a match splits the whole input into digits and dots, whitespace, letters and an accepted end |
| LegacySizeStringParser.MatchPatternComplete | src/SizeStringParser.php:14 | every string of that shape matches with exactly those groups |
| LegacySizeStringParser.ParseNumericString | src/SizeStringParser.php:41-51 | a numeric string is accepted as a byte count exactly when `intval` equals `floatval`, with unit "B"; otherwise the missing-unit error carrying the float |
| LegacySizeStringParser.NumericAcceptedIffNoFraction | src/SizeStringParser.php:46 | a numeric string is accepted exactly when its fractional digits are all zero |
| LegacySizeStringParser.ParseNonNumericString | src/SizeStringParser.php:59-70 | on success the input splits as number, whitespace, unit and accepted end, the value being `floatval` of the number; otherwise the could-not-parse error |
| LegacySizeStringParser.Parse | src/SizeStringParser.php:22-31 | after trimming, an integer count gives `Int` with unit "B", a number with a unit gives `Float` and the unit; failures are missing-unit for numeric input and could-not-parse otherwise |
| LegacySizeStringParser.ParseIgnoresSurroundingSpace | src/SizeStringParser.php:24 | surrounding whitespace never changes the result |
| LegacySizeStringParser.ParseComplete | src/SizeStringParser.php:59-70 | every trimmed input of the pattern's shape parses to its number as a float and its unit |
| LegacySizeStringParser.ParseCount | src/SizeStringParser.php:41-51 | the rendering of a count parses to that count in bytes |
| LegacySizeStringParser.ParseCountAndUnit | src/SizeStringParser.php:59-70 | a count, whitespace and letters parse to the count as a float and the letters as unit |
| LegacySizeStringParser.ParseWholeCount | src/SizeStringParser.php:38 | "1000" is 1000 bytes |
| LegacySizeStringParser.ParseNumberAndUnit | src/SizeStringParser.php:10 | "10k" is 10.0 with unit "k" |
| LegacySizeStringParser.ParseFractionWithoutUnit | src/SizeStringParser.php:34-36 | "1.5" is refused: a fraction needs a unit |
| LegacySizeStringParser.ParseRejectsTrailingText | src/SizeStringParser.php:14 | text after the unit other than one final line feed makes the input unparseable |
| LegacySizeStringParser.ParseRejectsLeadingUnit | src/SizeStringParser.php:14 | an input starting with a letter is unparseable |
| ScaleMath.Pow | src/FileSize/Math/Math.php:19 | integer power; at least 1 for a positive base |
| ScaleMath.PowTwoTen | src/FileSize/Math/Math.php:19 | `2 ** (10 * f)` is `1024 ** f` |
| ScaleMath.Pow2Positive | src/FileSize/Math/Math.php:17-20 | PHP's `2 ** e` on an integer exponent, and so `bytesByFactor`, is positive for every exponent |
| ScaleMath.Pow2IsPow | src/FileSize/Math/Math.php:19 | `2 ** e` is the whole power `2^e` from 0 on and its reciprocal `1 / 2^-e` below |
| ScaleMath.BytesByFactorIsPow | src/FileSize/Math/Math.php:17-20 | `1024^f` for `f >= 0` and its reciprocal for negative `f` |
| ScaleMath.BytesByFactorStep | src/FileSize/Math/Math.php:17-20 | one factor more is 1024 times as many bytes |
| ScaleMath.BytesByFactorInverse | src/FileSize/Math/Math.php:17-20 | scaling down by `f` undoes scaling up by `f` |
| ScaleLaws.BytesByFactorAdd | src/FileSize/Math/Math.php:17-20 | factors add when byte counts multiply: `bytesByFactor(a + b) == bytesByFactor(a) * bytesByFactor(b)` for factors of either sign |
| ScaleMath.TierBytesIsProduct | src/FileSize.php:219 | `n` units of tier `i` are `n * 1024^i` bytes |
| ScaleMath.TierBytesTruncate | src/FileSize.php:219-224 | converting a whole count of tier-`i` units to bytes loses nothing to `(int)` |
| ScaleMath.FactorByBytesRange | src/FileSize/Math/Math.php:28-31 | `factorByBytes(n)` is the `k` with `1000^k <= n < 1000^(k+1)` (0 for 0) |
| ScaleMath.FactorByBytesOfRange | src/FileSize/Math/Math.php:28-31 | and conversely every such `k` is the answer |
| ScaleMath.FactorByBytesFirstTiers | src/FileSize/Math/Math.php:28-31 | below 1000 the factor is 0, below a million it is 1 |
| ScaleMath.FactorByBytesMonotone | src/FileSize/Math/Math.php:28-31 | more bytes never give a smaller factor |
| ScaleMath.FactorByBytesDisplayBound | src/FileSize.php:123-124 | bytes divided by the bytes of their own factor lie in [0, 1000) |
| ScaleMath.ByteFormat | src/FileSize/Math/Math.php:39-42 | `(int) ceil(x)`: the least integer not below `x` |
| ScaleMath.ByteFormatIdempotent | src/FileSize/Math/Math.php:39-42 | a whole number is its own byte count, so formatting twice is formatting once |
| FileSize.FirstMatch | src/FileSize.php:183 | the lazy `^.*?` prefix: the first start position, not past a line feed, at which the rest of the pattern matches, and no match exactly when none does |
| FileSize.MatchAtComplete | src/FileSize.php:183 | at a start position with the pattern's shape, the groups are exactly the number and unit there |
| FileSize.ParseSizeString | src/FileSize.php:174-189 | a numeric trimmed string is the value with unit "B" |
| FileSize.ParseSizeStringFinds | src/FileSize.php:182-186 | otherwise the groups are those of the first matching position, or both empty (an unset match) when no position matches |
| FileSize.TierOfKey | src/FileSize.php:217-218 | `array_search` of a key among the table's keys is its tier |
| FileSize.NearestInt | src/FileSize.php:227 | `round`: within one half of the value, halves going away from zero |
| FileSize.Round | src/FileSize.php:227 | `round($size, $precision)`: the result scaled by `10^p` is the integer nearest the value scaled by `10^p` |
| FileSize.Convert | src/FileSize.php:211-228 | succeeds exactly when both units are recognised, else the error of the first unrecognised unit; the answer is an integer exactly when the target unit is bytes |
| FileSize.ConvertScales | src/FileSize.php:211-228 | from tier `i` to tier `j` the size is scaled by `1024^(i-j)`, then truncated for bytes or rounded otherwise |
| FileSize.ScaledInverse | src/FileSize.php:219 | scaling from `i` to `j` and back gives the size back |
| FileSize.ConvertRoundTrip | src/FileSize.php:211-228 | converting between two non-byte units and back with no rounding gives the size back |
| FileSize.GetUnitOf | src/FileSize.php:141-152 | an alias of tier `i` in any case gives tier `i`'s key |
| FileSize.ToBytesScales | src/FileSize.php:161-166 | a size in tier `i` is `(int)` of size times `1024^i` bytes |
| FileSize.ToBytesUnknown | src/FileSize.php:151 | an unrecognised unit is the unrecognised-unit error naming it |
| FileSize.StringToBytesNumeric | src/FileSize.php:155-166 | a numeric string is a count of bytes, truncated |
| FileSize.StringToBytesOfNat | src/FileSize.php:155-166 | the rendering of any count is that many bytes |
| FileSize.StringToBytesOfCount | src/FileSize.php:161-166 | a count followed by a unit of tier `i` is the count times `1024^i` bytes |
| FileSize.ParseSizeStringOfCount | src/FileSize.php:174-189 | the rendering of a count, optional whitespace and letters parse to that rendering and those letters |
| FileSize.ParseSizeStringOfNumber | src/FileSize.php:174-189 | a run of digits and dots, optional whitespace and letters parse to exactly that run and those letters |
| FileSize.CountToBytes | src/FileSize.php:211-225 | a whole count `n` of a unit of tier `i` is `n * 1024^i` bytes, nothing lost to `(int)` |
| FileSize.ToBytesReading | src/FileSize.php:211-225 | `convert($size, $unit, 'B')` of a unit of tier `i` scales the size by `byteFactor(i)` and cuts it toward zero |
| FileSize.StringToBytesOfReading | src/FileSize.php:161-166 | a run of digits and dots that reads as `x`, whitespace and a unit of tier `k` are `x * 1024^k` bytes cut toward zero, fractions included |
| FileSize.InitialBytesGuard | src/FileSize.php:40 | a non-empty string is parsed as given, the empty string gives 0 bytes (where parsing it would fail), and "0" gives 0 too |
| FileSize.LessBytes | src/FileSize.php:66-70 | subtraction stopping at zero never goes negative |
| FileSize.LessBytesUndoesAdd | src/FileSize.php:49-73 | subtracting what was added restores a non-negative size |
| FileSize.LessBytesShrinks | src/FileSize.php:62-73 | subtracting never grows the size, subtracting 0 keeps it, and it reaches 0 exactly when at least the whole size is subtracted |
| FileSize.TimesBytes | src/FileSize.php:83 | the product rounded up: within one byte above the exact product |
| FileSize.TimesBytesWhole | src/FileSize.php:81-86 | multiplying by a whole number is exact, by 1 changes nothing |
| FileSize.OverBytes | src/FileSize.php:94-97 | dividing fails exactly for 0, with the division-by-zero error |
| FileSize.OverBytesUndoesTimes | src/FileSize.php:81-97 | dividing by `k` undoes multiplying by `k` |
| FileSize.TimesBytesUndoesOver | src/FileSize.php:81-97 | multiplying back by a positive `k` after dividing by it never loses bytes |
| FileSize.FileSize.constructor | src/FileSize.php:38-41 | no size string: zero bytes |
| FileSize.FileSize.Create | src/FileSize.php:38-41 | a new object exactly when the size string (empty meaning none) gives a byte count, holding that count; otherwise that error |
| FileSize.FileSize.Add | src/FileSize.php:49-54 | on a recognised size string the count grows by its bytes; on an error nothing changes |
| FileSize.FileSize.Subtract | src/FileSize.php:62-73 | on a recognised size string the count shrinks by its bytes, stopping at 0; on an error nothing changes |
| FileSize.FileSize.Multiply | src/FileSize.php:81-86 | the new count is the old one times `n`, rounded up |
| FileSize.FileSize.Divide | src/FileSize.php:94-97 | fails exactly for 0, changing nothing; otherwise multiplies by `1/n` |
| FileSize.FileSize.As | src/FileSize.php:106-109 | succeeds exactly when the unit is recognised, else the error naming it |
| FileSize.FileSize.AsAuto | src/FileSize.php:117-133 | fails exactly for a precision that is not an integer |
| FileSize.AsScales | src/FileSize.php:106-109 | the bytes in tier `i` are the count divided by `1024^i`, rounded to the precision |
| FileSize.AsBytes | src/FileSize.php:223-225 | in bytes the answer is the count itself, as an integer |
| FileSize.AsRoundTrip | src/FileSize.php:106-109 | the unrounded size in any unit, read back as a size string's value and unit, is the same byte count |
| FileSize.AsWholeUnits | src/FileSize.php:106-109 | a count of exactly `n` units of tier `i` reads as `n` in that unit |
| FileSize.AsAutoPlain | src/FileSize.php:123-130 | for a non-negative count, plain "`n` B" exactly when below 1000 bytes |
| FileSize.AsAutoBound | src/FileSize.php:123-132 | a value shown with a unit lies in [0, 1000) and keeps the precision asked for |
| FileSize.AsAutoTier | src/FileSize.php:123-132 | with between `1000^k` and `1000^(k+1)` bytes the unit is the `k`-th key and the value the count divided by `1024^k` |
| FileSize.AsAutoAgreesWithAs | src/FileSize.php:106-132 | the value `asAuto` shows is what `as` gives for the unit it picks, before rounding |
| FileSize.AsAutoPastTable | src/FileSize.php:126 | from `1000^9` bytes on, the factor is past the table and the unit is empty |
| FileSize.MegabytesExample | tests/FileSizeTest.php:22 | "123 megabytes" is 128974848 bytes |
| FileSize.LetterExample | tests/FileSizeTest.php:30 | "123M" is 128974848 bytes |
| FileSize.KibibytesExample | tests/FileSizeTest.php:23 | "150 KiB" is 153600 bytes |
| FileSize.KilobytesExample | tests/FileSizeTest.php:31 | "150 kilobytes" is 153600 bytes |
| FileSize.ThreeHundredKExample | tests/FileSizeTest.php:46 | "300K" is 307200 bytes |
| FileSize.GigabyteExample | tests/FileSizeTest.php:61 | "1 Gigabyte" is 1073741824 bytes |
| FileSize.HundredMExample | tests/FileSizeTest.php:38 | "100 m" is 104857600 bytes |
| FileSize.AddExample | tests/FileSizeTest.php:20-26 | "123 megabytes" plus "150 KiB" is 129128448 bytes |
| FileSize.SubtractExample | tests/FileSizeTest.php:28-34 | "123M" minus "150 kilobytes" is 128821248 bytes |
| FileSize.MultiplyExample | tests/FileSizeTest.php:36-42 | "100 m" times 7.5 is 0.73 GB to two places |
| FileSize.DivideExample | tests/FileSizeTest.php:44-50 | "300K" halved is 150.0 KB |
| FileSize.ConvertDownExample | tests/FileSizeTest.php:59-64 | "1 Gigabyte" is 1073741824 B |
| FileSize.NoConvertExample | tests/FileSizeTest.php:66-71 | "525 Gigabytes" is 525.0 GB |
| FileSize.FractionalKilobytesExample | tests/FileSizeTest.php:82 | "1.2345 KB" is 1.2345 * 1024 = 1264.128 bytes, cut by `(int)` to 1264 |
| FileSize.ThirdOfFractionalValues | src/FileSize.php:83 | 1264 bytes times 0.333 are 420.912, rounded up to 421 |
| FileSize.AutoExample | tests/FileSizeTest.php:80-86 | "1.2345 KB" multiplied by 0.333 shows as "421 B" in `asAuto` |

## Left out

- Integer width: PHP integers are 64 bits and overflow to float; here they are unbounded, so sizes past 2^63 bytes and the `(int)` cast of such a float (src/FileSize.php:224) are not modelled. The 5.74 EB expected for "123456789 TB" (tests/FileSizeTest.php:52-57) comes from that wrap-around; the exact conversion gives about 117.74, so no example states it.
- Floating point: PHP floats are modelled as exact reals, so rounding error in `*`, `/`, `round` and `ceil` is not captured.
- FileSize.FileSize.AsAuto: the display is returned as its parts (`Plain` text, or value, precision and unit); the `sprintf("%.Nf")` rendering of a `Fixed` value and PHP's float-to-string of a byte count are not modelled. For counts under 1000 the text is the exact integer rendering. A negative precision makes PHP 8's `sprintf` reject the format (`%.-1f`) with a `ValueError` for a count of 1000 bytes or more; the model still answers a `Fixed` display with that precision.
- `is_numeric`: exponents, a leading '+', leading whitespace, trailing whitespace (accepted since PHP 8) and hexadecimal-looking forms are not accepted by `Text.IsNumeric`; the model accepts an optional '-' then digits with an optional fractional part. So "5\f", which PHP 8 reads as 5 bytes, is an unrecognised unit in `FileSize.StringToBytes` and a parse failure in `LegacySizeStringParser.Parse`.
- `intval`/`floatval` saturation at the integer limits and their reading of exponent forms are not modelled.
- Exceptions are error values: their message texts and PHP classes (`Exception`, `FileSizeException`) are represented only by the `Errors.Error` constructor and the string or number it carries.
- `null` arguments: `new FileSize()` with no argument is the empty string, which PHP treats the same way (falsy).
- FileSize.FileSize.Divide: `1 / 0` is modelled as the error `DivisionByZero`, PHP 8's `DivisionByZeroError`; PHP 7 warned and returned `INF`, PHP 5 warned and returned `false`.
- FileSize.GetUnit: it is `LegacyUnitMap.Lookup` over the same table, so it carries no contract of its own; `GetUnitOf` and `ToBytesUnknown` state what it answers.
- ScaleMath.BytesByFactor: no contract of its own; `BytesByFactorIsPow`, `BytesByFactorStep`, `BytesByFactorInverse`, `Pow2Positive` and `ScaleLaws.BytesByFactorAdd` state it.
- ScaleMath.FactorByBytes: no contract of its own; `FactorByBytesRange`, `FactorByBytesOfRange`, `FactorByBytesMonotone` and `FactorByBytesDisplayBound` state it.
- FileSize.StringToBytes: no contract of its own; `StringToBytesNumeric`, `StringToBytesOfNat`, `StringToBytesOfCount` and `StringToBytesOfReading` state it.
- FileSize.ToBytes: `convert($size, $unit, 'B')`, with no contract of its own; `ToBytesScales`, `ToBytesReading` and `ToBytesUnknown` state it.
- FileSize.InitialBytes: the constructor's choice at src/FileSize.php:40, with no contract of its own; `InitialBytesGuard` states it.
- UnitTable.SanitizeUnitString: no contract of its own; `SanitizeIgnoresCase`, `SanitizeKeeps` and `SanitizePlural` state it.
- Text.IsNumeric: no contract of its own; `DecimalNumeric`, `NumericHasNoLetter` and `NatStringNumeric` state it.
- Text.LeadingNumber: `floatval`/`(float)`, with no contract of its own; `DecimalValue` and `NatStringNumeric` state it.
- `byteFactor` in src/FileSize.php:197-200 is the same function as `bytesByFactor` of src/FileSize/Math/Math.php:17-20 and is modelled once, as `ScaleMath.BytesByFactor`.
- Default arguments (`$precision = 2` of `as` and `asAuto`, `null` of `convert`) are explicit parameters; `convert` without a precision is `precision` 0, which `$precision ? ... : ...` treats like an absent one.
- SizeStringParser.Parse: the `int` argument that PHP accepts is covered by `ParseInt` on its rendering, not as a separate input type.
- LegacyUnitMapper: src/UnitMapper.php refers to `UnitMap::BYTE` and `UnitMap::$map`, which src/UnitMap.php does not declare (it has a private `$map` and no `BYTE`); the model reads them as that file's table with `BYTE` = "B".
- UnitMapper.UnitMapper.IndexFromKey: requires a key of the table; PHP answers `null` for any other string, with a warning for the undefined array key (a notice before PHP 8).
- UnitMapper.UnitMapper.KeyFromIndex: requires a position of the table; PHP answers `null` for any other index, with a warning for the undefined array key (a notice before PHP 8).
- LegacyUnitMapper.UnitMapper.KeyFromIndex: requires a position of the table; PHP answers `null` for any other index, with a warning for the undefined array key (a notice before PHP 8).
- FileSize.AsAutoPlain: stated for non-negative counts; a negative count (reachable through `add`) has a longer decimal rendering and is not covered.
- FileSize.AsAutoBound: stated for non-negative counts, for the same reason.
- FileSize.AsWholeUnits: stated for precision 0 or more; a negative precision rounds to tens and is covered only by `AsScales`.
- `trim` is modelled with PHP's default character list only, the one the core uses.
