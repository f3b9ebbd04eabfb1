/**
 * An ordered table of unit tiers, each a canonical key with its list of
 * lowercase alias strings, and the first-match search every version of the
 * library runs over it (`foreach ($map as $key => $list) if (in_array(...))`).
 */
module UnitTable {
  import opened Wrappers
  import opened Text

  datatype Tier = Tier(key: string, aliases: seq<string>)

  /** `array_keys($map)`: the canonical keys in table order. */
  function Keys(t: seq<Tier>): (ks: seq<string>)
    ensures |ks| == |t|
    ensures forall i :: 0 <= i < |t| ==> ks[i] == t[i].key
  {
    seq(|t|, i requires 0 <= i < |t| => t[i].key)
  }

  /**
   * Position of the first tier whose alias list contains `s`, or `None` when
   * no list does.
   */
  function FirstTier(t: seq<Tier>, s: string): (r: Option<nat>)
    ensures r.None? <==> forall i :: 0 <= i < |t| ==> s !in t[i].aliases
    ensures r.Some? ==> r.value < |t| && s in t[r.value].aliases
    ensures r.Some? ==> forall j :: 0 <= j < r.value ==> s !in t[j].aliases
  {
    if t == [] then None
    else if s in t[0].aliases then Some(0)
    else match FirstTier(t[1..], s)
      case None => None
      case Some(i) => Some(i + 1)
  }

  /**
   * `array_search($key, array_keys($map))`: the position of the first tier
   * whose key is `k`, or `None` (PHP's `false`).
   */
  function KeyPosition(t: seq<Tier>, k: string): (r: Option<nat>)
    ensures r.None? <==> forall i :: 0 <= i < |t| ==> t[i].key != k
    ensures r.Some? ==> r.value < |t| && t[r.value].key == k
    ensures r.Some? ==> forall j :: 0 <= j < r.value ==> t[j].key != k
  {
    if t == [] then None
    else if t[0].key == k then Some(0)
    else match KeyPosition(t[1..], k)
      case None => None
      case Some(i) => Some(i + 1)
  }

  ghost predicate DistinctKeys(t: seq<Tier>) {
    forall i, j :: 0 <= i < j < |t| ==> t[i].key != t[j].key
  }

  /** No alias appears in two tiers' lists. */
  ghost predicate Disjoint(t: seq<Tier>) {
    forall i, j, a :: 0 <= i < |t| && 0 <= j < |t| && i != j && a in t[i].aliases ==> a !in t[j].aliases
  }

  /** With disjoint lists, the first match is the only match: order does not matter. */
  lemma FirstTierOfDisjoint(t: seq<Tier>, i: nat, s: string)
    requires Disjoint(t) && i < |t| && s in t[i].aliases
    ensures FirstTier(t, s) == Some(i)
  {
  }

  /** With distinct keys, searching for a tier's key finds that tier. */
  lemma KeyPositionDistinct(t: seq<Tier>, i: nat)
    requires DistinctKeys(t) && i < |t|
    ensures KeyPosition(t, t[i].key) == Some(i)
  {
  }

  /**
   * `sanitizeUnitString`, written the same way in both unit mappers:
   * lower-case the string, then rewrite every "bytes" as "byte".
   */
  function SanitizeUnitString(unitString: string): string
  {
    ReplaceAll(ToLower(unitString), "bytes", "byte")
  }

  /** Sanitising ignores case. */
  lemma SanitizeIgnoresCase(unitString: string)
    ensures SanitizeUnitString(ToLower(unitString)) == SanitizeUnitString(unitString)
  {
    ToLowerIdempotent(unitString);
  }

  /** A lower-case string without "bytes" is already sanitised. */
  lemma SanitizeKeeps(s: string)
    requires NoUpper(s) && !Contains(s, "bytes")
    ensures SanitizeUnitString(s) == s
  {
    ToLowerKeepsLowercase(s);
    ReplaceAllAbsent(s, "bytes", "byte");
  }

  /** The plural of a lower-case word ending in "byte", with no other 's', sanitises to the word. */
  lemma SanitizePlural(p: string)
    requires NoUpper(p) && forall k :: 0 <= k < |p| ==> p[k] != 's'
    ensures SanitizeUnitString(p + "bytes") == p + "byte"
  {
    assert NoUpper(p + "bytes");
    ToLowerKeepsLowercase(p + "bytes");
    ReplacePluralBytes(p);
  }
}
