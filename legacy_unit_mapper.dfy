/**
 * The unit mapper of src/UnitMapper.php: resolves an arbitrary unit string
 * to a key of the table in src/UnitMap.php, remembering every successful
 * resolution in `$mappedStrings`, and maps keys to positions and back by
 * searching the table's key list on every call.
 */
module LegacyUnitMapper {
  import opened Wrappers
  import opened Errors
  import opened Text
  import opened UnitTable
  import opened LegacyUnitMap

  /** `UnitMap::BYTE`, the key of the smallest tier. */
  const BYTE: string := "B"

  /**
   * What `keyFromString` answers for a string not yet remembered: `BYTE` for
   * "B" as given, otherwise the key of the first tier listing the sanitised
   * string, otherwise an error naming the string.
   */
  function Resolve(unitString: string): (r: Result<string, Error>)
    ensures unitString == BYTE ==> r == Success(BYTE)
    ensures unitString != BYTE ==>
      (r.Success? <==> exists i :: 0 <= i < |Map| && SanitizeUnitString(unitString) in Map[i].aliases)
    ensures r.Success? && unitString != BYTE ==>
      exists i :: 0 <= i < |Map| && SanitizeUnitString(unitString) in Map[i].aliases && r.value == Map[i].key
    ensures r.Success? ==> exists i :: 0 <= i < |Map| && Map[i].key == r.value
    ensures r.Failure? ==> r.error == UnrecognizedUnit(unitString)
  {
    if unitString == BYTE then assert Map[0].key == BYTE; Success(BYTE)
    else match FirstTier(Map, SanitizeUnitString(unitString))
      case Some(i) => Success(Map[i].key)
      case None => Failure(UnrecognizedUnit(unitString))
  }

  /** The search found tier `i` first: `Resolve` answers its key. */
  lemma ResolveFound(unitString: string, i: nat)
    requires unitString != BYTE && i < |Map|
    requires SanitizeUnitString(unitString) in Map[i].aliases
    requires forall j :: 0 <= j < i ==> SanitizeUnitString(unitString) !in Map[j].aliases
    ensures Resolve(unitString) == Success(Map[i].key)
  {
    var r := FirstTier(Map, SanitizeUnitString(unitString));
    assert r.Some? && r.value == i;
  }

  /** The search found nothing: `Resolve` reports the unit as unrecognised. */
  lemma ResolveNotFound(unitString: string)
    requires unitString != BYTE
    requires forall j :: 0 <= j < |Map| ==> SanitizeUnitString(unitString) !in Map[j].aliases
    ensures Resolve(unitString) == Failure(UnrecognizedUnit(unitString))
  {
  }

  /** Every remembered answer is the fresh one. */
  ghost predicate CacheAgrees(mapped: map<string, string>) {
    forall u :: u in mapped ==> Resolve(u) == Success(mapped[u])
  }

  lemma CacheExtend(mapped: map<string, string>, u: string, key: string)
    requires CacheAgrees(mapped) && Resolve(u) == Success(key)
    ensures CacheAgrees(mapped[u := key])
  {
  }

  class UnitMapper {
    /** `$mappedStrings`: unit strings already resolved, as given, with their keys. */
    var mappedStrings: map<string, string>

    ghost predicate Valid()
      reads this
    {
      CacheAgrees(mappedStrings)
    }

    constructor ()
      ensures Valid() && mappedStrings == map[]
    {
      mappedStrings := map[];
    }

    /**
     * `keyFromString`: answers exactly what `Resolve` does, so remembering is
     * invisible to callers. "B" short-circuits and a remembered string is
     * answered from the store, both leaving it as it was; otherwise a
     * successful search adds the one entry `unitString -> key`, and an
     * unrecognised unit leaves the store unchanged.
     */
    method KeyFromString(unitString: string) returns (r: Result<string, Error>)
      requires Valid()
      modifies this
      ensures Valid()
      ensures r == Resolve(unitString)
      ensures mappedStrings == if unitString != BYTE && unitString !in old(mappedStrings) && r.Success?
                               then old(mappedStrings)[unitString := r.value] else old(mappedStrings)
    {
      if unitString == BYTE {
        return Success(BYTE);
      }
      if unitString in mappedStrings {
        return Success(mappedStrings[unitString]);
      }
      var sanitized := SanitizeUnitString(unitString);
      var i := 0;
      while i < |Map|
        invariant 0 <= i <= |Map|
        invariant forall j :: 0 <= j < i ==> sanitized !in Map[j].aliases
        invariant mappedStrings == old(mappedStrings)
      {
        if sanitized in Map[i].aliases {
          ResolveFound(unitString, i);
          CacheExtend(mappedStrings, unitString, Map[i].key);
          mappedStrings := mappedStrings[unitString := Map[i].key];
          return Success(Map[i].key);
        }
        i := i + 1;
      }
      ResolveNotFound(unitString);
      return Failure(UnrecognizedUnit(unitString));
    }

    /**
     * `indexFromKey`: the position of `key` among the table's keys, or
     * `None` (PHP's `false`) for a string that is not a key.
     */
    function IndexFromKey(key: string): (r: Option<nat>)
      ensures r.None? <==> forall i :: 0 <= i < |Map| ==> Map[i].key != key
      ensures r.Some? ==> r.value < |Map| && Map[r.value].key == key
    {
      KeyPosition(Map, key)
    }

    /** `keyFromIndex`: the key at a position of the table. */
    function KeyFromIndex(index: nat): (key: string)
      requires index < |Map|
      ensures key == Map[index].key
    {
      Keys(Map)[index]
    }
  }

  /** Position to key and back gives the position: the keys are distinct. */
  lemma IndexKeyRoundTrip(m: UnitMapper, index: nat)
    requires index < |Map|
    ensures m.IndexFromKey(m.KeyFromIndex(index)) == Some(index)
  {
    MapDistinctKeys();
    KeyPositionDistinct(Map, index);
  }

  /** Key to position and back gives the key, for every string that is a key. */
  lemma KeyIndexRoundTrip(m: UnitMapper, key: string)
    ensures m.IndexFromKey(key).Some? ==> m.KeyFromIndex(m.IndexFromKey(key).value) == key
  {
  }

  /**
   * Apart from the "B" short-cut, the mapper is `UnitMap::lookup` of the
   * sanitised string: the same strings are recognised, with the same keys.
   */
  lemma ResolveIsLookupOfSanitized(unitString: string)
    requires unitString != BYTE
    ensures Resolve(unitString).Success? <==> Lookup(SanitizeUnitString(unitString)).Success?
    ensures Resolve(unitString).Success? ==> Resolve(unitString) == Lookup(SanitizeUnitString(unitString))
  {
    var s := SanitizeUnitString(unitString);
    ReplaceAllNoUpper(ToLower(unitString), "bytes", "byte");
    ToLowerKeepsLowercase(s);
  }

  /** Resolution ignores case: a string and its lower-case form get the same key. */
  lemma ResolveIgnoresCase(unitString: string)
    ensures Resolve(unitString).Success? <==> Resolve(ToLower(unitString)).Success?
    ensures Resolve(unitString).Success? ==> Resolve(ToLower(unitString)) == Resolve(unitString)
  {
    SanitizeIgnoresCase(unitString);
    if unitString == BYTE {
      assert ToLower(unitString) == "b";
      ResolveAliasSingular(0, "b");
    } else {
      assert ToLower(unitString) != BYTE by {
        if |unitString| == 1 { assert !IsUpper(ToLower(unitString)[0]); }
      }
    }
  }

  /** An alias with no 's' resolves to its own tier's key. */
  lemma ResolveAliasSingular(i: nat, alias: string)
    requires i < |Map| && alias in Map[i].aliases
    requires forall k :: 0 <= k < |alias| ==> alias[k] != 's'
    ensures Resolve(alias) == Success(Map[i].key)
  {
    TierLowercase(i, alias);
    NoSNoBytes(alias);
    SanitizeKeeps(alias);
    FoundOnlyThere(i, alias);
    ResolveFound(alias, i);
  }

  lemma NoSNoBytes(a: string)
    requires forall k :: 0 <= k < |a| ==> a[k] != 's'
    ensures !Contains(a, "bytes")
  {
    if Contains(a, "bytes") {
      ContainsBytesHasS(a);
    }
  }

  /** An alias of tier `i` is in no earlier tier's list. */
  lemma FoundOnlyThere(i: nat, alias: string)
    requires i < |Map| && alias in Map[i].aliases
    ensures forall j :: 0 <= j < i ==> alias !in Map[j].aliases
  {
    MapDisjoint();
  }

  /** The last alias of every tier is the one before it with an "s": "kilobytes" after "kilobyte". */
  lemma PluralLast(i: nat)
    requires i < |Map|
    ensures |Map[i].aliases| >= 2
    ensures var a := Map[i].aliases; a[|a| - 1] == a[|a| - 2] + "s"
    ensures var a := Map[i].aliases; |a[|a| - 2]| >= 4 && a[|a| - 2][|a[|a| - 2]| - 4..] == "byte"
  {
  }

  /** No alias but the last of its tier contains an 's'. */
  lemma SingularsWithoutS(i: nat)
    requires i < |Map|
    ensures forall k, c :: 0 <= k < |Map[i].aliases| - 1 && 0 <= c < |Map[i].aliases[k]| ==> Map[i].aliases[k][c] != 's'
  {
  }

  /**
   * Every alias, plural forms included, resolves to its own tier's key: a
   * plural such as "kilobytes" is sanitised to the singular next to it.
   */
  lemma ResolveAlias(i: nat, alias: string)
    requires i < |Map| && alias in Map[i].aliases
    ensures Resolve(alias) == Success(Map[i].key)
  {
    PluralLast(i);
    SingularsWithoutS(i);
    var a := Map[i].aliases;
    var k :| 0 <= k < |a| && a[k] == alias;
    if k < |a| - 1 {
      ResolveAliasSingular(i, alias);
    } else {
      var singular := a[|a| - 2];
      var p := singular[..|singular| - 4];
      assert singular == p + "byte";
      assert alias == p + "bytes";
      TierLowercase(i, singular);
      assert forall c :: 0 <= c < |p| ==> p[c] == singular[c];
      SanitizePlural(p);
      FoundOnlyThere(i, singular);
      assert alias != BYTE;
      ResolveFound(alias, i);
    }
  }
}
