/**
 * The unit mapper of src/FileSize/UnitMap/UnitMapper.php: resolves an
 * arbitrary unit string ("Megabytes", "MEGABYTE", "mb") to a key of the
 * table in src/UnitMap/UnitMap.php, memoising every successful resolution
 * in a per-instance cache, and maps keys to tier positions and back.
 */
module UnitMapper {
  import opened Wrappers
  import opened Errors
  import opened Text
  import opened UnitTable
  import opened UnitMap

  /**
   * What `keyFromString` answers for a string when nothing is cached: `BYTE`
   * for "B" as given, otherwise the key of the first tier listing the
   * sanitised string, otherwise an error naming the string.
   */
  function Resolve(unitString: string): (r: Result<string, Error>)
    ensures unitString == BYTE ==> r == Success(BYTE)
    ensures unitString != BYTE ==>
      (r.Success? <==> exists i :: 0 <= i < |Map| && SanitizeUnitString(unitString) in Map[i].aliases)
    ensures r.Success? && unitString != BYTE ==>
      exists i :: 0 <= i < |Map| && SanitizeUnitString(unitString) in Map[i].aliases && r.value == Map[i].key
    ensures r.Success? ==> IsKey(r.value)
    ensures r.Failure? ==> r.error == UnrecognizedUnit(unitString)
  {
    if unitString == BYTE then assert Map[0].key == BYTE; Success(BYTE)
    else match FirstTier(Map, SanitizeUnitString(unitString))
      case Some(i) => Success(Map[i].key)
      case None => Failure(UnrecognizedUnit(unitString))
  }

  /** `key` is one of the table's keys. */
  ghost predicate IsKey(key: string) {
    exists i :: 0 <= i < |Map| && Map[i].key == key
  }

  /** The search found tier `i` first: `Resolve` answers its key. */
  lemma ResolveFound(unitString: string, i: nat)
    requires unitString != BYTE && i < |Map|
    requires SanitizeUnitString(unitString) in Map[i].aliases
    requires forall j :: 0 <= j < i ==> SanitizeUnitString(unitString) !in Map[j].aliases
    ensures Resolve(unitString) == Success(Map[i].key)
  {
    var r := FirstTier(Map, SanitizeUnitString(unitString));
    assert r.Some? && r.value == i;
  }

  /** The search found nothing: `Resolve` reports the unit as unrecognised. */
  lemma ResolveNotFound(unitString: string)
    requires unitString != BYTE
    requires forall j :: 0 <= j < |Map| ==> SanitizeUnitString(unitString) !in Map[j].aliases
    ensures Resolve(unitString) == Failure(UnrecognizedUnit(unitString))
  {
  }

  /** Every cached answer is the uncached one. */
  ghost predicate CacheAgrees(cache: map<string, string>) {
    forall u :: u in cache ==> Resolve(u) == Success(cache[u])
  }

  lemma CacheExtend(cache: map<string, string>, u: string, key: string)
    requires CacheAgrees(cache) && Resolve(u) == Success(key)
    ensures CacheAgrees(cache[u := key])
  {
  }

  /** `array_flip`: each key maps to its position; a repeated key keeps its last position. */
  function Flip(ks: seq<string>): (m: map<string, nat>)
    ensures forall k :: k in m <==> k in ks
    ensures forall k :: k in m ==> m[k] < |ks| && ks[m[k]] == k
    ensures forall k, j :: k in m && m[k] < j < |ks| ==> ks[j] != k
  {
    if ks == [] then map[]
    else Flip(ks[..|ks| - 1])[ks[|ks| - 1] := |ks| - 1]
  }

  class UnitMapper {
    /** `$keys['by_index']`: the table's keys in order. */
    const byIndex: seq<string>
    /** `$keys['by_string']`: each key's position. */
    const byString: map<string, nat>
    /** `$cache`: unit strings already resolved, as given, with their keys. */
    var cache: map<string, string>

    /** The key lists come from the table, and every cached answer is the uncached one. */
    ghost predicate Valid()
      reads this
    {
      && |byIndex| == |Map|
      && (forall i :: 0 <= i < |Map| ==> byIndex[i] == Map[i].key)
      && byString == Flip(byIndex)
      && CacheAgrees(cache)
    }

    constructor ()
      ensures Valid() && cache == map[]
    {
      byIndex := Keys(Map);
      byString := Flip(Keys(Map));
      cache := map[];
    }

    /**
     * `keyFromString`: answers exactly what `Resolve` does, so memoisation is
     * invisible to callers. "B" short-circuits and a cached string is
     * answered from the cache, both leaving the cache as it was; otherwise a
     * successful search adds the one entry `unitString -> key`, and a failed
     * one leaves the cache unchanged.
     */
    method KeyFromString(unitString: string) returns (r: Result<string, Error>)
      requires Valid()
      modifies this
      ensures Valid()
      ensures r == Resolve(unitString)
      ensures cache == if unitString != BYTE && unitString !in old(cache) && r.Success?
                       then old(cache)[unitString := r.value] else old(cache)
    {
      if unitString == BYTE {
        return Success(BYTE);
      }
      if unitString in cache {
        return Success(cache[unitString]);
      }
      var sanitized := SanitizeUnitString(unitString);
      var i := 0;
      while i < |Map|
        invariant 0 <= i <= |Map|
        invariant forall j :: 0 <= j < i ==> sanitized !in Map[j].aliases
        invariant cache == old(cache)
      {
        if sanitized in Map[i].aliases {
          ResolveFound(unitString, i);
          CacheExtend(cache, unitString, Map[i].key);
          cache := cache[unitString := Map[i].key];
          return Success(Map[i].key);
        }
        i := i + 1;
      }
      ResolveNotFound(unitString);
      return Failure(UnrecognizedUnit(unitString));
    }

    /** `indexFromKey`: the position of a key in the table. */
    function IndexFromKey(key: string): (i: nat)
      reads this
      requires Valid() && IsKey(key)
      ensures i < |Map| && Map[i].key == key
    {
      byString[key]
    }

    /** `keyFromIndex`: the key at a position of the table. */
    function KeyFromIndex(index: nat): (key: string)
      reads this
      requires Valid() && index < |Map|
      ensures key == Map[index].key
    {
      byIndex[index]
    }
  }

  /** Key to index and back gives the key. */
  lemma KeyIndexRoundTrip(m: UnitMapper, key: string)
    requires m.Valid() && IsKey(key)
    ensures m.KeyFromIndex(m.IndexFromKey(key)) == key
  {
  }

  /** Index to key and back gives the index: the keys are distinct. */
  lemma IndexKeyRoundTrip(m: UnitMapper, index: nat)
    requires m.Valid() && index < |Map|
    ensures m.IndexFromKey(m.KeyFromIndex(index)) == index
  {
    MapDistinctKeys();
    var i := m.IndexFromKey(m.KeyFromIndex(index));
    assert Map[i].key == Map[index].key;
  }

  /**
   * Every listed alias resolves to its own tier's key: no alias contains
   * "bytes", so sanitising leaves it as it is.
   */
  lemma ResolveAlias(i: nat, alias: string)
    requires i < |Map| && alias in Map[i].aliases
    ensures Resolve(alias) == Success(Map[i].key)
  {
    TierLowercase(i, alias);
    NoAliasContainsBytes(i, alias);
    SanitizeKeeps(alias);
    FoundOnlyThere(i, alias);
    ResolveFound(alias, i);
  }

  /** An alias of tier `i` is in no earlier tier's list. */
  lemma FoundOnlyThere(i: nat, alias: string)
    requires i < |Map| && alias in Map[i].aliases
    ensures forall j :: 0 <= j < i ==> alias !in Map[j].aliases
  {
    MapDisjoint();
  }

  /** Resolution ignores case: a string and its lower-case form get the same key. */
  lemma ResolveIgnoresCase(unitString: string)
    ensures Resolve(unitString).Success? <==> Resolve(ToLower(unitString)).Success?
    ensures Resolve(unitString).Success? ==> Resolve(ToLower(unitString)) == Resolve(unitString)
  {
    SanitizeIgnoresCase(unitString);
    if unitString == BYTE {
      assert ToLower(unitString) == "b";
      ResolveAlias(0, "b");
    } else {
      assert ToLower(unitString) != BYTE by {
        if |unitString| == 1 { assert !IsUpper(ToLower(unitString)[0]); }
      }
    }
  }

  /**
   * The plural of an alias ending in "byte" resolves like the alias:
   * "kibibytes" like "kibibyte", "megabytes" like "megabyte".
   */
  lemma ResolvePlural(i: nat, p: string)
    requires i < |Map| && p + "byte" in Map[i].aliases
    ensures Resolve(p + "bytes") == Success(Map[i].key)
  {
    var alias := p + "byte";
    TierLowercase(i, alias);
    assert forall k :: 0 <= k < |p| ==> p[k] == alias[k];
    SanitizePlural(p);
    FoundOnlyThere(i, alias);
    assert p + "bytes" != BYTE;
    ResolveFound(p + "bytes", i);
  }
}
