/**
 * The unit table of src/UnitMap.php: nine tiers, B to YB, each with its
 * lowercase aliases including the plural forms, and the case-insensitive
 * `lookup` over it. The same table is the private `$unitMap` of the
 * `FileSize` class in src/FileSize.php.
 */
module LegacyUnitMap {
  import opened Wrappers
  import opened Errors
  import opened Text
  import opened UnitTable

  const Map: seq<Tier> := [
    Tier("B",  ["b", "byte", "bytes"]),
    Tier("KB", ["k", "kb", "kib", "kilobyte", "kilobytes"]),
    Tier("MB", ["m", "mb", "mib", "megabyte", "megabytes"]),
    Tier("GB", ["g", "gb", "gib", "gigabyte", "gigabytes"]),
    Tier("TB", ["t", "tb", "tib", "terabyte", "terabytes"]),
    Tier("PB", ["p", "pb", "pib", "petabyte", "petabytes"]),
    Tier("EB", ["e", "eb", "eib", "exabyte", "exabytes"]),
    Tier("ZB", ["z", "zb", "zib", "zettabyte", "zettabytes"]),
    Tier("YB", ["y", "yb", "yib", "yottabyte", "yottabytes"])
  ]

  /** `UnitMap::keys()`: the nine canonical keys, smallest tier first. */
  function TableKeys(): (ks: seq<string>)
    ensures ks == ["B", "KB", "MB", "GB", "TB", "PB", "EB", "ZB", "YB"]
  {
    Keys(Map)
  }

  /**
   * `UnitMap::lookup`: the key of the first tier whose list contains the
   * lower-cased string; an unrecognised unit is an error naming the string
   * as given.
   */
  function Lookup(unitString: string): (r: Result<string, Error>)
    ensures r.Success? <==> exists i :: 0 <= i < |Map| && ToLower(unitString) in Map[i].aliases
    ensures r.Success? ==> exists i :: 0 <= i < |Map| && ToLower(unitString) in Map[i].aliases && r.value == Map[i].key
    ensures r.Failure? ==> r.error == UnrecognizedUnit(unitString)
  {
    match FirstTier(Map, ToLower(unitString))
    case Some(i) => Success(Map[i].key)
    case None => Failure(UnrecognizedUnit(unitString))
  }

  /** The nine keys are distinct. */
  lemma MapDistinctKeys()
    ensures DistinctKeys(Map)
  {
  }

  lemma TierLowercase(i: nat, a: string)
    requires i < |Map| && a in Map[i].aliases
    ensures NoUpper(a)
  {
  }

  /** Each tier lists its own key, lower-cased: "B" as "b", "KB" as "kb", and so on. */
  lemma KeyLowered(i: nat)
    requires i < |Map|
    ensures ToLower(Map[i].key) == Map[i].aliases[if i == 0 then 0 else 1]
  {
    var k := Map[i].key;
    if i == 0 {
      assert ToLower(k) == [LowerChar(k[0])];
    } else {
      assert ToLower(k) == [LowerChar(k[0]), LowerChar(k[1])];
    }
  }

  /** Every alias of tier `i` starts with the `i`-th of "bkmgtpezy". */
  lemma AliasInitials(i: nat, a: string)
    requires i < |Map| && a in Map[i].aliases
    ensures a != [] && a[0] == "bkmgtpezy"[i]
  {
  }

  /** No alias belongs to two tiers, since the tiers' initials differ. */
  lemma MapDisjoint()
    ensures Disjoint(Map)
  {
    forall i, j, a | 0 <= i < |Map| && 0 <= j < |Map| && i != j && a in Map[i].aliases
      ensures a !in Map[j].aliases
    {
      AliasInitials(i, a);
      if a in Map[j].aliases {
        AliasInitials(j, a);
      }
    }
  }

  /**
   * A string whose lower-case form is an alias of tier `i` resolves to that
   * tier's key, whatever the order of the table.
   */
  lemma LookupResolves(unitString: string, i: nat)
    requires i < |Map| && ToLower(unitString) in Map[i].aliases
    ensures Lookup(unitString) == Success(Map[i].key)
  {
    MapDisjoint();
    FirstTierOfDisjoint(Map, i, ToLower(unitString));
  }

  /** Lookup ignores case: a string and its lower-case form resolve alike. */
  lemma LookupCaseInsensitive(unitString: string)
    ensures Lookup(unitString).Success? <==> Lookup(ToLower(unitString)).Success?
    ensures Lookup(unitString).Success? ==> Lookup(unitString) == Lookup(ToLower(unitString))
  {
    ToLowerIdempotent(unitString);
  }

  /** Every canonical key resolves to itself. */
  lemma LookupOwnKey(i: nat)
    requires i < |Map|
    ensures Lookup(Map[i].key) == Success(Map[i].key)
  {
    KeyLowered(i);
    LookupResolves(Map[i].key, i);
  }

  /** Every alias, as listed, resolves to its own tier's key. */
  lemma LookupAlias(i: nat, alias: string)
    requires i < |Map| && alias in Map[i].aliases
    ensures Lookup(alias) == Success(Map[i].key)
  {
    TierLowercase(i, alias);
    ToLowerKeepsLowercase(alias);
    LookupResolves(alias, i);
  }
}
