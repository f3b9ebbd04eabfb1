/**
 * The unit table of src/UnitMap/UnitMap.php: the byte key `BYTE` and nine
 * tiers whose alias lists hold singular forms only, including the binary
 * prefixes (kibibyte, mebibyte, ...). Plurals are left to the mapper, which
 * rewrites "bytes" to "byte" before searching.
 */
module UnitMap {
  import opened Text
  import opened UnitTable

  /** The key used for bytes, the base unit. */
  const BYTE: string := "B"

  const Map: seq<Tier> := [
    Tier("B",  ["b", "byte"]),
    Tier("KB", ["k", "kb", "kib", "kilobyte", "kibibyte"]),
    Tier("MB", ["m", "mb", "mib", "megabyte", "mebibyte"]),
    Tier("GB", ["g", "gb", "gib", "gigabyte", "gibibyte"]),
    Tier("TB", ["t", "tb", "tib", "terabyte", "tebibyte"]),
    Tier("PB", ["p", "pb", "pib", "petabyte", "pebibyte"]),
    Tier("EB", ["e", "eb", "eib", "exabyte", "exbibyte"]),
    Tier("ZB", ["z", "zb", "zib", "zettabyte", "zebibyte"]),
    Tier("YB", ["y", "yb", "yib", "yottabyte", "yobibyte"])
  ]

  /** `BYTE` is the first key, and the keys run B, KB, ..., YB. */
  lemma KeysInOrder()
    ensures Keys(Map) == ["B", "KB", "MB", "GB", "TB", "PB", "EB", "ZB", "YB"]
    ensures Keys(Map)[0] == BYTE
  {
  }

  /** The nine keys are distinct. */
  lemma MapDistinctKeys()
    ensures DistinctKeys(Map)
  {
  }

  /** Every alias is lower-case and free of the letter 's'. */
  lemma TierLowercase(i: nat, a: string)
    requires i < |Map| && a in Map[i].aliases
    ensures NoUpper(a)
    ensures forall k :: 0 <= k < |a| ==> a[k] != 's'
  {
    assert forall k :: 0 <= k < |a| ==> IsLower(a[k]) && a[k] != 's' by {
      TierLetters(i, a);
    }
  }

  lemma TierLetters(i: nat, a: string)
    requires i < |Map| && a in Map[i].aliases
    ensures forall k :: 0 <= k < |a| ==> IsLower(a[k]) && a[k] != 's'
  {
    var t := Map[i].aliases;
    assert a == t[0] || a == t[1] || (|t| > 2 && (a == t[2] || a == t[3] || a == t[4]));
  }

  /** Each tier lists its own key, lower-cased. */
  lemma KeyLowered(i: nat)
    requires i < |Map|
    ensures ToLower(Map[i].key) == Map[i].aliases[if i == 0 then 0 else 1]
  {
    var k := Map[i].key;
    if i == 0 {
      assert ToLower(k) == [LowerChar(k[0])];
    } else {
      assert ToLower(k) == [LowerChar(k[0]), LowerChar(k[1])];
    }
  }

  /** Every alias of tier `i` starts with the `i`-th of "bkmgtpezy". */
  lemma AliasInitials(i: nat, a: string)
    requires i < |Map| && a in Map[i].aliases
    ensures a != [] && a[0] == "bkmgtpezy"[i]
  {
  }

  /** No alias belongs to two tiers. */
  lemma MapDisjoint()
    ensures Disjoint(Map)
  {
    forall i, j, a | 0 <= i < |Map| && 0 <= j < |Map| && i != j && a in Map[i].aliases
      ensures a !in Map[j].aliases
    {
      AliasInitials(i, a);
      if a in Map[j].aliases {
        AliasInitials(j, a);
      }
    }
  }

  /** No alias contains "bytes", so the mapper's rewriting leaves every alias as it is. */
  lemma NoAliasContainsBytes(i: nat, a: string)
    requires i < |Map| && a in Map[i].aliases
    ensures !Contains(a, "bytes")
  {
    TierLowercase(i, a);
    if Contains(a, "bytes") {
      ContainsBytesHasS(a);
    }
  }
}
