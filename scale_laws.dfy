/**
 * The exponent law of `Math::bytesByFactor` (src/FileSize/Math/Math.php):
 * factors add when byte counts multiply, for factors of either sign. It is
 * proved by induction on the distance between the factors, one tier of 1024
 * at a time.
 */
module ScaleLaws {
  import opened ScaleMath

  /**
   * Factors add as exponents do: `bytesByFactor(a + b)` is
   * `bytesByFactor(a) * bytesByFactor(b)` for factors of either sign.
   */
  lemma BytesByFactorAdd(a: int, b: int)
    ensures BytesByFactor(a + b) == BytesByFactor(a) * BytesByFactor(b)
  {
    if b >= 0 {
      BytesByFactorAddUp(a, b, a + b);
    } else {
      // `a` is `-b` tiers above `a + b`; dividing that step out again is
      // multiplying by `bytesByFactor(b)`.
      BytesByFactorAddUp(a + b, -b, a);
      BytesByFactorInverse(-b);
      Cancel(BytesByFactor(a), BytesByFactor(a + b), BytesByFactor(-b), BytesByFactor(b));
    }
  }

  /** `s = a + n` tiers up from `a` is `bytesByFactor(n)` times as many bytes. */
  lemma {:induction false} BytesByFactorAddUp(a: int, n: nat, s: int)
    requires s == a + n
    ensures BytesByFactor(s) == BytesByFactor(a) * BytesByFactor(n)
    decreases n
  {
    if n == 0 {
      assert BytesByFactor(0) == 1.0;
    } else {
      BytesByFactorAddUp(a, n - 1, s - 1);
      StepAt(s - 1, s);
      StepAt(n - 1, n);
      ScaleBoth(BytesByFactor(s - 1), BytesByFactor(a), BytesByFactor(n - 1), BytesByFactor(s), BytesByFactor(n));
    }
  }

  /** If `x == y * z` and `w` is the inverse of `z`, then `y == x * w`. */
  lemma Cancel(x: real, y: real, z: real, w: real)
    requires x == y * z && z * w == 1.0
    ensures y == x * w
  {
    calc {
      x * w;
      (y * z) * w;
      y * (z * w);
    }
  }

  /** `BytesByFactorStep` with the larger factor named. */
  lemma StepAt(f: int, g: int)
    requires g == f + 1
    ensures BytesByFactor(g) == 1024.0 * BytesByFactor(f)
  {
    BytesByFactorStep(f);
  }

  /** If `s == x * y`, scaling `s` and `y` by 1024 keeps the equation. */
  lemma ScaleBoth(s: real, x: real, y: real, s': real, y': real)
    requires s == x * y && s' == 1024.0 * s && y' == 1024.0 * y
    ensures s' == x * y'
  {
  }
}
