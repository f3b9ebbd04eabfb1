/**
 * Basic math for file sizes (src/FileSize/Math/Math.php): the number of
 * bytes per tier factor, the display tier implied by a byte count's decimal
 * length, and the rounding of a scaled value back to a whole byte count.
 */
module ScaleMath {
  import opened Text

  function Pow(b: nat, e: nat): (r: nat)
    ensures b >= 1 ==> r >= 1
  {
    if e == 0 then 1 else b * Pow(b, e - 1)
  }

  lemma {:induction false} PowAdd(b: nat, m: nat, n: nat)
    ensures Pow(b, m + n) == Pow(b, m) * Pow(b, n)
  {
    if n > 0 {
      PowAdd(b, m, n - 1);
      calc {
        Pow(b, m + n);
        b * Pow(b, m + n - 1);
        b * (Pow(b, m) * Pow(b, n - 1));
        { MulSwap(b, Pow(b, m), Pow(b, n - 1)); }
        Pow(b, m) * (b * Pow(b, n - 1));
        Pow(b, m) * Pow(b, n);
      }
    }
  }

  lemma MulSwap(x: int, y: int, z: int)
    ensures x * (y * z) == y * (x * z)
  {
  }

  /** `2^(10 f) == 1024^f` */
  lemma {:induction false} PowTwoTen(f: nat)
    ensures Pow(2, 10 * f) == Pow(1024, f)
  {
    if f > 0 {
      PowTwoTen(f - 1);
      PowAdd(2, 10, 10 * (f - 1));
      assert Pow(2, 10) == 1024;
    }
  }

  /**
   * `n` whole units of tier `i` in bytes, `n * 1024^i`, computed one tier at
   * a time so that no product of two unknowns appears.
   */
  function TierBytes(n: nat, i: nat): (r: nat)
    ensures n > 0 ==> r >= n
  {
    if i == 0 then n else 1024 * TierBytes(n, i - 1)
  }

  lemma {:induction false} TierBytesIsProduct(n: nat, i: nat)
    ensures TierBytes(n, i) == n * Pow(1024, i)
  {
    if i > 0 {
      TierBytesIsProduct(n, i - 1);
      MulSwap(1024, n, Pow(1024, i - 1));
    }
  }

  /** A whole count times a whole power of 1024, cut toward zero, is the count in bytes. */
  lemma TierBytesTruncate(n: nat, i: nat)
    ensures Truncate(n as real * Pow(1024, i) as real) == TierBytes(n, i)
  {
    TierBytesIsProduct(n, i);
    var p := Pow(1024, i);
    assert (n * p) as real == n as real * p as real;
  }

  /**
   * `Math::bytesByFactor`: `2 ** (10 * f)`. For a negative factor PHP yields
   * the fraction `1 / 2^(-10 f)`, kept here as an exact real.
   */
  function BytesByFactor(f: int): (r: real)
  {
    Pow2(10 * f)
  }

  /**
   * PHP's `2 ** e` for an integer exponent, as an exact real: doubling for
   * each step above 0 and halving for each step below.
   */
  function Pow2(e: int): real
    decreases if e >= 0 then e else -e
  {
    if e == 0 then 1.0 else if e > 0 then 2.0 * Pow2(e - 1) else Pow2(e + 1) / 2.0
  }

  /** `2 ** e` is positive for every exponent, so `bytesByFactor` is too. */
  lemma {:induction false} Pow2Positive(e: int)
    ensures Pow2(e) > 0.0
    ensures BytesByFactor(e) > 0.0
    decreases if e >= 0 then e else -e
  {
    if e > 0 {
      Pow2Positive(e - 1);
    } else if e < 0 {
      Pow2Positive(e + 1);
    }
    Pow2IsPow(10 * e);
  }

  /** Below 0, `2 ** e` is the reciprocal of the whole power `2^-e`; from 0 on it is that power. */
  lemma {:induction false} Pow2IsPow(e: int)
    ensures e >= 0 ==> Pow2(e) == Pow(2, e) as real
    ensures e < 0 ==> Pow2(e) == 1.0 / Pow(2, -e) as real
    decreases if e >= 0 then e else -e
  {
    if e > 0 {
      Pow2IsPow(e - 1);
    } else if e < 0 {
      Pow2IsPow(e + 1);
      var x := Pow(2, -e - 1) as real;
      assert Pow(2, -e) as real == 2.0 * x;
      assert e + 1 < 0 ==> Pow2(e + 1) == 1.0 / x;
    }
  }

  /** `bytesByFactor(f)` is `1024^f`, a whole number for `f >= 0` and its reciprocal below. */
  lemma BytesByFactorIsPow(f: int)
    ensures f >= 0 ==> BytesByFactor(f) == Pow(1024, f) as real
    ensures f < 0 ==> BytesByFactor(f) == 1.0 / Pow(1024, -f) as real
  {
    Pow2IsPow(10 * f);
    if f >= 0 { PowTwoTen(f); } else { PowTwoTen(-f); }
  }

  /** Moving one tier up multiplies by 1024, for negative factors too. */
  lemma BytesByFactorStep(f: int)
    ensures BytesByFactor(f + 1) == 1024.0 * BytesByFactor(f)
  {
    BytesByFactorIsPow(f);
    BytesByFactorIsPow(f + 1);
    if f >= 0 {
      assert Pow(1024, f + 1) == 1024 * Pow(1024, f);
    } else if f < -1 {
      var x := Pow(1024, -f - 1) as real;
      assert Pow(1024, -f) == 1024 * Pow(1024, -f - 1);
      assert BytesByFactor(f) == 1.0 / (1024.0 * x);
    }
  }

  /** Scaling down by `f` undoes scaling up by `f`. */
  lemma BytesByFactorInverse(f: int)
    ensures BytesByFactor(f) * BytesByFactor(-f) == 1.0
  {
    var g := if f >= 0 then f else -f;
    BytesByFactorIsPow(g);
    BytesByFactorIsPow(-g);
    Reciprocal(Pow(1024, g) as real);
  }

  lemma Reciprocal(x: real)
    requires x > 0.0
    ensures x * (1.0 / x) == 1.0 && (1.0 / x) * x == 1.0
  {
  }

  /**
   * `Math::factorByBytes`: `floor((strlen($bytes) - 1) / 3)`, where
   * `strlen` sees the decimal rendering of the integer.
   */
  function FactorByBytes(bytes: int): nat
  {
    (|IntString(bytes)| - 1) / 3
  }

  /** A positive number's digit count `d` satisfies `10^(d-1) <= n < 10^d`. */
  lemma {:induction false} NatStringBounds(n: nat)
    requires n > 0
    ensures Pow10(|NatString(n)| - 1) <= n < Pow10(|NatString(n)|)
  {
    if n >= 10 {
      NatStringBounds(n / 10);
    }
  }

  /**
   * The tier picked for a positive byte count is the `k` with
   * `1000^k <= n < 1000^(k+1)`, counted as `10^(3k) <= n < 10^(3k+3)`;
   * zero bytes is tier 0.
   */
  lemma FactorByBytesRange(n: nat)
    ensures n == 0 ==> FactorByBytes(n) == 0
    ensures n > 0 ==> Pow10(3 * FactorByBytes(n)) <= n < Pow10(3 * FactorByBytes(n) + 3)
  {
    if n > 0 {
      var d := |NatString(n)|;
      var k := FactorByBytes(n);
      NatStringBounds(n);
      assert 3 * k <= d - 1 < 3 * k + 3;
      Pow10Monotone(3 * k, d - 1);
      Pow10Monotone(d, 3 * k + 3);
    }
  }

  /** Conversely, a byte count in `[10^(3k), 10^(3k+3))` gets tier `k`. */
  lemma FactorByBytesOfRange(n: nat, k: nat)
    requires Pow10(3 * k) <= n < Pow10(3 * k + 3)
    ensures FactorByBytes(n) == k
  {
    var d := |NatString(n)|;
    NatStringBounds(n);
    if d - 1 < 3 * k {
      Pow10Monotone(d, 3 * k);
    } else if d - 1 >= 3 * k + 3 {
      Pow10Monotone(3 * k + 3, d - 1);
    }
  }

  /** 0..999 bytes are tier 0, 1000..999999 tier 1. */
  lemma FactorByBytesFirstTiers(n: nat)
    ensures n < 1000 ==> FactorByBytes(n) == 0
    ensures 1000 <= n < 1000000 ==> FactorByBytes(n) == 1
  {
    assert Pow10(3) == 1000;
    assert Pow10(6) == 1000000;
    if n < 1000 {
      if n > 0 {
        FactorByBytesOfRange(n, 0);
      }
    } else if n < 1000000 {
      FactorByBytesOfRange(n, 1);
    }
  }

  /** A larger byte count never gets a lower tier. */
  lemma FactorByBytesMonotone(a: nat, b: nat)
    requires a <= b
    ensures FactorByBytes(a) <= FactorByBytes(b)
  {
    NatStringLengthMonotone(a, b);
  }

  lemma PowTenThree(k: nat)
    ensures Pow10(3 * k + 3) == 1000 * Pow10(3 * k)
  {
    assert Pow10(3 * k + 3) == 10 * Pow10(3 * k + 2);
    assert Pow10(3 * k + 2) == 10 * Pow10(3 * k + 1);
    assert Pow10(3 * k + 1) == 10 * Pow10(3 * k);
  }

  lemma DivBelow(x: real, s: real, c: real)
    requires s > 0.0 && x < c * s
    ensures x / s < c
  {
  }

  /** `10^(3k) <= 1024^k`: a decimal thousand never outgrows a binary one. */
  lemma {:induction false} ThousandsBelowKibis(k: nat)
    ensures Pow10(3 * k) <= Pow(1024, k)
  {
    if k > 0 {
      ThousandsBelowKibis(k - 1);
      PowTenThree(k - 1);
    }
  }

  /**
   * The value shown in the picked tier stays below 1000: a non-negative
   * byte count divided by `1024^factorByBytes` has at most three integer
   * digits.
   */
  lemma FactorByBytesDisplayBound(n: nat)
    ensures BytesByFactor(FactorByBytes(n)) > 0.0 && 0.0 <= n as real / BytesByFactor(FactorByBytes(n)) < 1000.0
  {
    var k := FactorByBytes(n);
    Pow2Positive(k);
    var scale := BytesByFactor(k);
    if n > 0 {
      FactorByBytesRange(n);
      ThousandsBelowKibis(k);
      PowTenThree(k);
      BytesByFactorIsPow(k);
      assert (n as real) < 1000.0 * scale;
      DivBelow(n as real, scale, 1000.0);
    }
  }

  /**
   * `Math::byteFormat`: `(int) ceil($number)`, the smallest whole byte count
   * not below the value.
   */
  function ByteFormat(x: real): (r: int)
    ensures x <= r as real < x + 1.0
  {
    -((-x).Floor)
  }

  /** A whole number of bytes is kept as it is, so formatting twice is formatting once. */
  lemma ByteFormatIdempotent(n: int, x: real)
    ensures ByteFormat(n as real) == n
    ensures ByteFormat(ByteFormat(x) as real) == ByteFormat(x)
  {
  }
}
