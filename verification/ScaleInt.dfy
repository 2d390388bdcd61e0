/** Conversion of a quantity to an int64 count of 10^scale (`resource/scale_int.go`). */
module ScaleInt {
  import opened Powers
  import opened Rounding
  import opened Int64Math
  import opened Quantities

  /** `n` is `x / 10^s` rounded up. */
  ghost predicate IsCeil(n: int, s: int, x: real) {
    Val(n - 1, s) < x <= Val(n, s)
  }

  lemma CeilUnique(n: int, k: int, s: int, x: real)
    requires IsCeil(n, s, x) && IsCeil(k, s, x)
    ensures n == k
  {
    ValOrder(n - 1, k, s);
    ValOrder(k - 1, n, s);
  }

  /** `u / p` rounded up. */
  function CeilQuotient(u: int, p: nat): int
    requires p > 0
  {
    u / p + if u % p == 0 then 0 else 1
  }

  lemma CeilQuotientBounds(u: int, p: nat)
    requires p > 0
    ensures var c := CeilQuotient(u, p); (c - 1) * p < u <= c * p
  {
    var q := DivMod(u, p);
    Distribute(q, -1, p);
    Distribute(q, 1, p);
  }

  /** Rounding a decimal number up is integer division of its integer part. */
  lemma CeilVal(u: int, e: int, s: int)
    ensures e >= s ==> IsCeil(u * Pow(10, e - s), s, Val(u, e))
    ensures e < s ==> IsCeil(CeilQuotient(u, Pow(10, s - e)), s, Val(u, e))
  {
    if e >= s {
      var n := u * Pow(10, e - s);
      Rescale(u, e, e - s);
      ValOrder(n - 1, n, s);
    } else {
      var p := Pow(10, s - e);
      var c := CeilQuotient(u, p);
      CeilQuotientBounds(u, p);
      Rescale(c, s, s - e);
      Rescale(c - 1, s, s - e);
      ValOrder((c - 1) * p, u, e);
      ValOrder(c * p, u, e);
    }
  }

  /** For numbers that are not negative, up and away from zero is the same. */
  lemma CeilIsAway(n: int, s: int, x: real)
    requires x >= 0.0
    ensures IsCeil(n, s, x) <==> n == RoundAway(x, s)
  {
    if IsCeil(n, s, x) {
      RoundsAwayUnique(n, RoundAway(x, s), s, x);
    }
  }

  /** `int64(math.Pow10(n))`: exact as long as the power fits, and not specified by Go beyond. */
  method Int64OfPow10(n: nat) returns (p: int64)
    ensures n <= 18 ==> p == Pow(10, n)
  {
    if n <= 18 {
      p := Pow10Int64(n);
    } else {
      p := *;
    }
  }

  /** The fast path truncates, and then goes up by one even below zero. */
  predicate TruncatesBelowZero(u: int, dif: nat) {
    u < 0 && dif < 19 && (u < MIN_INT64 || u % Pow(10, dif) != 0)
  }

  /** What the fast path makes of the low 64 bits of a number: the ceiling, or one more below zero. */
  function FastQuotient(u: int, p: nat): int
    requires p > 0
  {
    CeilQuotient(Wrap(u), p) + if Wrap(u) < 0 && Wrap(u) % p != 0 then 1 else 0
  }

  /** The value `unscaled * 10^-scale` in units of `10^-newScale`, rounded up. */
  method ScaledValue(unscaled: BigInt, scale: int, newScale: int) returns (r: int64)
    ensures scale <= newScale && IsInt64(unscaled.v * Pow(10, newScale - scale)) ==>
              r == unscaled.v * Pow(10, newScale - scale)
    ensures scale > newScale && IsInt64(CeilQuotient(unscaled.v, Pow(10, scale - newScale))) ==>
              (r == CeilQuotient(unscaled.v, Pow(10, scale - newScale)) <==>
               !TruncatesBelowZero(unscaled.v, scale - newScale))
    ensures scale > newScale && TruncatesBelowZero(unscaled.v, scale - newScale) ==>
              r == FastQuotient(unscaled.v, Pow(10, scale - newScale))
  {
    var u := unscaled.v;
    var dif := scale - newScale;
    assert Pow(10, 0) == 1;
    hide Pow, Wrap, Quo, Rem;
    if dif == 0 {
      return Wrap(u);
    }
    if dif < 0 {
      FactorFits(u, -dif);
      var p := Int64OfPow10(-dif);
      assert u == 0 ==> u * Pow(10, -dif) == 0 && Wrap(u) * p == 0;
      return Wrap(Wrap(u) * p);
    }
    if u < MAX_INT64 && dif < 19 {
      SmallPower(dif);
      var divide := Int64OfPow10(dif);
      var w := Wrap(u);
      TruncatedQuotient(u, w, divide);
      DivisionFits(w, divide);
      var result, mod := Quo(w, divide), Rem(w, divide);
      return if mod != 0 then Wrap(result + 1) else result;
    }
    r := ScaledByBigInt(unscaled, dif);
  }

  /** The slow path, on big integers taken from a pool; the remainder reuses the exponent's. */
  method ScaledByBigInt(unscaled: BigInt, dif: nat) returns (r: int64)
    requires unscaled.v >= MAX_INT64 || dif >= 19
    ensures !TruncatesBelowZero(unscaled.v, dif)
    ensures r == Wrap(CeilQuotient(unscaled.v, Pow(10, dif)))
  {
    var divisor := new BigInt(0);
    var exp := new BigInt(dif);
    var result := new BigInt(0);
    divisor.v := Pow(10, dif);
    var remainder := exp;
    BigQuotient(unscaled.v, divisor.v, dif);
    result.v, remainder.v := unscaled.v / divisor.v, unscaled.v % divisor.v;
    if remainder.v != 0 {
      return Wrap(Wrap(result.v) + 1);
    }
    return Wrap(result.v);
  }

  lemma SmallPower(n: nat)
    requires 0 < n < 19
    ensures 1 < Pow(10, n) <= 1000000000000000000
  {
    PowGrows(10, 1, n);
    PowGrows(10, n, 18);
    assert Pow10Int64(18) == Pow(10, 18) && Pow(10, 1) == 10;
  }

  lemma FactorFits(u: int, n: nat)
    requires n > 0
    ensures IsInt64(u * Pow(10, n)) ==> IsInt64(u) && (u != 0 ==> n <= 18)
  {
    MulAtLeast(Abs(u), Pow(10, n));
    AbsMul(u, Pow(10, n));
    if n > 18 && u != 0 {
      PowGrows(10, 19, n);
      PowAdd(10, 18, 1);
      assert Pow10Int64(18) == Pow(10, 18) && Pow(10, 1) == 10;
      MulCompareNat(1, Abs(u), Pow(10, n));
    }
  }

  /** Truncating and going up by one if something was cut off. */
  lemma TruncatedUp(w: int64, p: int64)
    requires p > 1
    ensures var t := Quo(w, p) + if Rem(w, p) != 0 then 1 else 0;
            IsInt64(t) && t == CeilQuotient(w, p) + if w < 0 && w % p != 0 then 1 else 0
  {
    var q, c := Quo(w, p), CeilQuotient(w, p);
    QuoBounds(w, p);
    QuoAbs(w, p);
    MulCompareNat(2, p, Abs(q));
    CeilQuotientBounds(w, p);
    Distribute(c, -1, p);
    Distribute(q, 1, p);
    Distribute(q, -1, p);
    hide Quo, Abs;
    MulOrder(c - 1, q, p);
    MulOrder(q, c, p);
    MulOrder(q - 1, c, p);
    MulOrder(q - 1, c - 1, p);
    if w == q * p { DivUnique(w, p, q, 0); }
  }

  /** Wherever wrapping or truncation changes the number, the ceiling is missed. */
  lemma TruncatedQuotient(u: int, w: int64, p: int64)
    requires p > 1 && p <= 1000000000000000000 && w == Wrap(u) && u < MAX_INT64
    ensures var t := Quo(w, p) + if Rem(w, p) != 0 then 1 else 0;
            && IsInt64(t)
            && (t == CeilQuotient(u, p) <==> !(u < 0 && (u < MIN_INT64 || u % p != 0)))
            && t == FastQuotient(u, p)
  {
    TruncatedUp(w, p);
    if u < MIN_INT64 {
      var t, c := FastQuotient(u, p), CeilQuotient(u, p);
      WrapDistance(u);
      CeilQuotientBounds(u, p);
      CeilQuotientBounds(w, p);
      Distribute(c, -1, p);
      Distribute(CeilQuotient(w, p), -1, p);
      Distribute(CeilQuotient(w, p), 1, p);
      hide Wrap, Quo, Rem, CeilQuotient;
      assert t == c ==> Abs(w - u) < 3 * p;
    }
    hide Wrap, Quo, Rem;
  }

  lemma WrapAddOne(q: int)
    ensures Wrap(Wrap(q) + 1) == Wrap(q + 1)
  {
    var k := (q + 0x8000_0000_0000_0000) / 0x1_0000_0000_0000_0000;
    assert Wrap(q) == q - k * 0x1_0000_0000_0000_0000;
  }

  lemma BigQuotient(u: int, p: nat, dif: nat)
    requires p == Pow(10, dif)
    requires u >= MAX_INT64 || dif >= 19
    ensures !TruncatesBelowZero(u, dif)
    ensures Wrap(Wrap(u / p) + 1) == Wrap(u / p + 1)
  {
    hide Pow;
    WrapAddOne(u / p);
  }

  /** `Quantity.ScaledValue`: for values that are not negative the same in every representation. */
  method QuantityScaledValue(q: Quantity, scale: int) returns (r: int64)
    ensures q.d == null && IsInt64(RoundAway(q.Value(), scale)) ==> r == RoundAway(q.Value(), scale)
    ensures q.Value() >= 0.0 && IsInt64(RoundAway(q.Value(), scale)) ==> r == RoundAway(q.Value(), scale)
    ensures q.d != null ==> forall n: int :: IsCeil(n, scale, q.Value()) && IsInt64(n) ==>
              (r == n <==> !(-q.d.scale < scale && TruncatesBelowZero(q.d.unscaled, q.d.scale + scale)))
    ensures q.d != null && q.d.unscaled >= MIN_INT64 ==> forall n: int :: IsCeil(n, scale, q.Value()) && IsInt64(n) ==>
              r == n || r == n + 1
    ensures q.d != null && -q.d.scale < scale && TruncatesBelowZero(q.d.unscaled, q.d.scale + scale) ==>
              r == FastQuotient(q.d.unscaled, Pow(10, q.d.scale + scale))
  {
    if q.d == null {
      var ok;
      r, ok := q.i.AsScaledInt64(scale);
      return;
    }
    var dec := q.d;
    var big := new BigInt(dec.unscaled);
    r := ScaledValue(big, dec.scale, -scale);
    DecCeil(dec.unscaled, -dec.scale, scale);
  }

  lemma DecCeil(u: int, e: int, s: int)
    ensures var n := if e >= s then u * Pow(10, e - s) else CeilQuotient(u, Pow(10, s - e));
            && IsCeil(n, s, Val(u, e))
            && (forall k: int :: IsCeil(k, s, Val(u, e)) ==> k == n)
            && (Val(u, e) >= 0.0 ==> RoundAway(Val(u, e), s) == n && u >= 0)
  {
    var n := if e >= s then u * Pow(10, e - s) else CeilQuotient(u, Pow(10, s - e));
    CeilVal(u, e, s);
    forall k: int | IsCeil(k, s, Val(u, e)) ensures k == n {
      CeilUnique(n, k, s, Val(u, e));
    }
    ValOrder(u, 0, e);
    ValLinear(0, 0, e);
    if Val(u, e) >= 0.0 {
      CeilIsAway(n, s, Val(u, e));
    }
  }
}
