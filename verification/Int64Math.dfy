/**
 Two's-complement 64-bit arithmetic with overflow detection, and the loops that move powers of a
 base in and out of an integer (`resource/math.go`).
 */
module Int64Math {
  import opened Powers
  import opened Rounding

  const MAX_INT64: int := 0x7fff_ffff_ffff_ffff
  const MIN_INT64: int := -0x8000_0000_0000_0000

  // The highest number of decimal digits that always fits an int64.
  const MAX_INT64_FACTORS := 18

  predicate IsInt64(x: int) {
    MIN_INT64 <= x <= MAX_INT64
  }

  type int64 = x: int | MIN_INT64 <= x <= MAX_INT64

  /** What an int64 register holds after computing `x`. */
  function Wrap(x: int): (w: int64)
    ensures IsInt64(x) ==> w == x
    ensures MAX_INT64 < x <= 2 * MAX_INT64 ==> w == x - 0x1_0000_0000_0000_0000
    ensures 2 * MIN_INT64 <= x < MIN_INT64 ==> w == x + 0x1_0000_0000_0000_0000
  {
    (x + 0x8000_0000_0000_0000) % 0x1_0000_0000_0000_0000 - 0x8000_0000_0000_0000
  }

  /** Go's `a / b`: truncated toward zero. */
  function Quo(a: int, b: int): int
    requires b != 0
  {
    if (a < 0) == (b < 0) then Abs(a) / Abs(b) else -(Abs(a) / Abs(b))
  }

  /** Go's `a % b`: takes the sign of `a`. */
  function Rem(a: int, b: int): int
    requires b != 0
  {
    a - b * Quo(a, b)
  }

  // ----- single operations

  /** Go's `-a`: the smallest int64 is its own negation. */
  function Int64Neg(a: int64): (r: int64)
    ensures r == if a == MIN_INT64 then a else -a
  {
    Wrap(-(a as int))
  }

  function Int64Add(a: int64, b: int64): (r: (int64, bool))
    ensures r.1 <==> IsInt64(a + b)
    ensures r.1 ==> r.0 == a + b
  {
    var c := Wrap(a + b);
    if a > 0 && b > 0 then
      if c < 0 then (0, false) else (c, true)
    else if a < 0 && b < 0 then
      if c > 0 then (0, false)
      else if a == MIN_INT64 && b == MIN_INT64 then (0, false)
      else (c, true)
    else (c, true)
  }

  function Int64Multiply(a: int64, b: int64): (r: (int64, bool))
    ensures r.1 <==> IsInt64(a * b)
    ensures r.1 ==> r.0 == a * b
  {
    if a == 0 || b == 0 || a == 1 || b == 1 then
      (Wrap(a * b), true)
    else if a == MIN_INT64 || b == MIN_INT64 then
      MinTimes(a, b);
      (0, false)
    else
      DivisionDetectsOverflow(a, b);
      var c := Wrap(a * b);
      (c, Wrap(Quo(c, b)) == a)
  }

  /** The form used when `b` is known to be greater than one. */
  function Int64MultiplyScale(a: int64, b: int64): (r: (int64, bool))
    requires b > 1
    ensures r.1 <==> IsInt64(a * b)
    ensures r.1 ==> r.0 == a * b
  {
    if a == 0 || a == 1 then
      (Wrap(a * b), true)
    else if a == MIN_INT64 && b != 1 then
      MinTimes(a, b);
      (0, false)
    else
      DivisionDetectsOverflow(a, b);
      var c := Wrap(a * b);
      (c, Quo(c, b) == a)
  }

  /** The copies of Int64MultiplyScale with the factor 10, 100 or 1000 built in. */
  function Int64MultiplyScaleConst(a: int64, k: int64): (r: (int64, bool))
    requires k == 10 || k == 100 || k == 1000
    ensures r == Int64MultiplyScale(a, k)
    ensures r.1 <==> IsInt64(a * k)
  {
    if a == 0 || a == 1 then
      (Wrap(a * k), true)
    else if a == MIN_INT64 then
      (0, false)
    else
      var c := Wrap(a * k);
      (c, Quo(c, k) == a)
  }

  lemma PowersOfTen()
    ensures Pow(10, 0) == 1 && Pow(10, 1) == 10 && Pow(10, 2) == 100
    ensures Pow(10, 3) == 1000 && Pow(10, 4) == 10000 && Pow(10, 5) == 100000
    ensures Pow(10, 6) == 1000000 && Pow(10, 7) == 10000000 && Pow(10, 8) == 100000000 && Pow(10, 9) == 1000000000
    ensures Pow(10, 10) == 10000000000 && Pow(10, 11) == 100000000000 && Pow(10, 12) == 1000000000000
    ensures Pow(10, 13) == 10000000000000 && Pow(10, 14) == 100000000000000 && Pow(10, 15) == 1000000000000000
    ensures Pow(10, 16) == 10000000000000000 && Pow(10, 17) == 100000000000000000
    ensures Pow(10, 18) == 1000000000000000000
  {
    PowAdd(10, 6, 6);
    PowAdd(10, 6, 7);
    PowAdd(10, 6, 8);
    PowAdd(10, 6, 9);
    PowAdd(10, 8, 8);
    PowAdd(10, 8, 9);
    PowAdd(10, 9, 9);
  }

  function Pow10Int64(b: int): (p: int64)
    ensures 0 <= b <= MAX_INT64_FACTORS ==> p == Pow(10, b)
    ensures !(0 <= b <= MAX_INT64_FACTORS) ==> p == 0
  {
    PowersOfTen();
    match b
    case 0 => 1
    case 1 => 10
    case 2 => 100
    case 3 => 1000
    case 4 => 10000
    case 5 => 100000
    case 6 => 1000000
    case 7 => 10000000
    case 8 => 100000000
    case 9 => 1000000000
    case 10 => 10000000000
    case 11 => 100000000000
    case 12 => 1000000000000
    case 13 => 10000000000000
    case 14 => 100000000000000
    case 15 => 1000000000000000
    case 16 => 10000000000000000
    case 17 => 100000000000000000
    case 18 => 1000000000000000000
    case _ => 0
  }

  /** Quotient and remainder of `base` by 10^scale; the flag says the divisor fits an int64. */
  function DivideByScaleInt64(base: int64, scale: nat): (r: (int64, int64, bool))
    ensures r.2 <==> scale < 18
    ensures r.2 ==> base == r.0 * Pow(10, scale) + r.1
    ensures r.2 ==> Abs(r.1) < Pow(10, scale) && (base >= 0 ==> r.1 >= 0) && (base <= 0 ==> r.1 <= 0)
  {
    if scale == 0 then (base, 0, true)
    else if scale >= 18 then (0, base, false)
    else
      var divisor := Pow10Int64(scale);
      DivisionFits(base, divisor);
      (Quo(base, divisor), Rem(base, divisor), true)
  }

  lemma DivisionFits(base: int64, p: int64)
    requires p > 0
    ensures IsInt64(Quo(base, p)) && IsInt64(Rem(base, p))
    ensures base == Quo(base, p) * p + Rem(base, p)
    ensures Abs(Rem(base, p)) < p
    ensures base >= 0 ==> Rem(base, p) >= 0
    ensures base <= 0 ==> Rem(base, p) <= 0
  {
    QuoBounds(base, p);
    QuoAbs(base, p);
    MulAtLeast(Abs(Quo(base, p)), p);
  }

  // ----- loops

  /** `base * 10^scale`; the flag is false exactly on overflow. */
  method PositiveScaleInt64(base: int64, scale: nat) returns (value: int64, ok: bool)
    ensures ok <==> IsInt64(base * Pow(10, scale))
    ensures ok ==> value == base * Pow(10, scale)
  {
    assert Pow(10, 0) == 1 && Pow(10, 1) == 10 && Pow(10, 2) == 100 && Pow(10, 3) == 1000;
    assert Pow(10, 6) == 1000000 && Pow(10, 9) == 1000000000;
    hide Pow;
    match scale
    case 0 => return base, true;
    case 1 => var r := Int64MultiplyScaleConst(base, 10); return r.0, r.1;
    case 2 => var r := Int64MultiplyScaleConst(base, 100); return r.0, r.1;
    case 3 => var r := Int64MultiplyScaleConst(base, 1000); return r.0, r.1;
    case 6 => var r := Int64MultiplyScale(base, 1000000); return r.0, r.1;
    case 9 => var r := Int64MultiplyScale(base, 1000000000); return r.0, r.1;
    case _ =>
      value := base;
      for i := 0 to scale
        invariant value == base * Pow(10, i)
      {
        var r := Int64MultiplyScale(value, 10);
        TenTimes(base, i);
        if !r.1 {
          OverflowStays(base, i + 1, scale);
          return 0, false;
        }
        value := r.0;
      }
      ok := true;
  }

  lemma TenTimes(u: int, k: nat)
    ensures u * Pow(10, k) * 10 == u * Pow(10, k + 1)
  {
    MulAssociate(u, Pow(10, k), 10);
  }

  lemma OverflowStays(base: int, m: nat, n: nat)
    requires m <= n && !IsInt64(base * Pow(10, m))
    ensures !IsInt64(base * Pow(10, n))
  {
    PowAdd(10, n - m, m);
    var p, q := base * Pow(10, m), Pow(10, n - m);
    MulAssociate(base, Pow(10, m), q);
    MulAtLeast(Abs(p), q);
    AbsMul(p, q);
  }

  /**
   `base / 10^scale` rounded away from zero, one digit at a time, leaving early when nothing is
   left; the flag says no digit was lost.
   */
  method NegativeScaleInt64(base: int64, scale: nat) returns (result: int64, exact: bool)
    ensures result == AwayDiv(base, Pow(10, scale))
    ensures exact <==> base % Pow(10, scale) == 0
  {
    if scale == 0 {
      return base, true;
    }
    var value, fraction := base, false;
    for i := 0 to scale
      invariant Truncates(base, Pow(10, i), value, fraction)
      invariant Abs(value) <= Abs(base)
      invariant i > 0 ==> value != 0
    {
      TruncateMore(base, Pow(10, i), value, fraction);
      if !fraction && Rem(value, 10) != 0 {
        fraction := true;
      }
      value := Quo(value, 10);
      if value == 0 {
        NothingLeft(base, i + 1, scale, fraction);
        if fraction {
          return if base > 0 then 1 else -1, false;
        }
        return 0, true;
      }
    }
    TruncatedToAway(base, Pow(10, scale), value, fraction);
    if fraction {
      value := if base > 0 then value + 1 else value - 1;
    }
    return value, !fraction;
  }

  /** `value` is `base / p` truncated toward zero; `fraction` says something was cut off. */
  ghost predicate Truncates(base: int, p: nat, value: int, fraction: bool)
  {
    && (base >= 0 ==> 0 <= base - value * p < p && value >= 0)
    && (base <= 0 ==> 0 <= value * p - base < p && value <= 0)
    && (fraction <==> base != value * p)
  }

  lemma TruncateMore(base: int64, p: nat, value: int64, fraction: bool)
    requires p > 0 && Truncates(base, p, value, fraction)
    ensures Truncates(base, 10 * p, Quo(value, 10), fraction || Rem(value, 10) != 0)
    ensures Abs(Quo(value, 10)) <= Abs(value)
    ensures value != 0 ==> Abs(Quo(value, 10)) < Abs(value)
  {
    QuoBounds(value, 10);
    QuoAbs(value, 10);
    TruncateDigit(base, p, value, Quo(value, 10), Rem(value, 10), fraction);
  }

  lemma TruncateDigit(base: int, p: nat, value: int, q: int, r: int, fraction: bool)
    requires p > 0 && Truncates(base, p, value, fraction)
    requires value == 10 * q + r && -10 < r < 10
    requires (value >= 0 ==> q >= 0 && r >= 0) && (value <= 0 ==> q <= 0 && r <= 0)
    ensures Truncates(base, 10 * p, q, fraction || r != 0)
  {
    var rest := base - value * p;
    TenfoldQuotient(value, q, r, p);
    MulCompareNat(Abs(r), 9, p);
    MulNegate(r, p);
    MulAtLeast(p, Abs(r));
    assert base - q * (10 * p) == rest + r * p;
  }

  lemma TenfoldQuotient(value: int, q: int, r: int, p: int)
    requires value == 10 * q + r
    ensures value * p == q * (10 * p) + r * p
  {
  }

  lemma NothingLeft(base: int, m: nat, scale: nat, fraction: bool)
    requires m <= scale && Truncates(base, Pow(10, m), 0, fraction)
    ensures AwayDiv(base, Pow(10, scale)) == if !fraction then 0 else if base > 0 then 1 else -1
    ensures base % Pow(10, scale) == 0 <==> !fraction
  {
    PowGrows(10, m, scale);
    TruncatedToAway(base, Pow(10, scale), 0, fraction);
  }

  lemma TruncatedToAway(base: int, p: nat, value: int, fraction: bool)
    requires p > 0 && Truncates(base, p, value, fraction)
    ensures AwayDiv(base, p) == if !fraction then value else if base > 0 then value + 1 else value - 1
    ensures base % p == 0 <==> !fraction
  {
    AwayDivBounds(base, p);
    AwayDivExact(base, p);
    var n := AwayDiv(base, p);
    Distribute(value, 1, p);
    Distribute(value, -1, p);
    Distribute(n, 1, p);
    Distribute(n, -1, p);
    MulOrder(n - 1, value, p);
    MulOrder(n - 1, value + 1, p);
    MulOrder(value - 1, n, p);
    MulOrder(value, n, p);
    MulOrder(value - 1, n + 1, p);
    MulOrder(n, value, p);
    MulOrder(value, n + 1, p);
    MulOrder(n, value + 1, p);
  }

  /** `m * base^k` with every factor `base` pulled out of a non-zero `m`. */
  ghost predicate IsStripped(value: int, base: nat, m: int, k: nat)
    requires base > 0
  {
    && value == m * Pow(base, k)
    && (value != 0 ==> m % base != 0)
    && (value == 0 ==> m == 0 && k == 0)
  }

  /**
   Divides by `base` as long as that is exact. The smallest int64 has no positive counterpart, so
   it is returned as it is.
   */
  method RemoveInt64Factors(value: int64, base: int64) returns (result: int64, times: nat)
    requires base > 1
    ensures value != MIN_INT64 ==> IsStripped(value, base, result, times)
    ensures value == MIN_INT64 ==> result == value && times == 0
  {
    assert Pow(base, 0) == 1;
    hide Quo, Rem, Pow, Abs;
    times, result := 0, value;
    var negative := result < 0;
    if negative {
      result := Int64Neg(result);
    }
    ghost var start := result;
    while result >= base && Rem(result, base) == 0
      invariant start == result * Pow(base, times)
      invariant start <= 0 ==> result == start && times == 0
      invariant start > 0 ==> 0 < result <= start
    {
      QuoRemPositive(result, base);
      FactorOut(result, base, times, Quo(result, base));
      times := times + 1;
      result := Quo(result, base);
    }
    if result > 0 {
      QuoRemPositive(result, base);
    }
    if negative {
      if result > 0 { StrippedNegate(start, base, result, times); }
      result := Int64Neg(result);
    }
  }

  lemma QuoRemPositive(a: int, b: int)
    requires a > 0 && b > 1
    ensures a == Quo(a, b) * b + Rem(a, b)
    ensures Rem(a, b) == a % b
    ensures a < b ==> a % b == a
    ensures 0 <= Quo(a, b) < a
  {
    var q := DivMod(a, b);
    MulCompareNat(2, b, q);
    if a < b { DivUnique(a, b, 0, a); }
  }

  lemma StrippedNegate(value: int, base: nat, m: int, k: nat)
    requires base > 0 && IsStripped(value, base, m, k)
    ensures IsStripped(-value, base, -m, k)
  {
    MulNegate(m, Pow(base, k));
    DivNegate(m, base);
  }

  lemma FactorOut(d: int, factor: nat, k: nat, q: int)
    requires factor > 1 && d == q * factor
    ensures d * Pow(factor, k) == q * Pow(factor, k + 1)
    ensures d != 0 ==> q != 0 && Abs(q) < Abs(d)
    ensures d > 0 ==> q > 0
  {
    MulAssociate(q, factor, Pow(factor, k));
    AbsMul(q, factor);
    MulCompareNat(2, factor, Abs(q));
    SignOfProduct(q, factor);
  }

  lemma DivNegate(a: int, p: nat)
    requires p > 0
    ensures a % p == 0 <==> (-a) % p == 0
  {
    if a % p == 0 {
      MulNegate(a / p, p);
      DivUnique(-a, p, -(a / p), 0);
    }
    if (-a) % p == 0 {
      MulNegate((-a) / p, p);
      DivUnique(a, p, -((-a) / p), 0);
    }
  }

  // ----- arbitrary precision

  /** `big.Int`: an integer updated in place through a pointer. */
  class BigInt {
    var v: int

    constructor (v: int)
      ensures this.v == v
    {
      this.v := v;
    }
  }

  /** The same for an arbitrary-precision integer; `d` and the local `q` change places every round. */
  method RemoveBigIntFactors(d0: BigInt, factor: nat) returns (d: BigInt, times: nat)
    requires factor > 1
    modifies d0
    ensures d == d0 || fresh(d)
    ensures IsStripped(old(d0.v), factor, d.v, times)
  {
    d, times := d0, 0;
    var q := new BigInt(0);
    while d.v != 0
      invariant d != q && (d == d0 || fresh(d)) && (q == d0 || fresh(q))
      invariant old(d0.v) == d.v * Pow(factor, times)
      invariant old(d0.v) == 0 ==> d.v == 0 && times == 0
      decreases Abs(d.v)
    {
      q.v := d.v / factor;
      var m := d.v % factor;
      if m != 0 {
        break;
      }
      FactorOut(d.v, factor, times, q.v);
      times := times + 1;
      d, q := q, d;
    }
  }

  // ----- why division detects overflow

  lemma MinTimes(a: int64, b: int64)
    requires a == MIN_INT64 || b == MIN_INT64
    requires a != 0 && a != 1 && b != 0 && b != 1
    ensures !IsInt64(a * b)
  {
    var c := if a == MIN_INT64 then b else a;
    assert a * b == MIN_INT64 * c;
  }

  /** Dividing a wrapped product gives a factor back only if nothing was lost by wrapping. */
  lemma DivisionDetectsOverflow(a: int64, b: int64)
    requires b != 0 && b != 1 && a != MIN_INT64
    ensures IsInt64(Quo(Wrap(a * b), b))
    ensures Quo(Wrap(a * b), b) == a <==> IsInt64(a * b)
  {
    var p, c := a * b, Wrap(a * b);
    if b == -1 {
    } else {
      QuoFits(c, b);
      if IsInt64(p) {
        QuoExact(a, b);
      } else {
        WrapDistance(p);
        NoAccident(a, b, p, c);
      }
    }
  }

  lemma QuoFits(c: int64, b: int)
    requires Abs(b) >= 2
    ensures IsInt64(Quo(c, b))
  {
    var q := Quo(c, b);
    QuoAbs(c, b);
    MulCompareNat(2, Abs(b), Abs(q));
  }

  lemma QuoAbs(a: int, b: int)
    requires b != 0
    ensures Abs(b) * Abs(Quo(a, b)) <= Abs(a)
  {
    var q := DivMod(Abs(a), Abs(b));
    assert Abs(Quo(a, b)) == q;
  }

  lemma NoAccident(a: int, b: int64, p: int, c: int)
    requires b != 0 && p == a * b && Abs(p - c) >= 0x1_0000_0000_0000_0000
    ensures Quo(c, b) != a
  {
    QuoBounds(c, b);
    assert Abs(c - b * Quo(c, b)) < 0x1_0000_0000_0000_0000;
  }

  lemma WrapDistance(x: int)
    requires !IsInt64(x)
    ensures Abs(x - Wrap(x)) >= 0x1_0000_0000_0000_0000
  {
    var k := (x + 0x8000_0000_0000_0000) / 0x1_0000_0000_0000_0000;
    assert x - Wrap(x) == k * 0x1_0000_0000_0000_0000;
  }

  lemma MulCompareNat(a: nat, b: nat, c: nat)
    requires a <= b
    ensures a * c <= b * c
  {
  }

  lemma QuoBounds(a: int, b: int)
    requires b != 0
    ensures a >= 0 ==> 0 <= Rem(a, b) < Abs(b)
    ensures a <= 0 ==> 0 <= -Rem(a, b) < Abs(b)
  {
    var q := DivMod(Abs(a), Abs(b));
    MulNegate(q, b);
    MulNegate(b, q);
    assert Quo(a, b) == if (a < 0) == (b < 0) then q else -q;
    hide Quo;
    assert b * Quo(a, b) == if a < 0 then -(q * Abs(b)) else q * Abs(b);
  }

  lemma AbsMul(a: int, b: int)
    ensures Abs(a * b) == Abs(b) * Abs(a)
  {
    MulNegate(a, b);
    MulNegate(b, a);
  }

  lemma SignOfProduct(a: int, b: int)
    requires b != 0
    ensures a > 0 ==> (a * b < 0 <==> b < 0)
    ensures a < 0 ==> (a * b < 0 <==> b > 0)
  {
    MulAtLeast(Abs(a), Abs(b));
    MulNegate(a, b);
    MulNegate(b, a);
    MulNegate(a, -b);
  }

  lemma QuoExact(a: int, b: int)
    requires b != 0
    ensures Quo(a * b, b) == a
  {
    AbsMul(a, b);
    DivUnique(Abs(a * b), Abs(b), Abs(a), 0);
    SignOfProduct(a, b);
  }
}
