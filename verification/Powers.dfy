/** Powers, and the exact value `u * 10^e` of a scaled decimal number. */
module Powers {

  function Pow(b: nat, e: nat): (p: nat)
    ensures b > 0 ==> p > 0
  {
    if e == 0 then 1 else b * Pow(b, e - 1)
  }

  lemma MulAssociate(a: int, b: int, c: int)
    ensures a * (b * c) == (a * b) * c
  {
  }

  lemma {:induction false} PowAdd(b: nat, m: nat, n: nat)
    ensures Pow(b, m + n) == Pow(b, m) * Pow(b, n)
  {
    if m == 0 {
    } else {
      PowAdd(b, m - 1, n);
      MulAssociate(b, Pow(b, m - 1), Pow(b, n));
    }
  }

  lemma {:induction false} PowGrows(b: nat, m: nat, n: nat)
    requires b > 0 && m <= n
    ensures Pow(b, m) <= Pow(b, n)
  {
    PowAdd(b, n - m, m);
    assert Pow(b, n - m) >= 1;
    assert Pow(b, n - m) * Pow(b, m) >= Pow(b, m);
  }

  /** 10^e for an exponent of either sign. */
  ghost function Ten(e: int): (r: real)
    ensures r > 0.0
    decreases if e < 0 then -e else e
  {
    if e == 0 then 1.0 else if e > 0 then 10.0 * Ten(e - 1) else Ten(e + 1) / 10.0
  }

  lemma TenStep(e: int)
    ensures Ten(e + 1) == 10.0 * Ten(e)
  {
  }

  /** The number `u * 10^e`. */
  ghost function Val(u: int, e: int): real {
    u as real * Ten(e)
  }

  /** Moving `k` powers of ten from the exponent into the integer part. */
  lemma {:induction false} Rescale(u: int, e: int, k: nat)
    ensures Val(u, e) == Val(u * Pow(10, k), e - k)
    decreases k
  {
    if k == 0 {
    } else {
      TenStep(e - 1);
      assert (10 * u) as real == 10.0 * u as real;
      assert Val(u, e) == Val(10 * u, e - 1);
      Rescale(10 * u, e - 1, k - 1);
      assert (10 * u) * Pow(10, k - 1) == u * Pow(10, k);
    }
  }

  /** At one exponent, numbers are ordered as their integer parts. */
  lemma ValOrder(u: int, v: int, e: int)
    ensures Val(u, e) < Val(v, e) <==> u < v
    ensures Val(u, e) == Val(v, e) <==> u == v
  {
    var d := (u - v) as real;
    assert Val(u, e) - Val(v, e) == d * Ten(e);
    if d > 0.0 { assert d * Ten(e) > 0.0; }
    if d < 0.0 { assert d * Ten(e) < 0.0; }
  }

  /** At one exponent, numbers add as their integer parts. */
  lemma ValLinear(u: int, v: int, e: int)
    ensures Val(u + v, e) == Val(u, e) + Val(v, e)
    ensures Val(u - v, e) == Val(u, e) - Val(v, e)
    ensures Val(-u, e) == -Val(u, e)
    ensures Val(0, e) == 0.0
  {
  }
}
