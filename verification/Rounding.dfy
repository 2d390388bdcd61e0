/** Rounding away from zero, on integers and on exact values. */
module Rounding {
  import opened Powers

  function Abs(x: int): nat {
    if x < 0 then -x else x
  }

  ghost function Sgn(x: real): int {
    if x < 0.0 then -1 else if x > 0.0 then 1 else 0
  }

  /** `u / p`, rounded away from zero. */
  function AwayDiv(u: int, p: nat): (n: int)
    requires p > 0
  {
    if u >= 0 then (u + p - 1) / p else -((-u + p - 1) / p)
  }

  lemma CeilDiv(a: nat, p: nat)
    requires p > 0
    ensures var q := (a + p - 1) / p; (q - 1) * p < a <= q * p && q <= a
  {
    var q := DivMod(a + p - 1, p);
    Distribute(q, -1, p);
    MulOrder(q - 1, a, p);
    MulOrder(0, a, p);
    MulAtLeast(a, p);
  }

  lemma DivMod(u: int, p: nat) returns (q: int)
    requires p > 0
    ensures q == u / p && q * p + u % p == u
  {
    q := u / p;
  }

  lemma Distribute(a: int, b: int, c: int)
    ensures (a + b) * c == a * c + b * c
  {
  }

  lemma {:induction false} MulAtLeast(a: nat, p: nat)
    ensures 0 <= a * p == p * a
    ensures p > 0 ==> a <= a * p
  {
    if p > 0 {
      MulAtLeast(a, p - 1);
      assert a * p == a * (p - 1) + a;
    }
  }

  lemma AwayDivBounds(u: int, p: nat)
    requires p > 0
    ensures u >= 0 ==> AwayDiv(u, p) >= 0 && (AwayDiv(u, p) - 1) * p < u <= AwayDiv(u, p) * p
    ensures u < 0 ==> AwayDiv(u, p) < 0 && AwayDiv(u, p) * p <= u < (AwayDiv(u, p) + 1) * p
    ensures Abs(AwayDiv(u, p)) <= Abs(u)
  {
    CeilDiv(Abs(u), p);
    var q := (Abs(u) + p - 1) / p;
    MulNegate(q, p);
    MulNegate(q - 1, p);
  }

  lemma MulNegate(a: int, b: int)
    ensures (-a) * b == -(a * b)
  {
  }

  /** Exactly the multiples of `p` are left alone. */
  lemma AwayDivExact(u: int, p: nat)
    requires p > 0
    ensures AwayDiv(u, p) * p == u <==> u % p == 0
  {
    AwayDivBounds(u, p);
    var n := AwayDiv(u, p);
    if u % p == 0 {
      var k := u / p;
      assert u == k * p;
      MulOrder(n, k, p);
      MulOrder(n - 1, k, p);
      MulOrder(n + 1, k, p);
    }
    if n * p == u {
      DivUnique(u, p, n, 0);
    }
  }

  lemma MulOrder(a: int, b: int, p: nat)
    requires p > 0
    ensures a * p < b * p <==> a < b
  {
    Distribute(b - a, a, p);
    Distribute(a - b, b, p);
    if a < b { MulAtLeast(b - a, p); }
    if a > b { MulAtLeast(a - b, p); }
  }

  /** Euclidean division has one answer. */
  lemma DivUnique(u: int, p: nat, q: int, r: nat)
    requires p > 0 && r < p && u == q * p + r
    ensures u / p == q && u % p == r
  {
    var k := DivMod(u, p);
    Distribute(k, 1, p);
    Distribute(q, 1, p);
    MulOrder(k, q + 1, p);
    MulOrder(q, k + 1, p);
  }

  /** `n * 10^s` is the first multiple of 10^s at or beyond `x`, seen from zero. */
  ghost predicate RoundsAwayTo(n: int, s: int, x: real) {
    if x >= 0.0 then Val(n - 1, s) < x <= Val(n, s) else Val(n, s) <= x < Val(n + 1, s)
  }

  lemma RoundsAwayUnique(n: int, k: int, s: int, x: real)
    requires RoundsAwayTo(n, s, x) && RoundsAwayTo(k, s, x)
    ensures n == k
  {
    ValOrder(n - 1, k, s);
    ValOrder(k - 1, n, s);
    ValOrder(n, k + 1, s);
    ValOrder(k, n + 1, s);
  }

  /** The integer `n` of RoundsAwayTo: `x / 10^s`, rounded away from zero. */
  ghost function RoundAway(x: real, s: int): (n: int)
    ensures RoundsAwayTo(n, s, x)
  {
    var q := x / Ten(s);
    var n := if x >= 0.0 then -((-q).Floor) else q.Floor;
    FloorRounds(x, q, n, s);
    n
  }

  lemma FloorRounds(x: real, q: real, n: int, s: int)
    requires x == q * Ten(s)
    requires x >= 0.0 ==> n as real - 1.0 < q <= n as real
    requires x < 0.0 ==> n as real <= q < n as real + 1.0
    ensures RoundsAwayTo(n, s, x)
  {
    ValCompare(q, n, s);
    ValCompare(q, n - 1, s);
    ValCompare(q, n + 1, s);
  }

  lemma ValCompare(q: real, n: int, s: int)
    ensures q * Ten(s) < Val(n, s) <==> q < n as real
    ensures Val(n, s) < q * Ten(s) <==> n as real < q
  {
    MulCompare(q, n as real, Ten(s));
  }

  lemma MulCompare(a: real, b: real, t: real)
    requires t > 0.0
    ensures a * t < b * t <==> a < b
    ensures b * t < a * t <==> b < a
  {
    var d := a - b;
    assert a * t - b * t == d * t;
    if d > 0.0 { assert d * t > 0.0; }
    if d < 0.0 { assert d * t < 0.0; }
  }

  /** `x` rounded away from zero to a multiple of 10^s. */
  ghost function RoundUp(x: real, s: int): real {
    Val(RoundAway(x, s), s)
  }

  /** Rounding a decimal number is integer division of its integer part. */
  lemma RoundAwayVal(u: int, e: int, s: int)
    ensures e >= s ==> RoundAway(Val(u, e), s) == u * Pow(10, e - s) && RoundUp(Val(u, e), s) == Val(u, e)
    ensures e < s ==> RoundAway(Val(u, e), s) == AwayDiv(u, Pow(10, s - e))
  {
    ValOrder(u, 0, e);
    ValLinear(u, 0, e);
    var n;
    if e >= s {
      n := u * Pow(10, e - s);
      Rescale(u, e, e - s);
      ValOrder(n, n + 1, s);
      ValOrder(n - 1, n, s);
    } else {
      var p := Pow(10, s - e);
      n := AwayDiv(u, p);
      AwayDivBounds(u, p);
      Rescale(n, s, s - e);
      Rescale(n - 1, s, s - e);
      Rescale(n + 1, s, s - e);
      ValOrder(n * p, u, e);
      ValOrder((n - 1) * p, u, e);
      ValOrder((n + 1) * p, u, e);
    }
    RoundsAwayUnique(n, RoundAway(Val(u, e), s), s, Val(u, e));
  }

  lemma RoundUpNegate(x: real, s: int)
    ensures RoundUp(-x, s) == -RoundUp(x, s)
  {
    var n := RoundAway(x, s);
    ValLinear(n, 0, s);
    ValLinear(n - 1, 0, s);
    ValLinear(n + 1, 0, s);
    ValOrder(n, 0, s);
    ValOrder(n - 1, 0, s);
    if x == 0.0 {
      assert n == 0;
    }
    assert -n + 1 == -(n - 1) && -n - 1 == -(n + 1);
    RoundsAwayUnique(-n, RoundAway(-x, s), s, -x);
  }
}
