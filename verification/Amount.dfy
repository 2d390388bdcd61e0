/**
 The two number types behind a quantity (`resource/amount.go`): an int64 with a decimal exponent,
 and an arbitrary-precision decimal behind a pointer.
 */
module Amount {
  import opened Powers
  import opened Rounding
  import opened Int64Math
  import opened Digits
  import opened Decimal
  import opened Canonical

  /** A struct embedded by value: its mutating methods return the new struct. */
  datatype Int64Amount = Int64Amount(value: int64, scale: int) {

    ghost function Value(): real {
      Val(value, scale)
    }

    method AsInt64() returns (r: int64, ok: bool)
      ensures ok <==> scale >= 0 && IsInt64(value * Pow(10, scale))
      ensures ok ==> Val(r, 0) == Value()
    {
      if scale == 0 {
        assert Pow(10, 0) == 1;
        return value, true;
      }
      if scale < 0 {
        return 0, false;
      }
      Rescale(value, scale, scale);
      r, ok := PositiveScaleInt64(value, scale);
    }

    /** The number of units of 10^s, rounded away from zero. */
    method AsScaledInt64(s: int) returns (r: int64, ok: bool)
      ensures ok <==> IsInt64(RoundAway(Value(), s))
      ensures ok ==> r == RoundAway(Value(), s)
    {
      RoundAwayVal(value, scale, s);
      if scale < s {
        var exact;
        r, exact := NegativeScaleInt64(value, s - scale);
        return r, true;
      }
      r, ok := PositiveScaleInt64(value, scale - s);
    }

    method AsDec() returns (d: Dec)
      ensures fresh(d) && d.Value() == Value() && d.unscaled == value && d.scale == -scale
    {
      d := new Dec(value, -scale);
    }

    method Cmp(b: Int64Amount) returns (r: int)
      ensures r == Sgn(Value() - b.Value())
    {
      var x, y := value, b.value;
      if scale == b.scale {
        ValOrder(x, y, scale);
      } else if scale > b.scale {
        var (result, remainder, exact) := DivideByScaleInt64(b.value, scale - b.scale);
        if !exact {
          var d := AsDec();
          var e := b.AsDec();
          r := d.Cmp(e);
          return;
        }
        Rescale(value, scale, scale - b.scale);
        CompareByQuotient(value, b.value, Pow(10, scale - b.scale), result, remainder);
        ValOrder(value * Pow(10, scale - b.scale), b.value, b.scale);
        if result == value {
          return if remainder == 0 then 0 else if remainder > 0 then -1 else 1;
        }
        y := result;
      } else {
        var (result, remainder, exact) := DivideByScaleInt64(value, b.scale - scale);
        if !exact {
          var d := AsDec();
          var e := b.AsDec();
          r := d.Cmp(e);
          return;
        }
        Rescale(b.value, b.scale, b.scale - scale);
        CompareByQuotient(b.value, value, Pow(10, b.scale - scale), result, remainder);
        ValOrder(value, b.value * Pow(10, b.scale - scale), scale);
        if result == b.value {
          return if remainder == 0 then 0 else if remainder > 0 then 1 else -1;
        }
        x := result;
      }
      return if x == y then 0 else if x < y then -1 else 1;
    }

    /** The sum, or the receiver unchanged if the sum or a scaled summand does not fit an int64. */
    method Add(b: Int64Amount) returns (a: Int64Amount, ok: bool)
      ensures ok ==> a.Value() == Value() + b.Value()
      ensures !ok ==> a == this
      ensures ok <==> AddFits(b)
    {
      ValLinear(0, 0, scale);
      ValLinear(0, 0, b.scale);
      assert Pow(10, 0) == 1;
      hide Val, Pow;
      a := this;
      ok := false;
      if b.value == 0 {
        return a, true;
      }
      if value == 0 {
        return b, true;
      }
      if scale == b.scale {
        var (c, fits) := Int64Add(value, b.value);
        if !fits { return a, false; }
        ValLinear(value, b.value, scale);
        a := Int64Amount(c, scale);
        ok := true;
      } else if scale > b.scale {
        var sum;
        sum, ok := AddRescaled(this, b);
        if ok { a := sum; }
      } else {
        var sum;
        sum, ok := AddRescaled(b, this);
        if ok { a := sum; }
      }
    }

    /** The sum at the smaller of two scales, if it and the rescaled summand fit. */
    static method AddRescaled(x: Int64Amount, y: Int64Amount) returns (a: Int64Amount, ok: bool)
      requires x.scale > y.scale
      ensures ok ==> a.Value() == x.Value() + y.Value()
      ensures var c := x.value * Pow(10, x.scale - y.scale); ok <==> IsInt64(c) && IsInt64(c + y.value)
    {
      hide Pow;
      Rescale(x.value, x.scale, x.scale - y.scale);
      var c, fits := PositiveScaleInt64(x.value, x.scale - y.scale);
      if !fits { return y, false; }
      ValLinear(c, y.value, y.scale);
      hide Val;
      var (d, fits') := Int64Add(c, y.value);
      a, ok := Int64Amount(d, y.scale), fits';
    }

    predicate AddFits(b: Int64Amount) {
      if value == 0 || b.value == 0 then true
      else if scale >= b.scale then
        var c := value * Pow(10, scale - b.scale);
        IsInt64(c) && IsInt64(c + b.value)
      else
        var c := b.value * Pow(10, b.scale - scale);
        IsInt64(c) && IsInt64(value + c)
    }

    /** The smallest int64 is its own negation, so subtracting it adds it where that fits. */
    predicate SubWraps(b: Int64Amount) {
      b.value == MIN_INT64 && AddFits(b)
    }

    method Sub(b: Int64Amount) returns (a: Int64Amount, ok: bool)
      ensures ok && !SubWraps(b) ==> a.Value() == Value() - b.Value()
      ensures SubWraps(b) ==> ok && a.Value() == Value() + b.Value() && b.Value() < 0.0
      ensures !ok ==> a == this
      ensures ok <==> AddFits(Int64Amount(Int64Neg(b.value), b.scale))
    {
      ValLinear(b.value, 0, b.scale);
      ValOrder(b.value, 0, b.scale);
      hide AddFits, Pow, Wrap, Int64Neg;
      a, ok := Add(Int64Amount(Int64Neg(b.value), b.scale));
    }

    method AsScale(s: int) returns (a: Int64Amount, exact: bool)
      ensures a.Value() == if scale >= s then Value() else RoundUp(Value(), s)
      ensures exact <==> a.Value() == Value()
      ensures a.scale == if scale >= s then scale else s
    {
      if scale >= s {
        return this, true;
      }
      RoundAwayVal(value, scale, s);
      var result;
      result, exact := NegativeScaleInt64(value, s - scale);
      AwayDivExact(value, Pow(10, s - scale));
      Rescale(result, s, s - scale);
      ValOrder(result * Pow(10, s - scale), value, scale);
      a := Int64Amount(result, s);
    }

    /** The digits of the decimal canonical form, and its exponent. */
    method AsCanonicalBytes() returns (number: string, exponent: int)
      ensures if value == 0 then number == "0" else AreDecimalDigits(number, exponent, Value())
    {
      var amount, times := RemoveInt64Factors(value, 10);
      exponent := scale + times;
      RemByThree(exponent);
      if value != 0 {
        MinIsStripped(amount);
        StrippedDecimalForm(value, scale, amount, times);
      }
      ghost var low := FloorThree(exponent);
      ghost var m: int := amount * Pow(10, exponent - low);
      assert if value == 0 then RenderInt(m) == "0" else AreDecimalDigits(RenderInt(m), low, Value());
      assert exponent - low == exponent % 3;
      assert Pow(10, 0) == 1 && Pow(10, 1) == 10 && Pow(10, 2) == 100;
      hide *;
      var r := Rem(exponent, 3);
      var scaled := (amount, true);
      if r == 1 || r == -2 {
        scaled := Int64MultiplyScaleConst(amount, 10);
        exponent := exponent - 1;
      } else if r == 2 || r == -1 {
        scaled := Int64MultiplyScaleConst(amount, 100);
        exponent := exponent - 2;
      }
      assert scaled.1 ==> scaled.0 == m && exponent == low;
      if !scaled.1 {
        var d := AsDec();
        number, exponent := InfDecAmount(d).AsCanonicalBytes();
        return;
      }
      return RenderInt(scaled.0), exponent;
    }

    /** The digits of the rounded number in binary form, and its exponent; the smallest int64 is kept as it is. */
    method AsCanonicalBase1024Bytes() returns (number: string, exponent: nat)
      ensures value != 0 && !(value == MIN_INT64 && scale == 0) ==>
                AreBinaryDigits(number, exponent, RoundUp(Value(), 0))
      ensures value == MIN_INT64 && scale == 0 ==> number == RenderInt(value) && exponent == 0
    {
      RoundedFacts(value, scale);
      hide RoundAway, Val, RenderInt;
      var v, ok := AsScaledInt64(0);
      if !ok {
        var d := AsDec();
        number, exponent := InfDecAmount(d).AsCanonicalBase1024Bytes();
        return;
      }
      var amount, times := RemoveInt64Factors(v, 1024);
      if v != 0 && v != MIN_INT64 {
        StrippedBinaryForm(v, amount, times);
      }
      return RenderInt(amount), times;
    }
  }

  lemma RemByThree(e: int)
    ensures Rem(e, 3) == 0 <==> e % 3 == 0
    ensures Rem(e, 3) == 1 || Rem(e, 3) == -2 <==> e % 3 == 1
    ensures Rem(e, 3) == 2 || Rem(e, 3) == -1 <==> e % 3 == 2
  {
    QuoBounds(e, 3);
  }

  lemma RemFloorThree(e: int, x: int)
    requires FloorThree(e) <= x <= e
    ensures Rem(x, 3) == 0 <==> x == FloorThree(e)
  {
    RemByThree(x);
  }

  lemma StrippedDigits(u: int, e: int, m: int, k: nat)
    requires IsStripped(u, 10, m, k)
    ensures var low := FloorThree(e + k);
            var number := RenderInt(m * Pow(10, e + k - low));
            if u == 0 then number == "0" else AreDecimalDigits(number, low, Val(u, e))
    ensures Pow(10, 0) == 1
  {
    if u != 0 {
      StrippedDecimalForm(u, e, m, k);
    }
    assert RenderInt(0) == "0";
    hide RenderInt, Val, FloorThree;
  }

  lemma MinIsStripped(m: int)
    ensures m == MIN_INT64 ==> IsStripped(m, 10, m, 0)
  {
  }

  /** No other int64 with an exponent has the value of the smallest int64. */
  lemma SmallestIsUnscaled(u: int64, e: int)
    ensures Val(u, e) == Val(MIN_INT64, 0) <==> u == MIN_INT64 && e == 0
  {
    if e > 0 {
      Rescale(u, e, e);
      ValOrder(u * Pow(10, e), MIN_INT64, 0);
      var t := u * Pow(10, e - 1);
      assert u * Pow(10, e) == t * 10;
    } else if e < 0 {
      Rescale(MIN_INT64, 0, -e);
      ValOrder(u, MIN_INT64 * Pow(10, -e), e);
      PowGrows(10, 1, -e);
      assert Pow(10, 1) == 10;
      assert MIN_INT64 * Pow(10, -e) <= MIN_INT64 * 10;
    } else {
      ValOrder(u, MIN_INT64, 0);
    }
  }

  lemma RoundedIsZero(u: int, e: int)
    ensures RoundAway(Val(u, e), 0) == 0 <==> u == 0
  {
    var n := RoundAway(Val(u, e), 0);
    assert RoundsAwayTo(n, 0, Val(u, e));
    ValLinear(0, 0, e);
    ValLinear(0, 0, 0);
    ValOrder(u, 0, e);
    ValOrder(n, 0, 0);
    ValOrder(n - 1, 0, 0);
    hide Val, RoundAway;
  }

  /** Rounding an int64 amount gives zero or the smallest int64 only from that very amount. */
  lemma RoundedFacts(u: int64, e: int)
    ensures var n := RoundAway(Val(u, e), 0); (n == 0 <==> u == 0) && (n == MIN_INT64 <==> u == MIN_INT64 && e == 0)
  {
    RoundedIsZero(u, e);
    RoundAwayVal(u, e, 0);
    SmallestIsUnscaled(u, e);
    hide Val, RoundAway;
    if e >= 0 {
      Rescale(u, e, e);
    } else {
      var p := Pow(10, -e);
      AwayDivBounds(u, p);
      PowGrows(10, 1, -e);
      assert Pow(10, 1) == 10;
      MulCompareNat(10, p, MAX_INT64);
      MulNegate(MAX_INT64, p);
    }
  }

  lemma CompareByQuotient(a: int, b: int, p: nat, q: int, r: int)
    requires p > 0 && b == q * p + r && Abs(r) < p
    requires (b >= 0 ==> r >= 0) && (b <= 0 ==> r <= 0)
    ensures q < a ==> b < a * p
    ensures q > a ==> b > a * p
    ensures q == a ==> b - a * p == r
  {
    MulOrder(q + 1, a, p);
    MulOrder(q, a, p);
    MulOrder(a, q, p);
    MulOrder(a, q - 1, p);
    Distribute(q, 1, p);
    Distribute(q, -1, p);
  }

  datatype InfDecAmount = InfDecAmount(dec: Dec) {

    method AsScale(s: int) returns (r: InfDecAmount, exact: bool)
      ensures fresh(r.dec) && r.dec.scale == -s && r.dec.Value() == RoundUp(dec.Value(), s)
      ensures exact <==> r.dec.Value() == dec.Value()
    {
      var tmp := new Dec(0, 0);
      tmp.Round(dec, -s);
      var c := tmp.Cmp(dec);
      return InfDecAmount(tmp), c == 0;
    }

    method AsCanonicalBytes() returns (number: string, exponent: int)
      ensures if dec.unscaled == 0 then number == "0" else AreDecimalDigits(number, exponent, dec.Value())
    {
      var copy := new BigInt(dec.unscaled);
      exponent := -dec.scale;
      var amount, times := RemoveBigIntFactors(copy, 10);
      StrippedDigits(dec.unscaled, -dec.scale, amount.v, times);
      assert dec.Value() == Val(dec.unscaled, -dec.scale);
      hide *;
      exponent := exponent + times;
      ghost var start, e, low := amount.v, exponent, FloorThree(exponent);
      RemFloorThree(e, exponent);
      while Rem(exponent, 3) != 0
        invariant low <= exponent <= e
        invariant Rem(exponent, 3) == 0 <==> exponent == low
        invariant amount.v == start * Pow(10, e - exponent)
        invariant fresh(amount)
        decreases exponent - low
      {
        TenTimes(start, e - exponent);
        amount.v := amount.v * 10;
        exponent := exponent - 1;
        RemFloorThree(e, exponent);
      }
      assert amount.v == start * Pow(10, e - low) && exponent == low;
      return RenderInt(amount.v), exponent;
    }

    method AsCanonicalBase1024Bytes() returns (number: string, exponent: nat)
      ensures dec.unscaled != 0 ==> AreBinaryDigits(number, exponent, RoundUp(dec.Value(), 0))
    {
      RoundedIsZero(dec.unscaled, -dec.scale);
      hide RoundAway, RenderInt;
      var tmp := new Dec(0, 0);
      tmp.Round(dec, 0);
      var copy := new BigInt(tmp.unscaled);
      ValOrder(tmp.unscaled, RoundAway(dec.Value(), 0), 0);
      var amount, times := RemoveBigIntFactors(copy, 1024);
      return RenderInt(amount.v), times;
    }
  }
}
