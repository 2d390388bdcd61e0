/**
 `inf.Dec`: an arbitrary-precision decimal updated in place through a pointer. `scale` counts the
 digits after the point, so the value is `unscaled * 10^-scale`.
 */
module Decimal {
  import opened Powers
  import opened Rounding
  import opened Digits

  /** The place of the first point, or the length. */
  function PointIndex(s: string): (p: nat)
    ensures p <= |s|
    ensures forall i :: 0 <= i < p ==> s[i] != '.'
    ensures p < |s| ==> s[p] == '.'
  {
    if s == "" || s[0] == '.' then 0 else 1 + PointIndex(s[1..])
  }

  /** What stands before and after the first point. */
  function SplitPoint(s: string): (string, string) {
    var p := PointIndex(s);
    (s[..p], if p < |s| then s[p + 1..] else "")
  }

  /** Digits with at most one point: the digits as one number, and how many come after the point. */
  function ReadUnsigned(s: string): (nat, nat, bool) {
    var (a, b) := SplitPoint(s);
    if !AllDigits(a + b) || a + b == "" then (0, 0, false)
    else (DigitsValue(a + b), |b|, true)
  }

  function ReadDec(s: string): (int, nat, bool) {
    if s != "" && s[0] == '-' then
      var (n, scale, ok) := ReadUnsigned(s[1..]);
      (-(n as int), scale, ok)
    else ReadUnsigned(if s != "" && s[0] == '+' then s[1..] else s)
  }

  function PointTail(point: bool, b: string): string {
    if point then "." + b else ""
  }

  lemma SplitPointIs(a: string, point: bool, b: string)
    requires AllDigits(a) && (!point ==> b == "")
    ensures SplitPoint(a + PointTail(point, b)) == (a, b)
  {
    var tail := PointTail(point, b);
    var s := a + tail;
    assert forall i :: 0 <= i < |a| ==> s[i] == a[i];
    assert tail != "" ==> s[|a|] == tail[0];
    assert PointIndex(s) == |a|;
    assert s[..|a|] == a;
    if point {
      assert s[|a| + 1..] == b;
    }
  }

  lemma ReadDecIs(sign: string, a: string, point: bool, b: string)
    requires sign == "" || sign == "+" || sign == "-"
    requires AllDigits(a) && AllDigits(a + b) && (!point ==> b == "")
    ensures var r := ReadDec(sign + (a + PointTail(point, b)));
            if a + b == "" then !r.2
            else r == (if sign == "-" then -(DigitsValue(a + b) as int) else DigitsValue(a + b), |b|, true)
  {
    hide *;
    NumberStart(a, point, b);
    ReadUnsignedIs(a, point, b);
    ReadDecSign(sign, a + PointTail(point, b));
  }

  lemma NumberStart(a: string, point: bool, b: string)
    requires AllDigits(a)
    ensures var s := a + PointTail(point, b); s != "" ==> s[0] != '+' && s[0] != '-'
  {
  }

  lemma ReadDecSign(sign: string, body: string)
    requires sign == "" || sign == "+" || sign == "-"
    requires body != "" ==> body[0] != '+' && body[0] != '-'
    ensures var (n, scale, ok) := ReadUnsigned(body);
            ReadDec(sign + body) == (if sign == "-" then -(n as int) else n, scale, ok)
  {
    StripSign(sign, body);
    hide ReadUnsigned;
  }

  lemma ReadUnsignedIs(a: string, point: bool, b: string)
    requires AllDigits(a) && AllDigits(a + b) && (!point ==> b == "")
    ensures ReadUnsigned(a + PointTail(point, b)) ==
            if a + b == "" then (0, 0, false) else (DigitsValue(a + b), |b|, true)
  {
    SplitPointIs(a, point, b);
    hide SplitPoint, DigitsValue;
  }

  lemma StripSign(sign: string, body: string)
    ensures |sign| == 1 ==> (sign + body)[0] == sign[0] && (sign + body)[1..] == body
    ensures sign == "" ==> sign + body == body
  {
  }

  class Dec {
    var unscaled: int
    var scale: int

    ghost function Value(): real
      reads this
    {
      Val(unscaled, -scale)
    }

    constructor (unscaled: int, scale: int)
      ensures this.unscaled == unscaled && this.scale == scale
    {
      this.unscaled, this.scale := unscaled, scale;
    }

    method SetString(s: string) returns (ok: bool)
      modifies this
      ensures ok == ReadDec(s).2
      ensures ok ==> (unscaled, scale) == (ReadDec(s).0, ReadDec(s).1)
    {
      var r := ReadDec(s);
      ok := r.2;
      if ok {
        unscaled, scale := r.0, r.1;
      }
    }

    method Set(x: Dec)
      modifies this
      ensures unscaled == old(x.unscaled) && scale == old(x.scale)
    {
      unscaled, scale := x.unscaled, x.scale;
    }

    method Neg(x: Dec)
      modifies this
      ensures Value() == -old(x.Value()) && scale == old(x.scale)
    {
      ValLinear(x.unscaled, 0, -x.scale);
      unscaled, scale := -x.unscaled, x.scale;
    }

    method Add(x: Dec, y: Dec)
      modifies this
      ensures Value() == old(x.Value()) + old(y.Value())
      ensures scale == old(if x.scale >= y.scale then x.scale else y.scale)
    {
      var s := if x.scale >= y.scale then x.scale else y.scale;
      Rescale(x.unscaled, -x.scale, s - x.scale);
      Rescale(y.unscaled, -y.scale, s - y.scale);
      var a, b := x.unscaled * Pow(10, s - x.scale), y.unscaled * Pow(10, s - y.scale);
      ValLinear(a, b, -s);
      unscaled, scale := a + b, s;
    }

    method Sub(x: Dec, y: Dec)
      modifies this
      ensures Value() == old(x.Value()) - old(y.Value())
      ensures scale == old(if x.scale >= y.scale then x.scale else y.scale)
    {
      var s := if x.scale >= y.scale then x.scale else y.scale;
      Rescale(x.unscaled, -x.scale, s - x.scale);
      Rescale(y.unscaled, -y.scale, s - y.scale);
      var a, b := x.unscaled * Pow(10, s - x.scale), y.unscaled * Pow(10, s - y.scale);
      ValLinear(a, b, -s);
      unscaled, scale := a - b, s;
    }

    method Cmp(y: Dec) returns (c: int)
      ensures c == Sgn(Value() - y.Value())
    {
      var s := if scale >= y.scale then scale else y.scale;
      Rescale(unscaled, -scale, s - scale);
      Rescale(y.unscaled, -y.scale, s - y.scale);
      var a, b := unscaled * Pow(10, s - scale), y.unscaled * Pow(10, s - y.scale);
      ValOrder(a, b, -s);
      c := if a < b then -1 else if a > b then 1 else 0;
    }

    function Sign(): (c: int)
      reads this
      ensures c == Sgn(Value())
      ensures c == 0 <==> unscaled == 0
    {
      ValOrder(unscaled, 0, -scale);
      ValLinear(0, 0, -scale);
      if unscaled < 0 then -1 else if unscaled > 0 then 1 else 0
    }

    /** Rounding mode `RoundUp`: to exactly `s` digits after the point, away from zero. */
    method Round(x: Dec, s: int)
      modifies this
      ensures scale == s && Value() == RoundUp(old(x.Value()), -s)
    {
      RoundAwayVal(x.unscaled, -x.scale, -s);
      if s >= x.scale {
        unscaled := x.unscaled * Pow(10, s - x.scale);
      } else {
        unscaled := AwayDiv(x.unscaled, Pow(10, x.scale - s));
      }
      scale := s;
    }
  }
}
