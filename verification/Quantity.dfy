/**
 The quantity object (`resource/quantity.go`): a number in one of two representations, a format,
 and a cached string. Go passes quantities by value, so a method that is handed another quantity
 starts by copying the struct; the copy still points to the same decimal.
 */
module Quantities {
  import opened Powers
  import opened Rounding
  import opened Int64Math
  import opened Digits
  import opened Suffix
  import opened Grammar
  import opened Decimal
  import opened Canonical
  import opened RoundTrip
  import opened Amount

  datatype CanonicalValue = OfInt64(i: Int64Amount) | OfDec(d: InfDecAmount)

  class Quantity {
    var i: Int64Amount
    var d: Dec?
    var s: string
    var format: Format

    ghost function Value(): real
      reads this`i, this`d, d
    {
      if d != null then d.Value() else i.Value()
    }

    /** The cached string, if there is one, still means the current value. */
    ghost predicate Coherent()
      reads this`i, this`d, this`s, d
    {
      s == "" || Denotes(s, Value())
    }

    /** The cached string, if there is one, means or prints the current value. */
    ghost predicate Truthful()
      reads this`i, this`d, this`s, this`format, d
    {
      Coherent() || IsCanonicalText(s, Value(), format)
    }

    constructor (i: Int64Amount, d: Dec?, s: string, format: Format)
      ensures this.i == i && this.d == d && this.s == s && this.format == format
    {
      this.i, this.d, this.s, this.format := i, d, s, format;
    }

    /** Passing a quantity by value. */
    method Copy() returns (c: Quantity)
      ensures fresh(c) && c.i == i && c.d == d && c.s == s && c.format == format && c.Value() == Value()
    {
      c := new Quantity(i, d, s, format);
    }

    /** A copy that does not share its decimal. */
    method DeepCopy() returns (c: Quantity)
      ensures fresh(c) && (c.d != null ==> fresh(c.d))
      ensures c.i == i && c.s == s && c.format == format && (c.d == null <==> d == null)
      ensures d != null ==> c.d.unscaled == d.unscaled && c.d.scale == d.scale
      ensures c.Value() == Value()
    {
      c := Copy();
      if d != null {
        var tmp := new Dec(0, 0);
        tmp.Set(d);
        c.d := tmp;
      }
    }

    predicate IsZero(): (z: bool)
      reads this`i, this`d, d
      ensures z <==> Value() == 0.0
    {
      ValLinear(0, 0, i.scale);
      ValOrder(i.value, 0, i.scale);
      if d != null then d.Sign() == 0 else i.value == 0
    }

    /** Changes the representation and nothing else. */
    method AsDec() returns (r: Dec)
      modifies this`i, this`d
      ensures d == r && (r == old(d) || (old(d) == null && fresh(r)))
      ensures Value() == old(Value())
      ensures (Coherent() <==> old(Coherent())) && (Truthful() <==> old(Truthful()))
    {
      hide Denotes, IsCanonicalText;
      if d == null {
        d := i.AsDec();
        i := Int64Amount(0, 0);
      }
      return d;
    }

    /** The true order; the receiver may change its representation. */
    method Cmp(y: Quantity) returns (r: int)
      modifies this`i, this`d
      ensures r == Sgn(old(Value()) - old(y.Value()))
      ensures Value() == old(Value())
      ensures (Coherent() <==> old(Coherent())) && (Truthful() <==> old(Truthful()))
      ensures d == old(d) || (old(d) == null && fresh(d))
    {
      hide Denotes, IsCanonicalText;
      if d == null && y.d == null {
        r := i.Cmp(y.i);
        return;
      }
      var copy := y.Copy();
      var a := AsDec();
      var b := copy.AsDec();
      r := a.Cmp(b);
    }

    method CmpInt64(y: int64) returns (r: int)
      ensures r == Sgn(Value() - Val(y, 0))
    {
      if d != null {
        var dec := new Dec(y, 0);
        r := d.Cmp(dec);
        return;
      }
      r := i.Cmp(Int64Amount(y, 0));
    }

    /** Exact in every mix of representations; a zero receiver takes over the format. */
    method Add(y: Quantity)
      modifies this, d
      ensures Value() == old(Value()) + old(y.Value())
      ensures s == ""
      ensures format == if old(Value()) == 0.0 then old(y.format) else old(format)
      ensures d == old(d) || (old(d) == null && fresh(d))
    {
      hide Val, IsZero, Coherent, Truthful, Int64Amount.AddFits;
      ghost var value, summand := Value(), y.Value();
      var copy := y.Copy();
      s := "";
      var zero := IsZero();
      if zero {
        format := copy.format;
      }
      var done := false;
      if d == null && copy.d == null {
        i, done := i.Add(copy.i);
      }
      if !done {
        assert Value() == value && copy.Value() == summand;
        var x := AsDec();
        var z := copy.AsDec();
        assert x.Value() == value && z.Value() == summand;
        x.Add(x, z);
      }
    }

    /** The int64 path negates `y`, which is not possible for the smallest int64. */
    ghost predicate SubWraps(y: Quantity)
      reads this`i, this`d, y`i, y`d
    {
      d == null && y.d == null && i.SubWraps(y.i)
    }

    /** Exact unless the negation of `y` wraps; then `y` is added instead. */
    method Sub(y: Quantity)
      modifies this, d
      ensures !old(SubWraps(y)) ==> Value() == old(Value()) - old(y.Value())
      ensures old(SubWraps(y)) ==> Value() == old(Value()) + old(y.Value()) && old(y.Value()) < 0.0
      ensures s == ""
      ensures format == if old(Value()) == 0.0 then old(y.format) else old(format)
      ensures d == old(d) || (old(d) == null && fresh(d))
    {
      hide Val, IsZero, Coherent, Truthful, Int64Amount.SubWraps, Int64Amount.AddFits;
      ghost var value, subtrahend := Value(), y.Value();
      var copy := y.Copy();
      s := "";
      var zero := IsZero();
      if zero {
        format := copy.format;
      }
      var done := false;
      if d == null && copy.d == null {
        i, done := i.Sub(copy.i);
      }
      assert old(SubWraps(y)) ==> done && subtrahend < 0.0;
      if !done {
        assert Value() == value && copy.Value() == subtrahend;
        var x := AsDec();
        var z := copy.AsDec();
        assert x.Value() == value && z.Value() == subtrahend;
        x.Sub(x, z);
      }
    }

    method Neg()
      modifies this`s, this`i, d
      ensures Value() == if old(d == null && i.value == MIN_INT64) then old(Value()) else -old(Value())
      ensures s == ""
    {
      ValLinear(i.value, 0, i.scale);
      hide Val, Wrap, Int64Neg;
      s := "";
      if d == null {
        i := Int64Amount(Int64Neg(i.value), i.scale);
        return;
      }
      d.Neg(d);
    }

    /** Rounds away from zero to a multiple of 10^scale. */
    method RoundUp(scale: int) returns (exact: bool)
      modifies this`s, this`i, this`d
      ensures Value() == Rounding.RoundUp(old(Value()), scale)
      ensures exact <==> Value() == old(Value())
      ensures s == "" || (s == old(s) && exact)
      ensures old(Truthful()) ==> Truthful()
      ensures d == null || fresh(d)
    {
      hide Denotes, IsCanonicalText;
      if d != null {
        s := "";
        var r;
        r, exact := InfDecAmount(d).AsScale(scale);
        d := r.dec;
        return;
      }
      RoundAwayVal(i.value, i.scale, scale);
      if i.scale >= scale {
        return true;
      }
      s := "";
      var r;
      r, exact := i.AsScale(scale);
      i := r;
    }

    method SetScaled(value: int64, scale: int)
      modifies this`s, this`i, this`d
      ensures Value() == Val(value, scale) && s == "" && d == null && i == Int64Amount(value, scale)
    {
      s := "";
      d := null;
      i := Int64Amount(value, scale);
    }

    // ----- printing

    method AsScale(scale: int) returns (r: CanonicalValue, exact: bool)
      ensures d == null ==> r.OfInt64? && r.i.Value() == Rounding.RoundUp(Value(), scale)
      ensures d != null ==> r.OfDec? && fresh(r.d.dec) && r.d.dec.Value() == Rounding.RoundUp(Value(), scale)
      ensures exact <==> Value() == Rounding.RoundUp(Value(), scale)
    {
      if d != null {
        var a;
        a, exact := InfDecAmount(d).AsScale(scale);
        return OfDec(a), exact;
      }
      RoundAwayVal(i.value, i.scale, scale);
      var a;
      a, exact := i.AsScale(scale);
      return OfInt64(a), exact;
    }

    /** The one number whose binary form is not found. */
    ghost predicate IsSmallestBinary()
      reads this`i, this`d, this`format
    {
      d == null && i == Int64Amount(MIN_INT64, 0) && format == BinarySI
    }

    /** The canonical form, whichever representation the value has. */
    method CanonicalizeBytes() returns (number: string, suffix: string)
      ensures !IsSmallestBinary() ==> IsCanonical(number, suffix, Value(), format)
      ensures IsSmallestBinary() ==> number == RenderInt(MIN_INT64) && suffix == ""
    {
      var zero := IsZero();
      if zero {
        return "0", "";
      }
      hide Val, SuffixText, RenderInt, IsDecimalForm, IsBinaryText;
      var binary := false;
      var rounded := OfInt64(i);
      if format == BinarySI {
        var low := CmpInt64(-1024);
        var high := CmpInt64(1024);
        if !(low > 0 && high < 0) {
          rounded, binary := AsScale(0);
        }
        BinaryIsChosen(Value(), binary);
      }
      if binary {
        number, suffix := Base1024Text(rounded);
      } else {
        var exponent;
        number, exponent := AsCanonicalBytes();
        var shown := if format == BinarySI || format == DecimalSI then DecimalSI else DecimalExponent;
        suffix := SuffixText(10, exponent, shown);
        assert IsDecimalText(number, suffix, Value(), shown);
      }
    }

    method AsCanonicalBytes() returns (number: string, exponent: int)
      ensures Value() != 0.0 ==> AreDecimalDigits(number, exponent, Value())
    {
      ValLinear(0, 0, i.scale);
      if d != null {
        ValLinear(0, 0, -d.scale);
        number, exponent := InfDecAmount(d).AsCanonicalBytes();
      } else {
        number, exponent := i.AsCanonicalBytes();
      }
    }

    method Base1024Text(rounded: CanonicalValue) returns (number: string, suffix: string)
      requires rounded.OfInt64? <==> d == null
      requires Value() == if rounded.OfInt64? then rounded.i.Value() else rounded.d.dec.Value()
      requires Value() != 0.0 && IsIntegral(Value())
      ensures !(d == null && i == Int64Amount(MIN_INT64, 0)) ==> IsBinaryText(number, suffix, Value())
      ensures d == null && i == Int64Amount(MIN_INT64, 0) ==> number == RenderInt(MIN_INT64) && suffix == ""
    {
      assert SuffixText(2, 0, BinarySI) == "";
      SmallestIsUnscaled(i.value, i.scale);
      match rounded
      case OfInt64(a) =>
        number, suffix := Base1024Int64(a);
      case OfDec(a) =>
        ValLinear(0, 0, -a.dec.scale);
        IntegralIsRounded(Value());
        var k;
        number, k := a.AsCanonicalBase1024Bytes();
        suffix := SuffixText(2, 10 * k, BinarySI);
    }

    /** The cached string if there is one, else the canonical text. */
    ghost function ShownText(): string
      reads this`i, this`d, this`s, this`format, d
    {
      if s != "" then s
      else if IsSmallestBinary() then RenderInt(MIN_INT64)
      else CanonicalText(Value(), format)
    }

    /** Fills the cache; printing again gives the same text. */
    method String() returns (r: string)
      modifies this`s
      ensures r == s == ShownText() == old(ShownText()) != ""
      ensures old(s) == "" && !IsSmallestBinary() ==> IsCanonicalText(r, Value(), format)
      ensures Coherent() <==> if old(s) != "" then old(Coherent()) else IsSmallestBinary() || IsKept(Value(), format)
      ensures old(Truthful()) ==> Truthful()
    {
      hide Denotes, IsCanonical, IsCanonicalText, IsKept, CanonicalText, RenderInt, Val;
      if |s| == 0 {
        var number, suffix := CanonicalizeBytes();
        s := number + suffix;
        PrintedFacts(number, suffix, Value(), format, IsSmallestBinary());
      }
      return s;
    }
  }

  /** A truthful cache reads back unless the canonical text of the value does not. */
  lemma TruthfulIsCoherent(q: Quantity)
    requires q.Truthful() && IsKept(q.Value(), q.format)
    ensures q.Coherent()
  {
    if !q.Coherent() {
      CanonicalTextReadsBack(q.s, q.Value(), q.format);
    }
  }

  lemma PrintedFacts(number: string, suffix: string, x: real, format: Format, smallest: bool)
    requires !smallest ==> IsCanonical(number, suffix, x, format)
    requires smallest ==> number == RenderInt(MIN_INT64) && suffix == "" && x == Val(MIN_INT64, 0)
    ensures var text := number + suffix;
            && text != ""
            && (Denotes(text, x) <==> smallest || IsKept(x, format))
            && (smallest ==> text == RenderInt(MIN_INT64))
            && (!smallest ==> IsCanonicalText(text, x, format) && CanonicalText(x, format) == text)
  {
    hide Denotes, IsKept, CanonicalText, Val, Render, IsDecimalForm, IsBinaryForm, SuffixText, PrintFormat;
    if smallest {
      assert number + suffix == number;
      BareText(MIN_INT64, x);
    } else {
      CanonicalTextReadsBack(number + suffix, x, format);
      CanonicalTextIs(number + suffix, x, format);
    }
  }

  method Base1024Int64(a: Int64Amount) returns (number: string, suffix: string)
    requires a.Value() != 0.0 && IsIntegral(a.Value())
    ensures a.Value() != Val(MIN_INT64, 0) ==> IsBinaryText(number, suffix, a.Value())
    ensures a.Value() == Val(MIN_INT64, 0) ==> number == RenderInt(MIN_INT64) && suffix == ""
  {
    ValLinear(0, 0, a.scale);
    SmallestIsUnscaled(a.value, a.scale);
    assert SuffixText(2, 0, BinarySI) == "";
    IntegralIsRounded(a.Value());
    hide SuffixText, Val, RenderInt, IsBinaryForm;
    var k;
    number, k := a.AsCanonicalBase1024Bytes();
    suffix := SuffixText(2, 10 * k, BinarySI);
  }

  lemma IntegralIsRounded(x: real)
    requires IsIntegral(x)
    ensures Rounding.RoundUp(x, 0) == x
  {
    var n :| x == Val(n, 0);
    RoundAwayVal(n, 0, 0);
  }

  lemma BinaryIsChosen(x: real, binary: bool)
    requires binary <==> !(Sgn(x - Val(-1024, 0)) > 0 && Sgn(x - Val(1024, 0)) < 0) && x == Rounding.RoundUp(x, 0)
    ensures binary <==> PrintFormat(x, BinarySI) == BinarySI
    ensures binary ==> IsIntegral(x)
  {
    assert Val(1024, 0) == 1024.0 && Val(-1024, 0) == -1024.0;
    if IsIntegral(x) {
      var n :| x == Val(n, 0);
      RoundAwayVal(n, 0, 0);
    }
  }
}
