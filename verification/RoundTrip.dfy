/** When the canonical text of a value reads back as that value. */
module RoundTrip {
  import opened Wrappers
  import opened Powers
  import opened Rounding
  import opened Int64Math
  import opened Digits
  import opened Suffix
  import opened Grammar
  import opened Canonical

  // ----- reading an integer with a suffix

  function PrintedLiteral(m: int, suffix: string): Literal {
    Literal(if m < 0 then "-" else "", Render(Abs(m)), false, "", suffix)
  }

  lemma PrintedText(m: int, suffix: string)
    ensures PrintedLiteral(m, suffix).Text() == RenderInt(m) + suffix
    ensures PrintedLiteral(m, suffix).NumberValid()
  {
  }

  lemma PrintedMeaning(m: int, suffix: string)
    requires Interpret(suffix).Some?
    ensures var unit := Interpret(suffix).value;
            Denote(RenderInt(m) + suffix) == Ok(Meaning(m >= 0, Abs(m), 0, unit))
  {
    var l := PrintedLiteral(m, suffix);
    PrintedText(m, suffix);
    RenderReadsBack(Abs(m));
    assert l.digits + l.fraction == l.digits;
    hide Interpret, Denote, Meaning, Render, RenderInt, DigitsValue, Literal.Text;
    LiteralMeaning(l);
  }

  /** A suffix that the scanner passes and the table does not know. */
  lemma PrintedWithoutMeaning(m: int, suffix: string)
    requires HasSuffixShape(suffix) && PrintedLiteral(m, suffix).SuffixEndsNumber()
    requires Interpret(suffix).None?
    ensures Denote(RenderInt(m) + suffix).Err?
  {
    var l := PrintedLiteral(m, suffix);
    PrintedText(m, suffix);
    ScanText(l);
    hide Scan, Interpret, Meaning, HasSuffixShape, Render, RenderInt, Literal.Text;
  }

  // ----- decimal text

  /** A decimal form with an exponent below -9 is not a whole number of nano-units. */
  lemma FinerThanNano(m: int, e: int, x: real)
    requires IsDecimalForm(m, e, x)
    ensures x == RoundUp(x, NANO) <==> e >= NANO
  {
    RoundAwayVal(m, e, NANO);
    if e < NANO && x == RoundUp(x, NANO) {
      var n := RoundAway(x, NANO);
      LargerExponentNano(m, e, n);
    }
  }

  lemma LargerExponentNano(m: int, e: int, n: int)
    requires e < NANO && e % 3 == 0 && Val(n, NANO) == Val(m, e)
    ensures m % 1000 == 0
  {
    LargerExponent(n, NANO, m, e);
  }

  lemma RoundUpIsStable(x: real, s: int)
    ensures RoundUp(RoundUp(x, s), s) == RoundUp(x, s)
  {
    RoundAwayVal(RoundAway(x, s), s, s);
  }

  lemma ExponentMatters(m: int, e: int, f: int)
    requires m != 0 && f < e
    ensures Val(m, f) != Val(m, e)
  {
    Rescale(m, e, e - f);
    ValOrder(m, m * Pow(10, e - f), f);
    TenfoldDiffers(m, e - f);
  }

  lemma TenfoldDiffers(m: int, k: nat)
    requires m != 0 && k > 0
    ensures Abs(m * Pow(10, k)) > Abs(m)
  {
    PowGrows(10, 1, k);
    assert Pow(10, 1) == 10;
    MulCompareNat(10, Pow(10, k), Abs(m));
    AbsMul(m, Pow(10, k));
  }

  /** Reading the digits of a whole number with a smaller exponent gives another value. */
  lemma SmallerExponentDiffers(m: int, e: int, f: int)
    requires m != 0 && f < e && 0 <= e
    ensures RoundUp(Val(m, f), NANO) != Val(m, e)
  {
    RoundAwayVal(m, f, NANO);
    if f >= NANO {
      ExponentMatters(m, e, f);
    } else {
      var n := RoundAway(Val(m, f), NANO);
      AwayDivBounds(m, Pow(10, NANO - f));
      Rescale(m, e, e - NANO);
      TenfoldDiffers(m, e - NANO);
      ValOrder(n, m * Pow(10, e - NANO), NANO);
    }
  }

  /** Taking a decimal unit off is exact unless there are too many digits after the point for an int32. */
  lemma UnitIsExact(positive: bool, digits: nat, fraction: nat, unit: Interpretation)
    requires IsUnit(unit) && unit.format != BinarySI && digits > 0
    ensures var n: int := if positive then digits else -(digits as int);
            Exact(positive, digits, fraction, unit) == Val(n, unit.pair.exponent - fraction) <==>
            fraction - unit.pair.exponent <= 0x7fff_ffff
  {
    var n: int := if positive then digits else -(digits as int);
    var e, f := unit.pair.exponent - fraction, -Wrap32(fraction - unit.pair.exponent);
    if f < e {
      ExponentMatters(n, e, f);
    } else if e < f {
      ExponentMatters(n, f, e);
    }
    hide Val, Wrap32;
  }

  /** The exponents that a decimal text can carry: those with a name, or those of an int32, as all are in the code. */
  predicate IsPrintable(e: int, format: Format) {
    NANO <= e <= if format == DecimalSI then 18 else 0x7fff_ffff
  }

  lemma DecimalTextReadsBack(m: int, e: int, x: real, format: Format)
    requires IsDecimalForm(m, e, x) && (format == DecimalSI || format == DecimalExponent)
    ensures Denotes(RenderInt(m) + SuffixText(10, e, format), x) <==> IsPrintable(e, format)
  {
    NamedExponents(e, format);
    FormFacts(m, e, x);
    hide *;
    if ConstructBytes(10, e, format).None? {
      assert RenderInt(m) + "" == RenderInt(m);
      BareText(m, x);
    } else if format == DecimalExponent && !IsInt64(e) {
      HugeExponentText(m, e);
      ErrorDenotesNothing(RenderInt(m) + SuffixText(10, e, format), x);
    } else {
      NamedText(m, e, format, x);
      WrappedValue(m, e, x);
    }
  }

  lemma ErrorDenotesNothing(text: string, x: real)
    requires Denote(text).Err?
    ensures !Denotes(text, x)
  {
  }

  lemma FormFacts(m: int, e: int, x: real)
    requires IsDecimalForm(m, e, x)
    ensures m != 0 && x == Val(m, e) && e % 3 == 0
    ensures e != 0 ==> x != Val(m, 0)
  {
    ValOrder(m, 0, e);
    ValLinear(0, 0, e);
    if e > 0 { ExponentMatters(m, e, 0); } else if e < 0 { ExponentMatters(m, 0, e); }
  }

  lemma NamedExponents(e: int, format: Format)
    requires e % 3 == 0 && (format == DecimalSI || format == DecimalExponent)
    ensures ConstructBytes(10, e, format).None? ==>
              format == DecimalSI && e != 0 && !IsPrintable(e, format) && SuffixText(10, e, format) == ""
    ensures ConstructBytes(10, e, format).Some? ==>
              (IsPrintable(e, format) <==> NANO <= e <= 0x7fff_ffff)
    ensures !IsInt64(e) ==> !IsPrintable(e, format)
  {
  }

  /** What is left of the value once the exponent went through an int32. */
  lemma WrappedValue(m: int, e: int, x: real)
    requires IsDecimalForm(m, e, x)
    ensures RoundUp(Val(m, -Wrap32(-Wrap32(e))), NANO) == x <==> NANO <= e <= 0x7fff_ffff
  {
    FormFacts(m, e, x);
    FinerThanNano(m, e, x);
    var f := -Wrap32(-Wrap32(e));
    RoundUpIsStable(Val(m, f), NANO);
    if e > 0x7fff_ffff {
      SmallerExponentDiffers(m, e, f);
    }
    hide Val, RoundUp, IsDecimalForm;
  }

  lemma BareText(m: int, x: real)
    ensures Denotes(RenderInt(m), x) <==> x == Val(m, 0)
  {
    RoundAwayVal(m, 0, NANO);
    assert Interpret("") == Some(Interpretation(BePair(10, 0), DecimalSI));
    hide *;
    assert RenderInt(m) + "" == RenderInt(m);
    UnitText(m, "", BePair(10, 0), DecimalSI, x);
  }

  /** A text with a suffix stands for the digits times the unit read back from the suffix. */
  lemma NamedText(m: int, e: int, format: Format, x: real)
    requires format == DecimalSI || (format == DecimalExponent && IsInt64(e))
    requires ConstructBytes(10, e, format).Some?
    ensures Denotes(RenderInt(m) + SuffixText(10, e, format), x) <==>
            RoundUp(Val(m, -Wrap32(-Wrap32(e))), NANO) == x
  {
    hide Wrap32, RenderInt, Denote, Interpret, RoundUp, Val;
    ConstructedSuffixReadsBack(10, e, format);
    var s := SuffixText(10, e, format);
    assert s == ConstructBytes(10, e, format).value;
    hide *;
    UnitText(m, s, BePair(10, Wrap32(e)), Interpret(s).value.format, x);
  }

  lemma UnitText(m: int, suffix: string, pair: BePair, format: Format, x: real)
    requires Interpret(suffix) == Some(Interpretation(pair, format)) && format != BinarySI
    ensures Denotes(RenderInt(m) + suffix, x) <==> RoundUp(Val(m, -Wrap32(-pair.exponent)), NANO) == x
  {
    hide Interpret, Denote, RenderInt, RoundUp, Val;
    PrintedMeaning(m, suffix);
  }

  lemma HugeExponentText(m: int, e: int)
    requires !IsInt64(e)
    ensures Denote(RenderInt(m) + SuffixText(10, e, DecimalExponent)).Err?
  {
    var s := "e" + RenderInt(e);
    assert SuffixText(10, e, DecimalExponent) == s;
    ConstructedSuffixReadsBack(10, e, DecimalExponent);
    ExponentTextShape(m, e);
    hide *;
    PrintedWithoutMeaning(m, s);
  }

  lemma ExponentTextShape(m: int, e: int)
    ensures HasSuffixShape("e" + RenderInt(e))
    ensures PrintedLiteral(m, "e" + RenderInt(e)).SuffixEndsNumber()
  {
    var s := "e" + RenderInt(e);
    assert s[1..] == RenderInt(e) && s[1] == RenderInt(e)[0];
    RenderIntStart(e);
    RenderIntDigits(e);
    hide RenderInt, HasSuffixShape;
    ExponentHasSuffixShape(s);
  }

  lemma RenderIntDigits(e: int)
    ensures AllDigits(SplitSign(RenderInt(e)).1)
  {
  }

  // ----- binary text

  /** Powers of 1024 with a name, and of those only values that parsing does not limit. */
  ghost predicate IsBinaryPrintable(k: nat, x: real) {
    k == 0 || (k <= 6 && -Val(MAX_INT64, 0) <= x <= Val(MAX_INT64, 0))
  }

  lemma {:induction false} PowersOf1024(k: nat)
    ensures Pow(1024, k) == Pow(2, 10 * k)
  {
    if k > 0 {
      PowersOf1024(k - 1);
      PowAdd(2, 10, 10 * k - 10);
      assert Pow(2, 10) == 1024;
    }
  }

  lemma BinaryTextReadsBack(m: int, k: nat, x: real)
    requires IsBinaryForm(m, k, x)
    ensures Denotes(RenderInt(m) + SuffixText(2, 10 * k, BinarySI), x) <==> IsBinaryPrintable(k, x)
  {
    NamedPowers(k);
    BinaryFormFacts(m, k, x);
    if k == 0 || k > 6 {
      hide *;
      assert RenderInt(m) + "" == RenderInt(m);
      BareText(m, x);
    } else {
      PowersOf1024(k);
      ClampedOrNot(x);
      hide *;
      BinaryUnitText(m, 10 * k, x);
    }
  }

  lemma NamedPowers(k: nat)
    ensures 1 <= k <= 6 <==> ConstructBytes(2, 10 * k, BinarySI).Some?
    ensures k == 0 || k > 6 ==> SuffixText(2, 10 * k, BinarySI) == ""
    ensures k == 0 ==> forall x :: IsBinaryPrintable(k, x)
    ensures k > 6 ==> forall x :: !IsBinaryPrintable(k, x)
    ensures 1 <= k <= 6 ==> forall x :: IsBinaryPrintable(k, x) <==> -Val(MAX_INT64, 0) <= x <= Val(MAX_INT64, 0)
  {
  }

  lemma BinaryFormFacts(m: int, k: nat, x: real)
    requires IsBinaryForm(m, k, x)
    ensures x == Val(m * Pow(1024, k), 0)
    ensures x == Val(m, 0) <==> k == 0
  {
    ValOrder(m, m * Pow(1024, k), 0);
    if k > 0 {
      PowGrows(1024, 1, k);
      assert Pow(1024, 1) == 1024;
      MulCompareNat(1024, Pow(1024, k), Abs(m));
      AbsMul(m, Pow(1024, k));
    }
  }

  lemma ClampedOrNot(x: real)
    ensures Clamp(x) == x <==> -Val(MAX_INT64, 0) <= x <= Val(MAX_INT64, 0)
  {
  }

  lemma BinaryUnitText(m: int, e: int, x: real)
    requires ConstructBytes(2, e, BinarySI).Some? && e >= 0
    requires x == Val(m * Pow(2, e), 0)
    ensures Denotes(RenderInt(m) + SuffixText(2, e, BinarySI), x) <==> Clamp(x) == x
  {
    var s := SuffixText(2, e, BinarySI);
    ConstructedSuffixReadsBack(2, e, BinarySI);
    BinaryExponent(e);
    assert s == ConstructBytes(2, e, BinarySI).value;
    hide *;
    BinaryMeaning(m, Interpretation(BePair(2, e), BinarySI));
    PrintedMeaning(m, s);
    MeansValue(RenderInt(m) + s, x);
  }

  lemma MeansValue(text: string, x: real)
    requires Denote(text).Ok?
    ensures Denotes(text, x) <==> Denote(text).value.value == x
  {
  }

  lemma BinaryMeaning(m: int, unit: Interpretation)
    requires IsUnit(unit) && unit.format == BinarySI
    ensures Meaning(m >= 0, Abs(m), 0, unit).value == Clamp(Val(m * Pow(2, unit.pair.exponent), 0))
  {
    var n := m * Pow(2, unit.pair.exponent);
    RoundAwayVal(n, 0, NANO);
    hide Clamp, RoundUp, Val, Pow;
    assert Exact(m >= 0, Abs(m), 0, unit) == Val(n, 0);
  }

  lemma BinaryExponent(e: int)
    requires ConstructBytes(2, e, BinarySI).Some?
    ensures 0 <= e <= 60 && Wrap32(e) == e
  {
  }

  // ----- the theorem

  /** Whether the canonical text of a value keeps the value. */
  ghost predicate IsKept(x: real, format: Format) {
    || x == 0.0
    || (PrintFormat(x, format) == BinarySI && exists m: int, k: nat :: IsBinaryForm(m, k, x) && IsBinaryPrintable(k, x))
    || (PrintFormat(x, format) != BinarySI &&
        exists m: int, e: int :: IsDecimalForm(m, e, x) && IsPrintable(e, PrintFormat(x, format)))
  }

  lemma CanonicalTextReadsBack(text: string, x: real, format: Format)
    requires IsCanonicalText(text, x, format)
    ensures Denotes(text, x) <==> IsKept(x, format)
  {
    var number, suffix :| IsCanonical(number, suffix, x, format) && text == number + suffix;
    if x == 0.0 {
      BareText(0, x);
      assert text == "0" == RenderInt(0) && Val(0, 0) == 0.0;
    } else if PrintFormat(x, format) == BinarySI {
      var m, k: nat :| IsBinaryForm(m, k, x) && number == RenderInt(m) && suffix == SuffixText(2, 10 * k, BinarySI);
      BinaryTextReadsBack(m, k, x);
      forall n: int, l: nat | IsBinaryForm(n, l, x) ensures l == k {
        BinaryFormUnique(m, k, n, l, x);
      }
    } else {
      var g := PrintFormat(x, format);
      var m, e :| IsDecimalForm(m, e, x) && number == RenderInt(m) && suffix == SuffixText(10, e, g);
      DecimalTextReadsBack(m, e, x, g);
      forall n: int, f: int | IsDecimalForm(n, f, x) ensures f == e {
        DecimalFormUnique(m, e, n, f, x);
      }
    }
  }
}
