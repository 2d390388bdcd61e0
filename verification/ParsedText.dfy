/** What parsing guarantees about printing: when a parsed quantity survives, and what its cache holds. */
module ParsedText {
  import opened Wrappers
  import opened Powers
  import opened Rounding
  import opened Int64Math
  import opened Digits
  import opened Suffix
  import opened Grammar
  import opened Canonical
  import opened RoundTrip
  import opened Quantities
  import opened Parser

  // ----- every value has a canonical form

  lemma {:induction false} StripExists(u: int, base: nat) returns (m: int, k: nat)
    requires u != 0 && base > 1
    ensures IsStripped(u, base, m, k) && m != 0
    decreases Abs(u)
  {
    if u % base != 0 {
      m, k := u, 0;
      assert Pow(base, 0) == 1;
    } else {
      var q := DivMod(u, base);
      FactorOut(u, base, 0, q);
      var l;
      m, l := StripExists(q, base);
      k := l + 1;
      MulAssociate(m, Pow(base, l), base);
    }
  }

  lemma DecimalFormExists(u: int, e: int) returns (m: int, f: int)
    requires u != 0
    ensures IsDecimalForm(m, f, Val(u, e))
  {
    var n, k := StripExists(u, 10);
    StrippedDecimalForm(u, e, n, k);
    f := FloorThree(e + k);
    m := n * Pow(10, e + k - f);
  }

  lemma BinaryFormExists(n: int) returns (m: int, k: nat)
    requires n != 0
    ensures IsBinaryForm(m, k, Val(n, 0))
  {
    m, k := StripExists(n, 1024);
    StrippedBinaryForm(n, m, k);
  }

  lemma CanonicalTextExists(u: int, e: int, format: Format)
    ensures exists text :: IsCanonicalText(text, Val(u, e), format)
  {
    var x := Val(u, e);
    ValLinear(0, 0, e);
    var number, suffix := "0", "";
    if x != 0.0 {
      var f := PrintFormat(x, format);
      if f == BinarySI {
        var n :| x == Val(n, 0);
        ValLinear(0, 0, 0);
        var m, k := BinaryFormExists(n);
        number, suffix := RenderInt(m), SuffixText(2, 10 * k, BinarySI);
        assert IsBinaryText(number, suffix, x);
      } else {
        var m, g := DecimalFormExists(u, e);
        number, suffix := RenderInt(m), SuffixText(10, g, f);
        assert IsDecimalText(number, suffix, x, f);
      }
    }
    hide Val, RenderInt, SuffixText, PrintFormat;
    assert IsCanonical(number, suffix, x, format);
    assert IsCanonicalText(number + suffix, x, format);
  }

  /** The cache is right, or there is none and printing keeps the value. */
  ghost predicate Survives(q: Quantity)
    reads q, q.d
  {
    if q.s != "" then q.Coherent() else q.IsSmallestBinary() || IsKept(q.Value(), q.format)
  }

  lemma ShownTextReadsBack(q: Quantity)
    ensures Denotes(q.ShownText(), q.Value()) <==> Survives(q)
  {
    if q.s == "" {
      hide Denotes, IsKept, IsCanonicalText, Val;
      if q.IsSmallestBinary() {
        BareText(MIN_INT64, q.Value());
      } else {
        var u, e := if q.d != null then q.d.unscaled else q.i.value, if q.d != null then -q.d.scale else q.i.scale;
        CanonicalTextExists(u, e, q.format);
        CanonicalTextReadsBack(CanonicalText(q.Value(), q.format), q.Value(), q.format);
      }
    }
  }

  // ----- what a parsed value looks like

  lemma HeldIsNano(x: real, format: Format)
    ensures RoundUp(Held(x, format).value, NANO) == Held(x, format).value
    ensures format == BinarySI ==> -Val(MAX_INT64, 0) <= Held(x, format).value <= Val(MAX_INT64, 0)
  {
    RoundUpIsStable(x, NANO);
    RoundAwayVal(MAX_INT64, 0, NANO);
    RoundUpNegate(Val(MAX_INT64, 0), NANO);
    ValOrder(0, MAX_INT64, 0);
    ValLinear(0, 0, 0);
    hide RoundUp, Val;
  }

  /** The largest exponent that a decimal format can show. */
  function LargestExponent(format: Format): int {
    if format == DecimalSI then 18 else 0x7fff_ffff
  }

  lemma SmallExponent(m: int, e: int, x: real)
    requires IsDecimalForm(m, e, x) && -Val(MAX_INT64, 0) <= x <= Val(MAX_INT64, 0)
    ensures e <= 18
  {
    FormFacts(m, e, x);
    if e > 18 {
      Rescale(m, e, e);
      PowGrows(10, 19, e);
      PowAdd(10, 18, 1);
      assert Pow10Int64(18) == Pow(10, 18) && Pow(10, 1) == 10;
      MulCompareNat(1, Abs(m), Pow(10, e));
      AbsMul(m, Pow(10, e));
      ValLinear(MAX_INT64, 0, 0);
      ValOrder(m * Pow(10, e), MAX_INT64, 0);
      ValOrder(m * Pow(10, e), -MAX_INT64, 0);
    }
  }

  lemma FewPowers(m: int, k: nat, x: real)
    requires IsBinaryForm(m, k, x) && -Val(MAX_INT64, 0) <= x <= Val(MAX_INT64, 0)
    ensures k <= 6
  {
    if k > 6 {
      PowGrows(1024, 7, k);
      PowersOf1024(7);
      PowersOfTwo();
      PowAdd(2, 10, 60);
      MulCompareNat(1, Abs(m), Pow(1024, k));
      AbsMul(m, Pow(1024, k));
      ValLinear(MAX_INT64, 0, 0);
      ValOrder(m * Pow(1024, k), MAX_INT64, 0);
      ValOrder(m * Pow(1024, k), -MAX_INT64, 0);
    }
  }

  /** Binary quantities always survive; decimal ones unless their exponent is too large for the format. */
  lemma ParsedTextReadsBack(str: string, text: string)
    requires Denote(str).Ok?
    requires var d := Denote(str).value; IsCanonicalText(text, d.value, d.format)
    ensures var d := Denote(str).value;
            Denotes(text, d.value) <==>
            d.value == 0.0 || d.format == BinarySI ||
            exists m: int, e: int :: IsDecimalForm(m, e, d.value) && e <= LargestExponent(d.format)
  {
    var d := Denote(str).value;
    DenotedIsHeld(str);
    CanonicalTextReadsBack(text, d.value, d.format);
    HeldIsKept(d.value, d.format);
  }

  /** Printing a parsed quantity and parsing the text again. */
  lemma ParsedQuantityReadsBack(q: Quantity, str: string)
    requires IsParsed(q, str)
    ensures Denotes(q.ShownText(), q.Value()) <==>
            ReusesInput(str) || q.Value() == 0.0 || q.format == BinarySI ||
            exists m: int, e: int :: IsDecimalForm(m, e, q.Value()) && e <= LargestExponent(q.format)
  {
    assert str != "";
    DenotedIsHeld(str);
    ShownTextReadsBack(q);
    HeldIsKept(q.Value(), q.format);
    hide Denote, ReusesInput, Val, IsKept, RoundUp, LargestExponent;
  }

  lemma DenotedIsHeld(str: string)
    requires Denote(str).Ok?
    ensures var d := Denote(str).value;
            && RoundUp(d.value, NANO) == d.value && d.format != OtherFormat
            && (d.format == BinarySI ==> -Val(MAX_INT64, 0) <= d.value <= Val(MAX_INT64, 0))
  {
    ScannedDigits(str);
    var sc := Scan(str).value;
    var unit := Interpret(sc.suffix).value;
    var x := Exact(sc.positive, DigitsValue(sc.num + sc.denom), |sc.denom|, unit);
    assert Denote(str).value == Held(x, unit.format);
    hide Denote, Scan, Interpret, Exact, RoundUp, Clamp, Val;
    HeldIsNano(x, unit.format);
  }

  lemma HeldIsKept(x: real, format: Format)
    requires RoundUp(x, NANO) == x && format != OtherFormat
    requires format == BinarySI ==> -Val(MAX_INT64, 0) <= x <= Val(MAX_INT64, 0)
    ensures IsKept(x, format) <==>
            || x == 0.0 || format == BinarySI
            || exists m: int, e: int :: IsDecimalForm(m, e, x) && e <= LargestExponent(format)
  {
    if x != 0.0 {
      var n := RoundAway(x, NANO);
      ValLinear(0, 0, NANO);
      var m, e := DecimalFormExists(n, NANO);
      FinerThanNano(m, e, x);
      forall m', e' | IsDecimalForm(m', e', x) ensures e' == e {
        DecimalFormUnique(m, e, m', e', x);
      }
      if format == BinarySI {
        SmallExponent(m, e, x);
        if PrintFormat(x, format) == BinarySI {
          var w: int :| x == Val(w, 0);
          ValLinear(0, 0, 0);
          var b, k := BinaryFormExists(w);
          FewPowers(b, k, x);
        }
      }
    }
  }

  /** Parsing accepts units that printing cannot show: a thousand exa is printed as one. */
  lemma ThousandExaPrintsAsOne()
    ensures Denote("1000E") == Ok(Denoted(Val(1000, 18), DecimalSI))
    ensures IsCanonicalText("1", Val(1000, 18), DecimalSI)
    ensures Denotes("1", Val(1, 0)) && !Denotes("1", Val(1000, 18))
  {
    ThousandExa();
    OneWithoutUnit();
    FormFacts(1, 21, Val(1000, 18));
    assert RenderInt(1) == "1";
    hide *;
    BareText(1, Val(1, 0));
    BareText(1, Val(1000, 18));
  }

  lemma ThousandExa()
    ensures Denote("1000E") == Ok(Denoted(Val(1000, 18), DecimalSI))
  {
    assert Render(10) == "10" && Render(100) == "100" && Render(1000) == "1000";
    assert RenderInt(1000) + "E" == "1000E";
    var unit := Interpretation(BePair(10, 18), DecimalSI);
    assert Interpret("E") == Some(unit);
    RoundAwayVal(1000, 18, NANO);
    assert Meaning(true, 1000, 0, unit) == Denoted(Val(1000, 18), DecimalSI);
    hide *;
    PrintedMeaning(1000, "E");
  }

  lemma OneWithoutUnit()
    ensures IsDecimalForm(1, 21, Val(1000, 18))
    ensures IsCanonicalText("1", Val(1000, 18), DecimalSI)
  {
    assert Pow(10, 3) == 1000;
    Rescale(1, 21, 3);
    assert RenderInt(1) == "1" && SuffixText(10, 21, DecimalSI) == "";
    FormFacts(1, 21, Val(1000, 18));
    assert IsDecimalText("1", "", Val(1000, 18), DecimalSI);
    assert IsCanonical("1", "", Val(1000, 18), DecimalSI);
    assert "1" == "1" + "";
  }

  // ----- the string that parsing keeps

  /** No plus sign, no leading zeros and no point. */
  predicate IsPlainNumber(l: Literal) {
    && l.NumberValid() && l.sign != "+" && !l.point
    && l.digits != "" && (l.digits[0] != '0' || l.digits == "0")
  }

  /** A suffix spelled as printing spells it. */
  predicate IsPlainSuffix(suffix: string, unit: Interpretation) {
    && Interpret(suffix) == Some(unit)
    && ConstructBytes(unit.pair.base, unit.pair.exponent, unit.format) == Some(suffix)
  }

  function Signed(l: Literal): int
    requires AllDigits(l.digits)
  {
    if l.sign == "-" then -(DigitsValue(l.digits) as int) else DigitsValue(l.digits)
  }

  /** Whatever plain string a parse keeps is the canonical text of its value. */
  lemma ReusedInputIsCanonical(l: Literal, unit: Interpretation)
    requires IsPlainNumber(l) && IsPlainSuffix(l.suffix, unit)
    requires ReusesInput(l.Text())
    ensures Denote(l.Text()).Ok?
    ensures var d := Denote(l.Text()).value; IsCanonicalText(l.Text(), d.value, d.format)
  {
    if l.Text() == "0" {
      ZeroText();
    } else {
      PlainParse(l, unit);
      PlainSuffix(l.suffix, unit);
      StartsWithoutZero(l, unit, PlainScale(unit));
      PlainText(l);
      MantissaIs(unit);
      hide Denote, IsPlainSuffix, Literal.Text, LooksCanonical, Signed, Val, IsCanonicalText, ReusesInput;
      if unit.format == BinarySI {
        PlainBinary(l.digits, Signed(l), unit.pair.exponent, l.suffix);
      } else {
        PlainDecimal(l.digits, Signed(l), unit.pair.exponent, l.suffix, unit.format);
      }
    }
  }

  /** A string that parsing keeps is the canonical text of its value exactly if it is plain. */
  lemma ReusedInputIsPlain(l: Literal, unit: Interpretation)
    requires l.NumberValid() && Interpret(l.suffix) == Some(unit) && ReusesInput(l.Text())
    ensures Denote(l.Text()).Ok?
    ensures var d := Denote(l.Text()).value;
            IsCanonicalText(l.Text(), d.value, d.format) <==> IsPlainNumber(l) && IsPlainSuffix(l.suffix, unit)
  {
    ReusedIsRead(l.Text());
    assert Denotes(l.Text(), Denote(l.Text()).value.value);
    var d := Denote(l.Text()).value;
    hide Denote, IsPlainNumber, IsPlainSuffix, IsCanonicalText, ReusesInput, Literal.Text;
    if IsPlainNumber(l) && IsPlainSuffix(l.suffix, unit) {
      ReusedInputIsCanonical(l, unit);
    }
    if IsCanonicalText(l.Text(), d.value, d.format) {
      CanonicalIsPlain(l, unit, d.value, d.format);
    }
  }

  lemma ReusedIsRead(str: string)
    requires ReusesInput(str)
    ensures Denote(str).Ok?
  {
    if str == "0" {
      ZeroText();
    } else {
      var sc := Scan(str).value;
      var unit := Interpret(sc.suffix).value;
      assert str != "";
      hide *;
      FastParse(str, sc, unit);
    }
  }

  lemma CanonicalIsPlain(l: Literal, unit: Interpretation, x: real, format: Format)
    requires l.NumberValid() && Interpret(l.suffix) == Some(unit)
    requires IsCanonicalText(l.Text(), x, format) && Denotes(l.Text(), x)
    ensures IsPlainNumber(l) && IsPlainSuffix(l.suffix, unit)
  {
    hide IsCanonical, IsDecimalForm, DigitsValue, Render, Denotes, Interpret, SuffixText, HasSuffixShape;
    var number, suffix :| IsCanonical(number, suffix, x, format) && l.Text() == number + suffix;
    var m, base, e, f := CanonicalParts(number, suffix, x, format);
    UnitEndsNumber(l);
    SuffixTextEndsNumber(m, base, e, f);
    PrintedText(m, suffix);
    LiteralIsUnique(l, PrintedLiteral(m, suffix));
    RenderReadsBack(Abs(m));
    ZeroRenders();
    if f == DecimalExponent {
      DecimalTextReadsBack(m, e, x, f);
    }
    SuffixTextIsPlain(base, e, f, unit);
  }

  lemma ZeroRenders()
    ensures Render(0) == "0"
  {
  }

  /** What a canonical text is printed from; zero is printed without a suffix. */
  lemma CanonicalParts(number: string, suffix: string, x: real, format: Format)
    returns (m: int, base: int, e: int, f: Format)
    requires IsCanonical(number, suffix, x, format)
    ensures number == RenderInt(m) && suffix == SuffixText(base, e, f)
    ensures f != OtherFormat && (base == 10 || f == BinarySI)
    ensures f == DecimalExponent ==> base == 10 && IsDecimalForm(m, e, x)
  {
    if x == 0.0 {
      m, base, e, f := 0, 10, 0, DecimalSI;
    } else if PrintFormat(x, format) == BinarySI {
      var n, k: nat :| IsBinaryForm(n, k, x) && number == RenderInt(n) && suffix == SuffixText(2, 10 * k, BinarySI);
      m, base, e, f := n, 2, 10 * k, BinarySI;
    } else {
      f := PrintFormat(x, format);
      base := 10;
      m, e :| IsDecimalForm(m, e, x) && number == RenderInt(m) && suffix == SuffixText(10, e, f);
    }
  }

  lemma SuffixTextEndsNumber(m: int, base: int, e: int, f: Format)
    ensures PrintedLiteral(m, SuffixText(base, e, f)).SuffixEndsNumber()
  {
    hide RenderInt;
  }

  lemma SuffixTextIsPlain(base: int, e: int, f: Format, unit: Interpretation)
    requires f != OtherFormat && (base == 10 || f == BinarySI)
    requires Interpret(SuffixText(base, e, f)) == Some(unit)
    requires f == DecimalExponent ==> Wrap32(e) == e
    ensures IsPlainSuffix(SuffixText(base, e, f), unit)
  {
    hide RenderInt, Wrap32;
    if ConstructBytes(base, e, f).Some? {
      ConstructedSuffixReadsBack(base, e, f);
    }
  }

  /** A plus sign is kept, and does not belong into the canonical text. */
  lemma PlusSignIsKept()
    ensures ReusesInput("+5")
    ensures Denote("+5").Ok? && !IsCanonicalText("+5", Denote("+5").value.value, Denote("+5").value.format)
  {
    var l, unit := Literal("+", "5", false, "", ""), Interpretation(BePair(10, 0), DecimalSI);
    assert Interpret("") == Some(unit);
    PlusScan(l);
    FiveLooksCanonical(unit);
    NotPlain(l);
    hide *;
    ReuseCases("+5", Scanned(true, "+5", "5", "", ""), unit);
    ReusedInputIsPlain(l, unit);
  }

  lemma PlusScan(l: Literal)
    requires l == Literal("+", "5", false, "", "")
    ensures l.NumberValid() && l.Text() == "+5"
    ensures Scan("+5") == Some(Scanned(true, "+5", "5", "", ""))
  {
    assert Interpret("").Some?;
    assert l.Tail() == "" && l.Text() == "+5";
    UnitEndsNumber(l);
    PlainZeros("5");
    assert "5" + l.Tail() == "5" && "+5"[..2] == "+5";
    hide *;
    ScanSplits(l);
  }

  lemma FiveLooksCanonical(unit: Interpretation)
    requires unit == Interpretation(BePair(10, 0), DecimalSI)
    ensures var sc := Scanned(true, "+5", "5", "", "");
            && sc.num + sc.denom == "5" && AllDigits("5")
            && TakesFastPath(sc, unit) && LooksCanonical("5", unit, FastScale(sc, unit))
  {
    assert "5" + "" == "5";
  }

  lemma NotPlain(l: Literal)
    requires l.sign == "+"
    ensures !IsPlainNumber(l)
  {
  }

  lemma ZeroText()
    ensures Denote("0") == Ok(Denoted(0.0, DecimalSI))
    ensures IsCanonicalText("0", 0.0, DecimalSI)
  {
    ZeroMeans();
    assert Val(0, 0) == 0.0 && "0" + "" == "0";
    hide Denote;
    assert IsCanonical("0", "", 0.0, DecimalSI);
  }

  function PlainScale(unit: Interpretation): int {
    if unit.format == BinarySI then 0 else unit.pair.exponent
  }

  lemma PlainParse(l: Literal, unit: Interpretation)
    requires IsPlainNumber(l) && Interpret(l.suffix) == Some(unit)
    requires ReusesInput(l.Text()) && l.Text() != "0"
    ensures Denote(l.Text()) == Ok(Denoted(Val(Signed(l) * Mantissa(unit), PlainScale(unit)), unit.format))
    ensures LooksCanonical(l.digits, unit, PlainScale(unit))
  {
    hide *;
    PlainScan(l, unit);
    var sc := Scan(l.Text()).value;
    FastParse(l.Text(), sc, unit);
    SignedIs(l, Mantissa(unit));
    PlainScaleIs(sc, unit);
  }

  lemma PlainScaleIs(sc: Scanned, unit: Interpretation)
    requires sc.denom == "" && IsUnit(unit)
    ensures FastScale(sc, unit) == PlainScale(unit)
  {
  }

  lemma SignedIs(l: Literal, k: nat)
    requires IsPlainNumber(l)
    ensures AllDigits(l.digits)
    ensures Signed(l) * k == if l.sign == "-" then -(DigitsValue(l.digits) * k as int) else DigitsValue(l.digits) * k
  {
  }

  lemma StartsWithoutZero(l: Literal, unit: Interpretation, scale: int)
    requires IsPlainNumber(l) && LooksCanonical(l.digits, unit, scale)
    ensures l.digits[0] != '0'
  {
    if l.digits == "0" {
      ZerosAreZero("0");
    }
  }

  lemma PlainScan(l: Literal, unit: Interpretation)
    requires IsPlainNumber(l) && Interpret(l.suffix) == Some(unit)
    requires ReusesInput(l.Text()) && l.Text() != "0"
    ensures IsUnit(unit) && l.Text() != ""
    ensures Scan(l.Text()).Some?
    ensures var sc := Scan(l.Text()).value;
            && sc.positive == (l.sign != "-") && sc.suffix == l.suffix
            && sc.num + sc.denom == l.digits && sc.denom == "" && sc.num != ""
            && TakesFastPath(sc, unit) && LooksCanonical(l.digits, unit, FastScale(sc, unit))
  {
    UnitEndsNumber(l);
    ScanText(l);
    ScanSplits(l);
    PlainZeros(l.digits);
    var sc := Scan(l.Text()).value;
    assert sc.num + sc.denom == l.digits;
    hide *;
    ReuseCases(l.Text(), sc, unit);
  }

  lemma PlainZeros(digits: string)
    requires AllDigits(digits) && digits != "" && (digits[0] != '0' || digits == "0")
    ensures Split(digits, Zero).1 == if digits == "0" then "" else digits
  {
    assert digits + "" == digits && "" + digits == digits;
    if digits == "0" {
      SplitIs(digits, "", Zero);
    } else {
      SplitIs("", digits, Zero);
    }
  }

  lemma PlainText(l: Literal)
    requires IsPlainNumber(l) && l.digits[0] != '0'
    ensures l.Text() == RenderInt(Signed(l)) + l.suffix
    ensures Abs(Signed(l)) == DigitsValue(l.digits) > 0
  {
    RenderOfDigits(l.digits);
    DigitsBound(l.digits);
    hide DigitsValue, Render;
    assert l.Tail() == "" + l.suffix == l.suffix;
    assert RenderInt(Signed(l)) == l.sign + l.digits;
  }

  lemma PlainSuffix(suffix: string, unit: Interpretation)
    requires IsPlainSuffix(suffix, unit)
    ensures suffix == SuffixText(unit.pair.base, unit.pair.exponent, unit.format)
    ensures IsUnit(unit)
  {
    hide ConstructBytes;
  }

  lemma PlainDecimal(digits: string, m: int, e: int, suffix: string, format: Format)
    requires AllDigits(digits) && digits != "" && digits[0] != '0' && Abs(m) == DigitsValue(digits)
    requires e % 3 == 0 && !EndsWithThreeZeros(digits)
    requires (format == DecimalSI || format == DecimalExponent) && suffix == SuffixText(10, e, format)
    ensures IsCanonicalText(RenderInt(m) + suffix, Val(m, e), format)
  {
    PlainDecimalForm(digits, m, e);
    FormFacts(m, e, Val(m, e));
    hide DigitsValue, RenderInt, SuffixText, EndsWithThreeZeros, Val, IsDecimalForm, AllDigits;
    DecimalTextIsCanonical(m, e, Val(m, e), suffix, format);
  }

  lemma DecimalTextIsCanonical(m: int, e: int, x: real, suffix: string, format: Format)
    requires IsDecimalForm(m, e, x) && suffix == SuffixText(10, e, format) && x != 0.0
    requires format == DecimalSI || format == DecimalExponent
    ensures IsCanonicalText(RenderInt(m) + suffix, x, format)
  {
  }

  lemma PlainDecimalForm(digits: string, m: int, e: int)
    requires AllDigits(digits) && digits != "" && digits[0] != '0' && Abs(m) == DigitsValue(digits)
    requires e % 3 == 0 && !EndsWithThreeZeros(digits)
    ensures IsDecimalForm(m, e, Val(m, e))
  {
    NoThreeZeros(digits);
    DivNegate(DigitsValue(digits), 1000);
    hide DigitsValue, EndsWithThreeZeros, Val, AllDigits;
  }

  lemma NoThreeZeros(s: string)
    requires AllDigits(s) && s != "" && s[0] != '0' && !EndsWithThreeZeros(s)
    ensures DigitsValue(s) % 1000 != 0
  {
    DigitsBound(s);
    assert Pow(10, 1) == 10 && Pow(10, 2) == 100 && Pow(10, 3) == 1000;
    if |s| > 3 {
      var a, b := s[..|s| - 3], s[|s| - 3..];
      assert s == a + b;
      DigitsAppend(a, b);
      DigitsBound(b);
      if DigitsValue(b) == 0 {
        ZeroDigits(b);
      }
      DivUnique(DigitsValue(s), 1000, DigitsValue(a), DigitsValue(b));
    }
  }

  lemma {:induction false} ZeroDigits(b: string)
    requires AllDigits(b) && DigitsValue(b) == 0
    ensures forall i :: 0 <= i < |b| ==> b[i] == '0'
  {
    if b != "" {
      ZeroDigits(b[..|b| - 1]);
    }
  }

  lemma PlainBinary(digits: string, m: int, e: int, suffix: string)
    requires AllDigits(digits) && DigitsValue(digits) % 8 != 0 && Abs(m) == DigitsValue(digits)
    requires 10 <= e <= 60 && e % 10 == 0 && suffix == SuffixText(2, e, BinarySI)
    ensures IsCanonicalText(RenderInt(m) + suffix, Val(m * Pow(2, e), 0), BinarySI)
  {
    var k := e / 10;
    var x := Val(m * Pow(2, e), 0);
    PowersOf1024(k);
    OddEnough(DigitsValue(digits));
    DivNegate(DigitsValue(digits), 1024);
    assert IsBinaryForm(m, k, x);
    AtLeastOneUnit(m, k);
    assert IsIntegral(x);
    hide DigitsValue, RenderInt, SuffixText, Val, IsBinaryForm, IsIntegral;
    assert IsBinaryText(RenderInt(m), suffix, x);
    assert IsCanonical(RenderInt(m), suffix, x, BinarySI);
  }

  lemma OddEnough(n: nat)
    requires n % 8 != 0
    ensures n % 1024 != 0
  {
    if n % 1024 == 0 {
      var k := DivMod(n, 1024);
      DivUnique(n, 8, 128 * k, 0);
    }
  }

  lemma AtLeastOneUnit(m: int, k: nat)
    requires m != 0 && k >= 1
    ensures var x := Val(m * Pow(1024, k), 0); x != 0.0 && !(-1024.0 < x < 1024.0)
  {
    PowGrows(1024, 1, k);
    assert Pow(1024, 1) == 1024;
    MulAtLeast(Pow(1024, k), Abs(m));
    AbsMul(m, Pow(1024, k));
    assert Val(m * Pow(1024, k), 0) == (m * Pow(1024, k)) as real;
  }

  /** Parsing does not keep the string, so printing shows the canonical text. */
  lemma ThousandExaShowsAsOne(q: Quantity)
    requires IsParsed(q, "1000E")
    ensures q.Value() == Val(1000, 18) && q.ShownText() == "1"
  {
    ThousandExaPrintsAsOne();
    ThousandExaIsNotKept();
    CanonicalTextIs("1", Val(1000, 18), DecimalSI);
    hide Denote, Denotes, Val, IsCanonicalText, CanonicalText;
  }

  lemma ThousandExaIsNotKept()
    ensures !ReusesInput("1000E")
  {
    var l := Literal("", "1000", false, "", "E");
    var unit := Interpretation(BePair(10, 18), DecimalSI);
    assert l.Text() == "1000E";
    assert IsPlainNumber(l) && IsPlainSuffix("E", unit);
    ThousandExaPrintsAsOne();
    hide *;
    if ReusesInput("1000E") {
      ReusedInputIsCanonical(l, unit);
      CanonicalTextIs("1", Val(1000, 18), DecimalSI);
      CanonicalTextIs("1000E", Val(1000, 18), DecimalSI);
    }
  }
}
