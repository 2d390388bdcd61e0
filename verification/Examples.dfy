/** The examples of the documentation in `resource/quantity.go`, and some of its tests. */
module Examples {
  import opened Wrappers
  import opened Powers
  import opened Rounding
  import opened Int64Math
  import opened Digits
  import opened Suffix
  import opened Grammar
  import opened Canonical
  import opened RoundTrip
  import opened Parser
  import opened ParsedText
  import opened Documented
  import opened CornerCases

  /** Parsing `input` gives the number `x`, printed as `text`. */
  ghost predicate Prints(input: string, x: real, format: Format, text: string) {
    Denote(input) == Ok(Denoted(x, format)) && !ReusesInput(input) && IsCanonicalText(text, x, format)
  }

  method Reprint(input: string, ghost x: real, ghost format: Format, ghost expected: string) returns (text: string)
    requires Prints(input, x, format, expected)
    ensures text == expected
  {
    CanonicalTextIs(expected, x, format);
    hide Denote, ReusesInput, IsCanonicalText, CanonicalText;
    var q := ParseQuantity(input);
    text := q.value.String();
  }

  // ----- values

  lemma NanosDiffer(n: int, k: int)
    ensures Nanos(n) <= Nanos(k) < Nanos(n) + 0.000000001 ==> k == n
    ensures Nanos(n) - 0.000000001 < Nanos(k) <= Nanos(n) ==> k == n
  {
  }

  /** A multiple of 10^-9 within the limit is held as it is. */
  lemma HeldExactly(l: Literal, x: real, n: int, format: Format)
    requires Reads(l, x, format) && x == Nanos(n) && -MOST <= x <= MOST
    requires format == BinarySI ==> !(-1.0 < x < 1.0)
    ensures Denote(l.Text()) == Ok(Denoted(x, format))
  {
    hide Denote, Literal.Text;
    var d := Denote(l.Text()).value;
    assert IsNanoAway(d.value, x);
    var k :| d.value == Nanos(k);
    NanosDiffer(n, k);
    hide Nanos;
  }

  lemma BinaryText(m: int, k: nat, number: string, suffix: string, text: string, x: real)
    requires m % 1024 != 0 && 1 <= k && RenderInt(m) == number && SuffixText(2, 10 * k, BinarySI) == suffix
    requires text == number + suffix && x == (m * Pow(1024, k)) as real
    ensures IsCanonicalText(text, x, BinarySI)
  {
    AtLeastOneUnit(m, k);
    assert x == Val(m * Pow(1024, k), 0);
    assert IsBinaryForm(m, k, x) && IsIntegral(x);
    hide RenderInt, SuffixText, Val, IsBinaryForm, IsIntegral, Pow;
    assert IsBinaryText(number, suffix, x);
    assert IsCanonical(number, suffix, x, BinarySI);
  }

  lemma DecimalText(m: int, e: int, number: string, suffix: string, text: string, x: real)
    requires m % 1000 != 0 && e % 3 == 0 && RenderInt(m) == number && SuffixText(10, e, DecimalSI) == suffix
    requires text == number + suffix && x == m as real * Ten(e)
    ensures IsCanonicalText(text, x, DecimalSI)
  {
    hide RenderInt, SuffixText, Ten, IsCanonicalText;
    assert IsDecimalForm(m, e, x);
    FormFacts(m, e, x);
    ValOrder(m, 0, e);
    ValLinear(0, 0, e);
    hide Val, IsDecimalForm;
    DecimalTextIsCanonical(m, e, x, suffix, DecimalSI);
  }

  lemma Numbers()
    ensures RenderInt(1500) == "1500" && RenderInt(1536) == "1536" && RenderInt(512) == "512" && RenderInt(1) == "1"
  {
    assert Render(1) == "1" && Render(15) == "15" && Render(150) == "150" && Render(1500) == "1500";
    assert Render(153) == "153" && Render(1536) == "1536";
    assert Render(5) == "5" && Render(51) == "51" && Render(512) == "512";
  }

  // ----- examples

  lemma OneAndAHalf()
    ensures Prints("1.5", 1.5, DecimalSI, "1500m")
  {
    OneAndAHalfIs();
    Numbers();
    TenToMinusThree();
    hide *;
    DecimalText(1500, -3, "1500", "m", "1500m", 1.5);
    ToPrint("1.5", 1.5, DecimalSI, "1500m");
  }

  lemma ToPrint(input: string, x: real, format: Format, text: string)
    requires Denote(input) == Ok(Denoted(x, format)) && !ReusesInput(input) && IsCanonicalText(text, x, format)
    ensures Prints(input, x, format, text)
  {
    hide Denote, ReusesInput, IsCanonicalText;
  }

  lemma TenToMinusThree()
    ensures 1.5 == 1500 as real * Ten(-3) && SuffixText(10, -3, DecimalSI) == "m"
  {
    assert Ten(-3) == 0.001;
  }

  lemma FifteenTenths(suffix: string, x: real, factor: real)
    requires x == 1.5 * factor
    ensures AllDigits("15") && IsTimes(x, Literal("", "1", true, "5", suffix), factor)
  {
    Digits15();
    assert "1" + "5" == "15" && Pow(10, 1) == 10;
    hide DigitsValue, Pow, AllDigits;
  }

  lemma OneAndAHalfIs()
    ensures Denote("1.5") == Ok(Denoted(1.5, DecimalSI)) && !ReusesInput("1.5")
  {
    assert Nanos(1500000000) == 1.5 && -MOST <= 1.5 <= MOST && DECIMAL_NAMES[3] == "";
    hide *;
    var l := Literal("", "1", true, "5", "");
    assert "1" + "5" == "15";
    TenZero();
    FifteenTenths("", 1.5, Ten(0));
    PointText("", "1.5");
    UnitOfName(3);
    DecimalIsRead(l, 3, 1.5);
    HeldExactly(l, 1.5, 1500000000, DecimalSI);
    DecimalIsKept(l, 0, DecimalSI);
  }

  lemma Thousands()
    ensures Pow(1024, 1) == 1024 && Pow(1024, 2) == 1048576 && Pow(1024, 3) == 1073741824
    ensures SuffixText(2, 20, BinarySI) == "Mi" && SuffixText(2, 10, BinarySI) == "Ki"
  {
  }

  lemma OneAndAHalfGi()
    ensures Prints("1.5Gi", 1610612736.0, BinarySI, "1536Mi")
  {
    OneAndAHalfGiIs();
    Numbers();
    Thousands();
    hide *;
    BinaryText(1536, 2, "1536", "Mi", "1536Mi", 1610612736.0);
    ToPrint("1.5Gi", 1610612736.0, BinarySI, "1536Mi");
  }

  lemma OneAndAHalfGiIs()
    ensures Denote("1.5Gi") == Ok(Denoted(1610612736.0, BinarySI)) && !ReusesInput("1.5Gi")
  {
    assert Nanos(1610612736000000000) == 1610612736.0 && -MOST <= 1610612736.0 <= MOST && BINARY_NAMES[2] == "Gi";
    hide *;
    var l := Literal("", "1", true, "5", "Gi");
    assert "1" + "5" == "15";
    Thousands();
    FifteenTenths("Gi", 1610612736.0, Pow(1024, 3) as real);
    PointText("Gi", "1.5Gi");
    BinaryIsRead(l, 2, 1610612736.0);
    HeldExactly(l, 1610612736.0, 1610612736000000000, BinarySI);
    BinaryIsKept(l, 2);
  }

  lemma HalfMi()
    ensures Prints("0.5Mi", 524288.0, BinarySI, "512Ki")
  {
    HalfMiIs();
    Numbers();
    Thousands();
    hide *;
    BinaryText(512, 1, "512", "Ki", "512Ki", 524288.0);
    ToPrint("0.5Mi", 524288.0, BinarySI, "512Ki");
  }

  lemma PartText(digit: string, suffix: string, text: string)
    requires text == "0." + (digit + suffix) && |digit| == 1 && IsDigit(digit[0])
    ensures var l := Literal("", "0", true, digit, suffix);
            l.NumberValid() && l.Text() == text && l.digits + l.fraction == "0" + digit != ""
  {
    assert Literal("", "0", true, digit, suffix).Tail() == "." + digit + suffix;
  }

  lemma Tenths(digit: string, n: nat, suffix: string, x: real, factor: real)
    requires |digit| == 1 && IsDigit(digit[0]) && n == (digit[0] - '0') as nat
    requires 10.0 * x == n as real * factor
    ensures AllDigits("0" + digit) && IsTimes(x, Literal("", "0", true, digit, suffix), factor)
  {
    NextDigit("", "0", 0);
    NextDigit("0", "0" + digit, 0);
    assert Pow(10, 1) == 10;
    hide DigitsValue, Pow, AllDigits;
  }

  lemma HalfMiIs()
    ensures Denote("0.5Mi") == Ok(Denoted(524288.0, BinarySI)) && !ReusesInput("0.5Mi")
  {
    assert Nanos(524288000000000) == 524288.0 && -MOST <= 524288.0 <= MOST && BINARY_NAMES[1] == "Mi";
    assert IsDigit("5"[0]) && "0." + ("5" + "Mi") == "0.5Mi";
    hide *;
    var l := Literal("", "0", true, "5", "Mi");
    Thousands();
    Tenths("5", 5, "Mi", 524288.0, Pow(1024, 2) as real);
    PartText("5", "Mi", "0.5Mi");
    BinaryIsRead(l, 1, 524288.0);
    HeldExactly(l, 524288.0, 524288000000000, BinarySI);
    BinaryIsKept(l, 1);
  }

  /** Numbers finer than nano are rounded away from zero. */
  lemma AlmostOneNano()
    ensures Prints("0.9n", 0.000000001, DecimalSI, "1n")
  {
    hide *;
    AlmostOneNanoIs();
    Numbers();
    TenToMinusNine();
    NanoName();
    assert 0.000000001 == 1 as real * Ten(-9);
    DecimalText(1, -9, "1", "n", "1n", 0.000000001);
    ToPrint("0.9n", 0.000000001, DecimalSI, "1n");
  }

  lemma NanoName()
    ensures SuffixText(10, -9, DecimalSI) == "n"
  {
  }

  lemma NanoAbove(l: Literal, x: real)
    requires Reads(l, x, DecimalSI) && 0.0 < x <= 0.000000001
    ensures Denote(l.Text()) == Ok(Denoted(0.000000001, DecimalSI))
  {
    hide Denote, Literal.Text;
    var d := Denote(l.Text()).value;
    assert IsNanoAway(d.value, x);
    var k :| d.value == Nanos(k);
    assert Nanos(k) > 0.0 ==> k >= 1;
    assert Nanos(k) < 0.000000002 ==> k < 2;
  }

  lemma AlmostOneNanoIs()
    ensures Denote("0.9n") == Ok(Denoted(0.000000001, DecimalSI)) && !ReusesInput("0.9n")
  {
    assert IsDigit("9"[0]) && "0." + ("9" + "n") == "0.9n" && DECIMAL_NAMES[0] == "n";
    hide *;
    var l := Literal("", "0", true, "9", "n");
    TenToMinusNine();
    Tenths("9", 9, "n", 0.0000000009, Ten(-9));
    PartText("9", "n", "0.9n");
    UnitOfName(0);
    DecimalIsRead(l, 0, 0.0000000009);
    NanoAbove(l, 0.0000000009);
    DecimalIsKept(l, -9, DecimalSI);
  }

  /** What the documented examples print as. */
  method Reprinted() returns (r: seq<string>)
    ensures r == ["1500m", "1536Mi", "512Ki", "1n"]
  {
    OneAndAHalf();
    OneAndAHalfGi();
    HalfMi();
    AlmostOneNano();
    hide *;
    var a := Reprint("1.5", 1.5, DecimalSI, "1500m");
    var b := Reprint("1.5Gi", 1610612736.0, BinarySI, "1536Mi");
    var c := Reprint("0.5Mi", 524288.0, BinarySI, "512Ki");
    var d := Reprint("0.9n", 0.000000001, DecimalSI, "1n");
    return [a, b, c, d];
  }

  /** A round thousand in the three formats and in no format, and 1024. */
  lemma Thousand()
    ensures IsCanonicalText("1k", 1000.0, DecimalSI) && IsCanonicalText("1k", 1000.0, BinarySI)
    ensures IsCanonicalText("1e3", 1000.0, DecimalExponent) && IsCanonicalText("1e3", 1000.0, OtherFormat)
    ensures IsCanonicalText("1Ki", 1024.0, BinarySI)
  {
    Numbers();
    Thousands();
    ThousandForm();
    hide *;
    DecimalText(1, 3, "1", "k", "1k", 1000.0);
    DecimalTextIsCanonical(1, 3, 1000.0, "e3", DecimalExponent);
    assert "1" + "e3" == "1e3";
    BinaryText(1, 1, "1", "Ki", "1Ki", 1024.0);
    BinaryTextIs("1k", 1000.0);
    NoFormatIsExponent("1e3", 1000.0);
  }

  lemma NoFormatIsExponent(text: string, x: real)
    ensures IsCanonicalText(text, x, OtherFormat) <==> IsCanonicalText(text, x, DecimalExponent)
  {
    hide IsDecimalText;
  }

  lemma ThousandForm()
    ensures 1000.0 == 1 as real * Ten(3) && IsDecimalForm(1, 3, 1000.0)
    ensures SuffixText(10, 3, DecimalSI) == "k" && SuffixText(10, 3, DecimalExponent) == "e3"
  {
    assert Ten(3) == 1000.0;
    assert RenderInt(3) == "3";
  }

  // ----- the limit

  lemma NineExaIsLimited()
    ensures Denote("9Ei") == Ok(Denoted(MOST, BinarySI))
  {
    assert BINARY_NAMES[5] == "Ei" && "9" + "" == "9" && IsDigit("9"[0]);
    var l, x := Literal("", "9", false, "", "Ei"), 10376293541461622784.0;
    assert l.NumberValid() && l.Text() == "9Ei" && l.digits + l.fraction == "9" by {
      assert l.Tail() == "" + "Ei" == "Ei";
    }
    NextDigit("", "9", 0);
    SixThousands();
    assert IsTimes(x, l, Pow(1024, 6) as real);
    hide Denote, Interpret, Pow, DigitsValue, Literal.Text, AllDigits, IsTimes;
    BinaryIsRead(l, 5, x);
  }

  lemma SixThousands()
    ensures Pow(1024, 6) == 1152921504606846976
  {
    Thousands();
    PowAdd(1024, 3, 3);
  }

  /** A decimal unit is not limited, against what the documentation says. */
  lemma TwelveExaIsNot()
    ensures Denote("12E") == Ok(Denoted(12000000000000000000.0, DecimalSI)) && 12000000000000000000.0 > MOST
  {
    assert RenderInt(12) == "12" && "12" + "E" == "12E";
    var unit := Interpretation(BePair(10, 18), DecimalSI);
    assert Interpret("E") == Some(unit);
    PowersOfTen();
    RoundAwayVal(12, 18, NANO);
    Rescale(12, 18, 18);
    assert Meaning(true, 12, 0, unit) == Denoted(Val(12, 18), DecimalSI);
    assert Val(12 * Pow(10, 18), 0) == 12000000000000000000.0;
    hide *;
    PrintedMeaning(12, "E");
  }
}
