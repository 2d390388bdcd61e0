/** Concrete inputs at which the code does not do what its documentation says or a reader expects. */
module CornerCases {
  import opened Wrappers
  import opened Powers
  import opened Rounding
  import opened Int64Math
  import opened Digits
  import opened Suffix
  import opened Grammar
  import opened Canonical
  import opened RoundTrip
  import opened Amount
  import opened Quantities
  import opened Parser
  import opened ParsedText
  import opened Marshalling
  import opened ScaleInt

  // ----- exponents that do not fit an int32

  lemma NextDigit(a: string, s: string, n: nat)
    requires AllDigits(a) && DigitsValue(a) == n
    requires |s| == |a| + 1 && s[..|a|] == a && IsDigit(s[|a|])
    ensures AllDigits(s) && DigitsValue(s) == 10 * n + (s[|a|] - '0') as nat
  {
    assert s[..|s| - 1] == a;
  }

  lemma Digits15()
    ensures AllDigits("1") && DigitsValue("1") == 1 && AllDigits("15") && DigitsValue("15") == 15
  {
    NextDigit("", "1", 0);
    NextDigit("1", "15", 1);
  }

  lemma TwoToThe31()
    ensures AllDigits("2147483648") && DigitsValue("2147483648") == 2147483648
  {
    assert DigitsValue("") == 0;
    hide DigitsValue, AllDigits;
    NextDigit("", "2", 0);
    NextDigit("2", "21", 2);
    NextDigit("21", "214", 21);
    NextDigit("214", "2147", 214);
    NextDigit("2147", "21474", 2147);
    NextDigit("21474", "214748", 21474);
    NextDigit("214748", "2147483", 214748);
    NextDigit("2147483", "21474836", 2147483);
    NextDigit("21474836", "214748364", 21474836);
    NextDigit("214748364", "2147483648", 214748364);
  }

  lemma TwoToThe32()
    ensures AllDigits("4294967296") && DigitsValue("4294967296") == 4294967296
  {
    assert DigitsValue("") == 0;
    hide DigitsValue, AllDigits;
    NextDigit("", "4", 0);
    NextDigit("4", "42", 4);
    NextDigit("42", "429", 42);
    NextDigit("429", "4294", 429);
    NextDigit("4294", "42949", 4294);
    NextDigit("42949", "429496", 42949);
    NextDigit("429496", "4294967", 429496);
    NextDigit("4294967", "42949672", 4294967);
    NextDigit("42949672", "429496729", 42949672);
    NextDigit("429496729", "4294967296", 429496729);
  }

  lemma ExponentUnit(sign: string, digits: string, s: string)
    requires (sign == "" || sign == "-") && AllDigits(digits) && digits != "" && s == "e" + (sign + digits)
    requires var v: int := if sign == "-" then -(DigitsValue(digits) as int) else DigitsValue(digits); IsInt64(v)
    ensures var v: int := if sign == "-" then -(DigitsValue(digits) as int) else DigitsValue(digits);
            Interpret(s) == Some(Interpretation(BePair(10, Wrap32(v)), DecimalExponent))
  {
    var number := Literal(sign, digits, false, "", "");
    assert number.Tail() == "" && number.Text() == sign + digits;
    hide Interpret, DigitsValue, AllDigits, Literal.Text, Literal.Tail, Wrap32;
    assert IsDecimalExponent(s, number);
    ExponentIsAccepted(s, number);
  }

  lemma ExponentMeaning(l: Literal, v: int, e: int)
    requires l.NumberValid() && l.sign == "" && l.digits + l.fraction != ""
    requires Interpret(l.suffix) == Some(Interpretation(BePair(10, v), DecimalExponent))
    requires e == -Wrap32(|l.fraction| - v) && e >= NANO
    ensures AllDigits(l.digits + l.fraction)
    ensures Denote(l.Text()) == Ok(Denoted(Val(DigitsValue(l.digits + l.fraction), e), DecimalExponent))
  {
    hide Interpret, Denote, DigitsValue, Literal.Text, Wrap32;
    LiteralMeaning(l);
    RoundAwayVal(DigitsValue(l.digits + l.fraction), e, NANO);
    hide Val, RoundAway;
  }

  lemma PlusTwoToThe32()
    ensures Interpret("e4294967296") == Some(Interpretation(BePair(10, 0), DecimalExponent))
  {
    TwoToThe32();
    assert Wrap32(4294967296) == 0;
    assert "e4294967296" == "e" + ("" + "4294967296");
    hide DigitsValue, Interpret, Wrap32, AllDigits;
    ExponentUnit("", "4294967296", "e4294967296");
  }

  lemma MinusTwoToThe31()
    ensures Interpret("e-2147483648") == Some(Interpretation(BePair(10, -2147483648), DecimalExponent))
  {
    TwoToThe31();
    assert Wrap32(-2147483648) == -2147483648;
    assert "e-2147483648" == "e" + ("-" + "2147483648");
    hide DigitsValue, Interpret, Wrap32, AllDigits;
    ExponentUnit("-", "2147483648", "e-2147483648");
  }

  lemma WholeText(suffix: string, text: string)
    requires text == "1" + suffix
    ensures var l := Literal("", "1", false, "", suffix);
            l.NumberValid() && l.Text() == text && l.digits + l.fraction == "1"
  {
    assert Literal("", "1", false, "", suffix).Tail() == "" + suffix == suffix;
  }

  lemma PointText(suffix: string, text: string)
    requires text == "1.5" + suffix
    ensures var l := Literal("", "1", true, "5", suffix);
            l.NumberValid() && l.Text() == text && l.digits + l.fraction == "15"
  {
    assert Literal("", "1", true, "5", suffix).Tail() == "." + "5" + suffix;
  }

  lemma Wraps()
    ensures Wrap32(0) == 0 && Wrap32(2147483648) == -2147483648 && Wrap32(2147483649) == -2147483647
    ensures 0 >= NANO && 2147483647 >= NANO && 2147483648 >= NANO
  {
  }

  /** An exponent of 2^32 is none at all. */
  lemma ExponentIsCut()
    ensures Denote("1e4294967296") == Ok(Denoted(Val(1, 0), DecimalExponent))
  {
    hide *;
    Digits15();
    PlusTwoToThe32();
    WholeText("e4294967296", "1e4294967296");
    Wraps();
    ExponentMeaning(Literal("", "1", false, "", "e4294967296"), 0, 0);
  }

  /** A digit after the point takes the smallest exponent below an int32, to the other end. */
  lemma ScaleIsCut()
    ensures Denote("1.5e-2147483648") == Ok(Denoted(Val(15, 2147483647), DecimalExponent))
  {
    hide *;
    Digits15();
    MinusTwoToThe31();
    PointText("e-2147483648", "1.5e-2147483648");
    Wraps();
    ExponentMeaning(Literal("", "1", true, "5", "e-2147483648"), -2147483648, 2147483647);
  }

  /** The smallest exponent is its own negation as an int32. */
  lemma SmallestExponentIsLarge()
    ensures Denote("1e-2147483648") == Ok(Denoted(Val(1, 2147483648), DecimalExponent))
  {
    hide *;
    Digits15();
    MinusTwoToThe31();
    WholeText("e-2147483648", "1e-2147483648");
    Wraps();
    ExponentMeaning(Literal("", "1", false, "", "e-2147483648"), -2147483648, 2147483648);
  }

  // ----- the smallest int64

  /** Negating or subtracting -2^63 leaves -2^63. */
  method SmallestIsNotNegated() returns (negated: Quantity, subtracted: Quantity)
    ensures negated.Value() == Val(MIN_INT64, 0) && subtracted.Value() == Val(MIN_INT64, 0) && Val(MIN_INT64, 0) < 0.0
  {
    ValOrder(MIN_INT64, 0, 0);
    ValLinear(0, 0, 0);
    hide Val;
    negated := new Quantity(Int64Amount(MIN_INT64, 0), null, "", DecimalSI);
    var smallest := new Quantity(Int64Amount(MIN_INT64, 0), null, "", DecimalSI);
    subtracted := new Quantity(Int64Amount(0, 0), null, "", DecimalSI);
    assert subtracted.SubWraps(smallest);
    subtracted.Sub(smallest);
    negated.Neg();
  }

  // ----- conversion

  /** One decimal place is dropped from -(2^64 + 5): the low 64 bits give 1 instead of the ceiling. */
  method LowBitsAreScaled() returns (r: int64)
    ensures r == 1 && CeilQuotient(-0x1_0000_0000_0000_0005, 10) == -1844674407370955162
  {
    var unscaled := new BigInt(-0x1_0000_0000_0000_0005);
    r := ScaledValue(unscaled, 1, 0);
  }

  // ----- caches

  /** A null makes the quantity zero, and 5 is still what it prints. */
  method NullKeepsString() returns (q: Quantity)
    ensures q.Value() == 0.0 && q.s == "5" && !q.Coherent()
  {
    q := new Quantity(Int64Amount(5, 0), null, "5", DecimalSI);
    FiveIsNotZero();
    hide Denote, Val;
    var err := UnmarshalJSON(q, "null");
  }

  lemma FiveIsNotZero()
    ensures !Denotes("5", 0.0)
  {
    assert RenderInt(5) == "5" && Val(5, 0) == 5.0;
    hide Denote, Val;
    BareText(5, 0.0);
  }
}
