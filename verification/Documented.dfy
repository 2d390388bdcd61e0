/**
 The parser's meaning in elementary terms: which number the digits, the point and each unit of the
 documentation stand for, how it is rounded and limited, and what the documented examples print.
 */
module Documented {
  import opened Wrappers
  import opened Powers
  import opened Rounding
  import opened Int64Math
  import opened Digits
  import opened Suffix
  import opened Grammar
  import opened RoundTrip
  import opened Parser
  import opened ParsedText

  // ----- the number that is written

  lemma MulAssociateReal(a: real, b: real, c: real)
    ensures (a * b) * c == a * (b * c)
  {
  }

  lemma Cancel(a: real, b: real, t: real)
    requires t > 0.0 && a * t == b * t
    ensures a == b
  {
    MulCompare(a, b, t);
  }

  lemma Tenfold(a: real, b: real, q: real)
    requires q == 10.0 * b
    ensures 10.0 * (a * b) == a * q
  {
  }

  lemma {:induction false} TenAdd(e: int, k: nat)
    ensures Ten(e + k) == Ten(e) * Ten(k)
    decreases k
  {
    hide Ten;
    if k == 0 {
      TenZero();
      MulOne(Ten(e));
    } else {
      TenAdd(e, k - 1);
      TenAddStep(e, k - 1);
    }
  }

  lemma TenZero()
    ensures Ten(0) == 1.0
  {
  }

  lemma MulOne(x: real)
    ensures x * 1.0 == x
  {
  }

  lemma TenAddStep(e: int, k: nat)
    requires Ten(e + k) == Ten(e) * Ten(k)
    ensures Ten(e + k + 1) == Ten(e) * Ten(k + 1)
  {
    hide Ten;
    TenStep(e + k);
    TenStep(k);
    Tenfold(Ten(e), Ten(k), Ten(k + 1));
  }

  lemma {:induction false} TenOfNat(k: nat)
    ensures Ten(k) == Pow(10, k) as real
  {
    if k > 0 {
      TenOfNat(k - 1);
      assert Pow(10, k) as real == 10.0 * Pow(10, k - 1) as real;
    }
  }

  /** The sign and all digits as one whole number. */
  function Numerator(l: Literal): int
    requires AllDigits(l.digits + l.fraction)
  {
    if l.sign == "-" then -(DigitsValue(l.digits + l.fraction) as int) else DigitsValue(l.digits + l.fraction)
  }

  /** `x` is the written number, with its point where it is, times `factor`. */
  ghost predicate IsTimes(x: real, l: Literal, factor: real)
    requires AllDigits(l.digits + l.fraction)
  {
    x * Pow(10, |l.fraction|) as real == Numerator(l) as real * factor
  }

  lemma ValTimes(n: int, e: int, f: nat)
    ensures Val(n, e) * Ten(f) == n as real * Ten(e + f)
  {
    hide Ten;
    TenAdd(e, f);
    MulAssociateReal(n as real, Ten(e), Ten(f));
  }

  lemma ShiftedValue(n: int, f: nat, e: int, x: real)
    requires x * Pow(10, f) as real == n as real * Ten(e)
    ensures x == Val(n, e - f)
  {
    TenOfNat(f);
    ValTimes(n, e - f, f);
    hide Val, Ten, Pow;
    Cancel(x, Val(n, e - f), Ten(f));
  }

  lemma UnitOf(s: string)
    requires Interpret(s).Some?
    ensures IsUnit(Interpret(s).value)
  {
    hide InterpretInTables;
  }

  lemma IsNumber(l: Literal, x: real, factor: real)
    requires l.NumberValid() && Interpret(l.suffix).Some? && AllDigits(l.digits + l.fraction)
    requires IsTimes(x, l, factor)
    ensures l.Valid() && x * Pow(10, |l.fraction|) as real == Numerator(l) as real * factor
  {
    hide Interpret, Literal.NumberValid, Pow, Numerator;
  }

  lemma BinaryNumber(l: Literal, e: nat, x: real)
    requires l.NumberValid() && l.digits + l.fraction != "" && AllDigits(l.digits + l.fraction)
    requires Interpret(l.suffix) == Some(Interpretation(BePair(2, e), BinarySI))
    requires IsTimes(x, l, Pow(2, e) as real)
    ensures Denote(l.Text()) == Ok(Held(x, BinarySI))
  {
    hide *;
    var n := Numerator(l);
    WholeTimes(n, Pow(2, e));
    IsNumber(l, x, Pow(2, e) as real);
    UnitOf(l.suffix);
    LiteralMeaning(l);
    ShiftedValue(n * Pow(2, e), |l.fraction|, 0, x);
    BinaryExact(l, e);
  }

  lemma WholeTimes(n: int, p: nat)
    ensures (n * p) as real * Ten(0) == n as real * p as real
  {
  }

  lemma BinaryExact(l: Literal, e: nat)
    requires AllDigits(l.digits + l.fraction)
    requires var unit := Interpretation(BePair(2, e), BinarySI); IsUnit(unit)
    ensures var unit := Interpretation(BePair(2, e), BinarySI);
            Meaning(l.sign != "-", DigitsValue(l.digits + l.fraction), |l.fraction|, unit)
            == Held(Val(Numerator(l) * Pow(2, e), 0 - |l.fraction|), BinarySI)
  {
    hide Held, Val, Pow, DigitsValue;
  }

  lemma DecimalNumber(l: Literal, e: int, format: Format, x: real)
    requires l.NumberValid() && l.digits + l.fraction != "" && AllDigits(l.digits + l.fraction)
    requires Interpret(l.suffix) == Some(Interpretation(BePair(10, e), format)) && format != BinarySI
    requires -0x8000_0000 <= |l.fraction| - e < 0x8000_0000
    requires IsTimes(x, l, Ten(e))
    ensures Denote(l.Text()) == Ok(Held(x, format))
  {
    hide *;
    IsNumber(l, x, Ten(e));
    UnitOf(l.suffix);
    LiteralMeaning(l);
    ShiftedValue(Numerator(l), |l.fraction|, e, x);
    DecimalExact(l, e, format);
  }

  lemma DecimalExact(l: Literal, e: int, format: Format)
    requires AllDigits(l.digits + l.fraction) && format != BinarySI
    requires -0x8000_0000 <= |l.fraction| - e < 0x8000_0000
    requires var unit := Interpretation(BePair(10, e), format); IsUnit(unit)
    ensures var unit := Interpretation(BePair(10, e), format);
            Meaning(l.sign != "-", DigitsValue(l.digits + l.fraction), |l.fraction|, unit)
            == Held(Val(Numerator(l), e - |l.fraction|), format)
  {
    hide Held, Val, Pow, DigitsValue;
  }

  // ----- units

  const BINARY_NAMES := ["Ki", "Mi", "Gi", "Ti", "Pi", "Ei"]

  const DECIMAL_NAMES := ["n", "u", "m", "", "k", "M", "G", "T", "P", "E"]

  /** Each name stands for a thousand times, or 1024 times, what the name before it stands for. */
  lemma UnitOfName(i: nat)
    ensures i < 6 ==> Interpret(BINARY_NAMES[i]) == Some(Interpretation(BePair(2, 10 * (i + 1)), BinarySI))
    ensures i < 10 ==> Interpret(DECIMAL_NAMES[i]) == Some(Interpretation(BePair(10, 3 * i - 9), DecimalSI))
  {
    hide ParseInt;
  }

  // ----- what is held of a number

  function Nanos(n: int): real {
    n as real / 1000000000.0
  }

  /** `v` is the first multiple of 10^-9 at or beyond `x`, seen from zero. */
  ghost predicate IsNanoAway(v: real, x: real) {
    && (exists n: int :: v == Nanos(n))
    && (x >= 0.0 ==> x <= v < x + 0.000000001)
    && (x < 0.0 ==> x - 0.000000001 < v <= x)
  }

  const MOST := 9223372036854775807.0

  /** Binary quantities stop at 2^63-1, and are decimal ones strictly between -1 and 1. */
  ghost predicate IsHeldOf(d: Denoted, x: real, format: Format) {
    && (if format == BinarySI && x > MOST then d.value == MOST
        else if format == BinarySI && x < -MOST then d.value == -MOST
        else IsNanoAway(d.value, x))
    && d.format == if format == BinarySI && d.value != 0.0 && -1.0 < d.value < 1.0 then DecimalSI else format
  }

  lemma TenToMinusNine()
    ensures Ten(-9) == 0.000000001
  {
    assert Ten(-3) == 0.001;
    assert Ten(-6) == 0.000001;
  }

  lemma NanoValue(n: int)
    ensures Val(n, NANO) == Nanos(n)
    ensures Val(n - 1, NANO) == Nanos(n) - 0.000000001 && Val(n + 1, NANO) == Nanos(n) + 0.000000001
  {
    TenToMinusNine();
    hide Ten;
  }

  lemma RoundedIsNanoAway(x: real)
    ensures IsNanoAway(Rounding.RoundUp(x, NANO), x)
  {
    var n := RoundAway(x, NANO);
    NanoValue(n);
    hide Val, Nanos;
  }

  /** Rounding stays within the limit, which is a whole number. */
  lemma RoundedWithinMost(x: real)
    ensures -MOST <= x <= MOST ==> -MOST <= Rounding.RoundUp(x, NANO) <= MOST
    ensures x > MOST ==> Rounding.RoundUp(x, NANO) > MOST
    ensures x < -MOST ==> Rounding.RoundUp(x, NANO) < -MOST
  {
    var n := RoundAway(x, NANO);
    NanoValue(n);
    hide Val;
    var most: int := 9223372036854775807000000000;
    assert Nanos(n) > MOST ==> n > most;
    assert Nanos(n) < -MOST ==> n < -most;
  }

  lemma HeldIs(x: real, format: Format)
    ensures IsHeldOf(Held(x, format), x, format)
  {
    assert Val(MAX_INT64, 0) == MOST;
    RoundedIsNanoAway(x);
    RoundedWithinMost(x);
    hide Val, Rounding.RoundUp, IsNanoAway;
  }

  // ----- quantities of the documentation

  ghost predicate Reads(l: Literal, x: real, format: Format) {
    Denote(l.Text()).Ok? && IsHeldOf(Denote(l.Text()).value, x, format)
  }

  lemma BinaryIsRead(l: Literal, i: nat, x: real)
    requires l.NumberValid() && l.digits + l.fraction != "" && AllDigits(l.digits + l.fraction)
    requires i < 6 && l.suffix == BINARY_NAMES[i]
    requires IsTimes(x, l, Pow(1024, i + 1) as real)
    ensures Reads(l, x, BinarySI)
  {
    hide Literal.Text, Literal.NumberValid, Interpret, IsTimes, Denote, Held, IsHeldOf, Pow, AllDigits;
    UnitOfName(i);
    PowersOf1024(i + 1);
    BinaryNumber(l, 10 * (i + 1), x);
    HeldIs(x, BinarySI);
  }

  /** The scale of the digits has to fit an int32, as it does unless there are about 2^31 digits after the point. */
  lemma DecimalIsRead(l: Literal, i: nat, x: real)
    requires l.NumberValid() && l.digits + l.fraction != "" && AllDigits(l.digits + l.fraction)
    requires i < 10 && l.suffix == DECIMAL_NAMES[i]
    requires |l.fraction| - (3 * i - 9) <= 0x7fff_ffff
    requires IsTimes(x, l, Ten(3 * i - 9))
    ensures Reads(l, x, DecimalSI)
  {
    hide Literal.Text, Literal.NumberValid, Interpret, IsTimes, Denote, Held, IsHeldOf, Ten, AllDigits;
    UnitOfName(i);
    DecimalNumber(l, 3 * i - 9, DecimalSI, x);
    HeldIs(x, DecimalSI);
  }

  lemma ExponentIsRead(l: Literal, number: Literal, x: real)
    requires l.NumberValid() && l.digits + l.fraction != "" && AllDigits(l.digits + l.fraction)
    requires IsDecimalExponent(l.suffix, number) && !number.point
    requires var e := SignedValue(number);
      && -0x8000_0000 <= e <= 0x7fff_ffff && |l.fraction| - e <= 0x7fff_ffff && IsTimes(x, l, Ten(e))
    ensures Reads(l, x, DecimalExponent)
  {
    var e := SignedValue(number);
    assert Wrap32(e) == e && IsInt64(e) && -0x8000_0000 <= |l.fraction| - e;
    hide Literal.Text, Literal.NumberValid, Interpret, IsTimes, Denote, Held, IsHeldOf, Ten, AllDigits, SignedValue,
      IsDecimalExponent, Wrap32;
    ExponentIsAccepted(l.suffix, number);
    DecimalNumber(l, e, DecimalExponent, x);
    HeldIs(x, DecimalExponent);
  }

  // ----- the strings that are kept

  ghost function Significant(l: Literal): string {
    var stripped := Split(l.digits, Zero).1;
    if stripped == "" then "0" else stripped
  }

  lemma StrippedDigits(l: Literal)
    requires l.NumberValid()
    ensures var stripped := Split(l.digits, Zero).1;
            && AllDigits(stripped) && AllDigits(l.digits) && DigitsValue(stripped) == DigitsValue(l.digits)
            && (stripped != "" ==> stripped[0] != '0')
  {
    hide DigitsValue;
    var (zeros, stripped) := Split(l.digits, Zero);
    assert forall i :: 0 <= i < |stripped| ==> stripped[i] == l.digits[|zeros| + i];
    LeadingZeros(zeros, stripped);
    assert l.digits == zeros + stripped;
  }

  lemma SignificantDigits(l: Literal)
    requires l.NumberValid()
    ensures var num := Significant(l);
            && num != "" && AllDigits(num) && AllDigits(num + l.fraction) && AllDigits(l.digits + l.fraction)
            && DigitsValue(num + l.fraction) == DigitsValue(l.digits + l.fraction)
            && DigitsValue(num) == DigitsValue(l.digits)
            && (num[0] == '0' <==> num == "0")
            && (DigitsValue(l.digits) >= 1 <==> num[0] != '0')
  {
    var stripped, num := Split(l.digits, Zero).1, Significant(l);
    assert DigitsValue("") == 0 && num == if stripped == "" then "0" else stripped;
    assert AllDigits(l.fraction);
    hide Split, DigitsValue, Significant, AllDigits;
    StrippedDigits(l);
    StripValue(l);
    ZerosAreZero("0");
    DigitsBound(num);
  }

  /** With its first digit not zero, a number has no more digits than its value needs. */
  lemma DigitCount(s: string, k: nat)
    requires AllDigits(s) && s != "" && s[0] != '0'
    ensures |s| <= k <==> DigitsValue(s) < Pow(10, k)
  {
    hide AllDigits, DigitsValue, Pow;
    DigitsBound(s);
    if |s| <= k {
      PowGrows(10, |s|, k);
    } else {
      PowGrows(10, k, |s| - 1);
    }
  }

  lemma ThreeZeros(s: string)
    requires AllDigits(s) && s != "" && s[0] != '0'
    ensures EndsWithThreeZeros(s) <==> DigitsValue(s) % 1000 == 0
  {
    if EndsWithThreeZeros(s) {
      var a := s[..|s| - 3];
      assert s == a + "000" && Pow(10, 3) == 1000;
      hide DigitsValue;
      DigitsAppend(a, "000");
      ZerosAreZero("000");
      DivUnique(DigitsValue(s), 1000, DigitsValue(a), 0);
    } else {
      NoThreeZeros(s);
    }
  }

  /** The scanner's view of a string, and when the string is kept. */
  lemma KeptCases(l: Literal, unit: Interpretation)
    requires l.Valid() && Interpret(l.suffix) == Some(unit) && l.digits + l.fraction != "" && l.Text() != "0"
    ensures AllDigits(Significant(l) + l.fraction) && Significant(l) + l.fraction != ""
    ensures ReusesInput(l.Text()) <==>
            var sc := Scanned(l.sign != "-", "", Significant(l), l.fraction, l.suffix);
            TakesFastPath(sc, unit) && LooksCanonical(Significant(l) + l.fraction, unit, FastScale(sc, unit))
  {
    hide *;
    NumberOf(l);
    UnitEndsNumber(l);
    SignificantDigits(l);
    ScanSplits(l);
    SignificantIs(l);
    var sc := Scan(l.Text()).value;
    ReuseCases(l.Text(), sc, unit);
    SameScan(sc, Scanned(l.sign != "-", "", Significant(l), l.fraction, l.suffix), unit);
  }

  lemma NumberOf(l: Literal)
    requires l.Valid()
    ensures l.NumberValid()
  {
    hide Interpret;
  }

  lemma SignificantIs(l: Literal)
    requires l.NumberValid()
    ensures var digits := Split(l.digits, Zero).1;
            && Significant(l) == (if digits == "" then "0" else digits)
            && (digits + l.Tail() == "" ==> digits == "" && l.fraction == "" && l.suffix == "")
  {
    var digits := Split(l.digits, Zero).1;
    assert |digits + l.Tail()| == |digits| + |l.Tail()|;
    hide Split, AllDigits;
  }

  lemma SameScan(a: Scanned, b: Scanned, unit: Interpretation)
    requires a.num == b.num && a.denom == b.denom
    ensures TakesFastPath(a, unit) <==> TakesFastPath(b, unit)
    ensures FastScale(a, unit) == FastScale(b, unit)
  {
    hide Wrap32;
  }

  /** A whole number of a binary unit is kept if it is short enough for an int64 and not divisible by eight. */
  lemma BinaryIsKept(l: Literal, i: nat)
    requires l.NumberValid() && l.digits + l.fraction != "" && AllDigits(l.digits + l.fraction)
    requires i < 6 && l.suffix == BINARY_NAMES[i]
    ensures ReusesInput(l.Text()) <==>
            var n := DigitsValue(l.digits + l.fraction);
            l.fraction == "" && i <= 3 && n < Pow(10, 11 - 3 * i) && n % 8 != 0
  {
    hide *;
    var unit := Interpretation(BePair(2, 10 * (i + 1)), BinarySI);
    var sc, num := Scanned(l.sign != "-", "", Significant(l), l.fraction, l.suffix), Significant(l);
    NamedIsNotZero(l, i);
    UnitOfName(i);
    IsValid(l);
    SignificantDigits(l);
    KeptCases(l, unit);
    BinaryPath(sc, unit, i);
    BinaryLooks(num + l.fraction, unit, FastScale(sc, unit));
    if l.fraction == "" {
      assert num + l.fraction == num;
      ShortEnough(num, 11 - 3 * i);
    }
  }

  lemma IsValid(l: Literal)
    requires l.NumberValid() && Interpret(l.suffix).Some?
    ensures l.Valid()
  {
    hide Interpret;
  }

  lemma ShortEnough(num: string, k: int)
    requires AllDigits(num) && num != "" && (num[0] == '0' <==> num == "0")
    ensures DigitsValue(num) % 8 != 0 ==> (|num| <= k <==> k >= 0 && DigitsValue(num) < Pow(10, k))
  {
    ZerosAreZero("0");
    hide DigitsValue, Pow, AllDigits;
    if num[0] != '0' && k >= 0 {
      DigitCount(num, k);
    }
  }

  lemma NamedIsNotZero(l: Literal, i: nat)
    requires l.NumberValid() && i < 6 && l.suffix == BINARY_NAMES[i]
    ensures l.Text() != "0"
  {
    assert |l.Text()| == |l.sign| + |l.digits| + |l.Tail()|;
    assert |l.Text()| >= 2;
  }

  lemma BinaryPath(sc: Scanned, unit: Interpretation, i: nat)
    requires unit == Interpretation(BePair(2, 10 * (i + 1)), BinarySI)
    ensures TakesFastPath(sc, unit) <==> sc.denom == "" && |sc.num| <= 11 - 3 * i
  {
    assert sc.denom == "" ==> FastScale(sc, unit) == 0;
  }

  lemma BinaryLooks(shifted: string, unit: Interpretation, scale: int)
    requires AllDigits(shifted) && shifted != "" && unit.format == BinarySI && unit.pair.exponent % 10 == 0
    ensures LooksCanonical(shifted, unit, scale) <==> DigitsValue(shifted) % 8 != 0
  {
  }

  /** A decimal quantity is kept unless it is long, finer than nano, below one, or its exponent can be larger. */
  lemma DecimalIsKept(l: Literal, e: int, format: Format)
    requires l.NumberValid() && l.digits + l.fraction != "" && AllDigits(l.digits + l.fraction)
    requires Interpret(l.suffix) == Some(Interpretation(BePair(10, e), format)) && format != BinarySI
    requires -0x8000_0000 <= e - |l.fraction|
    requires AllDigits(l.digits)
    ensures var n := DigitsValue(l.digits + l.fraction);
            ReusesInput(l.Text()) <==>
              || l.Text() == "0"
              || (DigitsValue(l.digits) >= 1 && n < Pow(10, 18) && n % 1000 != 0
                  && (e - |l.fraction|) % 3 == 0 && e - |l.fraction| >= -9)
  {
    hide *;
    var unit := Interpretation(BePair(10, e), format);
    var sc, num := Scanned(l.sign != "-", "", Significant(l), l.fraction, l.suffix), Significant(l);
    SignificantDigits(l);
    UnitOf(l.suffix);
    IsValid(l);
    if l.Text() == "0" {
      ZeroIsReused();
    } else {
      KeptCases(l, unit);
      DecimalPath(sc, unit);
      DecimalLooks(num + l.fraction, unit, FastScale(sc, unit));
      assert (num + l.fraction)[0] == num[0];
      if num[0] != '0' {
        ShortAndFull(num, l.fraction);
      }
    }
  }

  lemma ZeroIsReused()
    ensures ReusesInput("0")
  {
  }

  lemma ShortAndFull(num: string, fraction: string)
    requires AllDigits(num + fraction) && num != "" && num[0] != '0'
    ensures var s := num + fraction;
            |s| <= 18 && !EndsWithThreeZeros(s) <==> DigitsValue(s) < Pow(10, 18) && DigitsValue(s) % 1000 != 0
  {
    hide DigitsValue, Pow, AllDigits, EndsWithThreeZeros;
    DigitCount(num + fraction, 18);
    ThreeZeros(num + fraction);
  }

  lemma DecimalPath(sc: Scanned, unit: Interpretation)
    requires IsUnit(unit) && unit.format != BinarySI && -0x8000_0000 <= unit.pair.exponent - |sc.denom|
    ensures FastScale(sc, unit) == unit.pair.exponent - |sc.denom|
    ensures TakesFastPath(sc, unit) <==> |sc.num + sc.denom| <= 18 && unit.pair.exponent - |sc.denom| >= -9
  {
  }

  lemma DecimalLooks(shifted: string, unit: Interpretation, scale: int)
    requires AllDigits(shifted) && shifted != "" && unit.format != BinarySI
    ensures LooksCanonical(shifted, unit, scale) <==>
            scale % 3 == 0 && !EndsWithThreeZeros(shifted) && shifted[0] != '0'
  {
  }
}
