/**
 `ParseQuantity`: an int64 path for short numbers and an arbitrary-precision path for the rest,
 both meeting the meaning that the grammar gives to the string.
 */
module Parser {
  import opened Wrappers
  import opened Powers
  import opened Rounding
  import opened Int64Math
  import opened Digits
  import opened Suffix
  import opened Grammar
  import opened Scanner
  import opened Decimal
  import opened Amount
  import opened Quantities

  // ----- the int64 path

  /** How many more decimal digits an int64 holds, at least; negative if the path is closed. */
  function Precision(sc: Scanned, unit: Interpretation): int {
    if unit.format != BinarySI then MAX_INT64_FACTORS - (|sc.num| + |sc.denom|)
    else if unit.pair.exponent >= 0 && |sc.denom| == 0 then 15 - |sc.num| - unit.pair.exponent * 3 / 10 - 1
    else -1
  }

  function FastScale(sc: Scanned, unit: Interpretation): int {
    Wrap32((if unit.format == BinarySI then 0 else unit.pair.exponent) - |sc.denom|)
  }

  predicate TakesFastPath(sc: Scanned, unit: Interpretation) {
    Precision(sc, unit) >= 0 && FastScale(sc, unit) >= NANO
  }

  predicate EndsWithThreeZeros(s: string) {
    |s| >= 3 && s[|s| - 3..] == "000"
  }

  /** The test by which the int64 path keeps its input as the cached string. */
  predicate LooksCanonical(shifted: string, unit: Interpretation, scale: int)
    requires AllDigits(shifted) && shifted != ""
  {
    if unit.format == BinarySI then unit.pair.exponent % 10 == 0 && DigitsValue(shifted) % 8 != 0
    else scale % 3 == 0 && !EndsWithThreeZeros(shifted) && shifted[0] != '0'
  }

  /** The strings that a successful parse keeps. */
  ghost predicate ReusesInput(str: string) {
    || str == "0"
    || (Scan(str).Some? && Interpret(Scan(str).value.suffix).Some? &&
        var sc, unit := Scan(str).value, Interpret(Scan(str).value.suffix).value;
        var shifted := sc.num + sc.denom;
        && AllDigits(shifted) && shifted != ""
        && TakesFastPath(sc, unit) && LooksCanonical(shifted, unit, FastScale(sc, unit)))
  }

  /** No number that the guard lets through overflows when it is scaled by its unit. */
  lemma FastProductFits(sc: Scanned, unit: Interpretation)
    requires IsUnit(unit) && TakesFastPath(sc, unit)
    requires AllDigits(sc.num + sc.denom)
    ensures var n := DigitsValue(sc.num + sc.denom);
            IsInt64(n) && IsInt64(n * if unit.format == BinarySI then Pow(2, unit.pair.exponent) else 1)
  {
    var shifted := sc.num + sc.denom;
    DigitsBound(shifted);
    if unit.format == BinarySI {
      assert sc.denom == "";
      BinaryProductFits(DigitsValue(shifted), |shifted|, unit.pair.exponent);
    } else {
      PowGrows(10, |shifted|, 18);
      assert Pow10Int64(18) == Pow(10, 18);
    }
  }

  lemma BinaryProductFits(n: nat, len: nat, e: nat)
    requires 10 <= e <= 60 && e % 10 == 0 && 15 - len - e * 3 / 10 - 1 >= 0
    requires n < Pow(10, len)
    ensures IsInt64(n) && IsInt64(n * Pow(2, e))
  {
    BinaryBounds();
    hide Pow;
    if e == 10 {
      BelowProduct(n, len, 11, Pow(2, e));
    } else if e == 20 {
      BelowProduct(n, len, 8, Pow(2, e));
    } else if e == 30 {
      BelowProduct(n, len, 5, Pow(2, e));
    } else {
      BelowProduct(n, len, 2, Pow(2, e));
    }
  }

  lemma BelowProduct(n: nat, len: nat, most: nat, k: nat)
    requires n < Pow(10, len) && len <= most && k > 0
    ensures n <= n * k <= Pow(10, most) * k
  {
    PowGrows(10, len, most);
    MulAtLeast(n, k);
    MulCompareNat(n, Pow(10, most), k);
  }

  lemma BinaryBounds()
    ensures Pow(10, 11) * Pow(2, 10) <= MAX_INT64
    ensures Pow(10, 8) * Pow(2, 20) <= MAX_INT64
    ensures Pow(10, 5) * Pow(2, 30) <= MAX_INT64
    ensures Pow(10, 2) * Pow(2, 40) <= MAX_INT64
  {
    assert Pow10Int64(11) == Pow(10, 11) && Pow10Int64(8) == Pow(10, 8);
    assert Pow10Int64(5) == Pow(10, 5) && Pow10Int64(2) == Pow(10, 2);
    PowersOfTwo();
    hide Pow;
  }

  lemma PowersOfTwo()
    ensures Pow(2, 10) == 0x400 && Pow(2, 20) == 0x10_0000 && Pow(2, 30) == 0x4000_0000
    ensures Pow(2, 40) == 0x100_0000_0000 && Pow(2, 60) == 0x1000_0000_0000_0000
  {
    assert Pow(2, 10) == 0x400;
    hide Pow;
    PowAdd(2, 10, 10);
    PowAdd(2, 20, 10);
    PowAdd(2, 20, 20);
    PowAdd(2, 30, 30);
  }

  /** The int64 path loses nothing, so rounding and the limit have nothing to do. */
  lemma FastMeaning(positive: bool, n: nat, unit: Interpretation, fraction: nat, scale: int)
    requires IsUnit(unit) && scale >= NANO
    requires unit.format == BinarySI ==> scale == 0 && fraction == 0
    requires unit.format != BinarySI ==> scale == Wrap32(unit.pair.exponent - fraction)
    requires IsInt64(n * if unit.format == BinarySI then Pow(2, unit.pair.exponent) else 1)
    ensures var m: int := n * if unit.format == BinarySI then Pow(2, unit.pair.exponent) else 1;
            Meaning(positive, n, fraction, unit) == Denoted(Val(if positive then m else -m, scale), unit.format)
  {
    hide Pow, Val, RoundAway, Clamp, Wrap32, Exact;
    var k := if unit.format == BinarySI then Pow(2, unit.pair.exponent) else 1;
    var m: int := n * k;
    var signed := if positive then m else -m;
    FastIsExact(positive, n, unit, fraction, scale);
    RoundAwayVal(signed, scale, NANO);
    if unit.format == BinarySI {
      WholeNumberIsHeld(signed);
    }
  }

  /** The two paths subtract in opposite directions, which matters for the smallest int32 only. */
  lemma WrapOpposite(x: int)
    ensures Wrap32(x) != -0x8000_0000 ==> Wrap32(-x) == -Wrap32(x)
  {
    var k := (x + 0x8000_0000) / 0x1_0000_0000;
    assert Wrap32(x) == x - k * 0x1_0000_0000;
  }

  lemma FastIsExact(positive: bool, n: nat, unit: Interpretation, fraction: nat, scale: int)
    requires IsUnit(unit) && scale >= NANO
    requires unit.format == BinarySI ==> scale == 0 && fraction == 0
    requires unit.format != BinarySI ==> scale == Wrap32(unit.pair.exponent - fraction)
    ensures var m: int := n * if unit.format == BinarySI then Pow(2, unit.pair.exponent) else 1;
            Exact(positive, n, fraction, unit) == Val(if positive then m else -m, scale)
  {
    WrapOpposite(unit.pair.exponent - fraction);
    MulNegate(n, if unit.format == BinarySI then Pow(2, unit.pair.exponent) else 1);
    hide Pow, Val, IsUnit, Wrap32;
  }

  lemma WholeNumberIsHeld(n: int64)
    requires n != MIN_INT64
    ensures Clamp(Val(n, 0)) == Val(n, 0)
    ensures -1.0 < Val(n, 0) < 1.0 ==> Val(n, 0) == 0.0
  {
    ValOrder(n, MAX_INT64, 0);
    ValOrder(-MAX_INT64, n, 0);
    ValLinear(MAX_INT64, 0, 0);
    ValOrder(n, 1, 0);
    ValOrder(-1, n, 0);
    assert Val(1, 0) == 1.0 && Val(-1, 0) == -1.0 && Val(0, 0) == 0.0;
  }

  // ----- the arbitrary-precision path

  /** The text handed to the decimal reader has the digits found by the scanner. */
  lemma ValueReads(str: string)
    requires Scan(str).Some? && Interpret(Scan(str).value.suffix).Some?
    ensures var sc := Scan(str).value;
            && AllDigits(sc.num + sc.denom)
            && (ReadDec(sc.value).2 <==> HasDigit(sc.value))
            && (ReadDec(sc.value).2 ==>
              var n := DigitsValue(sc.num + sc.denom);
              ReadDec(sc.value).1 == |sc.denom| && ReadDec(sc.value).0 == if sc.positive then n else -(n as int))
  {
    var sc := Scan(str).value;
    var l := Parts(str);
    UnitEndsNumber(l);
    ScanText(l);
    ScanSplits(l);
    StripValue(l);
    if Split(l.digits, Zero).1 + l.Tail() == "" {
      ReadDecIs("", "0", false, "");
      assert "" + ("0" + PointTail(false, "")) == "0" && "0" + "" == "0";
      assert IsDigit("0"[0]);
    } else {
      ValueText(l);
      ReadDecIs(l.sign, l.digits, l.point, l.fraction);
    }
  }

  lemma ValueText(l: Literal)
    requires l.NumberValid()
    ensures var value := l.Text()[..|l.Text()| - |l.suffix|];
            && value == l.sign + (l.digits + PointTail(l.point, l.fraction))
            && (HasDigit(value) <==> l.digits + l.fraction != "")
  {
    var value := l.sign + (l.digits + PointTail(l.point, l.fraction));
    assert l.Text() == value + l.suffix;
    if l.digits + l.fraction != "" {
      NumberHasDigit(l);
    }
  }

  /** Non-zero amounts are rounded to nano-units. */
  method RoundToNano(amount: Dec)
    modifies amount
    ensures amount.Value() == Rounding.RoundUp(old(amount.Value()), NANO)
  {
    RoundAwayVal(0, -amount.scale, NANO);
    if amount.unscaled != 0 {
      amount.Round(amount, -NANO);
    }
  }

  /** Binary quantities stop at the largest int64; below one they are shown as decimal. */
  method Limit(amount: Dec) returns (format: Format)
    modifies amount
    ensures amount.Value() == if old(amount.Value()) > Val(MAX_INT64, 0) then Val(MAX_INT64, 0) else old(amount.Value())
    ensures format == if 0.0 < amount.Value() < 1.0 then DecimalSI else BinarySI
  {
    assert Val(1, 0) == 1.0;
    ValOrder(1, MAX_INT64, 0);
    var most := new Dec(MAX_INT64, 0);
    var over := amount.Cmp(most);
    if over > 0 {
      amount.Set(most);
    }
    var one := new Dec(1, 0);
    var low := amount.Cmp(one);
    var sign := amount.Sign();
    return if low < 0 && sign > 0 then DecimalSI else BinarySI;
  }

  /** Negative amounts are rounded and limited as their opposites. */
  lemma HeldBySign(x: real, y: real, z: real, format: Format, shown: Format)
    requires y == Rounding.RoundUp(if x < 0.0 then -x else x, NANO)
    requires if format == BinarySI then z == if y > Val(MAX_INT64, 0) then Val(MAX_INT64, 0) else y else z == y
    requires shown == if format == BinarySI && 0.0 < z < 1.0 then DecimalSI else format
    ensures Held(x, format) == Denoted(if x < 0.0 then -z else z, shown)
  {
    RoundUpNegate(x, NANO);
    ValLinear(0, 0, NANO);
    ValLinear(0, 0, 0);
    ValOrder(0, MAX_INT64, 0);
    var n := RoundAway(if x < 0.0 then -x else x, NANO);
    ValOrder(n, 0, NANO);
    assert y >= 0.0;
    hide RoundAway, Val;
  }

  method Hold(amount: Dec, format: Format) returns (shown: Format)
    modifies amount
    ensures Denoted(amount.Value(), shown) == Held(old(amount.Value()), format)
  {
    hide Val, Held, Rounding.RoundUp;
    var sign := amount.Sign();
    if sign == -1 {
      amount.Neg(amount);
    }
    RoundToNano(amount);
    ghost var rounded := amount.Value();
    shown := format;
    if format == BinarySI {
      shown := Limit(amount);
    }
    HeldBySign(old(amount.Value()), rounded, amount.Value(), format, shown);
    if sign == -1 {
      amount.Neg(amount);
    }
  }

  lemma WrapSum(x: int, y: int)
    ensures Wrap32(x + Wrap32(y)) == Wrap32(x + y)
  {
    var k := (y + 0x8000_0000) / 0x1_0000_0000;
    assert Wrap32(y) == y - k * 0x1_0000_0000;
  }

  /** Takes the suffix off, so that nobody else has to think about it. */
  method ApplyUnit(amount: Dec, unit: Interpretation)
    requires IsUnit(unit) && amount.scale >= 0
    modifies amount
    ensures amount.Value() ==
            var n, fraction := old(amount.unscaled), old(amount.scale); Exact(n >= 0, Abs(n), fraction, unit)
  {
    WrapSum(amount.scale, -unit.pair.exponent);
    hide Val, Pow, Wrap32;
    if unit.pair.base == 10 {
      amount.scale := Wrap32(amount.scale + Wrap32(-unit.pair.exponent));
    } else {
      amount.unscaled := amount.unscaled * Pow(2, unit.pair.exponent);
    }
  }

  method ParseExact(value: string, unit: Interpretation, ghost n: int, ghost fraction: nat)
    returns (r: Result<Quantity, ParseError>)
    requires IsUnit(unit)
    requires ReadDec(value).2 ==> ReadDec(value).0 == n && ReadDec(value).1 == fraction
    ensures r.Err? <==> !ReadDec(value).2
    ensures r.Err? ==> r.error == NumericError
    ensures r.Ok? ==> fresh(r.value) && r.value.d != null && fresh(r.value.d) && r.value.s == ""
    ensures r.Ok? ==> Denoted(r.value.Value(), r.value.format) == Meaning(n >= 0, Abs(n), fraction, unit)
  {
    hide IsUnit, Exact, Held, Pow, ReadDec, Dec.Value;
    var amount := new Dec(0, 0);
    var ok := amount.SetString(value);
    if !ok {
      return Err(NumericError);
    }
    ApplyUnit(amount, unit);
    var shown := Hold(amount, unit.format);
    var q := new Quantity(Int64Amount(0, 0), amount, "", shown);
    return Ok(q);
  }

  // ----- both paths

  lemma ScannedShape(str: string)
    requires Scan(str).Some? && Interpret(Scan(str).value.suffix).Some?
    ensures var sc := Scan(str).value;
            && AllDigits(sc.num + sc.denom) && sc.num != ""
            && (!HasDigit(sc.value) ==> sc.num == "0" && sc.denom == "")
  {
    ScannedDigits(str);
    var l := Parts(str);
    UnitEndsNumber(l);
    ScanSplits(l);
    if Split(l.digits, Zero).1 + l.Tail() == "" {
      assert IsDigit("0"[0]);
    } else {
      ValueText(l);
    }
  }

  ghost predicate IsParsed(q: Quantity, str: string)
    reads q, q.d
  {
    && Denote(str) == Ok(Denoted(q.Value(), q.format))
    && q.s == (if ReusesInput(str) then str else "")
    && (q.d == null ==> q.i.value != MIN_INT64)
  }

  method ParseQuantity(str: string) returns (r: Result<Quantity, ParseError>)
    ensures r.Err? ==> Denote(str) == Err(r.error)
    ensures r.Ok? ==> IsParsed(r.value, str) && fresh(r.value) && (r.value.d != null ==> fresh(r.value.d))
  {
    if |str| == 0 {
      return Err(FormatWrong);
    }
    if str == "0" {
      ZeroMeans();
      var q := new Quantity(Int64Amount(0, 0), null, str, DecimalSI);
      return Ok(q);
    }
    var scanned := ParseQuantityString(str);
    if scanned.Err? {
      return Err(scanned.error);
    }
    var sc := scanned.value;
    var interpretation := Interpret(sc.suffix);
    if interpretation.None? {
      return Err(SuffixError);
    }
    r := ParseScanned(str, sc, interpretation.value);
  }

  lemma ZeroMeans()
    ensures Denote("0") == Ok(Denoted(Val(0, 0), DecimalSI))
    ensures ReusesInput("0")
  {
    var l := Literal("", "0", false, "", "");
    assert l.Text() == "0" && l.digits + l.fraction == "0";
    ZerosAreZero("0");
    assert Wrap32(0) == 0 && Interpret("") == Some(Interpretation(BePair(10, 0), DecimalSI));
    hide Wrap32, Interpret, Denote, Meaning, Literal.Text, DigitsValue;
    LiteralMeaning(l);
    FastMeaning(true, 0, Interpretation(BePair(10, 0), DecimalSI), 0, 0);
  }

  function Mantissa(unit: Interpretation): nat {
    if unit.format == BinarySI && unit.pair.exponent >= 0 then Pow(2, unit.pair.exponent) else 1
  }

  lemma DenoteScanned(str: string, sc: Scanned, unit: Interpretation)
    requires str != "" && Scan(str) == Some(sc) && Interpret(sc.suffix) == Some(unit)
    ensures AllDigits(sc.num + sc.denom)
    ensures TakesFastPath(sc, unit) || HasDigit(sc.value) ==>
              Denote(str) == Ok(Meaning(sc.positive, DigitsValue(sc.num + sc.denom), |sc.denom|, unit))
    ensures !TakesFastPath(sc, unit) && !HasDigit(sc.value) ==> Denote(str) == Err(NumericError)
  {
    hide *;
    ScannedShape(str);
    if !HasDigit(sc.value) {
      NoDigitsPath(sc, unit);
    }
    DenoteCases(str, sc, unit);
  }

  lemma DenoteCases(str: string, sc: Scanned, unit: Interpretation)
    requires str != "" && Scan(str) == Some(sc) && Interpret(sc.suffix) == Some(unit)
    ensures AllDigits(sc.num + sc.denom)
    ensures Denote(str) ==
            if !HasDigit(sc.value) && !AllowsNoDigits(unit) then Err(NumericError)
            else Ok(Meaning(sc.positive, DigitsValue(sc.num + sc.denom), |sc.denom|, unit))
  {
    ScannedDigits(str);
    hide Scan, Interpret, Meaning, DigitsValue, HasDigit, AllowsNoDigits;
  }

  lemma NoDigitsPath(sc: Scanned, unit: Interpretation)
    requires IsUnit(unit) && sc.num == "0" && sc.denom == ""
    ensures TakesFastPath(sc, unit) <==> AllowsNoDigits(unit)
  {
  }

  /** What the int64 path computes, and that none of its checks can fail. */
  lemma FastParse(str: string, sc: Scanned, unit: Interpretation)
    requires str != "" && str != "0" && Scan(str) == Some(sc) && Interpret(sc.suffix) == Some(unit)
    requires TakesFastPath(sc, unit)
    ensures AllDigits(sc.num + sc.denom) && sc.num + sc.denom != ""
    ensures var n, scale := DigitsValue(sc.num + sc.denom), FastScale(sc, unit);
            var m: int := n * Mantissa(unit);
            && ParseInt(sc.num + sc.denom) == (n, true)
            && m >= 0 && IsInt64(m) && Mantissa(unit) <= MAX_INT64
            && Denote(str) == Ok(Denoted(Val(if sc.positive then m else -m, scale), unit.format))
            && (ReusesInput(str) <==> LooksCanonical(sc.num + sc.denom, unit, scale))
  {
    hide *;
    ScannedShape(str);
    assert sc.num + sc.denom != "";
    DenoteScanned(str, sc, unit);
    FastProductFits(sc, unit);
    MantissaIs(unit);
    ParseIntDigits(sc.num + sc.denom);
    ScaleIs(sc, unit);
    FastMeaning(sc.positive, DigitsValue(sc.num + sc.denom), unit, |sc.denom|, FastScale(sc, unit));
    ReuseCases(str, sc, unit);
  }

  lemma MantissaIs(unit: Interpretation)
    requires IsUnit(unit)
    ensures Mantissa(unit) == if unit.format == BinarySI then Pow(2, unit.pair.exponent) else 1
    ensures IsInt64(Mantissa(unit))
  {
    if unit.format == BinarySI {
      PowGrows(2, unit.pair.exponent, 60);
      PowersOfTwo();
    }
  }

  lemma ScaleIs(sc: Scanned, unit: Interpretation)
    requires IsUnit(unit) && TakesFastPath(sc, unit)
    ensures FastScale(sc, unit) >= NANO
    ensures if unit.format == BinarySI then FastScale(sc, unit) == 0 && |sc.denom| == 0
            else FastScale(sc, unit) == Wrap32(unit.pair.exponent - |sc.denom|)
  {
  }

  lemma ReuseCases(str: string, sc: Scanned, unit: Interpretation)
    requires str != "0" && Scan(str) == Some(sc) && Interpret(sc.suffix) == Some(unit)
    requires AllDigits(sc.num + sc.denom) && sc.num + sc.denom != ""
    ensures ReusesInput(str) <==>
            TakesFastPath(sc, unit) && LooksCanonical(sc.num + sc.denom, unit, FastScale(sc, unit))
  {
    hide Scan, Interpret, TakesFastPath, LooksCanonical;
  }

  /** What the arbitrary-precision path has to compute. */
  lemma ExactParse(str: string, sc: Scanned, unit: Interpretation)
    requires str != "" && str != "0" && Scan(str) == Some(sc) && Interpret(sc.suffix) == Some(unit)
    requires !TakesFastPath(sc, unit)
    ensures AllDigits(sc.num + sc.denom)
    ensures var digits := DigitsValue(sc.num + sc.denom);
            var n: int := if sc.positive then digits else -(digits as int);
            && (ReadDec(sc.value).2 ==> ReadDec(sc.value).0 == n && ReadDec(sc.value).1 == |sc.denom|)
            && Denote(str) ==
               if ReadDec(sc.value).2 then Ok(Meaning(n >= 0, Abs(n), |sc.denom|, unit)) else Err(NumericError)
    ensures !ReusesInput(str)
  {
    hide *;
    DenoteScanned(str, sc, unit);
    ScannedShape(str);
    assert sc.num + sc.denom != "";
    ReuseCases(str, sc, unit);
    ValueReads(str);
    SignedDigits(sc.positive, DigitsValue(sc.num + sc.denom), |sc.denom|, unit);
  }

  lemma SignedDigits(positive: bool, digits: nat, fraction: nat, unit: Interpretation)
    requires IsUnit(unit)
    ensures var n: int := if positive then digits else -(digits as int);
            Meaning(n >= 0, Abs(n), fraction, unit) == Meaning(positive, digits, fraction, unit)
  {
    hide Held, Val, Pow;
  }

  /** The int64 path; None would hand the number over to the other path. */
  method ParseFast(str: string, sc: Scanned, unit: Interpretation, mantissa: nat, scale: int)
    returns (r: Option<Result<Quantity, ParseError>>)
    requires str != "" && str != "0" && Scan(str) == Some(sc) && Interpret(sc.suffix) == Some(unit)
    requires TakesFastPath(sc, unit) && mantissa == Mantissa(unit) && scale == FastScale(sc, unit)
    ensures r.Some? && r.value.Ok? && IsParsed(r.value.value, str) && fresh(r.value.value) && r.value.value.d == null
  {
    hide Denote, Scan, Interpret, IsParsed, ReusesInput, TakesFastPath, LooksCanonical, EndsWithThreeZeros, FastScale,
      Mantissa, ParseInt, ParseDigits, DigitsValue, Int64Multiply, Int64Neg, Quantity.Value, Val, Pow;
    var shifted := sc.num + sc.denom;
    FastParse(str, sc, unit);
    var (value, ok) := ParseInt(shifted);
    r := if ok then None else Some(Err(NumericError));
    var (product, fits) := Int64Multiply(value, mantissa);
    if ok && fits {
      var result := if sc.positive then product else Int64Neg(product);
      NegatedProduct(product);
      var keep := if LooksCanonical(shifted, unit, scale) then str else "";
      var q := new Quantity(Int64Amount(result, scale), null, keep, unit.format);
      FastIsParsed(q, str);
      r := Some(Ok(q));
    }
  }

  lemma NegatedProduct(m: int64)
    requires m >= 0
    ensures Int64Neg(m) as int == -(m as int) > MIN_INT64
  {
  }

  lemma FastIsParsed(q: Quantity, str: string)
    requires q.d == null && q.i.value != MIN_INT64
    requires Denote(str) == Ok(Denoted(Val(q.i.value, q.i.scale), q.format))
    requires q.s == if ReusesInput(str) then str else ""
    ensures IsParsed(q, str)
  {
    hide Denote, ReusesInput, Val;
  }

  lemma ExactIsParsed(q: Quantity, str: string)
    requires q.d != null && q.s == "" && !ReusesInput(str)
    requires Denote(str) == Ok(Denoted(q.Value(), q.format))
    ensures IsParsed(q, str)
  {
    hide Denote, ReusesInput, Quantity.Value;
  }

  method ParseScanned(str: string, sc: Scanned, unit: Interpretation) returns (r: Result<Quantity, ParseError>)
    requires str != "" && str != "0" && Scan(str) == Some(sc) && Interpret(sc.suffix) == Some(unit)
    ensures r.Err? ==> Denote(str) == Err(r.error)
    ensures r.Ok? ==> IsParsed(r.value, str) && fresh(r.value) && (r.value.d != null ==> fresh(r.value.d))
  {
    hide Wrap32, Denote, Scan, Interpret, IsParsed, ReusesInput, Meaning, Pow, DigitsValue, ReadDec, Quantity.Value;
    var precision, scale, mantissa := 0, 0, 1;
    if unit.format == BinarySI {
      if unit.pair.exponent >= 0 && |sc.denom| == 0 {
        mantissa := Pow(2, unit.pair.exponent);
        precision := 15 - |sc.num| - unit.pair.exponent * 3 / 10 - 1;
      } else {
        precision := -1;
      }
    } else {
      scale := unit.pair.exponent;
      precision := MAX_INT64_FACTORS - (|sc.num| + |sc.denom|);
    }
    assert precision == Precision(sc, unit);
    if precision >= 0 {
      scale := Wrap32(scale - |sc.denom|);
      if scale >= NANO {
        assert mantissa == Mantissa(unit) && scale == FastScale(sc, unit);
        var fast := ParseFast(str, sc, unit, mantissa, scale);
        if fast.Some? {
          return fast.value;
        }
      }
    }
    assert !TakesFastPath(sc, unit);
    ExactParse(str, sc, unit);
    ghost var n := DigitsValue(sc.num + sc.denom);
    r := ParseExact(sc.value, unit, if sc.positive then n else -(n as int), |sc.denom|);
    if r.Ok? {
      ExactIsParsed(r.value, str);
    }
  }
}
