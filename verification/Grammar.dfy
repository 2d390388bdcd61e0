/**
 What a quantity string means, independently of how it is parsed: the split into sign, digits and
 suffix, and the exact value of the result (the grammar documented in `resource/quantity.go`).
 */
module Grammar {
  import opened Wrappers
  import opened Powers
  import opened Rounding
  import opened Int64Math
  import opened Digits
  import opened Suffix

  const NANO := -9

  // ----- splitting a string

  datatype CharClass = Zero | Digit | SuffixLetter {
    predicate Has(c: char) {
      match this
      case Zero => c == '0'
      case Digit => IsDigit(c)
      case SuffixLetter =>
        || c == 'e' || c == 'E' || c == 'i' || c == 'n' || c == 'u' || c == 'm'
        || c == 'k' || c == 'K' || c == 'M' || c == 'G' || c == 'T' || c == 'P'
    }
  }

  /** `s` is `a` followed by `b`: its longest prefix of characters of class `k`, and the rest. */
  ghost predicate IsSplit(s: string, k: CharClass, a: string, b: string) {
    && s == a + b
    && (forall i :: 0 <= i < |a| ==> k.Has(a[i]))
    && (b != "" ==> !k.Has(b[0]))
  }

  lemma {:induction false} SplitExists(s: string, k: CharClass) returns (a: string, b: string)
    ensures IsSplit(s, k, a, b)
  {
    if s == "" || !k.Has(s[0]) {
      a, b := "", s;
    } else {
      a, b := SplitExists(s[1..], k);
      a := [s[0]] + a;
    }
  }

  lemma SplitIsUnique(s: string, k: CharClass, a: string, b: string, c: string, d: string)
    requires IsSplit(s, k, a, b) && IsSplit(s, k, c, d)
    ensures a == c && b == d
  {
    assert forall i :: 0 <= i < |a| ==> s[i] == a[i];
    assert forall i :: 0 <= i < |c| ==> s[i] == c[i];
    assert b != "" ==> s[|a|] == b[0];
    assert d != "" ==> s[|c|] == d[0];
    assert a == s[..|a|] && c == s[..|c|];
    assert b == s[|a|..] && d == s[|c|..];
  }

  ghost function Split(s: string, k: CharClass): (r: (string, string))
    ensures IsSplit(s, k, r.0, r.1)
  {
    assert exists a, b :: IsSplit(s, k, a, b) by {
      var a, b := SplitExists(s, k);
    }
    var a', b' :| IsSplit(s, k, a', b');
    (a', b')
  }

  lemma SplitIs(a: string, b: string, k: CharClass)
    requires IsSplit(a + b, k, a, b)
    ensures Split(a + b, k) == (a, b)
  {
    SplitIsUnique(a + b, k, a, b, Split(a + b, k).0, Split(a + b, k).1);
  }

  predicate IsSign(c: char) {
    c == '+' || c == '-'
  }

  function SplitSign(s: string): (r: (string, string))
    ensures r.0 + r.1 == s
  {
    if s != "" && IsSign(s[0]) then ([s[0]], s[1..]) else ("", s)
  }

  /** The digits after a leading point, and what follows them. */
  ghost function SplitFraction(s: string): (r: (string, string))
    ensures s == (if s != "" && s[0] == '.' then "." + r.0 else "") + r.1
    ensures AllDigits(r.0)
  {
    if s != "" && s[0] == '.' then
      assert s == "." + s[1..];
      Split(s[1..], Digit)
    else ("", s)
  }

  /** Letters, then an optional sign, then digits. */
  ghost predicate HasSuffixShape(s: string) {
    var afterLetters := Split(s, SuffixLetter).1;
    var afterSign := SplitSign(afterLetters).1;
    Split(afterSign, Digit).1 == ""
  }

  /** The parts of a string; `value` is the sign and all the digits, `num` has no leading zeros. */
  datatype Scanned = Scanned(positive: bool, value: string, num: string, denom: string, suffix: string)

  ghost function Scan(str: string): Option<Scanned> {
    var (sign, unsigned) := SplitSign(str);
    var stripped := Split(unsigned, Zero).1;
    var (digits, tail) := Split(stripped, Digit);
    if stripped == "" then Some(Scanned(sign != "-", "0", "0", "", ""))
    else ScanTail(str, sign != "-", digits, tail)
  }

  /** `digits` without leading zeros come before the point, `tail` follows them. */
  ghost function ScanTail(str: string, positive: bool, digits: string, tail: string): Option<Scanned> {
    var (fraction, suffix) := SplitFraction(tail);
    if |suffix| > |str| || !HasSuffixShape(suffix) then None
    else
      var value := str[..|str| - |suffix|];
      Some(Scanned(positive, value, if digits == "" then "0" else digits, fraction, suffix))
  }

  // ----- meaning

  datatype ParseError = FormatWrong | NumericError | SuffixError

  datatype Denoted = Denoted(value: real, format: Format)

  ghost function Clamp(x: real): real {
    var most := Val(MAX_INT64, 0);
    if x > most then most else if x < -most then -most else x
  }

  /**
   The number `±digits`, with its last `fraction` digits after the point, times a unit. A decimal unit is
   subtracted from the scale, which is an int32.
   */
  ghost function Exact(positive: bool, digits: nat, fraction: nat, unit: Interpretation): real
    requires IsUnit(unit)
  {
    var n := if positive then digits else -(digits as int);
    if unit.format == BinarySI then Val(n * Pow(2, unit.pair.exponent), 0 - fraction)
    else Val(n, -Wrap32(fraction - unit.pair.exponent))
  }

  /**
   A number as a quantity holds it: rounded away from zero to a multiple of 10^-9, and limited to an
   int64 for binary units only. A binary quantity strictly between -1 and 1 is shown as a decimal one.
   */
  ghost function Held(x: real, format: Format): Denoted {
    var rounded := RoundUp(x, NANO);
    if format == BinarySI then
      var y := Clamp(rounded);
      Denoted(y, if y != 0.0 && -1.0 < y < 1.0 then DecimalSI else BinarySI)
    else
      Denoted(rounded, format)
  }

  ghost function Meaning(positive: bool, digits: nat, fraction: nat, unit: Interpretation): (d: Denoted)
    requires IsUnit(unit)
  {
    Held(Exact(positive, digits, fraction, unit), unit.format)
  }

  /** Without a single digit the number is zero if the unit is not too small or too large. */
  predicate AllowsNoDigits(unit: Interpretation) {
    if unit.format == BinarySI then unit.pair.exponent <= 40 else unit.pair.exponent >= NANO
  }

  predicate HasDigit(s: string) {
    exists i :: 0 <= i < |s| && IsDigit(s[i])
  }

  lemma ScannedDigits(str: string)
    ensures Scan(str).Some? ==> AllDigits(Scan(str).value.num + Scan(str).value.denom)
  {
  }

  ghost function Denote(str: string): Result<Denoted, ParseError> {
    ScannedDigits(str);
    if str == "" then Err(FormatWrong)
    else
      match Scan(str)
      case None => Err(FormatWrong)
      case Some(sc) =>
        match Interpret(sc.suffix)
        case None => Err(SuffixError)
        case Some(unit) =>
          if !HasDigit(sc.value) && !AllowsNoDigits(unit) then Err(NumericError)
          else Ok(Meaning(sc.positive, DigitsValue(sc.num + sc.denom), |sc.denom|, unit))
  }

  ghost predicate Denotes(str: string, x: real) {
    Denote(str).Ok? && Denote(str).value.value == x
  }

  // ----- the documented grammar

  /** `<quantity>`: `point` says whether the number contains a decimal point. */
  datatype Literal = Literal(sign: string, digits: string, point: bool, fraction: string, suffix: string) {
    predicate Valid() {
      NumberValid() && Interpret(suffix).Some?
    }

    predicate NumberValid() {
      && (sign == "" || sign == "+" || sign == "-")
      && AllDigits(digits) && AllDigits(fraction)
      && (!point ==> fraction == "")
    }

    predicate SuffixEndsNumber() {
      suffix != "" ==> !IsDigit(suffix[0]) && !IsSign(suffix[0]) && suffix[0] != '.'
    }

    function Tail(): string {
      (if point then "." + fraction else "") + suffix
    }

    function Text(): string {
      sign + digits + Tail()
    }
  }

  lemma UnitEndsNumber(l: Literal)
    requires l.Valid()
    ensures l.SuffixEndsNumber() && HasSuffixShape(l.suffix)
  {
    var s := l.suffix;
    InterpretCases(s);
    if DecSuffix(s).Some? || BinSuffix(s).Some? {
      TableSuffixIsLetters(s);
      LettersHaveSuffixShape(s);
    } else {
      ExponentHasSuffixShape(s);
    }
    assert s != "" ==> SuffixLetter.Has(s[0]);
  }

  lemma InterpretCases(s: string)
    requires Interpret(s).Some?
    ensures DecSuffix(s).Some? || BinSuffix(s).Some? || IsExponent(s)
  {
  }

  predicate IsExponent(s: string) {
    |s| > 1 && (s[0] == 'e' || s[0] == 'E') && ParseInt(s[1..]).1
  }

  lemma TableSuffixIsLetters(s: string)
    requires DecSuffix(s).Some? || BinSuffix(s).Some?
    ensures forall i :: 0 <= i < |s| ==> SuffixLetter.Has(s[i])
  {
  }

  lemma LettersHaveSuffixShape(s: string)
    requires forall i :: 0 <= i < |s| ==> SuffixLetter.Has(s[i])
    ensures HasSuffixShape(s)
  {
    SplitIs(s, "", SuffixLetter);
    assert s + "" == s;
  }

  lemma ExponentHasSuffixShape(s: string)
    requires |s| > 1 && (s[0] == 'e' || s[0] == 'E')
    requires AllDigits(SplitSign(s[1..]).1) && (IsSign(s[1]) || IsDigit(s[1]))
    ensures HasSuffixShape(s)
  {
    assert [s[0]] + s[1..] == s;
    SplitIs([s[0]], s[1..], SuffixLetter);
    var digits := SplitSign(s[1..]).1;
    assert digits + "" == digits;
    SplitIs(digits, "", Digit);
  }

  /** The parts found by the scanner are the parts of the literal, less the leading zeros. */
  lemma ScanText(l: Literal)
    requires l.NumberValid() && l.SuffixEndsNumber() && HasSuffixShape(l.suffix)
    ensures Scan(l.Text()).Some?
    ensures var sc := Scan(l.Text()).value;
            && sc.positive == (l.sign != "-")
            && sc.suffix == l.suffix
            && |sc.denom| == |l.fraction|
            && AllDigits(sc.num + sc.denom) && AllDigits(l.digits + l.fraction)
            && DigitsValue(sc.num + sc.denom) == DigitsValue(l.digits + l.fraction)
            && (l.digits + l.fraction != "" ==> HasDigit(sc.value))
  {
    ScanSplits(l);
    StripValue(l);
    if l.digits + l.fraction != "" {
      NumberHasDigit(l);
    }
    if Split(l.digits, Zero).1 + l.Tail() == "" {
      ZerosAreZero("0");
      assert IsDigit("0"[0]);
    }
  }

  lemma ScanSplits(l: Literal)
    requires l.NumberValid() && l.SuffixEndsNumber() && HasSuffixShape(l.suffix)
    ensures var digits, positive := Split(l.digits, Zero).1, l.sign != "-";
            Scan(l.Text()) == Some(
              if digits + l.Tail() == "" then Scanned(positive, "0", "0", "", "")
              else
                var value, num := l.Text()[..|l.Text()| - |l.suffix|], if digits == "" then "0" else digits;
                Scanned(positive, value, num, l.fraction, l.suffix))
  {
    SplitSignText(l);
    StripText(l.digits, l.Tail());
    SplitTail(l);
    assert |l.suffix| <= |l.Tail()| <= |l.Text()|;
    hide Split, SplitSign, SplitFraction, HasSuffixShape, AllDigits, Literal.Tail, Literal.Text;
    var digits := Split(l.digits, Zero).1;
    assert digits + l.Tail() != "" ==> Scan(l.Text()) == ScanTail(l.Text(), l.sign != "-", digits, l.Tail());
  }

  lemma StripText(digits: string, tail: string)
    requires AllDigits(digits)
    requires tail != "" ==> !IsDigit(tail[0])
    ensures var stripped := Split(digits, Zero).1;
            && Split(digits + tail, Zero).1 == stripped + tail
            && Split(stripped + tail, Digit) == (stripped, tail)
  {
    var (zeros, stripped) := Split(digits, Zero);
    assert digits + tail == zeros + (stripped + tail);
    assert stripped + tail != "" ==> (stripped + tail)[0] == if stripped != "" then stripped[0] else tail[0];
    SplitIs(zeros, stripped + tail, Zero);
    assert forall i :: 0 <= i < |stripped| ==> stripped[i] == digits[|zeros| + i];
    SplitIs(stripped, tail, Digit);
  }

  lemma SplitSignText(l: Literal)
    requires l.NumberValid() && l.SuffixEndsNumber()
    ensures SplitSign(l.Text()) == (l.sign, l.digits + l.Tail())
    ensures l.Tail() != "" ==> !IsDigit(l.Tail()[0])
  {
    var unsigned := l.digits + l.Tail();
    assert l.Text() == l.sign + unsigned;
    assert unsigned != "" ==> unsigned[0] == if l.digits != "" then l.digits[0] else l.Tail()[0];
    SplitSignIs(l.sign, unsigned);
  }

  lemma SplitSignIs(sign: string, unsigned: string)
    requires sign == "" || sign == "+" || sign == "-"
    requires unsigned != "" ==> !IsSign(unsigned[0])
    ensures SplitSign(sign + unsigned) == (sign, unsigned)
  {
    if sign == "" {
      assert sign + unsigned == unsigned;
    }
  }

  lemma SplitTail(l: Literal)
    requires l.NumberValid() && l.SuffixEndsNumber()
    ensures SplitFraction(l.Tail()) == (l.fraction, l.suffix)
  {
    var tail := l.Tail();
    if l.point {
      assert tail[1..] == l.fraction + l.suffix;
      SplitIs(l.fraction, l.suffix, Digit);
    } else {
      assert tail == l.suffix;
    }
  }

  lemma StripValue(l: Literal)
    requires l.NumberValid()
    ensures var stripped := Split(l.digits, Zero).1;
            var num := if stripped == "" then "0" else stripped;
            && AllDigits(num + l.fraction) && AllDigits(l.digits + l.fraction)
            && DigitsValue(num + l.fraction) == DigitsValue(l.digits + l.fraction)
  {
    var (zeros, stripped) := Split(l.digits, Zero);
    var rest := stripped + l.fraction;
    assert forall i :: 0 <= i < |stripped| ==> stripped[i] == l.digits[|zeros| + i];
    JoinDigits(stripped, l.fraction);
    assert l.digits + l.fraction == zeros + rest;
    hide Split, AllDigits, DigitsValue;
    LeadingZeros(zeros, rest);
    LeadingZeros("0", rest);
    if stripped == "" {
      assert rest == l.fraction;
    }
  }

  lemma NumberHasDigit(l: Literal)
    requires l.NumberValid() && l.digits + l.fraction != ""
    ensures HasDigit(l.Text()[..|l.Text()| - |l.suffix|])
  {
    var value := l.Text()[..|l.Text()| - |l.suffix|];
    var i := if l.digits != "" then |l.sign| else |l.sign| + 1;
    assert IsDigit(value[i]);
  }

  lemma ScanFails(l: Literal)
    requires l.NumberValid() && l.SuffixEndsNumber() && !HasSuffixShape(l.suffix)
    ensures Scan(l.Text()).None?
  {
    SplitSignText(l);
    StripText(l.digits, l.Tail());
    SplitTail(l);
    assert l.suffix != "" by { EmptyHasSuffixShape(); }
    assert |l.suffix| <= |l.Tail()|;
    hide Split, SplitSign, SplitFraction, HasSuffixShape, AllDigits, Literal.Tail, Literal.Text;
    var digits := Split(l.digits, Zero).1;
    assert Scan(l.Text()) == ScanTail(l.Text(), l.sign != "-", digits, l.Tail());
  }

  lemma EmptyHasSuffixShape()
    ensures HasSuffixShape("")
  {
  }

  /** Which of the three errors a string gets, if any: one for its form, one for its suffix, one for its number. */
  lemma ErrorIs(l: Literal)
    requires l.NumberValid() && l.SuffixEndsNumber() && l.Text() != ""
    ensures Denote(l.Text()) == Err(FormatWrong) <==> !HasSuffixShape(l.suffix)
    ensures Denote(l.Text()) == Err(SuffixError) <==> HasSuffixShape(l.suffix) && Interpret(l.suffix).None?
    ensures Denote(l.Text()) == Err(NumericError) ==> l.digits + l.fraction == ""
  {
    if HasSuffixShape(l.suffix) {
      ScanText(l);
    } else {
      ScanFails(l);
    }
    hide Scan, Interpret, HasSuffixShape, Literal.Text, Meaning;
  }

  ghost predicate AreSuffixParts(s: string, letters: string, sign: string, digits: string) {
    && s == letters + (sign + digits)
    && (forall i :: 0 <= i < |letters| ==> letters[i] in "eEinumkKMGTP")
    && (sign == "" || sign == "+" || sign == "-") && AllDigits(digits)
  }

  /** What the scanner lets through: letters of the units, then perhaps a sign, then digits. */
  lemma ShapeIs(s: string)
    ensures HasSuffixShape(s) <==> exists letters, sign, digits :: AreSuffixParts(s, letters, sign, digits)
  {
    if HasSuffixShape(s) {
      var split := Split(s, SuffixLetter);
      var signed := SplitSign(split.1);
      assert Split(signed.1, Digit).0 + "" == signed.1;
      assert AreSuffixParts(s, split.0, signed.0, signed.1);
    }
    forall letters, sign, digits | AreSuffixParts(s, letters, sign, digits) ensures HasSuffixShape(s) {
      SplitIs(letters, sign + digits, SuffixLetter);
      SplitSignIs(sign, digits);
      assert digits + "" == digits;
      SplitIs(digits, "", Digit);
    }
  }

  /** Every string of the grammar is accepted, and means what its parts say. */
  lemma LiteralMeaning(l: Literal)
    requires l.Valid() && l.digits + l.fraction != ""
    ensures AllDigits(l.digits + l.fraction)
    ensures var unit := Interpret(l.suffix).value;
            Denote(l.Text()) == Ok(Meaning(l.sign != "-", DigitsValue(l.digits + l.fraction), |l.fraction|, unit))
  {
    UnitEndsNumber(l);
    ScanText(l);
    assert l.Text() != "";
  }

  /** Only strings of the grammar are accepted, apart from the digits being optional. */
  lemma AcceptedIsLiteral(str: string) returns (l: Literal)
    requires Denote(str).Ok?
    ensures l.Valid() && l.Text() == str
    ensures l.digits + l.fraction == "" ==> Denote(str).value.value == 0.0
  {
    l := Parts(str);
    if l.digits + l.fraction == "" {
      UnitEndsNumber(l);
      ScanText(l);
      ZeroMeansZero(Scan(str).value.positive, 0, Interpret(l.suffix).value);
    }
  }

  lemma Parts(str: string) returns (l: Literal)
    requires Scan(str).Some?
    ensures l.NumberValid() && l.Text() == str && l.suffix == Scan(str).value.suffix
  {
    var (sign, unsigned) := SplitSign(str);
    var (zeros, stripped) := Split(unsigned, Zero);
    var (digits, tail) := Split(stripped, Digit);
    var (fraction, suffix) := SplitFraction(tail);
    l := Literal(sign, zeros + digits, tail != "" && tail[0] == '.', fraction, suffix);
    ZerosAreDigits(zeros);
    assert AllDigits(digits);
    ScannedSuffix(str);
    hide Split, SplitSign, SplitFraction, Scan, AllDigits;
    JoinDigits(zeros, digits);
    JoinParts(l, sign, zeros, digits, tail, stripped, unsigned);
  }

  lemma ZerosAreDigits(zeros: string)
    requires forall i :: 0 <= i < |zeros| ==> Zero.Has(zeros[i])
    ensures AllDigits(zeros)
  {
  }

  lemma JoinDigits(a: string, b: string)
    requires AllDigits(a) && AllDigits(b)
    ensures AllDigits(a + b)
  {
  }

  lemma JoinParts(l: Literal, sign: string, zeros: string, digits: string, tail: string, stripped: string,
                  unsigned: string)
    requires stripped == digits + tail && unsigned == zeros + stripped
    requires l.sign == sign && l.digits == zeros + digits && l.Tail() == tail
    ensures l.Text() == sign + unsigned
  {
    hide Literal.Tail;
    assert zeros + (digits + tail) == (zeros + digits) + tail;
    assert sign + ((zeros + digits) + tail) == (sign + (zeros + digits)) + tail;
  }

  lemma ScannedSuffix(str: string)
    requires Scan(str).Some?
    ensures Scan(str).value.suffix == SplitFraction(Split(Split(SplitSign(str).1, Zero).1, Digit).1).1
  {
    hide SplitSign, HasSuffixShape;
    if Split(SplitSign(str).1, Zero).1 == "" {
      assert Split("", Digit).1 == "";
    }
  }

  lemma ZeroMeansZero(positive: bool, fraction: nat, unit: Interpretation)
    requires IsUnit(unit)
    ensures Meaning(positive, 0, fraction, unit).value == 0.0
  {
    var e := if unit.format == BinarySI then 0 - fraction else -Wrap32(fraction - unit.pair.exponent);
    ValLinear(0, 0, e);
    ValLinear(0, 0, NANO);
    RoundAwayVal(0, e, NANO);
    ValOrder(0, MAX_INT64, 0);
    ValLinear(0, 0, 0);
  }

  /** A string has one split into sign, digits, fraction and suffix. */
  lemma LiteralIsUnique(l: Literal, k: Literal)
    requires l.NumberValid() && l.SuffixEndsNumber() && k.NumberValid() && k.SuffixEndsNumber()
    requires l.Text() == k.Text()
    ensures l == k
  {
    SplitSignText(l);
    SplitSignText(k);
    SplitTail(l);
    SplitTail(k);
    SplitDigits(l);
    SplitDigits(k);
    assert l.point <==> l.Tail() != "" && l.Tail()[0] == '.';
    assert k.point <==> k.Tail() != "" && k.Tail()[0] == '.';
  }

  lemma SplitDigits(l: Literal)
    requires l.NumberValid() && l.SuffixEndsNumber()
    ensures Split(l.digits + l.Tail(), Digit) == (l.digits, l.Tail())
  {
    SplitSignText(l);
    hide Literal.Tail, Literal.Text;
    SplitIs(l.digits, l.Tail(), Digit);
  }

  // ----- the suffixes of the documentation

  const BINARY_SI := {"Ki", "Mi", "Gi", "Ti", "Pi", "Ei"}

  const DECIMAL_SI := {"m", "", "k", "M", "G", "T", "P", "E"}

  /** `<signedNumber>` */
  ghost predicate IsSignedNumber(number: Literal) {
    number.NumberValid() && number.suffix == "" && number.digits + number.fraction != ""
  }

  /** `<decimalExponent>` */
  ghost predicate IsDecimalExponent(s: string, number: Literal) {
    IsSignedNumber(number) && (s == "e" + number.Text() || s == "E" + number.Text())
  }

  /** `<suffix>` */
  ghost predicate IsDocumentedSuffix(s: string) {
    s in BINARY_SI || s in DECIMAL_SI || exists number :: IsDecimalExponent(s, number)
  }

  function SignedValue(number: Literal): int
    requires AllDigits(number.digits)
  {
    if number.sign == "-" then -(DigitsValue(number.digits) as int) else DigitsValue(number.digits)
  }

  /** Of the documented exponents, the integers that fit an int64 are accepted, cut to 32 bits. */
  lemma ExponentIsAccepted(s: string, number: Literal)
    requires IsDecimalExponent(s, number)
    ensures Interpret(s) ==
            if !number.point && IsInt64(SignedValue(number))
            then Some(Interpretation(BePair(10, Wrap32(SignedValue(number))), DecimalExponent)) else None
  {
    ParseSigned(number);
    assert s[1..] == number.Text();
    assert s[1] == number.Text()[0];
    ExponentIsNoName(s);
    hide ParseInt, Literal.Text, DecSuffix, BinSuffix, Interpret, IsDecimalExponent, AllDigits, DigitsValue, Wrap32;
  }

  lemma ExponentIsNoName(s: string)
    requires |s| > 1 && (IsSign(s[1]) || IsDigit(s[1]) || s[1] == '.')
    ensures DecSuffix(s).None? && BinSuffix(s).None?
  {
  }

  lemma ParseSigned(number: Literal)
    requires IsSignedNumber(number)
    ensures var v, r := SignedValue(number), ParseInt(number.Text());
            && (r.1 <==> !number.point && IsInt64(v))
            && (r.1 ==> r.0 == v)
    ensures number.Text() != "" && var c := number.Text()[0]; IsSign(c) || IsDigit(c) || c == '.'
  {
    var text, rest := number.Text(), number.digits + number.Tail();
    SplitSignText(number);
    assert text == number.sign + rest;
    if number.point {
      assert rest[|number.digits|] == '.';
    } else {
      assert number.Tail() == "" && rest == number.digits;
    }
    assert AllDigits(rest) <==> !number.point;
    assert rest != "" && (IsDigit(rest[0]) || rest[0] == '.');
    assert text[0] == if number.sign == "" then rest[0] else number.sign[0];
    assert number.sign != "" ==> text[1..] == rest;
    hide DigitsValue, Literal.Text, Literal.Tail, AllDigits;
    assert ParseInt(text) == ParseDigits(number.sign == "-", rest);
  }

  /** The suffixes that are accepted: those of the documentation, less some exponents, and two more. */
  lemma SuffixIsAccepted(s: string)
    ensures Interpret(s).Some? <==>
            || s in BINARY_SI || s in DECIMAL_SI || s == "n" || s == "u"
            || exists number :: IsDecimalExponent(s, number) && !number.point && IsInt64(SignedValue(number))
  {
    if Interpret(s).Some? {
      InterpretCases(s);
      if IsExponent(s) {
        var number := IntegerExponent(s);
        ExponentIsAccepted(s, number);
      }
    }
    forall number | IsDecimalExponent(s, number) && !number.point && IsInt64(SignedValue(number))
      ensures Interpret(s).Some?
    {
      ExponentIsAccepted(s, number);
    }
    hide IsDecimalExponent, IsExponent, SignedValue;
  }

  lemma IntegerExponent(s: string) returns (number: Literal)
    requires IsExponent(s)
    ensures IsDecimalExponent(s, number) && !number.point
  {
    var t := s[1..];
    var sign, digits := if IsSign(t[0]) then [t[0]] else "", if IsSign(t[0]) then t[1..] else t;
    number := Literal(sign, digits, false, "", "");
    assert AllDigits(digits) && digits != "";
    hide ParseInt, DigitsValue, AllDigits;
    assert number.Tail() == "" && number.Text() == t;
    assert s == [s[0]] + t;
  }

  /** A documented quantity is accepted exactly if its suffix is; only exponents are ever refused. */
  lemma DocumentedIsAccepted(l: Literal)
    requires l.NumberValid() && l.digits + l.fraction != "" && IsDocumentedSuffix(l.suffix)
    ensures Denote(l.Text()).Ok? <==>
            forall number :: IsDecimalExponent(l.suffix, number) ==> !number.point && IsInt64(SignedValue(number))
  {
    SuffixStartsWithLetter(l.suffix);
    AcceptedByItsSuffix(l);
    hide *;
    forall number | IsDecimalExponent(l.suffix, number)
      ensures Interpret(l.suffix).Some? <==> !number.point && IsInt64(SignedValue(number))
    {
      ExponentIsAccepted(l.suffix, number);
    }
    NamesAreAccepted(l.suffix);
  }

  lemma NamesAreAccepted(s: string)
    requires IsDocumentedSuffix(s)
    ensures (forall number :: !IsDecimalExponent(s, number)) ==> Interpret(s).Some?
  {
    hide IsDecimalExponent;
  }

  lemma SuffixStartsWithLetter(s: string)
    requires IsDocumentedSuffix(s)
    ensures s != "" ==> !IsDigit(s[0]) && !IsSign(s[0]) && s[0] != '.'
  {
  }

  lemma AcceptedByItsSuffix(l: Literal)
    requires l.NumberValid() && l.SuffixEndsNumber() && l.digits + l.fraction != ""
    ensures Denote(l.Text()).Ok? <==> Interpret(l.suffix).Some?
  {
    hide Denote, Interpret, Meaning, HasSuffixShape, Literal.SuffixEndsNumber;
    if Denote(l.Text()).Ok? {
      var k := AcceptedIsLiteral(l.Text());
      UnitEndsNumber(k);
      LiteralIsUnique(l, k);
    }
    if Interpret(l.suffix).Some? {
      LiteralMeaning(l);
    }
  }
}
