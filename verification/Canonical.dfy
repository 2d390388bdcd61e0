/** The canonical form of a value, defined without reference to how it is computed. */
module Canonical {
  import opened Powers
  import opened Rounding
  import opened Int64Math
  import opened Digits
  import opened Suffix

  /** `m * 10^e`, where `e` is the largest multiple of three that leaves `m` an integer. */
  ghost predicate IsDecimalForm(m: int, e: int, x: real) {
    x == Val(m, e) && e % 3 == 0 && m % 1000 != 0
  }

  /** `m * 1024^k`, where `k` is as large as possible. */
  ghost predicate IsBinaryForm(m: int, k: nat, x: real) {
    x == Val(m * Pow(1024, k), 0) && m % 1024 != 0
  }

  lemma DecimalFormUnique(m: int, e: int, n: int, f: int, x: real)
    requires IsDecimalForm(m, e, x) && IsDecimalForm(n, f, x)
    ensures m == n && e == f
  {
    if e == f {
      ValOrder(m, n, e);
    } else if e > f {
      LargerExponent(m, e, n, f);
    } else {
      LargerExponent(n, f, m, e);
    }
  }

  lemma LargerExponent(m: int, e: int, n: int, f: int)
    requires e > f && (e - f) % 3 == 0 && Val(m, e) == Val(n, f)
    ensures n % 1000 == 0
  {
    var p := Pow(10, e - f - 3);
    Rescale(m, e, e - f);
    ValOrder(m * Pow(10, e - f), n, f);
    PowAdd(10, e - f - 3, 3);
    assert Pow(10, 3) == 1000;
    MulAssociate(m, p, 1000);
    DivUnique(n, 1000, m * p, 0);
  }

  lemma BinaryFormUnique(m: int, k: nat, n: int, l: nat, x: real)
    requires IsBinaryForm(m, k, x) && IsBinaryForm(n, l, x)
    ensures m == n && k == l
  {
    ValOrder(m * Pow(1024, k), n * Pow(1024, l), 0);
    if k < l {
      FewerFactors(m, k, n, l);
    } else {
      FewerFactors(n, l, m, k);
    }
  }

  lemma FewerFactors(m: int, k: nat, n: int, l: nat)
    requires k <= l && m * Pow(1024, k) == n * Pow(1024, l)
    ensures k < l ==> m % 1024 == 0
    ensures k == l ==> m == n
  {
    PowAdd(1024, l - k, k);
    var p, q := Pow(1024, k), Pow(1024, l - k);
    MulAssociate(n, q, p);
    MulOrder(m, n * q, p);
    MulOrder(n * q, m, p);
    if k < l {
      var r := Pow(1024, l - k - 1);
      assert q == r * 1024;
      MulAssociate(n, r, 1024);
      DivUnique(m, 1024, n * r, 0);
    }
  }

  /** No other way to write the value as an integer with a unit has a larger exponent. */
  lemma ExponentIsLargest(m: int, e: int, n: int, f: int, x: real)
    requires IsDecimalForm(m, e, x) && x == Val(n, f) && f % 3 == 0
    ensures f <= e
  {
    if f > e {
      LargerExponent(n, f, m, e);
    }
  }

  lemma PowerIsLargest(m: int, k: nat, n: int, l: nat, x: real)
    requires IsBinaryForm(m, k, x) && x == Val(n * Pow(1024, l), 0)
    ensures l <= k
  {
    ValOrder(m * Pow(1024, k), n * Pow(1024, l), 0);
    if l > k {
      FewerFactors(m, k, n, l);
    }
  }

  /** The largest multiple of three up to `e`. */
  function FloorThree(e: int): (r: int)
    ensures e - 2 <= r <= e && r % 3 == 0
  {
    e - e % 3
  }

  /** Pulling out all factors of ten and putting at most two of them back. */
  lemma StrippedDecimalForm(u: int, e: int, m: int, k: nat)
    requires u != 0 && IsStripped(u, 10, m, k)
    ensures var low := FloorThree(e + k); IsDecimalForm(m * Pow(10, e + k - low), low, Val(u, e))
  {
    var low := FloorThree(e + k);
    Rescale(m, e + k, k);
    Rescale(m, e + k, e + k - low);
    assert Pow(10, 0) == 1 && Pow(10, 1) == 10 && Pow(10, 2) == 100;
    TrailingZeros(m);
    hide FloorThree, Pow, Val;
  }

  lemma TrailingZeros(m: int)
    requires m % 10 != 0
    ensures m % 1000 != 0 && (m * 10) % 1000 != 0 && (m * 100) % 1000 != 0
  {
    var a := DivMod(m, 1000);
    var b := DivMod(m * 10, 1000);
    var c := DivMod(m * 100, 1000);
    if m % 1000 == 0 { DivUnique(m, 10, 100 * a, 0); }
    if (m * 10) % 1000 == 0 { DivUnique(m, 10, 10 * b, 0); }
    if (m * 100) % 1000 == 0 { DivUnique(m, 10, c, 0); }
  }

  lemma StrippedBinaryForm(u: int, m: int, k: nat)
    requires u != 0 && IsStripped(u, 1024, m, k)
    ensures IsBinaryForm(m, k, Val(u, 0))
  {
  }

  // ----- text

  ghost predicate IsIntegral(x: real) {
    exists n: int :: x == Val(n, 0)
  }

  /** Binary units show only whole numbers of at least 1024; exponents are the default format. */
  ghost function PrintFormat(x: real, format: Format): Format {
    match format
    case BinarySI => if !(-1024.0 < x < 1024.0) && IsIntegral(x) then BinarySI else DecimalSI
    case DecimalSI => DecimalSI
    case _ => DecimalExponent
  }

  /** A unit without a name is printed as nothing. */
  function SuffixText(base: int, exponent: int, format: Format): string {
    match ConstructBytes(base, exponent, format)
    case Some(s) => s
    case None => ""
  }

  /** The digits of the decimal form with exponent `e`. */
  ghost predicate AreDecimalDigits(number: string, e: int, x: real) {
    exists m: int :: IsDecimalForm(m, e, x) && number == RenderInt(m)
  }

  /** The digits of the binary form with `k` powers of 1024. */
  ghost predicate AreBinaryDigits(number: string, k: nat, x: real) {
    exists m: int :: IsBinaryForm(m, k, x) && number == RenderInt(m)
  }

  ghost predicate IsDecimalText(number: string, suffix: string, x: real, format: Format) {
    exists m: int, e: int :: IsDecimalForm(m, e, x) && number == RenderInt(m) && suffix == SuffixText(10, e, format)
  }

  ghost predicate IsBinaryText(number: string, suffix: string, x: real) {
    exists m: int, k: nat ::
      IsBinaryForm(m, k, x) && number == RenderInt(m) && suffix == SuffixText(2, 10 * k, BinarySI)
  }

  ghost predicate IsCanonical(number: string, suffix: string, x: real, format: Format) {
    if x == 0.0 then number == "0" && suffix == ""
    else if PrintFormat(x, format) == BinarySI then IsBinaryText(number, suffix, x)
    else IsDecimalText(number, suffix, x, PrintFormat(x, format))
  }

  ghost predicate IsCanonicalText(text: string, x: real, format: Format) {
    exists number, suffix :: IsCanonical(number, suffix, x, format) && text == number + suffix
  }

  /** Of a binary quantity only whole numbers from 1024 on have a binary text; the others look like decimal ones. */
  lemma BinaryTextIs(text: string, x: real)
    ensures (-1024.0 < x < 1024.0 || !IsIntegral(x)) ==>
              (IsCanonicalText(text, x, BinarySI) <==> IsCanonicalText(text, x, DecimalSI))
    ensures !(-1024.0 < x < 1024.0) && IsIntegral(x) ==>
              (IsCanonicalText(text, x, BinarySI) <==>
                exists number, suffix :: IsBinaryText(number, suffix, x) && text == number + suffix)
  {
    hide IsBinaryText, IsDecimalText, IsIntegral;
  }

  /** The value and the format leave no choice of text. */
  lemma CanonicalIsUnique(a: string, b: string, c: string, d: string, x: real, format: Format)
    requires IsCanonical(a, b, x, format) && IsCanonical(c, d, x, format)
    ensures a == c && b == d
  {
    if x == 0.0 {
    } else if PrintFormat(x, format) == BinarySI {
      var m, k: nat :| IsBinaryForm(m, k, x) && a == RenderInt(m) && b == SuffixText(2, 10 * k, BinarySI);
      var n, l: nat :| IsBinaryForm(n, l, x) && c == RenderInt(n) && d == SuffixText(2, 10 * l, BinarySI);
      BinaryFormUnique(m, k, n, l, x);
    } else {
      var g := PrintFormat(x, format);
      var m, e :| IsDecimalForm(m, e, x) && a == RenderInt(m) && b == SuffixText(10, e, g);
      var n, f :| IsDecimalForm(n, f, x) && c == RenderInt(n) && d == SuffixText(10, f, g);
      DecimalFormUnique(m, e, n, f, x);
    }
  }

  /** The canonical text of a value that has one. */
  ghost function CanonicalText(x: real, format: Format): string {
    if exists text :: IsCanonicalText(text, x, format) then
      var text :| IsCanonicalText(text, x, format);
      text
    else ""
  }

  lemma CanonicalTextIs(text: string, x: real, format: Format)
    requires IsCanonicalText(text, x, format)
    ensures CanonicalText(x, format) == text
  {
    var other := CanonicalText(x, format);
    var a, b :| IsCanonical(a, b, x, format) && text == a + b;
    var c, d :| IsCanonical(c, d, x, format) && other == c + d;
    CanonicalIsUnique(a, b, c, d, x, format);
  }
}
