/** Decimal digit strings: reading them and printing them (`strconv`). */
module Digits {
  import opened Powers
  import opened Int64Math

  predicate IsDigit(c: char) {
    '0' <= c <= '9'
  }

  predicate AllDigits(s: string) {
    forall i :: 0 <= i < |s| ==> IsDigit(s[i])
  }

  /** The number a digit string stands for; no digits stand for zero. */
  function DigitsValue(s: string): nat
    requires AllDigits(s)
  {
    if s == "" then 0 else 10 * DigitsValue(s[..|s| - 1]) + (s[|s| - 1] - '0') as nat
  }

  function Render(n: nat): (s: string)
    ensures s != "" && AllDigits(s)
  {
    if n < 10 then [n as char + '0'] else Render(n / 10) + [(n % 10) as char + '0']
  }

  function RenderInt(n: int): string {
    if n < 0 then "-" + Render(-n) else Render(n)
  }

  lemma {:induction false} RenderReadsBack(n: nat)
    ensures DigitsValue(Render(n)) == n
    ensures n > 0 ==> Render(n)[0] != '0'
  {
    var s := Render(n);
    if n < 10 {
      assert s[..|s| - 1] == "";
    } else {
      RenderReadsBack(n / 10);
      assert s[..|s| - 1] == Render(n / 10);
    }
  }

  lemma {:induction false} DigitsAppend(a: string, b: string)
    requires AllDigits(a) && AllDigits(b)
    ensures AllDigits(a + b)
    ensures DigitsValue(a + b) == DigitsValue(a) * Pow(10, |b|) + DigitsValue(b)
  {
    if b == "" {
      assert a + b == a;
    } else {
      var b' := b[..|b| - 1];
      DigitsAppend(a, b');
      assert (a + b)[..|a + b| - 1] == a + b';
      assert 10 * (DigitsValue(a) * Pow(10, |b'|)) == DigitsValue(a) * Pow(10, |b|);
    }
  }

  lemma {:induction false} DigitsBound(s: string)
    requires AllDigits(s)
    ensures DigitsValue(s) < Pow(10, |s|)
    ensures s != "" && s[0] != '0' ==> DigitsValue(s) >= Pow(10, |s| - 1)
  {
    if s == "" {
    } else if |s| == 1 {
      assert s[..0] == "";
      assert Pow(10, 1) == 10 * Pow(10, 0);
    } else {
      DigitsBound(s[..|s| - 1]);
    }
  }

  lemma LeadingZeros(z: string, s: string)
    requires AllDigits(s) && forall i :: 0 <= i < |z| ==> z[i] == '0'
    ensures AllDigits(z + s) && DigitsValue(z + s) == DigitsValue(s)
  {
    ZerosAreZero(z);
    DigitsAppend(z, s);
  }

  lemma {:induction false} ZerosAreZero(z: string)
    requires forall i :: 0 <= i < |z| ==> z[i] == '0'
    ensures AllDigits(z) && DigitsValue(z) == 0
  {
    if z != "" {
      ZerosAreZero(z[..|z| - 1]);
    }
  }

  /** Without leading zeros a digit string is what its number prints as. */
  lemma {:induction false} RenderOfDigits(s: string)
    requires AllDigits(s) && s != "" && (s[0] != '0' || s == "0")
    ensures Render(DigitsValue(s)) == s
  {
    var s', c := s[..|s| - 1], s[|s| - 1];
    if s' == "" {
      assert s == [c];
    } else {
      RenderOfDigits(s');
      DigitsBound(s');
      assert DigitsValue(s') >= 1;
      assert s == s' + [c];
      RenderStep(DigitsValue(s'), (c - '0') as nat);
    }
  }

  lemma RenderStep(q: nat, d: nat)
    requires q >= 1 && d < 10
    ensures Render(10 * q + d) == Render(q) + [d as char + '0']
  {
    assert (10 * q + d) / 10 == q;
  }

  /** `strconv.ParseInt(s, 10, 64)`; the flag is false on a syntax or range error. */
  function ParseInt(s: string): (int64, bool) {
    if s != "" && (s[0] == '-' || s[0] == '+') then ParseDigits(s[0] == '-', s[1..]) else ParseDigits(false, s)
  }

  function ParseDigits(negative: bool, s: string): (int64, bool) {
    if s == "" || !AllDigits(s) then (0, false)
    else
      var n := if negative then -(DigitsValue(s) as int) else DigitsValue(s);
      if IsInt64(n) then (n, true) else (0, false)
  }

  lemma ParseIntDigits(s: string)
    requires AllDigits(s) && s != "" && IsInt64(DigitsValue(s))
    ensures ParseInt(s) == (DigitsValue(s), true)
  {
    assert IsDigit(s[0]);
  }

  lemma ParseIntRender(n: int)
    ensures ParseInt(RenderInt(n)) == if IsInt64(n) then (n, true) else (0, false)
  {
    var s := Render(if n < 0 then -n else n);
    RenderReadsBack(if n < 0 then -n else n);
    if n < 0 {
      assert RenderInt(n)[1..] == s;
    } else {
      assert IsDigit(s[0]);
    }
  }
}
