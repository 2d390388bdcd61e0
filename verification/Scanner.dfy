/** The hand-written scanner of quantity strings (`parseQuantityString`). */
module Scanner {
  import opened Wrappers
  import opened Grammar

  /** `str[i..j]` is of class `k`, and the string does not go on with it. */
  ghost predicate IsRun(str: string, i: nat, j: nat, k: CharClass) {
    && i <= j <= |str|
    && (forall x :: i <= x < j ==> k.Has(str[x]))
    && (j < |str| ==> !k.Has(str[j]))
  }

  lemma SplitAt(str: string, i: nat, j: nat, k: CharClass)
    requires IsRun(str, i, j, k)
    ensures Split(str[i..], k) == (str[i..j], str[j..])
  {
    assert str[i..] == str[i..j] + str[j..];
    assert forall x :: 0 <= x < j - i ==> str[i..j][x] == str[i + x];
    SplitIs(str[i..j], str[j..], k);
  }

  /** The scan of `str`, from the positions where its parts begin. */
  lemma ScanAt(str: string, positive: bool, start: nat, z: nat, n: nat)
    requires start == |SplitSign(str).0| && positive == (SplitSign(str).0 != "-")
    requires IsRun(str, start, z, Zero) && IsRun(str, z, n, Digit)
    ensures Scan(str) ==
            if z == |str| then Some(Scanned(positive, "0", "0", "", ""))
            else ScanTail(str, positive, str[z..n], str[n..])
  {
    var (sign, unsigned) := SplitSign(str);
    assert unsigned == str[start..];
    SplitAt(str, start, z, Zero);
    SplitAt(str, z, n, Digit);
  }

  lemma FractionAt(str: string, n: nat, m: nat)
    requires n < |str| && str[n] == '.'
    requires IsRun(str, n + 1, m, Digit)
    ensures SplitFraction(str[n..]) == (str[n + 1..m], str[m..])
  {
    assert str[n..][1..] == str[n + 1..];
    SplitAt(str, n + 1, m, Digit);
  }

  lemma ShapeAt(str: string, suffixStart: nat, letters: nat, digits: nat)
    requires IsRun(str, suffixStart, letters, SuffixLetter)
    requires var p := if letters < |str| && IsSign(str[letters]) then letters + 1 else letters;
             IsRun(str, p, digits, Digit)
    ensures HasSuffixShape(str[suffixStart..]) <==> digits == |str|
  {
    SplitAt(str, suffixStart, letters, SuffixLetter);
    var p := if letters < |str| && IsSign(str[letters]) then letters + 1 else letters;
    assert SplitSign(str[letters..]).1 == str[p..];
    SplitAt(str, p, digits, Digit);
  }

  /** The rest of the scan, once the digits before the point end at `n`. */
  lemma TailAt(str: string, positive: bool, digits: string, n: nat, m: nat)
    requires n <= m <= |str|
    requires if n < |str| && str[n] == '.' then IsRun(str, n + 1, m, Digit) else m == n
    ensures ScanTail(str, positive, digits, str[n..]) ==
            if !HasSuffixShape(str[m..]) then None
            else
              var denom := if n < m then str[n + 1..m] else "";
              Some(Scanned(positive, str[..m], if digits == "" then "0" else digits, denom, str[m..]))
  {
    hide HasSuffixShape, Split;
    if n < |str| && str[n] == '.' {
      FractionAt(str, n, m);
    } else {
      assert SplitFraction(str[n..]) == ("", str[m..]);
    }
  }

  /** The whole scan, from the positions where the scanner stops. */
  lemma PositionsScan(str: string, sc: Scanned, start: nat, z: nat, n: nat, m: nat)
    requires start == |SplitSign(str).0| && sc.positive == (SplitSign(str).0 != "-")
    requires IsRun(str, start, z, Zero) && z < |str| && IsRun(str, z, n, Digit)
    requires z <= n <= m <= |str|
    requires if n < |str| && str[n] == '.' then IsRun(str, n + 1, m, Digit) else m == n
    requires sc.num == (if z == n then "0" else str[z..n])
    requires sc.denom == (if n < m then str[n + 1..m] else "")
    requires sc.value == str[..m] && sc.suffix == str[m..]
    ensures Scan(str) == if HasSuffixShape(sc.suffix) then Some(sc) else None
  {
    hide *;
    ScanAt(str, sc.positive, start, z, n);
    TailAt(str, sc.positive, str[z..n], n, m);
  }

  /** The loop that the scanner repeats for zeros, digits and suffix letters. */
  method RunEnd(str: string, pos: nat, k: CharClass) returns (i: nat)
    requires pos <= |str|
    ensures pos <= i <= |str| && IsRun(str, pos, i, k)
  {
    i := pos;
    while i < |str| && k.Has(str[i])
      invariant pos <= i <= |str|
      invariant forall x :: pos <= x < i ==> k.Has(str[x])
    {
      i := i + 1;
    }
  }

  method ParseQuantityString(str: string) returns (r: Result<Scanned, ParseError>)
    ensures r == if Scan(str).Some? then Ok(Scan(str).value) else Err(FormatWrong)
  {
    hide Scan;
    var positive, pos, end := true, 0, |str|;
    if pos < end {
      if str[0] == '-' {
        positive := false;
        pos := pos + 1;
      } else if str[0] == '+' {
        pos := pos + 1;
      }
    }

    // strip leading zeros
    ghost var start := pos;
    assert start == |SplitSign(str).0| && positive == (SplitSign(str).0 != "-");
    hide *;
    pos := RunEnd(str, pos, Zero);
    if pos >= end {
      r := Ok(Scanned(positive, "0", "0", "", ""));
      ScanAt(str, positive, start, pos, pos);
      return;
    }

    // the digits before the point
    var numStart := pos;
    pos := RunEnd(str, pos, Digit);
    var num := if numStart == pos then "0" else str[numStart..pos];

    // the digits after the point
    ghost var numEnd := pos;
    var denom := "";
    if pos < end && str[pos] == '.' {
      var denomStart := pos + 1;
      pos := RunEnd(str, denomStart, Digit);
      denom := str[denomStart..pos];
    }
    var value := str[..pos];

    var scanned := Scanned(positive, value, num, denom, str[pos..]);
    PositionsScan(str, scanned, start, numStart, numEnd, pos);
    var ok := ScanSuffix(str, pos);
    return if ok then Ok(scanned) else Err(FormatWrong);
  }

  /** The last stretch of the scanner: letters, a sign, digits, and nothing else. */
  method ScanSuffix(str: string, suffixStart: nat) returns (ok: bool)
    requires suffixStart <= |str|
    ensures ok <==> HasSuffixShape(str[suffixStart..])
  {
    var letters := RunEnd(str, suffixStart, SuffixLetter);
    var pos := letters;
    if pos < |str| && IsSign(str[pos]) {
      pos := pos + 1;
    }
    pos := RunEnd(str, pos, Digit);
    ShapeAt(str, suffixStart, letters, pos);
    return pos >= |str|;
  }
}
