/**
 Quantities as JSON strings (`resource/quantity.go`). `MarshalJSON` builds its result in a buffer
 of eighteen bytes that appending may or may not outgrow.
 */
module Marshalling {
  import opened Wrappers
  import opened Powers
  import opened Int64Math
  import opened Digits
  import opened Suffix
  import opened Text
  import opened Grammar
  import opened Canonical
  import opened RoundTrip
  import opened Amount
  import opened Quantities
  import opened Parser
  import opened ParsedText

  // ----- slices

  /** A Go slice whose capacity reaches to the end of its array. */
  datatype Slice = Slice(data: array<char>, start: nat, length: nat) {
    predicate Valid() {
      start + length <= data.Length
    }

    function Text(): string
      requires Valid()
      reads data
    {
      data[start..start + length]
    }
  }

  /** Appends in place if there is room, else into a new array. */
  method Append(s: Slice, t: string) returns (r: Slice)
    requires s.Valid()
    modifies s.data
    ensures r.Valid() && r.Text() == old(s.Text()) + t
    ensures s.data[..s.start + s.length] == old(s.data[..s.start + s.length])
    ensures s.start + s.length + |t| <= s.data.Length ==> r == Slice(s.data, s.start, s.length + |t|)
    ensures s.start + s.length + |t| > s.data.Length ==> fresh(r.data) && s.data[..] == old(s.data[..])
  {
    var end := s.start + s.length;
    ghost var was := s.data[..];
    if end + |t| <= s.data.Length {
      forall i | 0 <= i < |t| {
        s.data[end + i] := t[i];
      }
      r := Slice(s.data, s.start, s.length + |t|);
      Spliced(was, s.data[..], s.start, end, t);
    } else {
      var data := new char[s.length + |t|];
      forall i | 0 <= i < s.length {
        data[i] := s.data[s.start + i];
      }
      forall i | 0 <= i < |t| {
        data[s.length + i] := t[i];
      }
      r := Slice(data, 0, s.length + |t|);
      Spliced(was[s.start..end] + t, data[..], 0, s.length, t);
    }
  }

  /** Overwriting what follows the first `end` characters. */
  lemma Spliced(was: string, now: string, start: nat, end: nat, t: string)
    requires start <= end && end + |t| <= |was| == |now|
    requires forall i :: 0 <= i < end ==> now[i] == was[i]
    requires forall i :: 0 <= i < |t| ==> now[end + i] == t[i]
    ensures now[start..end + |t|] == was[start..end] + t
    ensures now[..end] == was[..end]
  {
  }

  const EXPECTED_BYTES := 18

  function Quoted(text: string): string {
    "\"" + text + "\""
  }

  lemma PrintedIsShown(q: Quantity, number: string, suffix: string)
    requires q.s == ""
    requires !q.IsSmallestBinary() ==> IsCanonical(number, suffix, q.Value(), q.format)
    requires q.IsSmallestBinary() ==> number == RenderInt(MIN_INT64) && suffix == ""
    ensures number + suffix == q.ShownText()
  {
    hide IsCanonical, RenderInt, Val, Denotes, CanonicalText;
    PrintedFacts(number, suffix, q.Value(), q.format, q.IsSmallestBinary());
  }

  lemma ZeroIsBare(q: Quantity, number: string, suffix: string)
    requires q.Value() == 0.0
    requires !q.IsSmallestBinary() ==> IsCanonical(number, suffix, q.Value(), q.format)
    ensures number == "0"
  {
    ValOrder(MIN_INT64, 0, 0);
    ValLinear(0, 0, 0);
    hide Val;
  }

  /** The text of `String` between quotes, in the buffer or not. */
  method MarshalJSON(q: Quantity) returns (r: Slice)
    ensures fresh(r.data) && r.Valid()
    ensures r.Text() == "\"" + old(q.ShownText()) + "\""
    ensures q.ShownText() == old(q.ShownText())
  {
    assert Quoted(q.ShownText()) == "\"" + q.ShownText() + "\"";
    hide Quantity.Value, Quantity.ShownText, Slice.Text, Quoted, IsCanonical, RenderInt, Val, IsKept;
    if |q.s| > 0 {
      r := QuoteCached(q.s);
      assert q.ShownText() == q.s by { CachedIsShown(q); }
      return;
    }
    var zero := q.IsZero();
    var digits, suffix := q.CanonicalizeBytes();
    PrintedIsShown(q, digits, suffix);
    if zero {
      ZeroIsBare(q, digits, suffix);
    }
    r := QuoteCanonical(zero, digits, suffix);
  }

  lemma CachedIsShown(q: Quantity)
    requires q.s != ""
    ensures q.ShownText() == q.s
  {
  }

  method QuoteCached(s: string) returns (r: Slice)
    ensures fresh(r.data) && r.Valid() && r.Text() == Quoted(s)
  {
    var out := new char[|s| + 2];
    out[0], out[out.Length - 1] := '"', '"';
    forall i | 0 <= i < |s| {
      out[1 + i] := s[i];
    }
    r := Slice(out, 0, out.Length);
    assert out[..] == Quoted(s);
  }

  /** The digits of zero are not in the buffer, other digits are if they fit. */
  method QuoteCanonical(zero: bool, digits: string, suffix: string) returns (r: Slice)
    ensures fresh(r.data) && r.Valid()
    ensures r.Text() == Quoted((if zero then "0" else digits) + suffix)
  {
    var result := new char[EXPECTED_BYTES];
    result[0] := '"';
    var number: Slice;
    if zero {
      var zeroBytes := new char[1];
      zeroBytes[0] := '0';
      number := Slice(zeroBytes, 0, 1);
    } else {
      number := Append(Slice(result, 1, 0), digits);
    }
    assert number.Text() == if zero then "0" else digits;
    assert number.length == |number.Text()|;
    hide Slice.Text, Quoted;
    if number.length > 0 && number.data == result && number.length + |suffix| + 2 <= EXPECTED_BYTES {
      r := CloseInPlace(result, number, suffix);
    } else {
      r := CloseByCopy(result, number.Text(), suffix);
    }
  }

  method CloseInPlace(result: array<char>, n: Slice, suffix: string) returns (r: Slice)
    requires n.data == result && n.start == 1 && n.length + |suffix| + 2 <= result.Length && result[0] == '"'
    modifies result
    ensures r.data == result && r.Valid() && r.Text() == Quoted(old(n.Text()) + suffix)
  {
    var number := Append(n, suffix);
    number := Append(number, "\"");
    r := Slice(result, 0, 1 + number.length);
    assert r.Text() == [result[0]] + number.Text();
  }

  method CloseByCopy(result: array<char>, number: string, suffix: string) returns (r: Slice)
    requires result.Length > 0 && result[0] == '"'
    modifies result
    ensures (r.data == result || fresh(r.data)) && r.Valid() && r.Text() == Quoted(number + suffix)
  {
    hide Slice.Text;
    r := Slice(result, 0, 1);
    assert r.Text() == "\"" by { FirstOf(result); }
    r := Append(r, number);
    r := Append(r, suffix);
    r := Append(r, "\"");
    assert Quoted(number + suffix) == "\"" + number + suffix + "\"";
  }

  lemma FirstOf(a: array<char>)
    requires a.Length > 0
    ensures Slice(a, 0, 1).Text() == [a[0]]
  {
  }

  // ----- reading

  function Unquoted(bytes: string): string {
    if |bytes| >= 2 && bytes[0] == '"' && bytes[|bytes| - 1] == '"' then bytes[1..|bytes| - 1] else bytes
  }

  ghost predicate IsQuoted(bytes: string) {
    exists s :: bytes == "\"" + s + "\""
  }

  lemma QuotesAreTaken(bytes: string, s: string)
    requires bytes == "\"" + s + "\""
    ensures bytes != "null" && Unquoted(bytes) == s
  {
    assert bytes[0] == '"';
  }

  lemma NothingIsTaken(bytes: string)
    requires !IsQuoted(bytes)
    ensures Unquoted(bytes) == bytes
  {
    assert |bytes| >= 2 && bytes[0] == '"' && bytes[|bytes| - 1] == '"' ==>
        bytes == "\"" + bytes[1..|bytes| - 1] + "\"";
  }

  /** Bytes without quotes, such as a number of JSON, are parsed as they are; others without their quotes. */
  lemma TextOfBytes(bytes: string)
    ensures !IsQuoted(bytes) && Denote(bytes).Ok? ==> TrimSpace(Unquoted(bytes)) == bytes
    ensures forall s :: bytes == "\"" + s + "\"" ==> bytes != "null" && Unquoted(bytes) == s
  {
    hide *;
    if !IsQuoted(bytes) && Denote(bytes).Ok? {
      ReadableIsDense(bytes);
      DenseIsTrimmed(bytes);
      NothingIsTaken(bytes);
    }
    forall s | bytes == "\"" + s + "\"" ensures bytes != "null" && Unquoted(bytes) == s {
      QuotesAreTaken(bytes, s);
    }
  }

  /** A null makes the quantity zero but leaves its cached string alone. */
  method UnmarshalJSON(q: Quantity, bytes: string) returns (err: Option<ParseError>)
    modifies q
    ensures bytes == "null" ==>
              && err.None? && q.Value() == 0.0 && q.s == old(q.s) && q.format == old(q.format)
              && (q.Coherent() <==> old(q.s) == "" || Denotes(old(q.s), 0.0))
    ensures bytes != "null" ==>
              var text := TrimSpace(Unquoted(bytes));
              && (err.Some? ==> Denote(text) == Err(err.value) && unchanged(q))
              && (err.None? ==> IsParsed(q, text) && q.Coherent())
    ensures bytes != "null" && !IsQuoted(bytes) && Denote(bytes).Ok? ==> err.None? && IsParsed(q, bytes)
    ensures forall s :: bytes == "\"" + s + "\"" ==>
              && (err.None? <==> Denote(TrimSpace(s)).Ok?)
              && (err.None? ==> IsParsed(q, TrimSpace(s)))
  {
    TextOfBytes(bytes);
    hide Denote, ReusesInput, TrimSpace, Unquoted, IsQuoted;
    if bytes == "null" {
      ValLinear(0, 0, 0);
      q.d := null;
      q.i := Int64Amount(0, 0);
      return None;
    }
    var parsed := ParseQuantity(TrimSpace(Unquoted(bytes)));
    if parsed.Err? {
      return Some(parsed.error);
    }
    q.i, q.d, q.s, q.format := parsed.value.i, parsed.value.d, parsed.value.s, parsed.value.format;
    return None;
  }

  /** The policies write their settings as JSON numbers. */
  method FiveIsRead() returns (q: Quantity, err: Option<ParseError>)
    ensures err.None? && q.Value() == 5.0
  {
    FiveIsBare();
    hide Denote, Val;
    q := new Quantity(Int64Amount(0, 0), null, "", DecimalSI);
    err := UnmarshalJSON(q, "5");
  }

  lemma FiveIsBare()
    ensures Denotes("5", 5.0) && !IsQuoted("5") && "5" != "null"
  {
    assert RenderInt(5) == "5" && Val(5, 0) == 5.0;
    assert "5"[0] == '5';
    hide Denote, Val;
    BareText(5, 5.0);
  }

  // ----- round trip

  lemma CanonicalIsDense(number: string, suffix: string, x: real, format: Format)
    requires IsCanonical(number, suffix, x, format)
    ensures IsDense(number + suffix)
  {
    if x == 0.0 {
    } else if PrintFormat(x, format) == BinarySI {
      var m, k: nat :| IsBinaryForm(m, k, x) && number == RenderInt(m) && suffix == SuffixText(2, 10 * k, BinarySI);
      SuffixTextIsDense(2, 10 * k, BinarySI);
    } else {
      var f := PrintFormat(x, format);
      var m, e :| IsDecimalForm(m, e, x) && number == RenderInt(m) && suffix == SuffixText(10, e, f);
      SuffixTextIsDense(10, e, f);
    }
    hide SuffixText, Render, IsDecimalForm, IsBinaryForm, PrintFormat;
  }

  lemma SuffixTextIsDense(base: int, exponent: int, format: Format)
    ensures IsDense(SuffixText(base, exponent, format))
  {
    hide Render;
  }

  lemma CanonicalTextIsDense(text: string, x: real, format: Format)
    requires IsCanonicalText(text, x, format)
    ensures IsDense(text)
  {
    hide IsCanonical, IsDense;
    var number, suffix :| IsCanonical(number, suffix, x, format) && text == number + suffix;
    CanonicalIsDense(number, suffix, x, format);
  }

  lemma ShownIsDense(q: Quantity)
    requires q.Truthful()
    ensures IsDense(q.ShownText())
  {
    hide IsDense, Denote, IsCanonicalText, Val;
    if q.s != "" {
      if q.Coherent() {
        ReadableIsDense(q.s);
      } else {
        CanonicalTextIsDense(q.s, q.Value(), q.format);
      }
    } else if q.IsSmallestBinary() {
      SmallestIsDense();
    } else {
      var u, e := if q.d != null then q.d.unscaled else q.i.value, if q.d != null then -q.d.scale else q.i.scale;
      CanonicalTextExists(u, e, q.format);
      CanonicalTextIsDense(q.ShownText(), q.Value(), q.format);
    }
  }

  lemma SmallestIsDense()
    ensures IsDense(RenderInt(MIN_INT64))
  {
    hide Render;
  }

  /** What `MarshalJSON` writes reads back as the same value exactly if the text of `String` does. */
  lemma MarshalledReadsBack(q: Quantity)
    requires q.Truthful()
    ensures var text := TrimSpace(Unquoted(Quoted(q.ShownText())));
            Denotes(text, q.Value()) <==> Survives(q)
  {
    ShownTextReadsBack(q);
    ShownIsDense(q);
    DenseIsTrimmed(q.ShownText());
    hide *;
    assert Unquoted(Quoted(q.ShownText())) == q.ShownText();
  }
}
