/** White space, as `strings.TrimSpace` sees it. */
module Text {
  import opened Grammar

  predicate IsSpace(c: char) {
    || c == ' ' || '\t' <= c <= '\r' || c == '\U{85}' || c == '\U{A0}' || c == '\U{1680}'
    || '\U{2000}' <= c <= '\U{200A}' || c == '\U{2028}' || c == '\U{2029}' || c == '\U{202F}'
    || c == '\U{205F}' || c == '\U{3000}'
  }

  function TrimLeft(s: string): (t: string)
    ensures |t| <= |s| && (t != "" ==> !IsSpace(t[0]))
    ensures t == "" <==> forall i :: 0 <= i < |s| ==> IsSpace(s[i])
  {
    if s != "" && IsSpace(s[0]) then TrimLeft(s[1..]) else s
  }

  function TrimRight(s: string): (t: string)
    ensures |t| <= |s| && t == s[..|t|] && (t != "" ==> !IsSpace(t[|t| - 1]))
  {
    if s != "" && IsSpace(s[|s| - 1]) then TrimRight(s[..|s| - 1]) else s
  }

  function TrimSpace(s: string): string {
    TrimRight(TrimLeft(s))
  }

  lemma {:induction false} TrimmedIsEmpty(s: string)
    ensures TrimSpace(s) == "" <==> forall i :: 0 <= i < |s| ==> IsSpace(s[i])
  {
    var t := TrimLeft(s);
    if t != "" {
      KeepsFirst(t);
    }
  }

  lemma {:induction false} KeepsFirst(t: string)
    requires t != "" && !IsSpace(t[0])
    ensures TrimRight(t) != ""
  {
    if |t| > 1 && IsSpace(t[|t| - 1]) {
      KeepsFirst(t[..|t| - 1]);
    }
  }

  predicate AllSpaces(s: string) {
    forall i :: 0 <= i < |s| ==> IsSpace(s[i])
  }

  /** What is left is what stands between the outermost white space. */
  lemma TrimmedIsBetween(a: string, t: string, b: string)
    requires AllSpaces(a) && AllSpaces(b)
    requires t != "" ==> !IsSpace(t[0]) && !IsSpace(t[|t| - 1])
    ensures TrimSpace(a + t + b) == t
  {
    if t == "" {
      TrimmedIsEmpty(a + t + b);
    } else {
      assert a + t + b == a + (t + b);
      TrimsLeft(a, t + b);
      TrimsRight(t, b);
    }
  }

  lemma {:induction false} TrimsLeft(a: string, s: string)
    requires AllSpaces(a) && s != "" && !IsSpace(s[0])
    ensures TrimLeft(a + s) == s
  {
    if a == "" {
      assert a + s == s;
    } else {
      assert (a + s)[1..] == a[1..] + s;
      TrimsLeft(a[1..], s);
    }
  }

  lemma {:induction false} TrimsRight(t: string, b: string)
    requires AllSpaces(b) && t != "" && !IsSpace(t[|t| - 1])
    ensures TrimRight(t + b) == t
  {
    if b == "" {
      assert t + b == t;
    } else {
      assert (t + b)[..|t + b| - 1] == t + b[..|b| - 1];
      TrimsRight(t, b[..|b| - 1]);
    }
  }

  predicate IsDense(s: string) {
    forall i :: 0 <= i < |s| ==> !IsSpace(s[i])
  }

  lemma DenseIsTrimmed(s: string)
    requires IsDense(s)
    ensures TrimSpace(s) == s
  {
  }

  lemma ReadableIsDense(text: string)
    requires Denote(text).Ok?
    ensures IsDense(text) && text != ""
  {
    var l := AcceptedIsLiteral(text);
    hide Denote, HasSuffixShape, IsDense, Literal.Text;
    UnitEndsNumber(l);
    SuffixIsDense(l.suffix);
    LiteralIsDense(l);
  }

  lemma LiteralIsDense(l: Literal)
    requires l.NumberValid() && IsDense(l.suffix)
    ensures IsDense(l.Text())
  {
  }

  lemma SuffixIsDense(s: string)
    requires HasSuffixShape(s)
    ensures IsDense(s)
  {
  }
}
