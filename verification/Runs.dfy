/**
 Runs of quantity operations on a set of variables. Whatever mix of int64 and decimal
 representations a run passes through, every value, comparison and text is what exact arithmetic
 gives, and every cached string stays right, as long as no two variables share a decimal.
 */
module Runs {
  import opened Wrappers
  import opened Powers
  import opened Rounding
  import opened Int64Math
  import opened Suffix
  import opened Grammar
  import opened Canonical
  import opened RoundTrip
  import opened Amount
  import opened Quantities
  import opened Parser

  /** An operation on variable `k`, perhaps with variable `l`. */
  datatype Operation =
    | Parse(k: nat, str: string)
    | Assign(k: nat, l: nat)
    | Add(k: nat, l: nat)
    | Sub(k: nat, l: nat)
    | Neg(k: nat)
    | RoundUp(k: nat, scale: int)
    | SetScaled(k: nat, value: int64, scale: int)
    | Cmp(k: nat, l: nat)
    | String(k: nat)
  {
    predicate InRange(n: nat) {
      k < n && (Assign? || Add? || Sub? || Cmp? ==> l < n)
    }

    function Other(): nat {
      if Assign? || Add? || Sub? || Cmp? then l else k
    }
  }

  datatype Output = Silent | Failed | Rounded(exact: bool) | Order(sign: int) | Text(text: string)

  datatype Number = Number(value: real, format: Format)

  /** A variable: its number, and the int64 amount if it is held as one. */
  datatype Entry = Entry(number: Number, amount: Option<Int64Amount>) {
    ghost predicate Agrees() {
      amount.Some? ==> amount.value.Value() == number.value
    }
  }

  // ----- exact arithmetic

  /** What exact arithmetic makes of a variable. */
  ghost function Next(op: Operation, x: Number, y: Number): Number {
    match op
    case Parse(_, str) => if Denote(str).Ok? then Number(Denote(str).value.value, Denote(str).value.format) else x
    case Assign(_, _) => y
    case Add(_, _) => Number(x.value + y.value, if x.value == 0.0 then y.format else x.format)
    case Sub(_, _) => Number(x.value - y.value, if x.value == 0.0 then y.format else x.format)
    case Neg(_) => Number(-x.value, x.format)
    case RoundUp(_, scale) => Number(Rounding.RoundUp(x.value, scale), x.format)
    case SetScaled(_, value, scale) => Number(Val(value, scale), x.format)
    case Cmp(_, _) => x
    case String(_) => x
  }

  /** Exactly when int64 arithmetic negates its smallest number. */
  ghost predicate Wraps(op: Operation, x: Entry, y: Entry) {
    || (op.Sub? && x.amount.Some? && y.amount.Some? && x.amount.value.SubWraps(y.amount.value))
    || (op.Neg? && x.amount.Some? && x.amount.value.value == MIN_INT64)
  }

  /** What becomes of a variable then: the other one is added, or nothing is negated. */
  ghost function Wrapped(op: Operation, x: Number, y: Number): Number {
    Number(if op.Sub? then x.value + y.value else x.value, Next(op, x, y).format)
  }

  ghost predicate Reports(op: Operation, x: Number, y: Number, z: Number, out: Output) {
    match op
    case Parse(_, str) => out == if Denote(str).Ok? then Silent else Failed
    case RoundUp(_, _) => out == Rounded(z.value == x.value)
    case Cmp(_, _) => out == Order(Sgn(x.value - y.value))
    case String(_) => out.Text? && Shows(out.text, x)
    case _ => out == Silent
  }

  /** What is known of the amount beside the number: it is the number, and copying and setting determine it. */
  ghost predicate Holds(op: Operation, x: Entry, y: Entry, z: Entry) {
    && z.Agrees()
    && match op
       case Parse(_, str) => Denote(str).Ok? && z.amount.Some? ==> z.amount.value.value != MIN_INT64
       case Assign(_, _) => z.amount == y.amount
       case SetScaled(_, value, scale) => z.amount == Some(Int64Amount(value, scale))
       case String(_) => z.amount == x.amount
       case _ => true
  }

  ghost predicate Turns(op: Operation, x: Entry, y: Entry, z: Entry, out: Output) {
    && Holds(op, x, y, z)
    && z.number == (if Wraps(op, x, y) then Wrapped(op, x.number, y.number) else Next(op, x.number, y.number))
    && Reports(op, x.number, y.number, z.number, out)
  }

  /** A text that reads back as the value or is its canonical text. */
  ghost predicate Shows(text: string, x: Number) {
    Denotes(text, x.value) || IsCanonicalText(text, x.value, x.format)
  }

  /** An operation changes its own variable only. */
  ghost predicate Steps(a: seq<Entry>, op: Operation, b: seq<Entry>, out: Output) {
    && op.InRange(|a|) && |b| == |a|
    && Turns(op, a[op.k], a[op.Other()], b[op.k], out)
    && forall i :: 0 <= i < |a| && i != op.k ==> b[i] == a[i]
  }

  /** Every step on the way from `a` to `b`; `wrapped` says at which steps int64 arithmetic wraps. */
  ghost predicate Reaches(a: seq<Entry>, ops: seq<Operation>, b: seq<Entry>, outs: seq<Output>, wrapped: seq<bool>) {
    |outs| == |ops| == |wrapped| &&
    if ops == [] then a == b
    else
      var n := |ops| - 1;
      exists m ::
        && Reaches(a, ops[..n], m, outs[..n], wrapped[..n])
        && Steps(m, ops[n], b, outs[n])
        && (wrapped[n] <==> Wraps(ops[n], m[ops[n].k], m[ops[n].Other()]))
  }

  function Numbers(es: seq<Entry>): (ns: seq<Number>)
    ensures |ns| == |es| && forall i :: 0 <= i < |es| ==> ns[i] == es[i].number
  {
    seq(|es|, i requires 0 <= i < |es| => es[i].number)
  }

  predicate AllInRange(ops: seq<Operation>, n: nat) {
    forall i :: 0 <= i < |ops| ==> ops[i].InRange(n)
  }

  ghost predicate AllAgree(es: seq<Entry>) {
    forall i :: 0 <= i < |es| ==> es[i].Agrees()
  }

  /** The end of a run of exact arithmetic. */
  ghost function After(a: seq<Number>, ops: seq<Operation>): (b: seq<Number>)
    requires AllInRange(ops, |a|)
    ensures |b| == |a|
  {
    if ops == [] then a
    else
      var n := |ops| - 1;
      var m, op := After(a, ops[..n]), ops[n];
      assert op.InRange(|a|);
      m[op.k := Next(op, m[op.k], m[op.Other()])]
  }

  /** No number that is subtracted or negated on the way is -2^63 at any scale. */
  ghost predicate NeverSmallest(a: seq<Number>, ops: seq<Operation>) {
    AllInRange(ops, |a|) &&
    forall n :: 0 <= n < |ops| && ops[n].InRange(|a|) && (ops[n].Sub? || ops[n].Neg?) ==>
      !IsSmallest(After(a, ops[..n])[ops[n].Other()])
  }

  ghost predicate IsSmallest(x: Number) {
    exists e: int :: x.value == Val(MIN_INT64, e)
  }

  /** Then the end of a run, whatever the representations, is determined by the numbers at its start. */
  lemma {:induction false} RunIsExact(a: seq<Entry>, ops: seq<Operation>, b: seq<Entry>, outs: seq<Output>,
                                      wrapped: seq<bool>)
    requires AllAgree(a) && NeverSmallest(Numbers(a), ops)
    requires Reaches(a, ops, b, outs, wrapped)
    ensures Numbers(b) == After(Numbers(a), ops) && AllAgree(b)
    ensures true !in wrapped
  {
    hide Reaches, Next, Wraps, Wrapped, Turns, Numbers, IsSmallest, AllAgree, NeverSmallest;
    if ops == [] {
      NoSteps(a, b, outs, wrapped);
    } else {
      var n := |ops| - 1;
      var m := LastState(a, ops, b, outs, wrapped);
      var op := ops[n];
      FewerSteps(Numbers(a), ops);
      RunIsExact(a, ops[..n], m, outs[..n], wrapped[..n]);
      NotWrapping(op, m);
      StepIsNext(m, op, b, outs[n]);
      assert wrapped == wrapped[..n] + [wrapped[n]];
    }
  }

  lemma NoSteps(a: seq<Entry>, b: seq<Entry>, outs: seq<Output>, wrapped: seq<bool>)
    requires Reaches(a, [], b, outs, wrapped)
    ensures a == b && outs == [] && wrapped == []
  {
  }

  lemma NotWrapping(op: Operation, m: seq<Entry>)
    requires AllAgree(m) && op.InRange(|m|)
    requires op.Sub? || op.Neg? ==> !IsSmallest(Numbers(m)[op.Other()])
    ensures !Wraps(op, m[op.k], m[op.Other()])
  {
    hide Wraps, IsSmallest;
    if Wraps(op, m[op.k], m[op.Other()]) {
      WrapsOnSmallest(op, m[op.k], m[op.Other()]);
    }
  }

  lemma LastState(a: seq<Entry>, ops: seq<Operation>, b: seq<Entry>, outs: seq<Output>, wrapped: seq<bool>)
    returns (m: seq<Entry>)
    requires Reaches(a, ops, b, outs, wrapped) && ops != []
    ensures |outs| == |ops| == |wrapped|
    ensures var n := |ops| - 1;
            && Reaches(a, ops[..n], m, outs[..n], wrapped[..n])
            && Steps(m, ops[n], b, outs[n])
            && (wrapped[n] <==> Wraps(ops[n], m[ops[n].k], m[ops[n].Other()]))
  {
    hide Wraps, Turns;
    var n := |ops| - 1;
    m :|
      && Reaches(a, ops[..n], m, outs[..n], wrapped[..n])
      && Steps(m, ops[n], b, outs[n])
      && (wrapped[n] <==> Wraps(ops[n], m[ops[n].k], m[ops[n].Other()]));
  }

  lemma StepIsNext(m: seq<Entry>, op: Operation, b: seq<Entry>, out: Output)
    requires Steps(m, op, b, out) && op.InRange(|m|) && !Wraps(op, m[op.k], m[op.Other()])
    requires AllAgree(m)
    ensures Numbers(b) == Numbers(m)[op.k := Next(op, Numbers(m)[op.k], Numbers(m)[op.Other()])]
    ensures AllAgree(b)
  {
    hide Next, Wraps, Wrapped, Reports, Numbers, Entry.Agrees;
  }

  lemma FewerSteps(a: seq<Number>, ops: seq<Operation>)
    requires ops != [] && NeverSmallest(a, ops)
    ensures AllInRange(ops[..|ops| - 1], |a|) && NeverSmallest(a, ops[..|ops| - 1])
    ensures var n := |ops| - 1;
            ops[n].InRange(|a|) && (ops[n].Sub? || ops[n].Neg? ==> !IsSmallest(After(a, ops[..n])[ops[n].Other()]))
  {
    hide After, IsSmallest;
    assert forall n :: 0 <= n < |ops| - 1 ==> ops[..|ops| - 1][..n] == ops[..n];
  }

  /** Wrapping takes -2^63 at some scale, and then it does change the result. */
  lemma WrapsOnSmallest(op: Operation, x: Entry, y: Entry)
    requires Wraps(op, x, y) && (op.Neg? ==> x == y) && y.Agrees()
    ensures (op.Sub? || op.Neg?) && IsSmallest(y.number)
    ensures Wrapped(op, x.number, y.number) != Next(op, x.number, y.number)
  {
    var e := y.amount.value.scale;
    ValOrder(MIN_INT64, 0, e);
    ValLinear(0, 0, e);
    hide Val;
    assert y.number.value == Val(MIN_INT64, e);
  }

  // ----- the variables

  ghost function EntryOf(q: Quantity): (e: Entry)
    reads q, q.d
    ensures e.Agrees()
  {
    Entry(Number(q.Value(), q.format), if q.d == null then Some(q.i) else None)
  }

  /** Different variables with different decimals, and caches that are right. */
  ghost predicate Owned(qs: seq<Quantity>)
    reads qs, set q | q in qs :: q.d
  {
    && (forall i, j :: 0 <= i < j < |qs| ==> qs[i] != qs[j] && (qs[i].d == null || qs[i].d != qs[j].d))
    && (forall i :: 0 <= i < |qs| ==> qs[i].Truthful())
  }

  ghost function Entries(qs: seq<Quantity>): (es: seq<Entry>)
    reads qs, set q | q in qs :: q.d
    ensures |es| == |qs| && forall i :: 0 <= i < |qs| ==> es[i] == EntryOf(qs[i])
  {
    seq(|qs|, i requires 0 <= i < |qs| reads qs, set q | q in qs :: q.d => EntryOf(qs[i]))
  }

  lemma ParsedIsCoherent(q: Quantity, str: string)
    requires IsParsed(q, str)
    ensures q.Coherent()
  {
    hide ReusesInput;
  }

  method Perform(q: Quantity, y: Quantity, op: Operation) returns (out: Output)
    requires q.Truthful() && y.Truthful()
    requires op.Other() == op.k ==> y == q
    modifies q, q.d
    ensures Turns(op, old(EntryOf(q)), old(EntryOf(y)), EntryOf(q), out)
    ensures q.d == null || q.d == old(q.d) || fresh(q.d)
    ensures q.Truthful()
  {
    hide Denote, Denotes, IsCanonicalText, Val, ReusesInput, IsKept;
    out := Silent;
    match op
    case Parse(_, str) =>
      var r := ParseQuantity(str);
      if r.Ok? {
        q.i, q.d, q.s, q.format := r.value.i, r.value.d, r.value.s, r.value.format;
        ParsedIsCoherent(r.value, str);
      } else {
        out := Failed;
      }
    case Assign(_, _) =>
      var c := y.DeepCopy();
      q.i, q.d, q.s, q.format := c.i, c.d, c.s, c.format;
    case Add(_, _) =>
      q.Add(y);
    case Sub(_, _) =>
      q.Sub(y);
    case Neg(_) =>
      q.Neg();
    case RoundUp(_, scale) =>
      var exact := q.RoundUp(scale);
      out := Rounded(exact);
    case SetScaled(_, value, scale) =>
      q.SetScaled(value, scale);
    case Cmp(_, _) =>
      var r := q.Cmp(y);
      out := Order(r);
    case String(_) =>
      var r := q.String();
      out := Text(r);
  }

  /** One operation on the variables. */
  method Step(qs: seq<Quantity>, op: Operation) returns (out: Output)
    requires Owned(qs) && op.InRange(|qs|)
    modifies qs[op.k], qs[op.k].d
    ensures Owned(qs)
    ensures Steps(old(Entries(qs)), op, Entries(qs), out)
    ensures qs[op.k].d == null || qs[op.k].d == old(qs[op.k].d) || fresh(qs[op.k].d)
  {
    hide Turns, Quantity.Value, Quantity.Truthful;
    out := Perform(qs[op.k], qs[op.Other()], op);
    forall i | 0 <= i < |qs| && i != op.k ensures EntryOf(qs[i]) == old(EntryOf(qs[i])) && qs[i].Truthful() {
      assert qs[i] != qs[op.k] && (qs[i].d == null || qs[i].d != old(qs[op.k].d));
    }
  }

  /** Any number of operations: the variables go through the states of exact arithmetic where nothing wraps. */
  method Run(qs: seq<Quantity>, ops: seq<Operation>) returns (outs: seq<Output>, ghost wrapped: seq<bool>)
    requires Owned(qs) && AllInRange(ops, |qs|)
    modifies qs, set q | q in qs :: q.d
    ensures Owned(qs)
    ensures Reaches(old(Entries(qs)), ops, Entries(qs), outs, wrapped)
    ensures AllAgree(Entries(qs))
  {
    outs, wrapped := [], [];
    hide Steps, Wraps, Quantity.Value, Quantity.Truthful;
    ghost var decs := set q | q in qs :: q.d;
    for n := 0 to |ops|
      invariant Owned(qs)
      invariant forall i :: 0 <= i < |qs| ==> qs[i].d == null || qs[i].d in decs || fresh(qs[i].d)
      invariant Reaches(old(Entries(qs)), ops[..n], Entries(qs), outs, wrapped)
    {
      ghost var before, outsBefore, wrappedBefore := Entries(qs), outs, wrapped;
      ghost var wraps := Wraps(ops[n], before[ops[n].k], before[ops[n].Other()]);
      var out := Step(qs, ops[n]);
      outs, wrapped := outs + [out], wrapped + [wraps];
      assert ops[..n + 1][..n] == ops[..n] && outs[..n] == outsBefore && wrapped[..n] == wrappedBefore;
      assert Reaches(old(Entries(qs)), ops[..n], before, outsBefore, wrappedBefore);
      assert Steps(before, ops[n], Entries(qs), out);
    }
    assert ops[..|ops|] == ops;
  }

  /** Adding to a plain copy is harmless exactly if no cache, no shared decimal or nothing to add is there. */
  method AddToCopy(q: Quantity, y: Quantity) returns (c: Quantity)
    requires q.Coherent()
    modifies q.d
    ensures c.Value() == old(q.Value()) + old(y.Value())
    ensures q.Coherent() <==> q.s == "" || q.d == null || old(y.Value()) == 0.0
  {
    hide Denote;
    c := q.Copy();
    c.Add(y);
  }
}
