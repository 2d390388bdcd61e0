/**
 When valid settings alone make every admitted limit cover its request. The comments in `settings.go`
 promise it of all valid settings.
 */
module Coverage {
  import opened Wrappers
  import opened Powers
  import opened Digits
  import opened Text
  import opened Grammar
  import opened RoundTrip
  import opened Admission

  // ----- quantities within and beyond bounds

  /** A bound that is not configured, or that some string stands for, as for every parsed quantity. */
  ghost predicate IsWritten(x: real) {
    x == 0.0 || exists text :: Denotes(text, x)
  }

  ghost predicate AllWritten(c: Config) {
    IsWritten(c.minLimit) && IsWritten(c.maxLimit) && IsWritten(c.minRequest) && IsWritten(c.maxRequest)
  }

  lemma WholeNumber(n: int) returns (text: string)
    ensures Denotes(text, n as real)
  {
    text := RenderInt(n);
    BareText(n, Val(n, 0));
    assert Val(n, 0) == n as real;
  }

  lemma Within(low: real, high: real) returns (text: string)
    requires IsWritten(low) && IsWritten(high) && InOrder(low, high)
    ensures Denote(text).Ok? && InBounds(text, low, high)
  {
    if low != 0.0 {
      text :| Denotes(text, low);
    } else if high != 0.0 {
      text :| Denotes(text, high);
    } else {
      text := WholeNumber(0);
    }
  }

  lemma Beyond(low: real, x: real) returns (text: string)
    ensures Denote(text).Ok? && InBounds(text, low, 0.0) && x < Denote(text).value.value
  {
    var n := if low < x then x.Floor + 1 else low.Floor + 1;
    text := WholeNumber(n);
    hide Denote;
  }

  lemma Below(high: real, x: real) returns (text: string)
    ensures Denote(text).Ok? && InBounds(text, 0.0, high) && Denote(text).value.value < x
  {
    var n := if high < x then high.Floor - 1 else x.Floor - 1;
    text := WholeNumber(n);
    hide Denote;
  }

  // ----- one resource

  /** The chain separates requests from limits: both sides of the gap are configured. */
  predicate Separates(c: Option<Config>) {
    c.Some? && !c.value.Ignored() && c.value.maxRequest != 0.0 && c.value.minLimit != 0.0
  }

  /** Both quantities given, and accepted. */
  ghost predicate IsAccepted(limit: string, request: string, c: Option<Config>) {
    && Denote(limit).Ok? && Denote(request).Ok?
    && (c.Some? && !c.value.Ignored() ==>
          && InBounds(limit, c.value.minLimit, c.value.maxLimit)
          && InBounds(request, c.value.minRequest, c.value.maxRequest))
  }

  lemma SomeAccepted(c: Option<Config>) returns (limit: string, request: string)
    requires c.Some? ==> c.value.Ascends() && AllWritten(c.value)
    ensures IsAccepted(limit, request, c)
  {
    if c.Some? {
      AscendsIs(c.value);
      limit := Within(c.value.minLimit, c.value.maxLimit);
      request := Within(c.value.minRequest, c.value.maxRequest);
    } else {
      limit := WholeNumber(0);
      request := limit;
    }
  }

  /** Without the gap some accepted limit is below an accepted request. */
  lemma SomeUncovered(c: Option<Config>) returns (limit: string, request: string)
    requires !Separates(c) && (c.Some? ==> c.value.Ascends() && AllWritten(c.value))
    ensures IsAccepted(limit, request, c) && Denote(limit).value.value < Denote(request).value.value
  {
    limit, request := SomeAccepted(c);
    hide Denote, Config.Ascends, Config.Ignored, AllWritten;
    if c.None? || c.value.Ignored() {
      request := Beyond(0.0, Denote(limit).value.value);
    } else if c.value.maxRequest == 0.0 {
      request := Beyond(c.value.minRequest, Denote(limit).value.value);
    } else {
      limit := Below(c.value.maxLimit, Denote(request).value.value);
    }
  }

  lemma SeparatedCovers(r: Resources, name: string, c: Config)
    requires Separates(Some(c)) && c.Ascends() && ConfigAccepts(r, name, c)
    ensures LimitCoversRequest(r, name)
  {
    AscendsIs(c);
    hide Denote, TrimSpace, Config.Ascends, Config.Ignored;
  }

  // ----- settings

  function ConfigOf(s: Settings, name: string): Option<Config> {
    if name == "memory" then s.memory else s.cpu
  }

  ghost predicate CoversAlways(s: Settings, name: string) {
    forall r :: IsPresent(r, s) && Accepts(r, s) ==> LimitCoversRequest(Adjusted(r, s), name)
  }

  function Both(memory: string, cpu: string): QuantityMap {
    map["memory" := Some(memory), "cpu" := Some(cpu)]
  }

  /** A container that gives everything is accepted as it is. */
  lemma GivenIsAccepted(ml: string, mr: string, cl: string, cr: string, s: Settings)
    requires IsAccepted(ml, mr, s.memory) && IsAccepted(cl, cr, s.cpu)
    ensures var r := Resources(Both(ml, cl), Both(mr, cr));
            && IsPresent(r, s) && Accepts(r, s) && Adjusted(r, s) == r
            && !IsMissing(r.limits, "memory") && !IsMissing(r.requests, "memory")
            && !IsMissing(r.limits, "cpu") && !IsMissing(r.requests, "cpu")
  {
    BothGiven(ml, cl);
    BothGiven(mr, cr);
    hide Denote, IsMissing, Both, Config.Ignored, InBounds;
    var r := Resources(Both(ml, cl), Both(mr, cr));
    assert !Mutates(r, s);
    NothingToAdjust(r, s);
    assert BoundsAccept(r, s);
  }

  lemma BothGiven(memory: string, cpu: string)
    requires Denote(memory).Ok? && Denote(cpu).Ok?
    ensures var m := Both(memory, cpu);
            && "memory" in m && m["memory"] == Some(memory) && !IsMissing(m, "memory")
            && "cpu" in m && m["cpu"] == Some(cpu) && !IsMissing(m, "cpu")
  {
    hide Denote, TrimSpace;
    ReadableIsNotBlank(memory);
    ReadableIsNotBlank(cpu);
  }

  lemma NothingToAdjust(r: Resources, s: Settings)
    requires !Mutates(r, s)
    ensures Adjusted(r, s) == r
  {
    hide TrimSpace, Config.Ignored;
  }

  lemma AcceptedIsCovered(r: Resources, s: Settings, name: string)
    requires name == "memory" || name == "cpu"
    requires s.Valid() && Accepts(r, s) && Separates(ConfigOf(s, name))
    ensures LimitCoversRequest(Adjusted(r, s), name)
  {
    hide ConfigAccepts, LimitCoversRequest, Mutates, Adjusted, Config.Ascends, Config.Ignored;
    if !Mutates(r, s) {
      NothingToAdjust(r, s);
      SeparatedCovers(r, name, ConfigOf(s, name).value);
    }
  }

  lemma NotCovered(s: Settings, name: string)
    requires name == "memory" || name == "cpu"
    requires s.Valid() && !Separates(ConfigOf(s, name))
    requires (s.memory.Some? ==> AllWritten(s.memory.value)) && (s.cpu.Some? ==> AllWritten(s.cpu.value))
    ensures !CoversAlways(s, name)
  {
    hide Denote, Config.Ascends, Config.Ignored, AllWritten, IsPresent, Accepts, Adjusted, IsAccepted, IsMissing;
    var limit, request := SomeUncovered(ConfigOf(s, name));
    var l, q := SomeAccepted(if name == "memory" then s.cpu else s.memory);
    var ml, mr, cl, cr :=
      if name == "memory" then limit else l, if name == "memory" then request else q,
      if name == "memory" then l else limit, if name == "memory" then q else request;
    GivenIsAccepted(ml, mr, cl, cr, s);
    var r := Resources(Both(ml, cl), Both(mr, cr));
    assert r.limits[name] == Some(limit) && r.requests[name] == Some(request);
    assert !LimitCoversRequest(r, name);
  }

  /** Every admitted limit covers its request exactly if both a maximum request and a minimum limit are configured. */
  lemma CoverageIsSeparation(s: Settings, name: string)
    requires s.Valid() && (name == "memory" || name == "cpu")
    requires (s.memory.Some? ==> AllWritten(s.memory.value)) && (s.cpu.Some? ==> AllWritten(s.cpu.value))
    ensures CoversAlways(s, name) <==> Separates(ConfigOf(s, name))
  {
    hide IsPresent, Accepts, Adjusted, LimitCoversRequest, Separates, Settings.Valid, AllWritten;
    if Separates(ConfigOf(s, name)) {
      forall r | IsPresent(r, s) && Accepts(r, s) ensures LimitCoversRequest(Adjusted(r, s), name) {
        AcceptedIsCovered(r, s, name);
      }
    } else {
      NotCovered(s, name);
    }
  }
}
