/**
 What the container-resources policy demands of a container and what it adds to it, as functions of
 the settings' values; the methods of `ContainerValidation` are proved against these.
 */
module Admission {
  import opened Wrappers
  import opened Grammar
  import opened Text

  // ----- settings

  /** The quantities of one resource; zero means not configured. The texts are the printed defaults. */
  datatype Config = Config(
    minRequest: real, defaultRequest: real, maxRequest: real,
    minLimit: real, defaultLimit: real, maxLimit: real,
    ignoreValues: bool, requestText: string, limitText: string)
  {
    function Chain(): seq<real> {
      [minRequest, defaultRequest, maxRequest, minLimit, defaultLimit, maxLimit]
    }

    predicate AllZero() {
      forall i :: 0 <= i < 6 ==> Chain()[i] == 0.0
    }

    /** The configured values ascend along the chain. */
    ghost predicate Ascends() {
      forall i, j :: 0 <= i < j < 6 && Chain()[i] != 0.0 && Chain()[j] != 0.0 ==> Chain()[i] <= Chain()[j]
    }

    predicate Ignored() {
      ignoreValues || AllZero()
    }

    /** The printed defaults read back as the defaults. */
    ghost predicate DefaultsReadBack() {
      && (defaultLimit != 0.0 ==> Denotes(limitText, defaultLimit))
      && (defaultRequest != 0.0 ==> Denotes(requestText, defaultRequest))
    }
  }

  lemma AllZeroIs(c: Config)
    ensures c.AllZero() <==>
            && c.minRequest == 0.0 && c.defaultRequest == 0.0 && c.maxRequest == 0.0
            && c.minLimit == 0.0 && c.defaultLimit == 0.0 && c.maxLimit == 0.0
    ensures c.AllZero() ==> c.Ascends()
  {
    var v := c.Chain();
    assert v[0] == c.minRequest && v[1] == c.defaultRequest && v[2] == c.maxRequest;
    assert v[3] == c.minLimit && v[4] == c.defaultLimit && v[5] == c.maxLimit;
  }

  predicate IsAllZero(c: Config) {
    && c.minRequest == 0.0 && c.defaultRequest == 0.0 && c.maxRequest == 0.0
    && c.minLimit == 0.0 && c.defaultLimit == 0.0 && c.maxLimit == 0.0
  }

  predicate InOrder(lesser: real, greater: real) {
    lesser != 0.0 && greater != 0.0 ==> lesser <= greater
  }

  lemma AscendsIs(c: Config)
    ensures c.Ascends() <==>
            && InOrder(c.defaultLimit, c.maxLimit) && InOrder(c.minLimit, c.maxLimit)
            && InOrder(c.maxRequest, c.maxLimit) && InOrder(c.defaultRequest, c.maxLimit)
            && InOrder(c.minRequest, c.maxLimit)
            && InOrder(c.minLimit, c.defaultLimit) && InOrder(c.maxRequest, c.defaultLimit)
            && InOrder(c.defaultRequest, c.defaultLimit) && InOrder(c.minRequest, c.defaultLimit)
            && InOrder(c.maxRequest, c.minLimit) && InOrder(c.defaultRequest, c.minLimit)
            && InOrder(c.minRequest, c.minLimit)
            && InOrder(c.defaultRequest, c.maxRequest) && InOrder(c.minRequest, c.maxRequest)
            && InOrder(c.minRequest, c.defaultRequest)
  {
    var v := c.Chain();
    assert v[0] == c.minRequest && v[1] == c.defaultRequest && v[2] == c.maxRequest;
    assert v[3] == c.minLimit && v[4] == c.defaultLimit && v[5] == c.maxLimit;
  }

  datatype Settings = Settings(cpu: Option<Config>, memory: Option<Config>) {
    predicate IgnoresCPU() {
      cpu.Some? && cpu.value.Ignored()
    }

    predicate IgnoresMemory() {
      memory.Some? && memory.value.Ignored()
    }

    /** Accepted by the settings check: a resource left at zero is tolerated beside a good one. */
    ghost predicate Valid() {
      && (cpu.Some? || memory.Some?)
      && (cpu.Some? ==> cpu.value.Ascends())
      && (memory.Some? ==> memory.value.Ascends())
      && !(IsUnset(cpu) && IsUnset(memory))
    }

    ghost predicate DefaultsReadBack() {
      (cpu.Some? ==> cpu.value.DefaultsReadBack()) && (memory.Some? ==> memory.value.DefaultsReadBack())
    }
  }

  /** Settings are refused if they name no resource, break a chain, or leave every quantity at zero unignored. */
  lemma ValidIs(s: Settings)
    ensures s.Valid() <==>
              && (s.cpu.Some? || s.memory.Some?)
              && (s.cpu.Some? ==> s.cpu.value.Ascends()) && (s.memory.Some? ==> s.memory.value.Ascends())
              && !(s.cpu.Some? && s.memory.Some?
                   && IsAllZero(s.cpu.value) && !s.cpu.value.ignoreValues
                   && IsAllZero(s.memory.value) && !s.memory.value.ignoreValues)
  {
    if s.cpu.Some? { AllZeroIs(s.cpu.value); }
    if s.memory.Some? { AllZeroIs(s.memory.value); }
    hide Config.AllZero, Config.Ascends;
  }

  predicate IsUnset(c: Option<Config>) {
    c.Some? && c.value.AllZero() && !c.value.ignoreValues
  }

  // ----- containers

  /** Quantities by resource name; None stands for a nil pointer. */
  type QuantityMap = map<string, Option<string>>

  datatype Resources = Resources(limits: QuantityMap, requests: QuantityMap)

  predicate IsMissing(m: QuantityMap, name: string) {
    name !in m || m[name].None? || TrimSpace(m[name].value) == ""
  }

  /** A quantity is there, and is not only white space. */
  predicate IsGiven(m: QuantityMap, name: string) {
    && name in m && m[name].Some?
    && exists i :: 0 <= i < |m[name].value| && !IsSpace(m[name].value[i])
  }

  lemma MissingIsNotGiven(m: QuantityMap, name: string)
    ensures IsMissing(m, name) <==> !IsGiven(m, name)
  {
    if name in m && m[name].Some? {
      TrimmedIsEmpty(m[name].value);
    }
    hide TrimSpace, IsSpace;
  }

  /** A configured bound makes the quantity parse and keep to it. */
  ghost predicate InBounds(text: string, low: real, high: real) {
    && (high != 0.0 ==> Denote(text).Ok? && Denote(text).value.value <= high)
    && (low != 0.0 ==> Denote(text).Ok? && low <= Denote(text).value.value)
  }

  ghost predicate PresentInBounds(m: QuantityMap, name: string, low: real, high: real) {
    !IsMissing(m, name) ==> InBounds(m[name].value, low, high)
  }

  function WithDefault(m: QuantityMap, name: string, default: real, text: string): QuantityMap {
    if IsMissing(m, name) && default != 0.0 then m[name := Some(text)] else m
  }

  predicate NeedsDefault(m: QuantityMap, name: string, default: real) {
    IsMissing(m, name) && default != 0.0
  }

  /** Where both are given, the limit is at least the request. */
  ghost predicate LimitCoversRequest(r: Resources, name: string) {
    !IsMissing(r.limits, name) && !IsMissing(r.requests, name) ==>
      && Denote(r.limits[name].value).Ok? && Denote(r.requests[name].value).Ok?
      && Denote(r.requests[name].value).value.value <= Denote(r.limits[name].value).value.value
  }

  // ----- one resource

  ghost predicate ConfigAccepts(r: Resources, name: string, c: Config) {
    !c.Ignored() ==>
      && PresentInBounds(r.limits, name, c.minLimit, c.maxLimit)
      && PresentInBounds(r.requests, name, c.minRequest, c.maxRequest)
  }

  /** A given quantity keeps to the configured bounds, and can be read if there are any. */
  ghost predicate KeepsWithin(m: QuantityMap, name: string, low: real, high: real) {
    IsGiven(m, name) ==>
      && (low != 0.0 || high != 0.0 ==> Denote(m[name].value).Ok?)
      && (low != 0.0 ==> low <= Denote(m[name].value).value.value)
      && (high != 0.0 ==> Denote(m[name].value).value.value <= high)
  }

  /** Bounds do not apply to what is ignored or not given. */
  lemma AcceptedKeepsWithin(r: Resources, name: string, c: Config)
    ensures ConfigAccepts(r, name, c) <==>
              || c.ignoreValues
              || (&& KeepsWithin(r.limits, name, c.minLimit, c.maxLimit)
                  && KeepsWithin(r.requests, name, c.minRequest, c.maxRequest))
  {
    AllZeroIs(c);
    MissingIsNotGiven(r.limits, name);
    MissingIsNotGiven(r.requests, name);
    hide Denote, IsMissing, IsGiven, Config.AllZero;
  }

  /** Limits get their default unless the values are ignored, requests always. */
  function Completed(r: Resources, name: string, c: Config): Resources {
    Resources(
      if c.Ignored() then r.limits else WithDefault(r.limits, name, c.defaultLimit, c.limitText),
      WithDefault(r.requests, name, c.defaultRequest, c.requestText))
  }

  predicate Completes(r: Resources, name: string, c: Config) {
    || (!c.Ignored() && NeedsDefault(r.limits, name, c.defaultLimit))
    || NeedsDefault(r.requests, name, c.defaultRequest)
  }

  // ----- a container

  function Adjusted(r: Resources, s: Settings): Resources {
    var m := if s.memory.Some? then Completed(r, "memory", s.memory.value) else r;
    if s.cpu.Some? then Completed(m, "cpu", s.cpu.value) else m
  }

  predicate Mutates(r: Resources, s: Settings) {
    || (s.memory.Some? && Completes(r, "memory", s.memory.value))
    || (s.cpu.Some? && Completes(r, "cpu", s.cpu.value))
  }

  ghost predicate BoundsAccept(r: Resources, s: Settings) {
    && (s.memory.Some? ==> ConfigAccepts(r, "memory", s.memory.value))
    && (s.cpu.Some? ==> ConfigAccepts(r, "cpu", s.cpu.value))
  }

  ghost predicate Accepts(r: Resources, s: Settings) {
    && BoundsAccept(r, s)
    && (Mutates(r, s) ==> LimitCoversRequest(Adjusted(r, s), "memory") && LimitCoversRequest(Adjusted(r, s), "cpu"))
  }

  /** Ignored values still have to be there. */
  predicate IsPresent(r: Resources, s: Settings) {
    && (s.IgnoresCPU() ==> !IsMissing(r.limits, "cpu") && "cpu" in r.requests)
    && (s.IgnoresMemory() ==> !IsMissing(r.limits, "memory") && "memory" in r.requests)
  }

  /** Each resource whose values are ignored, or all zero, needs a limit that is not blank and a request of its own. */
  lemma PresenceIs(r: Resources, s: Settings)
    ensures IsPresent(r, s) <==>
              && (s.cpu.Some? && (s.cpu.value.ignoreValues || IsAllZero(s.cpu.value)) ==>
                    IsGiven(r.limits, "cpu") && "cpu" in r.requests)
              && (s.memory.Some? && (s.memory.value.ignoreValues || IsAllZero(s.memory.value)) ==>
                    IsGiven(r.limits, "memory") && "memory" in r.requests)
  {
    if s.cpu.Some? { AllZeroIs(s.cpu.value); }
    if s.memory.Some? { AllZeroIs(s.memory.value); }
    MissingIsNotGiven(r.limits, "cpu");
    MissingIsNotGiven(r.limits, "memory");
    hide IsMissing, IsGiven, Config.AllZero;
  }

  // ----- what admission guarantees

  lemma ReadableIsNotBlank(text: string)
    requires Denote(text).Ok?
    ensures TrimSpace(text) != ""
  {
    hide Denote, TrimSpace;
    ReadableIsDense(text);
    DenseIsTrimmed(text);
  }

  /** What is filled in is not blank, and keeps to the bounds unless the values are ignored. */
  ghost predicate Settles(r: Resources, name: string, c: Config) {
    && (!c.Ignored() && NeedsDefault(r.limits, name, c.defaultLimit) ==>
          TrimSpace(c.limitText) != "" && InBounds(c.limitText, c.minLimit, c.maxLimit))
    && (NeedsDefault(r.requests, name, c.defaultRequest) ==>
          TrimSpace(c.requestText) != "" && (c.Ignored() || InBounds(c.requestText, c.minRequest, c.maxRequest)))
  }

  ghost predicate AllSettle(r: Resources, s: Settings) {
    && (s.memory.Some? ==> Settles(r, "memory", s.memory.value))
    && (s.cpu.Some? ==> Settles(r, "cpu", s.cpu.value))
  }

  lemma DefaultSettles(m: QuantityMap, name: string, default: real, text: string, low: real, high: real)
    requires PresentInBounds(m, name, low, high)
    ensures var n := WithDefault(m, name, default, text);
            !NeedsDefault(n, name, default) && PresentInBounds(n, name, low, high) <==>
            (NeedsDefault(m, name, default) ==> TrimSpace(text) != "" && InBounds(text, low, high))
  {
    hide TrimSpace, InBounds;
  }

  /** The completed resource is accepted and complete exactly if what was filled in settles it. */
  lemma CompletedSettles(r: Resources, name: string, c: Config)
    requires ConfigAccepts(r, name, c)
    ensures var n := Completed(r, name, c);
            ConfigAccepts(n, name, c) && !Completes(n, name, c) <==> Settles(r, name, c)
  {
    if c.Ignored() {
      DefaultSettles(r.requests, name, c.defaultRequest, c.requestText, 0.0, 0.0);
    } else {
      DefaultSettles(r.limits, name, c.defaultLimit, c.limitText, c.minLimit, c.maxLimit);
      DefaultSettles(r.requests, name, c.defaultRequest, c.requestText, c.minRequest, c.maxRequest);
    }
    hide TrimSpace, Denote, Config.Ignored;
  }

  /** What one resource's step reads and leaves alone is decided by the resource's own entries. */
  predicate SameEntry(a: QuantityMap, b: QuantityMap, name: string) {
    (name in a <==> name in b) && (name in a ==> a[name] == b[name])
  }

  lemma OtherResourceUntouched(r: Resources, name: string, c: Config, other: string)
    requires name != other
    ensures var n := Completed(r, name, c);
            SameEntry(r.limits, n.limits, other) && SameEntry(r.requests, n.requests, other)
  {
  }

  lemma StepsDependOnEntry(a: Resources, b: Resources, name: string, c: Config)
    requires SameEntry(a.limits, b.limits, name) && SameEntry(a.requests, b.requests, name)
    ensures ConfigAccepts(a, name, c) <==> ConfigAccepts(b, name, c)
    ensures Completes(a, name, c) <==> Completes(b, name, c)
    ensures Settles(a, name, c) <==> Settles(b, name, c)
    ensures Guaranteed(a, name, c) <==> Guaranteed(b, name, c)
    ensures SameEntry(Completed(a, name, c).limits, Completed(b, name, c).limits, name)
    ensures SameEntry(Completed(a, name, c).requests, Completed(b, name, c).requests, name)
  {
    hide InBounds, TrimSpace;
  }

  /** Each resource is completed as if it were the only one. */
  lemma AdjustedByResource(r: Resources, s: Settings, name: string, c: Config)
    requires (name == "memory" && s.memory == Some(c)) || (name == "cpu" && s.cpu == Some(c))
    ensures var n, m := Adjusted(r, s), Completed(r, name, c);
            SameEntry(n.limits, m.limits, name) && SameEntry(n.requests, m.requests, name)
  {
    hide Completes;
    var m := if s.memory.Some? then Completed(r, "memory", s.memory.value) else r;
    if name == "memory" {
      if s.cpu.Some? {
        OtherResourceUntouched(m, "cpu", s.cpu.value, "memory");
      }
    } else if s.memory.Some? {
      OtherResourceUntouched(r, "memory", s.memory.value, "cpu");
      StepsDependOnEntry(r, m, "cpu", c);
    }
    hide Completed;
  }

  lemma AdjustedSettles(r: Resources, s: Settings)
    requires BoundsAccept(r, s)
    ensures var n := Adjusted(r, s); BoundsAccept(n, s) && !Mutates(n, s) <==> AllSettle(r, s)
  {
    hide ConfigAccepts, Completes, Completed, Settles, Adjusted;
    var n := Adjusted(r, s);
    if s.memory.Some? {
      AdjustedByResource(r, s, "memory", s.memory.value);
      CompletedSettles(r, "memory", s.memory.value);
      StepsDependOnEntry(n, Completed(r, "memory", s.memory.value), "memory", s.memory.value);
    }
    if s.cpu.Some? {
      AdjustedByResource(r, s, "cpu", s.cpu.value);
      CompletedSettles(r, "cpu", s.cpu.value);
      StepsDependOnEntry(n, Completed(r, "cpu", s.cpu.value), "cpu", s.cpu.value);
    }
  }

  lemma AdjustedTwice(r: Resources, s: Settings)
    ensures Adjusted(Adjusted(r, s), s) == Adjusted(r, s)
  {
    hide Completes, Completed;
    var m := if s.memory.Some? then Completed(r, "memory", s.memory.value) else r;
    if s.cpu.Some? {
      CompletedTwice(m, "cpu", s.cpu.value);
    }
    if s.memory.Some? {
      CompletedTwice(r, "memory", s.memory.value);
      if s.cpu.Some? {
        OtherResourceUntouched(m, "cpu", s.cpu.value, "memory");
        StaysComplete(m, Completed(m, "cpu", s.cpu.value), "memory", s.memory.value);
      }
    }
  }

  lemma CompletedTwice(r: Resources, name: string, c: Config)
    ensures Completed(Completed(r, name, c), name, c) == Completed(r, name, c)
  {
    hide TrimSpace, Config.Ignored;
  }

  lemma StaysComplete(a: Resources, b: Resources, name: string, c: Config)
    requires SameEntry(a.limits, b.limits, name) && SameEntry(a.requests, b.requests, name)
    requires Completed(a, name, c) == a
    ensures Completed(b, name, c) == b
  {
    hide TrimSpace, Config.Ignored;
    assert NeedsDefault(a.limits, name, c.defaultLimit) ==>
        a.limits[name := Some(c.limitText)][name] == Some(c.limitText);
    assert NeedsDefault(a.requests, name, c.defaultRequest) ==>
        a.requests[name := Some(c.requestText)][name] == Some(c.requestText);
  }

  lemma PresenceIsKept(r: Resources, s: Settings)
    requires IsPresent(r, s)
    ensures IsPresent(Adjusted(r, s), s)
  {
    hide TrimSpace;
  }

  /** Admitting an admitted container again accepts it as complete exactly if what was filled in settles it. */
  lemma AdmissionIsIdempotent(r: Resources, s: Settings)
    requires IsPresent(r, s) && Accepts(r, s)
    ensures var n := Adjusted(r, s);
            && IsPresent(n, s) && Adjusted(n, s) == n
            && (Accepts(n, s) && !Mutates(n, s) <==> AllSettle(r, s))
  {
    hide IsPresent, BoundsAccept, Mutates, Adjusted, AllSettle;
    AdjustedSettles(r, s);
    AdjustedTwice(r, s);
    PresenceIsKept(r, s);
  }

  /** Defaults that read back as themselves settle every container. */
  lemma ReadableDefaultsSettle(r: Resources, s: Settings)
    requires s.Valid() && s.DefaultsReadBack()
    ensures AllSettle(r, s)
  {
    if s.memory.Some? {
      ReadableDefaultSettles(r, "memory", s.memory.value);
    }
    if s.cpu.Some? {
      ReadableDefaultSettles(r, "cpu", s.cpu.value);
    }
    hide Settles, Config.Ascends;
  }

  lemma ReadableDefaultSettles(r: Resources, name: string, c: Config)
    requires c.Ascends() && c.DefaultsReadBack()
    ensures Settles(r, name, c)
  {
    AscendsIs(c);
    if c.defaultLimit != 0.0 {
      ReadableIsNotBlank(c.limitText);
    }
    if c.defaultRequest != 0.0 {
      ReadableIsNotBlank(c.requestText);
    }
    hide Denote, TrimSpace, Config.Ascends, Config.Ignored, IsMissing;
  }

  /** What is guaranteed for one resource whose values are not ignored. */
  ghost predicate Guaranteed(r: Resources, name: string, c: Config) {
    !c.Ignored() ==>
      && PresentInBounds(r.limits, name, c.minLimit, c.maxLimit)
      && PresentInBounds(r.requests, name, c.minRequest, c.maxRequest)
      && (c.defaultLimit != 0.0 ==> !IsMissing(r.limits, name))
      && (c.defaultRequest != 0.0 ==> !IsMissing(r.requests, name))
      && (c.maxRequest != 0.0 && c.minLimit != 0.0 ==> LimitCoversRequest(r, name))
  }

  ghost predicate KeepsTo(r: Resources, s: Settings) {
    && (s.memory.Some? ==> Guaranteed(r, "memory", s.memory.value))
    && (s.cpu.Some? ==> Guaranteed(r, "cpu", s.cpu.value))
  }

  /** What was filled in keeps to the settings wherever values are not ignored. */
  ghost predicate InsertsKeepTo(r: Resources, s: Settings) {
    && (s.memory.Some? ==> s.memory.value.Ignored() || Settles(r, "memory", s.memory.value))
    && (s.cpu.Some? ==> s.cpu.value.Ignored() || Settles(r, "cpu", s.cpu.value))
  }

  lemma SettledIsGuaranteed(r: Resources, name: string, c: Config)
    requires c.Ascends() && ConfigAccepts(r, name, c)
    ensures Guaranteed(Completed(r, name, c), name, c) <==> c.Ignored() || Settles(r, name, c)
  {
    AscendsIs(c);
    CompletedSettles(r, name, c);
    hide TrimSpace, Denote, Config.Ignored, Config.Ascends;
  }

  /** After admission both resources keep to the settings exactly if what was filled in does. */
  lemma AdmissionGuarantees(r: Resources, s: Settings)
    requires s.Valid() && Accepts(r, s)
    ensures var n := Adjusted(r, s);
            && (s.memory.Some? ==>
                  var c := s.memory.value;
                  Guaranteed(n, "memory", c) <==> c.Ignored() || Settles(r, "memory", c))
            && (s.cpu.Some? ==>
                  var c := s.cpu.value;
                  Guaranteed(n, "cpu", c) <==> c.Ignored() || Settles(r, "cpu", c))
            && (Mutates(r, s) ==> LimitCoversRequest(n, "memory") && LimitCoversRequest(n, "cpu"))
  {
    hide ConfigAccepts, Completes, Completed, Guaranteed, Adjusted, Settles, LimitCoversRequest, Config.Ascends,
      Config.Ignored;
    var n := Adjusted(r, s);
    if s.memory.Some? {
      AdjustedByResource(r, s, "memory", s.memory.value);
      SettledIsGuaranteed(r, "memory", s.memory.value);
      StepsDependOnEntry(n, Completed(r, "memory", s.memory.value), "memory", s.memory.value);
    }
    if s.cpu.Some? {
      AdjustedByResource(r, s, "cpu", s.cpu.value);
      SettledIsGuaranteed(r, "cpu", s.cpu.value);
      StepsDependOnEntry(n, Completed(r, "cpu", s.cpu.value), "cpu", s.cpu.value);
    }
  }

  /** Admission only fills gaps: given quantities and other resources stay as they are. */
  lemma OnlyGapsAreFilled(r: Resources, s: Settings, name: string)
    ensures var n := Adjusted(r, s);
            && (!IsMissing(r.limits, name) || (name != "cpu" && name != "memory") ==>
                  SameEntry(r.limits, n.limits, name))
            && (!IsMissing(r.requests, name) || (name != "cpu" && name != "memory") ==>
                  SameEntry(r.requests, n.requests, name))
  {
    hide TrimSpace;
  }

  /** What admission makes of the entries of one resource. */
  lemma GapsAreFilled(r: Resources, s: Settings, name: string, c: Config)
    requires (name == "memory" && s.memory == Some(c)) || (name == "cpu" && s.cpu == Some(c))
    ensures var n, fills := Adjusted(r, s), !IsGiven(r.limits, name) && c.defaultLimit != 0.0 && !c.ignoreValues;
            && (fills ==> name in n.limits && n.limits[name] == Some(c.limitText))
            && (!fills ==> SameEntry(r.limits, n.limits, name))
    ensures var n, fills := Adjusted(r, s), !IsGiven(r.requests, name) && c.defaultRequest != 0.0;
            && (fills ==> name in n.requests && n.requests[name] == Some(c.requestText))
            && (!fills ==> SameEntry(r.requests, n.requests, name))
  {
    AdjustedByResource(r, s, name, c);
    MissingIsNotGiven(r.limits, name);
    MissingIsNotGiven(r.requests, name);
    AllZeroIs(c);
    hide IsMissing, IsGiven, Adjusted, Config.AllZero;
  }

  predicate HasTexts(c: Config) {
    TrimSpace(c.limitText) != "" && TrimSpace(c.requestText) != ""
  }

  /** A change is reported exactly if there is one. */
  lemma MutationIsChange(r: Resources, s: Settings)
    requires (s.memory.Some? ==> HasTexts(s.memory.value)) && (s.cpu.Some? ==> HasTexts(s.cpu.value))
    ensures Mutates(r, s) <==> Adjusted(r, s) != r
  {
    hide TrimSpace, Config.Ignored;
    var m := if s.memory.Some? then Completed(r, "memory", s.memory.value) else r;
    if s.memory.Some? {
      OneChanges(r, "memory", s.memory.value);
    }
    if s.cpu.Some? {
      OneChanges(m, "cpu", s.cpu.value);
      AdjustedByResource(r, s, "cpu", s.cpu.value);
      if s.memory.Some? {
        OtherResourceUntouched(r, "memory", s.memory.value, "cpu");
        OtherResourceUntouched(m, "cpu", s.cpu.value, "memory");
        StepsDependOnEntry(r, m, "cpu", s.cpu.value);
      }
    }
    hide Completes, Completed;
  }

  lemma OneChanges(r: Resources, name: string, c: Config)
    requires HasTexts(c)
    ensures var n := Completed(r, name, c);
            Completes(r, name, c) <==> !(SameEntry(r.limits, n.limits, name) && SameEntry(r.requests, n.requests, name))
    ensures !Completes(r, name, c) ==> Completed(r, name, c) == r
  {
    hide TrimSpace, Config.Ignored;
  }

  // ----- a pod

  /** An entry ending in a star stands for all images that begin with what precedes the star. */
  predicate Matches(image: string, ignored: string) {
    if ignored != "" && ignored[|ignored| - 1] == '*' then ignored[..|ignored| - 1] <= image else image == ignored
  }

  /** Only a star at the end of an entry stands for anything. */
  lemma MatchesIs(image: string, ignored: string)
    ensures Matches(image, ignored + "*") <==> exists rest :: image == ignored + rest
    ensures ignored == "" || ignored[|ignored| - 1] != '*' ==> (Matches(image, ignored) <==> image == ignored)
  {
    assert (ignored + "*")[..|ignored|] == ignored;
    if ignored <= image {
      assert image == ignored + image[|ignored|..];
    }
  }

  predicate Skips(image: string, ignoreImages: seq<string>) {
    exists i :: 0 <= i < |ignoreImages| && Matches(image, ignoreImages[i])
  }

  ghost predicate PodAccepts(images: seq<string>, rs: seq<Resources>, s: Settings, ignoreImages: seq<string>)
    requires |images| == |rs|
  {
    forall i :: 0 <= i < |rs| && !Skips(images[i], ignoreImages) ==> IsPresent(rs[i], s) && Accepts(rs[i], s)
  }

  function PodAdjusted(images: seq<string>, rs: seq<Resources>, s: Settings, ignoreImages: seq<string>)
    : (ns: seq<Resources>)
    requires |images| == |rs|
    ensures |ns| == |rs|
  {
    seq(|rs|, i requires 0 <= i < |rs| => if Skips(images[i], ignoreImages) then rs[i] else Adjusted(rs[i], s))
  }

  ghost predicate PodMutates(images: seq<string>, rs: seq<Resources>, s: Settings, ignoreImages: seq<string>)
    requires |images| == |rs|
  {
    exists i :: 0 <= i < |rs| && !Skips(images[i], ignoreImages) && Mutates(rs[i], s)
  }

  ghost predicate PodSettles(images: seq<string>, rs: seq<Resources>, s: Settings, ignoreImages: seq<string>)
    requires |images| == |rs|
  {
    forall i :: 0 <= i < |rs| && !Skips(images[i], ignoreImages) ==> AllSettle(rs[i], s)
  }

  /** Admitting an admitted pod again accepts it as complete exactly if what was filled in settles it. */
  lemma PodAdmissionIsIdempotent(images: seq<string>, rs: seq<Resources>, s: Settings, ignoreImages: seq<string>)
    requires |images| == |rs|
    requires PodAccepts(images, rs, s, ignoreImages)
    ensures var ns := PodAdjusted(images, rs, s, ignoreImages);
            && PodAdjusted(images, ns, s, ignoreImages) == ns
            && (PodAccepts(images, ns, s, ignoreImages) && !PodMutates(images, ns, s, ignoreImages) <==>
                PodSettles(images, rs, s, ignoreImages))
  {
    hide Adjusted, Mutates, Accepts, IsPresent, AllSettle, Skips;
    var ns := PodAdjusted(images, rs, s, ignoreImages);
    forall i | 0 <= i < |rs| && !Skips(images[i], ignoreImages)
      ensures ns[i] == Adjusted(rs[i], s) && IsPresent(ns[i], s) && Adjusted(ns[i], s) == ns[i]
      ensures Accepts(ns[i], s) && !Mutates(ns[i], s) <==> AllSettle(rs[i], s)
    {
      AdmissionIsIdempotent(rs[i], s);
    }
  }

  /** Every container that is looked at keeps to the settings exactly if what was filled in does. */
  lemma PodAdmissionGuarantees(images: seq<string>, rs: seq<Resources>, s: Settings, ignoreImages: seq<string>)
    requires |images| == |rs|
    requires s.Valid() && PodAccepts(images, rs, s, ignoreImages)
    ensures var ns := PodAdjusted(images, rs, s, ignoreImages);
            (forall i :: 0 <= i < |rs| && !Skips(images[i], ignoreImages) ==> KeepsTo(ns[i], s)) <==>
            (forall i :: 0 <= i < |rs| && !Skips(images[i], ignoreImages) ==> InsertsKeepTo(rs[i], s))
  {
    hide Adjusted, Mutates, Accepts, IsPresent, Settles, Settings.Valid, Guaranteed, Skips;
    var ns := PodAdjusted(images, rs, s, ignoreImages);
    forall i | 0 <= i < |rs| && !Skips(images[i], ignoreImages)
      ensures KeepsTo(ns[i], s) <==> InsertsKeepTo(rs[i], s)
    {
      AdmissionGuarantees(rs[i], s);
    }
  }
}
