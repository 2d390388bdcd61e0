/**
 The admission step of the container-resources policy (`validate.go`): containers hold quantities as
 strings, which are compared with the settings and completed with printed defaults.
 */
module ContainerValidation {
  import opened Wrappers
  import opened Powers
  import opened Int64Math
  import opened Text
  import opened Grammar
  import opened Suffix
  import opened Canonical
  import opened Amount
  import opened Quantities
  import opened Parser
  import opened ParsedText
  import opened ContainerSettings
  import A = Admission

  datatype Kind = Limit | Request

  /** The reasons for a rejection; `NilDereference` stands for the run-time panic. */
  datatype Rejection =
    | NilDereference
    | NoResources
    | NoLimits
    | NoRequests
    | NoQuantity(name: string, kind: Kind)
    | Unreadable(name: string, kind: Kind)
    | BelowMinimum(name: string, kind: Kind)
    | AboveMaximum(name: string, kind: Kind)
    | LimitBelowRequest(name: string)

  /** What a container asks for; None stands for a nil map. */
  datatype ResourceRequirements = ResourceRequirements(limits: Option<A.QuantityMap>, requests: Option<A.QuantityMap>)

  function OrEmpty(m: Option<A.QuantityMap>): A.QuantityMap {
    if m.Some? then m.value else map[]
  }

  function MapsIn(resources: Option<ResourceRequirements>): A.Resources {
    if resources.None? then A.Resources(map[], map[])
    else A.Resources(OrEmpty(resources.value.limits), OrEmpty(resources.value.requests))
  }

  class Container {
    const image: string
    var resources: Option<ResourceRequirements>

    constructor (image: string, resources: Option<ResourceRequirements>)
      ensures this.image == image && this.resources == resources
    {
      this.image, this.resources := image, resources;
    }

    /** The quantities given; reading a nil map finds nothing. */
    ghost function Maps(): A.Resources
      reads this
    {
      MapsIn(resources)
    }

    predicate IsWritable()
      reads this
    {
      resources.Some? && resources.value.limits.Some? && resources.value.requests.Some?
    }
  }

  // ----- single quantities

  ghost predicate IsReadable(m: A.QuantityMap, name: string) {
    name in m && m[name].Some? && Denote(m[name].value).Ok?
  }

  ghost function ValueOf(m: A.QuantityMap, name: string): real
    requires IsReadable(m, name)
  {
    Denote(m[name].value).value.value
  }

  method ParseResourceQuantity(m: A.QuantityMap, name: string, kind: Kind) returns (r: Result<Quantity, Rejection>)
    ensures r.Ok? <==> IsReadable(m, name)
    ensures r.Ok? ==> fresh(r.value) && r.value.Value() == ValueOf(m, name)
    ensures r.Err? ==> r.error == Unreadable(name, kind)
  {
    if name !in m || m[name].None? {
      return Err(Unreadable(name, kind));
    }
    hide Denote, ReusesInput, Quantity.Value;
    var parsed := ParseQuantity(m[name].value);
    if parsed.Err? {
      return Err(Unreadable(name, kind));
    }
    return Ok(parsed.value);
  }

  method ValidateResourceMin(m: A.QuantityMap, name: string, minimum: Quantity, kind: Kind)
    returns (err: Option<Rejection>)
    ensures err ==
            if !IsReadable(m, name) then Some(Unreadable(name, kind))
            else if ValueOf(m, name) < minimum.Value() then Some(BelowMinimum(name, kind))
            else None
  {
    hide Quantity.Value, IsReadable, ValueOf, Quantity.Coherent, Quantity.Truthful;
    var quantity := ParseResourceQuantity(m, name, kind);
    if quantity.Err? {
      return Some(quantity.error);
    }
    var c := quantity.value.Cmp(minimum);
    return if c < 0 then Some(BelowMinimum(name, kind)) else None;
  }

  method ValidateResourceMax(m: A.QuantityMap, name: string, maximum: Quantity, kind: Kind)
    returns (err: Option<Rejection>)
    ensures err ==
            if !IsReadable(m, name) then Some(Unreadable(name, kind))
            else if ValueOf(m, name) > maximum.Value() then Some(AboveMaximum(name, kind))
            else None
  {
    hide Quantity.Value, IsReadable, ValueOf, Quantity.Coherent, Quantity.Truthful;
    var quantity := ParseResourceQuantity(m, name, kind);
    if quantity.Err? {
      return Some(quantity.error);
    }
    var c := quantity.value.Cmp(maximum);
    return if c > 0 then Some(AboveMaximum(name, kind)) else None;
  }

  /** The verdicts of the two comparisons; a bound of zero is not configured. */
  ghost function MinVerdict(m: A.QuantityMap, name: string, minimum: real, kind: Kind): Option<Rejection> {
    if minimum == 0.0 then None
    else if !IsReadable(m, name) then Some(Unreadable(name, kind))
    else if ValueOf(m, name) < minimum then Some(BelowMinimum(name, kind))
    else None
  }

  ghost function MaxVerdict(m: A.QuantityMap, name: string, maximum: real, kind: Kind): Option<Rejection> {
    if maximum == 0.0 then None
    else if !IsReadable(m, name) then Some(Unreadable(name, kind))
    else if ValueOf(m, name) > maximum then Some(AboveMaximum(name, kind))
    else None
  }

  function First(a: Option<Rejection>, b: Option<Rejection>): Option<Rejection> {
    if a.Some? then a else b
  }

  /** Limits are compared with the maximum first, requests with the minimum. */
  ghost function LimitVerdict(m: A.QuantityMap, name: string, c: A.Config): Option<Rejection> {
    if A.IsMissing(m, name) then None
    else First(MaxVerdict(m, name, c.maxLimit, Limit), MinVerdict(m, name, c.minLimit, Limit))
  }

  ghost function RequestVerdict(m: A.QuantityMap, name: string, c: A.Config): Option<Rejection> {
    if A.IsMissing(m, name) then None
    else First(MinVerdict(m, name, c.minRequest, Request), MaxVerdict(m, name, c.maxRequest, Request))
  }

  lemma VerdictsMeanBounds(m: A.QuantityMap, name: string, c: A.Config)
    ensures LimitVerdict(m, name, c).None? <==> A.PresentInBounds(m, name, c.minLimit, c.maxLimit)
    ensures RequestVerdict(m, name, c).None? <==> A.PresentInBounds(m, name, c.minRequest, c.maxRequest)
  {
    hide Denote, TrimSpace;
  }

  ghost function ConsistencyVerdict(r: A.Resources, name: string): Option<Rejection> {
    if A.IsMissing(r.limits, name) || A.IsMissing(r.requests, name) then None
    else if !IsReadable(r.limits, name) then Some(Unreadable(name, Limit))
    else if !IsReadable(r.requests, name) then Some(Unreadable(name, Request))
    else if ValueOf(r.limits, name) < ValueOf(r.requests, name) then Some(LimitBelowRequest(name))
    else None
  }

  lemma VerdictMeansConsistency(r: A.Resources, name: string)
    ensures ConsistencyVerdict(r, name).None? <==> A.LimitCoversRequest(r, name)
  {
    hide Denote, TrimSpace;
  }

  /** Where both are given, the limit is at least the request. */
  method IsResourceLimitGreaterThanRequest(container: Container, name: string) returns (err: Option<Rejection>)
    requires container.IsWritable()
    ensures err == ConsistencyVerdict(container.Maps(), name)
  {
    hide TrimSpace, Denote, ReusesInput;
    var r := container.resources.value;
    if !A.IsMissing(r.requests.value, name) && !A.IsMissing(r.limits.value, name) {
      var limit := ParseQuantity(r.limits.value[name].value);
      if limit.Err? {
        return Some(Unreadable(name, Limit));
      }
      var request := ParseQuantity(r.requests.value[name].value);
      if request.Err? {
        return Some(Unreadable(name, Request));
      }
      var c := limit.value.Cmp(request.value);
      if c < 0 {
        return Some(LimitBelowRequest(name));
      }
    }
    return None;
  }

  // ----- one resource of a container

  /** A given limit is compared with the bounds; a missing one is filled in. */
  method ValidateContainerResourceLimits(container: Container, name: string, config: ResourceConfiguration)
    returns (mutated: bool, err: Option<Rejection>)
    requires container.IsWritable()
    modifies container`resources, config.defaultLimit`s
    ensures config.View() == old(config.View())
    ensures config.defaultLimit.ShownText() == old(config.defaultLimit.ShownText())
    ensures container.IsWritable()
    ensures var c, r := config.View(), old(container.Maps());
            && err == LimitVerdict(r.limits, name, c)
            && (mutated <==> A.NeedsDefault(r.limits, name, c.defaultLimit))
            && container.Maps() == A.Resources(A.WithDefault(r.limits, name, c.defaultLimit, c.limitText), r.requests)
  {
    hide TrimSpace, Denote, Quantity.Value, Quantity.IsZero, Quantity.ShownText, Quantity.Coherent, Quantity.Truthful;
    var limits := container.resources.value.limits.value;
    mutated, err := false, None;
    if A.IsMissing(limits, name) {
      var zero := config.defaultLimit.IsZero();
      if zero {
        return;
      }
      var newLimit := config.defaultLimit.String();
      container.resources := Some(container.resources.value.(limits := Some(limits[name := Some(newLimit)])));
      return true, None;
    }
    var unlimited := config.maxLimit.IsZero();
    if !unlimited {
      err := ValidateResourceMax(limits, name, config.maxLimit, Limit);
      if err.Some? {
        return;
      }
    }
    unlimited := config.minLimit.IsZero();
    if !unlimited {
      err := ValidateResourceMin(limits, name, config.minLimit, Limit);
    }
  }

  method ValidateContainerResourceRequests(container: Container, name: string, config: ResourceConfiguration)
    returns (err: Option<Rejection>)
    requires container.IsWritable()
    ensures err == RequestVerdict(container.Maps().requests, name, config.View())
  {
    hide TrimSpace, Denote, Quantity.Value, Quantity.IsZero, Quantity.ShownText, Quantity.Coherent, Quantity.Truthful;
    var requests := container.resources.value.requests.value;
    err := None;
    if A.IsMissing(requests, name) {
      return;
    }
    var unlimited := config.minRequest.IsZero();
    if !unlimited {
      err := ValidateResourceMin(requests, name, config.minRequest, Request);
      if err.Some? {
        return;
      }
    }
    unlimited := config.maxRequest.IsZero();
    if !unlimited {
      err := ValidateResourceMax(requests, name, config.maxRequest, Request);
    }
  }

  method AdjustResourceRequest(container: Container, name: string, config: ResourceConfiguration)
    returns (mutated: bool)
    requires container.IsWritable()
    modifies container`resources, config.defaultRequest`s
    ensures config.View() == old(config.View())
    ensures config.defaultRequest.ShownText() == old(config.defaultRequest.ShownText())
    ensures container.IsWritable()
    ensures var c, r := config.View(), old(container.Maps());
            && (mutated <==> A.NeedsDefault(r.requests, name, c.defaultRequest))
            && container.Maps() ==
               A.Resources(r.limits, A.WithDefault(r.requests, name, c.defaultRequest, c.requestText))
  {
    hide TrimSpace, Denote, Quantity.Value, Quantity.IsZero, Quantity.ShownText, Quantity.Coherent, Quantity.Truthful;
    var requests := container.resources.value.requests.value;
    if A.IsMissing(requests, name) {
      var zero := config.defaultRequest.IsZero();
      if !zero {
        var newRequest := config.defaultRequest.String();
        container.resources := Some(container.resources.value.(requests := Some(requests[name := Some(newRequest)])));
        return true;
      }
    }
    return false;
  }

  method ValidateContainerResourceLimitsAndRequests(container: Container, name: string, config: ResourceConfiguration)
    returns (mutated: bool, err: Option<Rejection>)
    requires container.IsWritable()
    modifies container`resources, config.defaultLimit`s
    ensures config.View() == old(config.View())
    ensures config.defaultLimit.ShownText() == old(config.defaultLimit.ShownText())
    ensures container.IsWritable()
    ensures var c, r := config.View(), old(container.Maps());
            && err == First(LimitVerdict(r.limits, name, c), RequestVerdict(r.requests, name, c))
            && (mutated <==> err.None? && A.NeedsDefault(r.limits, name, c.defaultLimit))
            && container.Maps() == A.Resources(A.WithDefault(r.limits, name, c.defaultLimit, c.limitText), r.requests)
  {
    hide LimitVerdict, RequestVerdict, A.NeedsDefault, A.WithDefault, Quantity.Value, Quantity.ShownText;
    mutated, err := ValidateContainerResourceLimits(container, name, config);
    if err.Some? {
      return false, err;
    }
    err := ValidateContainerResourceRequests(container, name, config);
    if err.Some? {
      return false, err;
    }
  }

  // ----- both resources of a container, step by step

  ghost function LimitsCompleted(r: A.Resources, name: string, c: Option<A.Config>): A.Resources {
    if c.None? || c.value.Ignored() then r
    else A.Resources(A.WithDefault(r.limits, name, c.value.defaultLimit, c.value.limitText), r.requests)
  }

  ghost predicate CompletesLimits(r: A.Resources, name: string, c: Option<A.Config>) {
    c.Some? && !c.value.Ignored() && A.NeedsDefault(r.limits, name, c.value.defaultLimit)
  }

  ghost function RequestsCompleted(r: A.Resources, name: string, c: Option<A.Config>): A.Resources {
    if c.None? then r
    else A.Resources(r.limits, A.WithDefault(r.requests, name, c.value.defaultRequest, c.value.requestText))
  }

  ghost predicate CompletesRequests(r: A.Resources, name: string, c: Option<A.Config>) {
    c.Some? && A.NeedsDefault(r.requests, name, c.value.defaultRequest)
  }

  ghost function ResourceVerdict(r: A.Resources, name: string, c: Option<A.Config>): Option<Rejection> {
    if c.None? || c.value.Ignored() then None
    else First(LimitVerdict(r.limits, name, c.value), RequestVerdict(r.requests, name, c.value))
  }

  lemma VerdictMeansAcceptance(r: A.Resources, name: string, c: Option<A.Config>)
    ensures ResourceVerdict(r, name, c).None? <==> (c.Some? ==> A.ConfigAccepts(r, name, c.value))
  {
    if c.Some? {
      VerdictsMeanBounds(r.limits, name, c.value);
      VerdictsMeanBounds(r.requests, name, c.value);
    }
    hide LimitVerdict, RequestVerdict, A.PresentInBounds;
  }

  /** Completing the limits of memory changes nothing for the processor. */
  lemma StepsAreIndependent(r: A.Resources, c: Option<A.Config>, d: Option<A.Config>)
    ensures var n := LimitsCompleted(r, "memory", c);
            && ResourceVerdict(n, "cpu", d) == ResourceVerdict(r, "cpu", d)
            && (CompletesLimits(n, "cpu", d) <==> CompletesLimits(r, "cpu", d))
  {
    hide TrimSpace, Denote, A.Config.Ignored;
  }

  /** All limits before all requests, or resource by resource: the result is the same. */
  lemma StepsMakeAdjustment(r: A.Resources, s: A.Settings)
    ensures var l := LimitsCompleted(LimitsCompleted(r, "memory", s.memory), "cpu", s.cpu);
            var m := RequestsCompleted(l, "memory", s.memory);
            && RequestsCompleted(m, "cpu", s.cpu) == A.Adjusted(r, s)
            && (A.Mutates(r, s) <==>
                  CompletesLimits(r, "memory", s.memory) || CompletesLimits(r, "cpu", s.cpu)
                  || CompletesRequests(l, "memory", s.memory) || CompletesRequests(m, "cpu", s.cpu))
  {
    hide TrimSpace, A.Config.Ignored;
  }

  ghost function ViewOf(config: ResourceConfiguration?): Option<A.Config>
    reads if config != null then config.Footprint() else {}
  {
    if config == null then None else Some(config.View())
  }

  method ConstrainResource(container: Container, settings: Settings, name: string,
                           config: ResourceConfiguration?, ignored: bool)
    returns (mutated: bool, err: Option<Rejection>)
    requires container.IsWritable()
    requires config == settings.memory || config == settings.cpu
    requires config != null ==> (ignored <==> config.View().Ignored())
    modifies container`resources, settings.Defaults()`s
    ensures settings.View() == old(settings.View())
    ensures container.IsWritable()
    ensures var c, r := ViewOf(config), old(container.Maps());
            && err == ResourceVerdict(r, name, c)
            && (mutated <==> err.None? && CompletesLimits(r, name, c))
            && container.Maps() == LimitsCompleted(r, name, c)
  {
    hide LimitVerdict, RequestVerdict, A.NeedsDefault, A.WithDefault, A.Config.Ignored, Quantity.Value,
      Quantity.ShownText;
    mutated, err := false, None;
    if !ignored && config != null {
      mutated, err := ValidateContainerResourceLimitsAndRequests(container, name, config);
    }
  }

  method ValidateAndAdjustContainerConstraints(container: Container, settings: Settings)
    returns (mutated: bool, err: Option<Rejection>)
    requires container.IsWritable()
    modifies container`resources, settings.Defaults()`s
    ensures settings.View() == old(settings.View())
    ensures container.IsWritable()
    ensures var s, r := settings.View(), old(container.Maps());
            && err == First(ResourceVerdict(r, "memory", s.memory), ResourceVerdict(r, "cpu", s.cpu))
            && (mutated <==> err.None? && (CompletesLimits(r, "memory", s.memory) || CompletesLimits(r, "cpu", s.cpu)))
            && (err.None? ==> container.Maps() == LimitsCompleted(LimitsCompleted(r, "memory", s.memory), "cpu", s.cpu))
  {
    hide A.ConfigAccepts, ResourceVerdict, CompletesLimits, LimitsCompleted, A.Config.Ignored,
      ResourceConfiguration.View, Settings.ShouldIgnoreCPUValues, Settings.ShouldIgnoreMemoryValues;
    StepsAreIndependent(container.Maps(), settings.View().memory, settings.View().cpu);
    var ignored := settings.ShouldIgnoreMemoryValues();
    mutated, err := ConstrainResource(container, settings, "memory", settings.memory, ignored);
    if err.Some? {
      return false, err;
    }
    ignored := settings.ShouldIgnoreCPUValues();
    var cpuMutation;
    cpuMutation, err := ConstrainResource(container, settings, "cpu", settings.cpu, ignored);
    if err.Some? {
      return false, err;
    }
    mutated := mutated || cpuMutation;
  }

  method AdjustRequest(container: Container, settings: Settings, name: string, config: ResourceConfiguration?)
    returns (mutated: bool)
    requires container.IsWritable()
    requires config == settings.memory || config == settings.cpu
    modifies container`resources, settings.Defaults()`s
    ensures settings.View() == old(settings.View())
    ensures container.IsWritable()
    ensures var c, r := ViewOf(config), old(container.Maps());
            (mutated <==> CompletesRequests(r, name, c)) && container.Maps() == RequestsCompleted(r, name, c)
  {
    hide A.NeedsDefault, A.WithDefault, Quantity.Value, Quantity.ShownText;
    mutated := false;
    if config != null {
      mutated := AdjustResourceRequest(container, name, config);
    }
  }

  method ValidateAndAdjustContainerResourceRequests(container: Container, settings: Settings) returns (mutated: bool)
    requires container.IsWritable()
    modifies container`resources, settings.Defaults()`s
    ensures settings.View() == old(settings.View())
    ensures container.IsWritable()
    ensures var s, r := settings.View(), old(container.Maps());
            var m := RequestsCompleted(r, "memory", s.memory);
            && (mutated <==> CompletesRequests(r, "memory", s.memory) || CompletesRequests(m, "cpu", s.cpu))
            && container.Maps() == RequestsCompleted(m, "cpu", s.cpu)
  {
    hide CompletesRequests, RequestsCompleted, ResourceConfiguration.View;
    mutated := AdjustRequest(container, settings, "memory", settings.memory);
    var cpuMutated := AdjustRequest(container, settings, "cpu", settings.cpu);
    mutated := cpuMutated || mutated;
  }

  // ----- a container

  method MakeWritable(container: Container, ghost settings: Settings)
    modifies container`resources
    ensures container.IsWritable() && container.Maps() == old(container.Maps())
    ensures settings.View() == old(settings.View())
  {
    hide Quantity.Value, Quantity.ShownText;
    if container.resources.None? {
      container.resources := Some(ResourceRequirements(Some(map[]), Some(map[])));
    }
    if container.resources.value.limits.None? {
      container.resources := Some(container.resources.value.(limits := Some(map[])));
    }
    if container.resources.value.requests.None? {
      container.resources := Some(container.resources.value.(requests := Some(map[])));
    }
  }

  method CheckConsistency(container: Container, ghost settings: Settings) returns (err: Option<Rejection>)
    requires container.IsWritable()
    ensures settings.View() == old(settings.View())
    ensures err == First(ConsistencyVerdict(container.Maps(), "memory"), ConsistencyVerdict(container.Maps(), "cpu"))
  {
    hide ConsistencyVerdict, Quantity.Value, Quantity.ShownText;
    err := IsResourceLimitGreaterThanRequest(container, "memory");
    if err.None? {
      err := IsResourceLimitGreaterThanRequest(container, "cpu");
    }
  }

  /** The first objection to a container: bounds, then the consistency of whatever was changed. */
  ghost function ContainerVerdict(r: A.Resources, s: A.Settings): Option<Rejection> {
    First(
      First(ResourceVerdict(r, "memory", s.memory), ResourceVerdict(r, "cpu", s.cpu)),
      if !A.Mutates(r, s) then None
      else First(ConsistencyVerdict(A.Adjusted(r, s), "memory"), ConsistencyVerdict(A.Adjusted(r, s), "cpu")))
  }

  lemma VerdictMeansAccepted(r: A.Resources, s: A.Settings)
    ensures ContainerVerdict(r, s).None? <==> A.Accepts(r, s)
  {
    hide ResourceVerdict, ConsistencyVerdict, A.Mutates, A.Adjusted, A.ConfigAccepts, A.LimitCoversRequest;
    VerdictMeansAcceptance(r, "memory", s.memory);
    VerdictMeansAcceptance(r, "cpu", s.cpu);
    VerdictMeansConsistency(A.Adjusted(r, s), "memory");
    VerdictMeansConsistency(A.Adjusted(r, s), "cpu");
  }

  /** Bounds, defaults, and then the consistency of whatever was changed. */
  method ValidateAndAdjustContainer(container: Container, settings: Settings)
    returns (mutated: bool, err: Option<Rejection>)
    modifies container`resources, settings.Defaults()`s
    ensures settings.View() == old(settings.View())
    ensures var s, r := settings.View(), old(container.Maps());
            && err == ContainerVerdict(r, s)
            && (err.None? <==> A.Accepts(r, s))
            && (err.None? ==> container.IsWritable() && container.Maps() == A.Adjusted(r, s))
            && (mutated <==> err.None? && A.Mutates(r, s))
  {
    hide ConsistencyVerdict, ResourceVerdict, CompletesRequests, RequestsCompleted, CompletesLimits, LimitsCompleted,
      A.Accepts, A.Mutates, A.Adjusted, Settings.View;
    VerdictMeansAccepted(container.Maps(), settings.View());
    StepsMakeAdjustment(container.Maps(), settings.View());
    MakeWritable(container, settings);
    var limitsMutation;
    limitsMutation, err := ValidateAndAdjustContainerConstraints(container, settings);
    if err.Some? {
      return false, err;
    }
    var requestsMutation := ValidateAndAdjustContainerResourceRequests(container, settings);
    if limitsMutation || requestsMutation {
      err := CheckConsistency(container, settings);
      if err.Some? {
        return false, err;
      }
    }
    mutated := limitsMutation || requestsMutation;
  }

  /** The reason names something that is ignored and not there. */
  predicate IsAbsence(e: Rejection, kind: Kind, m: Option<A.QuantityMap>, ignoreCPU: bool, ignoreMemory: bool) {
    match e
    case NoLimits => kind == Limit && m.None? && ignoreCPU && ignoreMemory
    case NoRequests => kind == Request && m.None? && ignoreCPU && ignoreMemory
    case NoQuantity(name, k) =>
      && k == kind && A.IsMissing(OrEmpty(m), name)
      && ((name == "cpu" && ignoreCPU) || (name == "memory" && ignoreMemory))
    case _ => false
  }

  function CheckPresenceLimits(limits: Option<A.QuantityMap>, ignoreCPU: bool, ignoreMemory: bool)
    : (err: Option<Rejection>)
    ensures err.None? <==>
              && (ignoreCPU ==> !A.IsMissing(OrEmpty(limits), "cpu"))
              && (ignoreMemory ==> !A.IsMissing(OrEmpty(limits), "memory"))
    ensures err.Some? ==> IsAbsence(err.value, Limit, limits, ignoreCPU, ignoreMemory)
  {
    if limits.None? && ignoreCPU && ignoreMemory then Some(NoLimits)
    else if ignoreCPU && A.IsMissing(OrEmpty(limits), "cpu") then Some(NoQuantity("cpu", Limit))
    else if ignoreMemory && A.IsMissing(OrEmpty(limits), "memory") then Some(NoQuantity("memory", Limit))
    else None
  }

  function CheckPresenceRequests(requests: Option<A.QuantityMap>, ignoreCPU: bool, ignoreMemory: bool)
    : (err: Option<Rejection>)
    ensures err.None? <==>
              && (ignoreCPU ==> "cpu" in OrEmpty(requests))
              && (ignoreMemory ==> "memory" in OrEmpty(requests))
    ensures err.Some? ==> IsAbsence(err.value, Request, requests, ignoreCPU, ignoreMemory)
  {
    if requests.None? && ignoreCPU && ignoreMemory then Some(NoRequests)
    else if "cpu" !in OrEmpty(requests) && ignoreCPU then Some(NoQuantity("cpu", Request))
    else if "memory" !in OrEmpty(requests) && ignoreMemory then Some(NoQuantity("memory", Request))
    else None
  }

  /** The first objection to what is not there; a nil pointer is noticed only if something is ignored. */
  ghost function PresenceVerdict(resources: Option<ResourceRequirements>, s: A.Settings): Option<Rejection> {
    match resources
    case None => Some(if s.IgnoresCPU() || s.IgnoresMemory() then NoResources else NilDereference)
    case Some(r) =>
      First(CheckPresenceLimits(r.limits, s.IgnoresCPU(), s.IgnoresMemory()),
            CheckPresenceRequests(r.requests, s.IgnoresCPU(), s.IgnoresMemory()))
  }

  method ValidateContainerCheckPresence(container: Container, settings: Settings) returns (err: Option<Rejection>)
    ensures settings.View() == old(settings.View())
    ensures err == PresenceVerdict(container.resources, settings.View())
    ensures err.None? <==> container.resources.Some? && A.IsPresent(container.Maps(), settings.View())
    ensures err == Some(NilDereference) <==>
              container.resources.None? && !settings.View().IgnoresCPU() && !settings.View().IgnoresMemory()
  {
    hide A.Settings.IgnoresCPU, A.Settings.IgnoresMemory, A.IsMissing, Settings.View, CheckPresenceLimits,
      CheckPresenceRequests, Settings.ShouldIgnoreCPUValues, Settings.ShouldIgnoreMemoryValues;
    var ignoreCPU := settings.ShouldIgnoreCPUValues();
    var ignoreMemory := settings.ShouldIgnoreMemoryValues();
    if container.resources.None? {
      return Some(if ignoreCPU || ignoreMemory then NoResources else NilDereference);
    }
    var r := container.resources.value;
    err := CheckPresenceLimits(r.limits, ignoreCPU, ignoreMemory);
    if err.Some? {
      return;
    }
    err := CheckPresenceRequests(r.requests, ignoreCPU, ignoreMemory);
  }

  // ----- a pod

  method ShouldSkipContainer(image: string, ignoreImages: seq<string>) returns (skip: bool)
    ensures skip <==> A.Skips(image, ignoreImages)
  {
    for i := 0 to |ignoreImages|
      invariant forall k :: 0 <= k < i ==> !A.Matches(image, ignoreImages[k])
    {
      var ignored := ignoreImages[i];
      if !(|ignored| > 0 && ignored[|ignored| - 1] == '*') {
        if image == ignored {
          return true;
        }
      } else if ignored[..|ignored| - 1] <= image {
        return true;
      }
    }
    return false;
  }

  ghost function ImagesOf(cs: seq<Container>): (images: seq<string>)
    ensures |images| == |cs| && forall i :: 0 <= i < |cs| ==> images[i] == cs[i].image
  {
    seq(|cs|, i requires 0 <= i < |cs| => cs[i].image)
  }

  ghost function MapsOf(cs: seq<Container>): (rs: seq<A.Resources>)
    reads cs
    ensures |rs| == |cs| && forall i :: 0 <= i < |cs| ==> rs[i] == cs[i].Maps()
  {
    seq(|cs|, i requires 0 <= i < |cs| reads cs => cs[i].Maps())
  }

  ghost function ResourcesOf(cs: seq<Container>): (rs: seq<Option<ResourceRequirements>>)
    reads cs
    ensures |rs| == |cs| && forall i :: 0 <= i < |cs| ==> rs[i] == cs[i].resources
  {
    seq(|cs|, i requires 0 <= i < |cs| reads cs => cs[i].resources)
  }

  ghost predicate AreAccepted(n: nat, images: seq<string>, rs: seq<Option<ResourceRequirements>>, s: A.Settings,
                              skip: seq<string>)
    requires n <= |images| == |rs|
  {
    forall k :: 0 <= k < n ==> Verdict(images[k], rs[k], s, skip).None?
  }

  /** `e` is the first objection to the first container that is rejected, number `i`. */
  ghost predicate IsFirstRejection(e: Rejection, i: nat, images: seq<string>, rs: seq<Option<ResourceRequirements>>,
                                   s: A.Settings, skip: seq<string>)
    requires |images| == |rs|
  {
    i < |rs| && Verdict(images[i], rs[i], s, skip) == Some(e) && AreAccepted(i, images, rs, s, skip)
  }

  lemma VerdictMeansPresent(resources: Option<ResourceRequirements>, s: A.Settings)
    ensures PresenceVerdict(resources, s).None? <==> resources.Some? && A.IsPresent(MapsIn(resources), s)
  {
    hide A.IsMissing, A.Settings.IgnoresCPU, A.Settings.IgnoresMemory, CheckPresenceLimits, CheckPresenceRequests;
  }

  /** There is no objection to any container exactly if the pod is accepted. */
  lemma VerdictsMeanPod(cs: seq<Container>, s: A.Settings, skip: seq<string>)
    ensures AreAccepted(|cs|, ImagesOf(cs), ResourcesOf(cs), s, skip) <==>
            HaveResources(cs, skip) && A.PodAccepts(ImagesOf(cs), MapsOf(cs), s, skip)
  {
    forall k | 0 <= k < |cs|
      ensures Verdict(cs[k].image, cs[k].resources, s, skip).None? <==>
              || A.Skips(cs[k].image, skip)
              || (cs[k].resources.Some? && A.IsPresent(cs[k].Maps(), s) && A.Accepts(cs[k].Maps(), s))
    {
      VerdictMeansPresent(cs[k].resources, s);
      VerdictMeansAccepted(cs[k].Maps(), s);
    }
    hide A.Skips, A.IsPresent, A.Accepts, PresenceVerdict, ContainerVerdict, Verdict, MapsOf, ImagesOf, ResourcesOf;
  }

  lemma NextVerdict(i: nat, err: Option<Rejection>, images: seq<string>, rs: seq<Option<ResourceRequirements>>,
                    s: A.Settings, skip: seq<string>)
    requires |images| == |rs| && i < |rs| && AreAccepted(i, images, rs, s, skip)
    requires err == Verdict(images[i], rs[i], s, skip)
    ensures if err.Some? then
              IsFirstRejection(err.value, i, images, rs, s, skip) && !AreAccepted(|rs|, images, rs, s, skip)
            else AreAccepted(i + 1, images, rs, s, skip)
  {
    hide Verdict;
  }

  /** Every container that is looked at has resources to look at. */
  ghost predicate HaveResources(cs: seq<Container>, ignoreImages: seq<string>)
    reads cs
  {
    forall i :: 0 <= i < |cs| && !A.Skips(cs[i].image, ignoreImages) ==> cs[i].resources.Some?
  }

  /** Skipped and left alone, or completed from `r`. */
  ghost predicate IsDone(c: Container, r: A.Resources, s: A.Settings, skip: seq<string>)
    reads c
  {
    if A.Skips(c.image, skip) then c.Maps() == r else c.resources.Some? && c.Maps() == A.Adjusted(r, s)
  }

  /** The first objection to a container that is looked at. */
  ghost function Verdict(image: string, resources: Option<ResourceRequirements>, s: A.Settings, skip: seq<string>)
    : Option<Rejection>
  {
    if A.Skips(image, skip) then None
    else First(PresenceVerdict(resources, s), ContainerVerdict(MapsIn(resources), s))
  }

  method ValidateContainer(container: Container, settings: Settings) returns (mutated: bool, err: Option<Rejection>)
    modifies container`resources, settings.Defaults()`s
    ensures settings.View() == old(settings.View())
    ensures err == Verdict(container.image, old(container.resources), settings.View(), settings.ignoreImages)
    ensures var s, r, skips := settings.View(), old(container.Maps()), A.Skips(container.image, settings.ignoreImages);
            && (err.None? <==> skips || (old(container.resources.Some?) && A.IsPresent(r, s) && A.Accepts(r, s)))
            && (err.None? ==> IsDone(container, r, s, settings.ignoreImages))
            && (mutated <==> err.None? && !skips && A.Mutates(r, s))
  {
    hide A.Skips, A.IsPresent, A.Accepts, A.Mutates, A.Adjusted, PresenceVerdict, ContainerVerdict, Quantity.Value,
      Quantity.ShownText;
    mutated, err := false, None;
    var skip := ShouldSkipContainer(container.image, settings.ignoreImages);
    assert settings.View() == old(settings.View());
    hide Settings.View;
    if !skip {
      err := ValidateContainerCheckPresence(container, settings);
      if err.None? {
        mutated, err := ValidateAndAdjustContainer(container, settings);
      }
    }
  }

  lemma PodIsDone(cs: seq<Container>, rs: seq<A.Resources>, s: A.Settings, skip: seq<string>)
    requires |rs| == |cs| && forall k :: 0 <= k < |cs| ==> IsDone(cs[k], rs[k], s, skip)
    ensures MapsOf(cs) == A.PodAdjusted(ImagesOf(cs), rs, s, skip) && HaveResources(cs, skip)
  {
    hide A.Skips, A.Adjusted, Container.Maps;
  }

  /** Stops at the first rejection. */
  method ValidatePodSpec(containers: seq<Container>, settings: Settings) returns (mutated: bool, err: Option<Rejection>)
    requires forall i, j :: 0 <= i < j < |containers| ==> containers[i] != containers[j]
    modifies (set c | c in containers)`resources, settings.Defaults()`s
    ensures settings.View() == old(settings.View())
    ensures var s, skip := settings.View(), settings.ignoreImages;
            var images, rs := ImagesOf(containers), old(MapsOf(containers));
            && (err.None? <==> old(HaveResources(containers, skip)) && A.PodAccepts(images, rs, s, skip))
            && (err.None? ==> MapsOf(containers) == A.PodAdjusted(images, rs, s, skip))
            && (err.None? ==> HaveResources(containers, skip))
            && (mutated <==> err.None? && A.PodMutates(images, rs, s, skip))
    ensures err.Some? ==>
              exists i: nat ::
                IsFirstRejection(err.value, i, ImagesOf(containers), old(ResourcesOf(containers)), settings.View(),
                                 settings.ignoreImages)
  {
    hide A.Skips, A.IsPresent, A.Accepts, A.Mutates, A.Adjusted, Settings.View, Settings.Defaults, Container.Maps,
      MapsOf, ImagesOf, ResourcesOf, Verdict, IsFirstRejection;
    ghost var s, images, rs, skip := settings.View(), ImagesOf(containers), MapsOf(containers), settings.ignoreImages;
    ghost var given := ResourcesOf(containers);
    mutated, err := false, None;
    assert AreAccepted(0, images, given, s, skip);
    VerdictsMeanPod(containers, s, skip);
    hide AreAccepted, A.PodAccepts, A.PodAdjusted, IsDone, HaveResources;
    for i := 0 to |containers|
      invariant settings.View() == s && err.None?
      invariant AreAccepted(i, images, given, s, skip)
      invariant forall k :: i <= k < |containers| ==> containers[k].resources == old(containers[k].resources)
      invariant forall k :: 0 <= k < i ==> IsDone(containers[k], rs[k], s, skip)
      invariant mutated <==> exists k :: 0 <= k < i && !A.Skips(images[k], skip) && A.Mutates(rs[k], s)
    {
      var containerMutated;
      containerMutated, err := ValidateContainer(containers[i], settings);
      NextVerdict(i, err, images, given, s, skip);
      if err.Some? {
        return false, err;
      }
      mutated := mutated || containerMutated;
    }
    PodIsDone(containers, rs, s, skip);
  }

  /** Defaults that survive printing are defaults that read back. */
  lemma DefaultsReadBack(settings: Settings)
    requires forall q :: q in settings.Defaults() ==> q.Value() == 0.0 || Survives(q)
    ensures settings.View().DefaultsReadBack()
  {
    hide Quantity.Value, Quantity.ShownText, Survives, Denotes;
    if settings.cpu != null {
      ShownTextReadsBack(settings.cpu.defaultLimit);
      ShownTextReadsBack(settings.cpu.defaultRequest);
    }
    if settings.memory != null {
      ShownTextReadsBack(settings.memory.defaultLimit);
      ShownTextReadsBack(settings.memory.defaultRequest);
    }
  }

  /** A pod that was admitted is admitted again as it is exactly if every default that was filled in settles it. */
  method AdmitTwice(containers: seq<Container>, settings: Settings)
    returns (mutated: bool, err: Option<Rejection>, mutatedAgain: bool, errAgain: Option<Rejection>)
    requires forall i, j :: 0 <= i < j < |containers| ==> containers[i] != containers[j]
    modifies (set c | c in containers)`resources, settings.Defaults()`s
    ensures err.None? ==>
              var s, skip := old(settings.View()), settings.ignoreImages;
              var images, rs := ImagesOf(containers), old(MapsOf(containers));
              && (errAgain.None? && !mutatedAgain <==> A.PodSettles(images, rs, s, skip))
              && (errAgain.None? ==> MapsOf(containers) == A.PodAdjusted(images, rs, s, skip))
  {
    ghost var s, images, rs, skip := settings.View(), ImagesOf(containers), MapsOf(containers), settings.ignoreImages;
    hide A.PodAccepts, A.PodMutates, A.PodAdjusted, A.PodSettles, MapsOf, HaveResources, Settings.View;
    mutated, err := ValidatePodSpec(containers, settings);
    mutatedAgain, errAgain := false, None;
    if err.None? {
      A.PodAdmissionIsIdempotent(images, rs, s, skip);
      mutatedAgain, errAgain := ValidatePodSpec(containers, settings);
    }
  }

  /** Valid settings whose defaults survive printing settle every pod. */
  lemma SurvivingDefaultsSettle(containers: seq<Container>, settings: Settings)
    requires settings.View().Valid()
    requires forall q :: q in settings.Defaults() ==> q.Value() == 0.0 || Survives(q)
    ensures A.PodSettles(ImagesOf(containers), MapsOf(containers), settings.View(), settings.ignoreImages)
  {
    DefaultsReadBack(settings);
    var s, rs := settings.View(), MapsOf(containers);
    hide A.Settings.Valid, A.Settings.DefaultsReadBack, A.AllSettle, MapsOf, ImagesOf, Settings.View, Survives;
    forall i | 0 <= i < |rs| ensures A.AllSettle(rs[i], s) {
      A.ReadableDefaultsSettle(rs[i], s);
    }
  }

  // ----- a default that does not settle

  lemma OneIsBelowThousandExa()
    ensures Denotes("1", Val(1, 0)) && Val(1, 0) < Val(1000, 18) && Val(1000, 18) != 0.0
  {
    ThousandExaPrintsAsOne();
    ValLinear(0, 0, 0);
    ValOrder(0, 1, 0);
    PowersOfTen();
    Rescale(1000, 18, 18);
    ValOrder(1, 1000 * Pow(10, 18), 0);
    hide Val, Pow, Denote, IsCanonicalText;
  }

  /** A minimum and default limit that is filled in as something less. */
  lemma FilledInBelowMinimum(c: A.Config)
    requires c.minLimit == c.defaultLimit != 0.0 && !c.ignoreValues
    requires c.minRequest == c.defaultRequest == c.maxRequest == c.maxLimit == 0.0
    requires Denote(c.limitText).Ok? && Denote(c.limitText).value.value < c.minLimit
    ensures var s, empty := A.Settings(None, Some(c)), A.Resources(map[], map[]);
            && s.Valid() && A.IsPresent(empty, s) && A.Accepts(empty, s) && A.Mutates(empty, s)
            && !A.Accepts(A.Adjusted(empty, s), s)
  {
    var s, empty := A.Settings(None, Some(c)), A.Resources(map[], map[]);
    hide Denote, TrimSpace, A.Config.AllZero, A.Config.Ascends;
    A.AscendsIs(c);
    A.AllZeroIs(c);
    A.ReadableIsNotBlank(c.limitText);
    var n := A.Resources(map["memory" := Some(c.limitText)], map[]);
    assert A.Adjusted(empty, s) == n;
    assert !A.PresentInBounds(n.limits, "memory", c.minLimit, c.maxLimit);
    assert A.Mutates(empty, s) && A.Accepts(empty, s);
    hide A.Adjusted, A.PresentInBounds, A.IsMissing;
    assert !A.ConfigAccepts(n, "memory", c);
  }

  method ThousandExa() returns (q: Quantity)
    ensures fresh(q) && q.Value() == Val(1000, 18) && q.ShownText() == "1"
  {
    ThousandExaPrintsAsOne();
    hide Denote, Denotes, Val, IsCanonicalText, Quantity.Value, Quantity.ShownText;
    var parsed := ParseQuantity("1000E");
    q := parsed.value;
    ThousandExaShowsAsOne(q);
  }

  method Zero() returns (q: Quantity)
    ensures fresh(q) && q.Value() == 0.0
  {
    ValLinear(0, 0, 0);
    q := new Quantity(Int64Amount(0, 0), null, "", DecimalSI);
  }

  method ThousandExaSettings() returns (settings: Settings)
    ensures settings.cpu == null && settings.memory != null && settings.ignoreImages == []
    ensures forall q :: q in settings.Defaults() ==> fresh(q)
    ensures var c := settings.memory.View();
            && c.minLimit == c.defaultLimit == Val(1000, 18) && c.limitText == "1"
            && c.minRequest == c.defaultRequest == c.maxRequest == c.maxLimit == 0.0 && !c.ignoreValues
  {
    hide Val, Quantity.Value, Quantity.ShownText;
    var low := ThousandExa();
    var default := ThousandExa();
    var zero := Zero();
    var request := Zero();
    var memory := new ResourceConfiguration(low, zero, zero, zero, request, default, false);
    settings := new Settings(null, memory, []);
  }

  lemma PodOfOne(image: string, r: A.Resources, s: A.Settings)
    ensures A.PodAccepts([image], [r], s, []) <==> A.IsPresent(r, s) && A.Accepts(r, s)
    ensures A.PodAdjusted([image], [r], s, []) == [A.Adjusted(r, s)]
    ensures A.PodMutates([image], [r], s, []) <==> A.Mutates(r, s)
  {
    hide A.IsPresent, A.Accepts, A.Adjusted, A.Mutates;
    var n := A.PodAdjusted([image], [r], s, []);
    assert [r][0] == r && !A.Skips(image, []);
    assert n[0] == A.Adjusted(r, s);
  }

  /** These settings are valid, fill in a limit, and reject the container with it. */
  method FilledInAndRejected()
    returns (invalid: Option<SettingsError>, mutated: bool, err: Option<Rejection>, errAgain: Option<Rejection>)
    ensures invalid.None? && err.None? && mutated && errAgain.Some?
  {
    hide A.Settings.Valid, A.IsPresent, A.Accepts, A.Mutates, A.Adjusted, A.PodAccepts, A.PodMutates, A.PodAdjusted,
      A.Skips, Val, Denote, Quantity.Value, Quantity.ShownText;
    OneIsBelowThousandExa();
    var settings := ThousandExaSettings();
    invalid := settings.Valid();
    var container := new Container("", Some(ResourceRequirements(None, None)));
    ghost var c, empty := settings.memory.View(), A.Resources(map[], map[]);
    ghost var s := A.Settings(None, Some(c));
    assert Denote("1").Ok? && Denote("1").value.value == Val(1, 0);
    FilledInBelowMinimum(c);
    PodOfOne("", empty, s);
    PodOfOne("", A.Adjusted(empty, s), s);
    assert settings.View() == s && invalid.None?;
    assert ImagesOf([container]) == [""] && MapsOf([container]) == [empty];
    assert HaveResources([container], []);
    hide *;
    mutated, err := ValidatePodSpec([container], settings);
    var mutatedAgain;
    mutatedAgain, errAgain := ValidatePodSpec([container], settings);
  }
}
