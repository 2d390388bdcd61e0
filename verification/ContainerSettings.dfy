/** The settings of the container-resources policy (`settings.go`); `View` gives what they say. */
module ContainerSettings {
  import opened Wrappers
  import opened Quantities
  import A = Admission

  // ----- settings

  datatype ConfigError = NothingDefined | OutOfOrder(lesser: string, greater: string)

  datatype Constraint = Constraint(lesser: Quantity, lesserName: string, greater: Quantity, greaterName: string)

  class ResourceConfiguration {
    const minLimit: Quantity
    const maxLimit: Quantity
    const minRequest: Quantity
    const maxRequest: Quantity
    const defaultRequest: Quantity
    const defaultLimit: Quantity
    const ignoreValues: bool

    constructor (minLimit: Quantity, maxLimit: Quantity, minRequest: Quantity, maxRequest: Quantity,
                 defaultRequest: Quantity, defaultLimit: Quantity, ignoreValues: bool)
      ensures this.minLimit == minLimit && this.maxLimit == maxLimit
      ensures this.minRequest == minRequest && this.maxRequest == maxRequest
      ensures this.defaultRequest == defaultRequest && this.defaultLimit == defaultLimit
      ensures this.ignoreValues == ignoreValues
    {
      this.minLimit, this.maxLimit, this.minRequest, this.maxRequest := minLimit, maxLimit, minRequest, maxRequest;
      this.defaultRequest, this.defaultLimit, this.ignoreValues := defaultRequest, defaultLimit, ignoreValues;
    }

    ghost function Parts(): set<Quantity> {
      {minLimit, maxLimit, minRequest, maxRequest, defaultRequest, defaultLimit}
    }

    ghost function Footprint(): set<object?>
      reads Parts()
    {
      Parts() + set q | q in Parts() :: q.d
    }

    /** The values, and the texts that the defaults are printed as. */
    ghost function View(): A.Config
      reads Footprint()
    {
      A.Config(minRequest.Value(), defaultRequest.Value(), maxRequest.Value(),
               minLimit.Value(), defaultLimit.Value(), maxLimit.Value(),
               ignoreValues, defaultRequest.ShownText(), defaultLimit.ShownText())
    }

    predicate AllValuesAreZero(): (b: bool)
      reads Footprint()
      ensures b <==> View().AllZero()
    {
      hide A.Config.AllZero, Quantity.Value, Quantity.ShownText, Quantity.IsZero;
      A.AllZeroIs(View());
      && maxLimit.IsZero() && defaultLimit.IsZero() && defaultRequest.IsZero() && minRequest.IsZero()
      && minLimit.IsZero()
      && maxRequest.IsZero()
    }

    function Constraints(): seq<Constraint> {
      [ Constraint(defaultLimit, "default limit", maxLimit, "max limit"),
        Constraint(minLimit, "min limit", maxLimit, "max limit"),
        Constraint(maxRequest, "max request", maxLimit, "max limit"),
        Constraint(defaultRequest, "default request", maxLimit, "max limit"),
        Constraint(minRequest, "min request", maxLimit, "max limit"),
        Constraint(minLimit, "min limit", defaultLimit, "default limit"),
        Constraint(maxRequest, "max request", defaultLimit, "default limit"),
        Constraint(defaultRequest, "default request", defaultLimit, "default limit"),
        Constraint(minRequest, "min request", defaultLimit, "default limit"),
        Constraint(maxRequest, "max request", minLimit, "min limit"),
        Constraint(defaultRequest, "default request", minLimit, "min limit"),
        Constraint(minRequest, "min request", minLimit, "min limit"),
        Constraint(defaultRequest, "default request", maxRequest, "max request"),
        Constraint(minRequest, "min request", maxRequest, "max request"),
        Constraint(minRequest, "min request", defaultRequest, "default request") ]
    }

    /** `name` is what messages call `q`. */
    predicate IsNamed(q: Quantity, name: string) {
      || (name == "min limit" && q == minLimit) || (name == "max limit" && q == maxLimit)
      || (name == "min request" && q == minRequest) || (name == "max request" && q == maxRequest)
      || (name == "default limit" && q == defaultLimit) || (name == "default request" && q == defaultRequest)
    }

    lemma NamesAreRight(c: Constraint)
      requires c in Constraints()
      ensures IsNamed(c.lesser, c.lesserName) && IsNamed(c.greater, c.greaterName)
    {
    }

    /** The table says what the chain says. */
    lemma TableIsChain()
      ensures View().Ascends() <==> forall i :: 0 <= i < |Constraints()| ==> Holds(Constraints()[i])
    {
      hide A.Config.Ascends, Quantity.Value, Quantity.ShownText, A.InOrder;
      var t := Constraints();
      assert |t| == 15;
      assert (forall i :: 0 <= i < 15 ==> Holds(t[i])) <==>
        && Holds(t[0]) && Holds(t[1]) && Holds(t[2]) && Holds(t[3]) && Holds(t[4])
        && Holds(t[5]) && Holds(t[6]) && Holds(t[7]) && Holds(t[8]) && Holds(t[9])
        && Holds(t[10]) && Holds(t[11]) && Holds(t[12]) && Holds(t[13]) && Holds(t[14]);
      A.AscendsIs(View());
    }

    method Valid() returns (err: Option<ConfigError>)
      ensures err == Some(NothingDefined) <==> View().AllZero() && !ignoreValues
      ensures err.None? <==> View().Ascends() && !(View().AllZero() && !ignoreValues)
      ensures err.Some? && err.value.OutOfOrder? ==>
                exists i: nat :: IsFirstViolation(Constraints(), i) &&
                  err.value == OutOfOrder(Constraints()[i].lesserName, Constraints()[i].greaterName)
    {
      hide A.Config.AllZero, A.Config.Ascends, Quantity.Value, Quantity.ShownText, Holds;
      var zero := AllValuesAreZero();
      if zero && !ignoreValues {
        return Some(NothingDefined);
      }
      var constraints := Constraints();
      var i := FirstViolation(constraints);
      TableIsChain();
      hide Constraints;
      if i < |constraints| {
        return Some(OutOfOrder(constraints[i].lesserName, constraints[i].greaterName));
      }
      return None;
    }
  }

  ghost predicate IsFirstViolation(constraints: seq<Constraint>, i: nat)
    reads set c | c in constraints :: c.lesser, set c | c in constraints :: c.lesser.d
    reads set c | c in constraints :: c.greater, set c | c in constraints :: c.greater.d
  {
    && i < |constraints| && !Holds(constraints[i])
    && forall k :: 0 <= k < i ==> Holds(constraints[k])
  }

  method FirstViolation(constraints: seq<Constraint>) returns (i: nat)
    ensures i <= |constraints|
    ensures if i < |constraints| then IsFirstViolation(constraints, i)
            else forall k :: 0 <= k < i ==> Holds(constraints[k])
  {
    i := 0;
    while i < |constraints|
      invariant i <= |constraints|
      invariant forall k :: 0 <= k < i ==> Holds(constraints[k])
    {
      var holds := Check(constraints[i]);
      if !holds {
        return;
      }
      i := i + 1;
    }
  }

  ghost predicate Holds(c: Constraint)
    reads c.lesser, c.lesser.d, c.greater, c.greater.d
  {
    A.InOrder(c.lesser.Value(), c.greater.Value())
  }

  /** The table holds copies of the quantities, so comparing them changes no setting. */
  method Check(constraint: Constraint) returns (holds: bool)
    ensures holds <==> Holds(constraint)
  {
    hide Quantity.Value, Quantity.Coherent, Quantity.Truthful;
    var zero := constraint.lesser.IsZero();
    if zero {
      return true;
    }
    zero := constraint.greater.IsZero();
    if zero {
      return true;
    }
    var lesser := constraint.lesser.Copy();
    var c := lesser.Cmp(constraint.greater);
    return c <= 0;
  }

  /** Accepted on its own. */
  ghost predicate IsFine(c: A.Config) {
    c.Ascends() && (c.ignoreValues || !c.AllZero())
  }

  datatype SettingsError = NothingProvided | Invalid(cpu: Option<ConfigError>, memory: Option<ConfigError>)

  class Settings {
    const cpu: ResourceConfiguration?
    const memory: ResourceConfiguration?
    const ignoreImages: seq<string>

    constructor (cpu: ResourceConfiguration?, memory: ResourceConfiguration?, ignoreImages: seq<string>)
      ensures this.cpu == cpu && this.memory == memory && this.ignoreImages == ignoreImages
    {
      this.cpu, this.memory, this.ignoreImages := cpu, memory, ignoreImages;
    }

    ghost function Footprint(): set<object?>
      reads if cpu != null then cpu.Parts() else {}
      reads if memory != null then memory.Parts() else {}
    {
      (if cpu != null then cpu.Footprint() else {}) + if memory != null then memory.Footprint() else {}
    }

    ghost function View(): A.Settings
      reads if cpu != null then cpu.Footprint() else {}
      reads if memory != null then memory.Footprint() else {}
    {
      A.Settings(if cpu == null then None else Some(cpu.View()), if memory == null then None else Some(memory.View()))
    }

    /** The quantities that admission prints. */
    ghost function Defaults(): set<Quantity> {
      (if cpu != null then {cpu.defaultLimit, cpu.defaultRequest} else {})
      + if memory != null then {memory.defaultLimit, memory.defaultRequest} else {}
    }

    predicate ShouldIgnoreCPUValues(): (b: bool)
      reads Footprint()
      ensures b <==> View().IgnoresCPU()
    {
      hide A.Config.AllZero, ResourceConfiguration.AllValuesAreZero;
      cpu != null && (cpu.ignoreValues || (!cpu.ignoreValues && cpu.AllValuesAreZero()))
    }

    predicate ShouldIgnoreMemoryValues(): (b: bool)
      reads Footprint()
      ensures b <==> View().IgnoresMemory()
    {
      hide A.Config.AllZero, ResourceConfiguration.AllValuesAreZero;
      memory != null && (memory.ignoreValues || (!memory.ignoreValues && memory.AllValuesAreZero()))
    }

    /** A resource that is left at zero is tolerated if the other one is fine. */
    method Valid() returns (err: Option<SettingsError>)
      ensures err.None? <==> View().Valid()
      ensures err == Some(NothingProvided) <==> cpu == null && memory == null
      ensures err.Some? && err.value.Invalid? ==>
                && (err.value.cpu.None? <==> cpu == null || IsFine(cpu.View()))
                && (err.value.memory.None? <==> memory == null || IsFine(memory.View()))
    {
      hide A.Config.AllZero, A.Config.Ascends, Quantity.Value, Quantity.ShownText;
      if cpu == null && memory == null {
        return Some(NothingProvided);
      }
      var cpuError, memoryError := None, None;
      if cpu != null {
        cpuError := cpu.Valid();
        A.AllZeroIs(cpu.View());
      }
      if memory != null {
        memoryError := memory.Valid();
        A.AllZeroIs(memory.View());
      }
      if cpuError != None || memoryError != None {
        if
          || (cpuError == None && memoryError == Some(NothingDefined))
          || (memoryError == None && cpuError == Some(NothingDefined))
        {
          return None;
        }
        return Some(Invalid(cpuError, memoryError));
      }
      return None;
    }
  }
}
