/** Namespace limits against what a project has left (`quota_checks.go`). */
module QuotaChecks {
  import opened Wrappers
  import opened Powers
  import opened Int64Math
  import opened Grammar
  import opened Quantities
  import opened Parser

  datatype Argument = NamespaceLimit | ProjectLimit | ProjectUsed

  datatype QuotaError = ParseFailed(argument: Argument, error: ParseError) | ExceedsAvailability

  function OrZero(s: string): string {
    if s == "" then "0" else s
  }

  /** The three strings in exact arithmetic; the first one that does not parse is reported. */
  ghost function QuotaVerdict(nsLimit: string, prjLimit: string, prjUsed: string): Option<QuotaError> {
    match Denote(OrZero(nsLimit))
    case Err(e) => Some(ParseFailed(NamespaceLimit, e))
    case Ok(requested) =>
      match Denote(OrZero(prjLimit))
      case Err(e) => Some(ParseFailed(ProjectLimit, e))
      case Ok(limit) =>
        match Denote(OrZero(prjUsed))
        case Err(e) => Some(ParseFailed(ProjectUsed, e))
        case Ok(used) =>
          if requested.value <= limit.value - used.value then None else Some(ExceedsAvailability)
  }

  /** A string left empty counts as zero. */
  ghost predicate CountsAs(s: string, x: real) {
    if s == "" then x == 0.0 else Denotes(s, x)
  }

  lemma EmptyDenotesZero()
    ensures Denotes("0", 0.0)
  {
    ZeroMeans();
    assert Val(0, 0) == 0.0;
    hide Denote;
  }

  /** Where all three strings count as numbers, the namespace may ask for no more than is left. */
  lemma VerdictComparesNumbers(nsLimit: string, prjLimit: string, prjUsed: string, r: real, l: real, u: real)
    requires CountsAs(nsLimit, r) && CountsAs(prjLimit, l) && CountsAs(prjUsed, u)
    ensures QuotaVerdict(nsLimit, prjLimit, prjUsed) == if r <= l - u then None else Some(ExceedsAvailability)
  {
    EmptyDenotesZero();
    hide Denote;
  }

  /** A parse error names the first of the strings that is neither empty nor a quantity. */
  lemma VerdictNamesFirstUnreadable(nsLimit: string, prjLimit: string, prjUsed: string)
    ensures nsLimit != "" && Denote(nsLimit).Err? ==>
              QuotaVerdict(nsLimit, prjLimit, prjUsed) == Some(ParseFailed(NamespaceLimit, Denote(nsLimit).error))
    ensures (nsLimit == "" || Denote(nsLimit).Ok?) && prjLimit != "" && Denote(prjLimit).Err? ==>
              QuotaVerdict(nsLimit, prjLimit, prjUsed) == Some(ParseFailed(ProjectLimit, Denote(prjLimit).error))
    ensures (nsLimit == "" || Denote(nsLimit).Ok?) && (prjLimit == "" || Denote(prjLimit).Ok?)
            && prjUsed != "" && Denote(prjUsed).Err? ==>
              QuotaVerdict(nsLimit, prjLimit, prjUsed) == Some(ParseFailed(ProjectUsed, Denote(prjUsed).error))
  {
    EmptyDenotesZero();
    hide Denote;
  }

  method CheckLimitVsAvailableQuota(nsLimit: string, prjLimit: string, prjUsed: string)
    returns (err: Option<QuotaError>)
    ensures err == QuotaVerdict(nsLimit, prjLimit, prjUsed)
    ensures forall r, l, u :: CountsAs(nsLimit, r) && CountsAs(prjLimit, l) && CountsAs(prjUsed, u) ==>
              (err.None? <==> r <= l - u)
  {
    forall r, l, u | CountsAs(nsLimit, r) && CountsAs(prjLimit, l) && CountsAs(prjUsed, u)
      ensures QuotaVerdict(nsLimit, prjLimit, prjUsed).None? <==> r <= l - u
    {
      VerdictComparesNumbers(nsLimit, prjLimit, prjUsed, r, l, u);
    }
    hide Denote, ReusesInput, CountsAs;
    var requested := ParseQuantity(OrZero(nsLimit));
    if requested.Err? {
      return Some(ParseFailed(NamespaceLimit, requested.error));
    }
    var limit := ParseQuantity(OrZero(prjLimit));
    if limit.Err? {
      return Some(ParseFailed(ProjectLimit, limit.error));
    }
    var used := ParseQuantity(OrZero(prjUsed));
    if used.Err? {
      return Some(ParseFailed(ProjectUsed, used.error));
    }
    var exceeds := Exceeds(requested.value, limit.value, used.value);
    return if exceeds then Some(ExceedsAvailability) else None;
  }

  /** The subtraction works on a deep copy, so the limit keeps its value. */
  method Exceeds(requested: Quantity, limit: Quantity, used: Quantity) returns (exceeds: bool)
    requires used.d == null ==> used.i.value != MIN_INT64
    modifies requested`i, requested`d
    ensures exceeds <==> old(requested.Value()) > old(limit.Value()) - old(used.Value())
    ensures limit.Value() == old(limit.Value()) && used.Value() == old(used.Value())
    ensures requested.Value() == old(requested.Value())
  {
    var available := limit.DeepCopy();
    available.Sub(used);
    var c := requested.Cmp(available);
    return c > 0;
  }

  // ----- all resources of a project

  datatype ResourceQuotaLimit = ResourceQuotaLimit(
    pods: string, services: string, replicationControllers: string, secrets: string, configMaps: string,
    persistentVolumeClaims: string, servicesNodePorts: string, servicesLoadBalancers: string,
    requestsCPU: string, requestsMemory: string, requestsStorage: string, limitsCPU: string, limitsMemory: string)

  datatype ProjectResourceQuota = ProjectResourceQuota(limit: ResourceQuotaLimit, usedLimit: ResourceQuotaLimit)

  datatype Row = Row(name: string, ns: string, limit: string, used: string)

  const NO_LIMITS := ResourceQuotaLimit("", "", "", "", "", "", "", "", "", "", "", "", "")

  function Rows(ns: ResourceQuotaLimit, limit: ResourceQuotaLimit, used: ResourceQuotaLimit): seq<Row> {
    [ Row("Pods", ns.pods, limit.pods, used.pods),
      Row("Services", ns.services, limit.services, used.services),
      Row("ReplicationControllers",
          ns.replicationControllers, limit.replicationControllers, used.replicationControllers),
      Row("Secrets", ns.secrets, limit.secrets, used.secrets),
      Row("ConfigMaps", ns.configMaps, limit.configMaps, used.configMaps),
      Row("PersistentVolumeClaims",
          ns.persistentVolumeClaims, limit.persistentVolumeClaims, used.persistentVolumeClaims),
      Row("ServicesNodePorts", ns.servicesNodePorts, limit.servicesNodePorts, used.servicesNodePorts),
      Row("ServicesLoadBalancers", ns.servicesLoadBalancers, limit.servicesLoadBalancers, used.servicesLoadBalancers),
      Row("RequestsCPU", ns.requestsCPU, limit.requestsCPU, used.requestsCPU),
      Row("RequestsMemory", ns.requestsMemory, limit.requestsMemory, used.requestsMemory),
      Row("RequestsStorage", ns.requestsStorage, limit.requestsStorage, used.requestsStorage),
      Row("LimitsCPU", ns.limitsCPU, limit.limitsCPU, used.limitsCPU),
      Row("LimitsMemory", ns.limitsMemory, limit.limitsMemory, used.limitsMemory) ]
  }

  datatype Violation = Violation(name: string, error: QuotaError)

  ghost function VerdictOf(row: Row): Option<QuotaError> {
    QuotaVerdict(row.ns, row.limit, row.used)
  }

  /** What is reported of one resource. */
  function Report(name: string, verdict: Option<QuotaError>): seq<Violation> {
    if verdict.Some? then [Violation(name, verdict.value)] else []
  }

  /** Every violated row with its own error, in order. */
  ghost function Reports(rows: seq<Row>): seq<Violation> {
    if rows == [] then []
    else
      var last := rows[|rows| - 1];
      Reports(rows[..|rows| - 1]) + Report(last.name, VerdictOf(last))
  }

  lemma NoRows()
    ensures Reports([]) == []
  {
  }

  lemma VerdictsOf(rows: seq<Row>)
    ensures forall i :: 0 <= i < |rows| ==> VerdictOf(rows[i]) == QuotaVerdict(rows[i].ns, rows[i].limit, rows[i].used)
  {
    hide QuotaVerdict;
  }

  lemma ReportsNext(rows: seq<Row>, k: nat)
    requires k < |rows|
    ensures Reports(rows[..k + 1]) == Reports(rows[..k]) + Report(rows[k].name, VerdictOf(rows[k]))
  {
    hide QuotaVerdict;
    assert rows[..k + 1][..k] == rows[..k];
  }

  /** A violation is reported exactly if a row of its name has its error. */
  lemma {:induction false} ReportedIsViolated(rows: seq<Row>, v: Violation)
    ensures v in Reports(rows) <==>
            exists i :: 0 <= i < |rows| && rows[i].name == v.name && VerdictOf(rows[i]) == Some(v.error)
  {
    hide QuotaVerdict, VerdictOf;
    if rows != [] {
      var last := |rows| - 1;
      ReportedIsViolated(rows[..last], v);
      if i :| 0 <= i < |rows| && rows[i].name == v.name && VerdictOf(rows[i]) == Some(v.error) {
        assert i < last ==> rows[..last][i] == rows[i];
      }
    }
  }

  /** A namespace is accepted exactly if every one of its limits fits. */
  lemma {:induction false} AcceptedMeansAllFit(rows: seq<Row>)
    ensures Reports(rows) == [] <==> forall i :: 0 <= i < |rows| ==> VerdictOf(rows[i]).None?
  {
    hide QuotaVerdict, VerdictOf;
    if rows != [] {
      var last := |rows| - 1;
      AcceptedMeansAllFit(rows[..last]);
      assert forall i :: 0 <= i < last ==> rows[..last][i] == rows[i];
    }
  }

  method CheckRows(quotas: seq<Row>) returns (errors: seq<Violation>)
    ensures errors == Reports(quotas)
  {
    errors := [];
    hide QuotaVerdict;
    for i := 0 to |quotas|
      invariant errors == Reports(quotas[..i])
    {
      ReportsNext(quotas, i);
      var err := CheckLimitVsAvailableQuota(quotas[i].ns, quotas[i].limit, quotas[i].used);
      if err.Some? {
        errors := errors + [Violation(quotas[i].name, err.value)];
      }
    }
    assert quotas[..|quotas|] == quotas;
  }

  lemma RowsAre(ns: ResourceQuotaLimit, limit: ResourceQuotaLimit, used: ResourceQuotaLimit)
    ensures |Rows(ns, limit, used)| == 13
    ensures Rows(ns, limit, used)[0] == Row("Pods", ns.pods, limit.pods, used.pods)
    ensures Rows(ns, limit, used)[1] == Row("Services", ns.services, limit.services, used.services)
    ensures Rows(ns, limit, used)[2] ==
            Row("ReplicationControllers",
                ns.replicationControllers, limit.replicationControllers, used.replicationControllers)
    ensures Rows(ns, limit, used)[3] == Row("Secrets", ns.secrets, limit.secrets, used.secrets)
    ensures Rows(ns, limit, used)[4] == Row("ConfigMaps", ns.configMaps, limit.configMaps, used.configMaps)
    ensures Rows(ns, limit, used)[5] ==
            Row("PersistentVolumeClaims",
                ns.persistentVolumeClaims, limit.persistentVolumeClaims, used.persistentVolumeClaims)
    ensures Rows(ns, limit, used)[6] ==
            Row("ServicesNodePorts", ns.servicesNodePorts, limit.servicesNodePorts, used.servicesNodePorts)
    ensures Rows(ns, limit, used)[7] ==
            Row("ServicesLoadBalancers",
                ns.servicesLoadBalancers, limit.servicesLoadBalancers, used.servicesLoadBalancers)
    ensures Rows(ns, limit, used)[8] == Row("RequestsCPU", ns.requestsCPU, limit.requestsCPU, used.requestsCPU)
    ensures Rows(ns, limit, used)[9] ==
            Row("RequestsMemory", ns.requestsMemory, limit.requestsMemory, used.requestsMemory)
    ensures Rows(ns, limit, used)[10] ==
            Row("RequestsStorage", ns.requestsStorage, limit.requestsStorage, used.requestsStorage)
    ensures Rows(ns, limit, used)[11] == Row("LimitsCPU", ns.limitsCPU, limit.limitsCPU, used.limitsCPU)
    ensures Rows(ns, limit, used)[12] == Row("LimitsMemory", ns.limitsMemory, limit.limitsMemory, used.limitsMemory)
  {
  }

  /** Every resource is within what its own limits leave. */
  ghost predicate AllFit(ns: ResourceQuotaLimit, limit: ResourceQuotaLimit, used: ResourceQuotaLimit) {
    && QuotaVerdict(ns.pods, limit.pods, used.pods).None?
    && QuotaVerdict(ns.services, limit.services, used.services).None?
    && QuotaVerdict(ns.replicationControllers, limit.replicationControllers,
                    used.replicationControllers).None?
    && QuotaVerdict(ns.secrets, limit.secrets, used.secrets).None?
    && QuotaVerdict(ns.configMaps, limit.configMaps, used.configMaps).None?
    && QuotaVerdict(ns.persistentVolumeClaims, limit.persistentVolumeClaims,
                    used.persistentVolumeClaims).None?
    && QuotaVerdict(ns.servicesNodePorts, limit.servicesNodePorts, used.servicesNodePorts).None?
    && QuotaVerdict(ns.servicesLoadBalancers, limit.servicesLoadBalancers, used.servicesLoadBalancers).None?
    && QuotaVerdict(ns.requestsCPU, limit.requestsCPU, used.requestsCPU).None?
    && QuotaVerdict(ns.requestsMemory, limit.requestsMemory, used.requestsMemory).None?
    && QuotaVerdict(ns.requestsStorage, limit.requestsStorage, used.requestsStorage).None?
    && QuotaVerdict(ns.limitsCPU, limit.limitsCPU, used.limitsCPU).None?
    && QuotaVerdict(ns.limitsMemory, limit.limitsMemory, used.limitsMemory).None?
  }

  lemma AcceptedByField(ns: ResourceQuotaLimit, limit: ResourceQuotaLimit, used: ResourceQuotaLimit)
    ensures Reports(Rows(ns, limit, used)) == [] <==> AllFit(ns, limit, used)
  {
    var t := Rows(ns, limit, used);
    RowsAre(ns, limit, used);
    VerdictsOf(t);
    AcceptedMeansAllFit(t);
    hide Rows, QuotaVerdict, Reports, VerdictOf;
    assert (forall i :: 0 <= i < 13 ==> VerdictOf(t[i]).None?) <==>
      && VerdictOf(t[0]).None? && VerdictOf(t[1]).None? && VerdictOf(t[2]).None? && VerdictOf(t[3]).None?
      && VerdictOf(t[4]).None? && VerdictOf(t[5]).None? && VerdictOf(t[6]).None? && VerdictOf(t[7]).None?
      && VerdictOf(t[8]).None? && VerdictOf(t[9]).None? && VerdictOf(t[10]).None? && VerdictOf(t[11]).None?
      && VerdictOf(t[12]).None?;
  }

  lemma NamesDiffer(ns: ResourceQuotaLimit, limit: ResourceQuotaLimit, used: ResourceQuotaLimit)
    ensures var t := Rows(ns, limit, used); forall i, j :: 0 <= i < j < |t| ==> t[i].name != t[j].name
  {
  }

  /** A violation of each name is reported exactly if the resource of that name is violated. */
  lemma ReportedByName(errors: seq<Violation>, ns: ResourceQuotaLimit, limit: ResourceQuotaLimit,
                       used: ResourceQuotaLimit)
    requires errors == Reports(Rows(ns, limit, used))
    ensures forall e :: Violation("Pods", e) in errors <==> QuotaVerdict(ns.pods, limit.pods, used.pods) == Some(e)
    ensures forall e :: Violation("Services", e) in errors <==>
              QuotaVerdict(ns.services, limit.services, used.services) == Some(e)
    ensures forall e :: Violation("ReplicationControllers", e) in errors <==>
              QuotaVerdict(ns.replicationControllers, limit.replicationControllers,
                           used.replicationControllers) == Some(e)
    ensures forall e :: Violation("Secrets", e) in errors <==>
              QuotaVerdict(ns.secrets, limit.secrets, used.secrets) == Some(e)
    ensures forall e :: Violation("ConfigMaps", e) in errors <==>
              QuotaVerdict(ns.configMaps, limit.configMaps, used.configMaps) == Some(e)
    ensures forall e :: Violation("PersistentVolumeClaims", e) in errors <==>
              QuotaVerdict(ns.persistentVolumeClaims, limit.persistentVolumeClaims,
                           used.persistentVolumeClaims) == Some(e)
    ensures forall e :: Violation("ServicesNodePorts", e) in errors <==>
              QuotaVerdict(ns.servicesNodePorts, limit.servicesNodePorts, used.servicesNodePorts) == Some(e)
    ensures forall e :: Violation("ServicesLoadBalancers", e) in errors <==>
              QuotaVerdict(ns.servicesLoadBalancers, limit.servicesLoadBalancers, used.servicesLoadBalancers) == Some(e)
    ensures forall e :: Violation("RequestsCPU", e) in errors <==>
              QuotaVerdict(ns.requestsCPU, limit.requestsCPU, used.requestsCPU) == Some(e)
    ensures forall e :: Violation("RequestsMemory", e) in errors <==>
              QuotaVerdict(ns.requestsMemory, limit.requestsMemory, used.requestsMemory) == Some(e)
    ensures forall e :: Violation("RequestsStorage", e) in errors <==>
              QuotaVerdict(ns.requestsStorage, limit.requestsStorage, used.requestsStorage) == Some(e)
    ensures forall e :: Violation("LimitsCPU", e) in errors <==>
              QuotaVerdict(ns.limitsCPU, limit.limitsCPU, used.limitsCPU) == Some(e)
    ensures forall e :: Violation("LimitsMemory", e) in errors <==>
              QuotaVerdict(ns.limitsMemory, limit.limitsMemory, used.limitsMemory) == Some(e)
  {
    var t := Rows(ns, limit, used);
    RowsAre(ns, limit, used);
    NamesDiffer(ns, limit, used);
    VerdictsOf(t);
    hide *;
    forall k, e | 0 <= k < 13 ensures Violation(t[k].name, e) in errors <==> VerdictOf(t[k]) == Some(e) {
      ReportedIsViolated(t, Violation(t[k].name, e));
    }
    assert forall e :: Violation(t[0].name, e) in errors <==> VerdictOf(t[0]) == Some(e);
    assert forall e :: Violation(t[1].name, e) in errors <==> VerdictOf(t[1]) == Some(e);
    assert forall e :: Violation(t[2].name, e) in errors <==> VerdictOf(t[2]) == Some(e);
    assert forall e :: Violation(t[3].name, e) in errors <==> VerdictOf(t[3]) == Some(e);
    assert forall e :: Violation(t[4].name, e) in errors <==> VerdictOf(t[4]) == Some(e);
    assert forall e :: Violation(t[5].name, e) in errors <==> VerdictOf(t[5]) == Some(e);
    assert forall e :: Violation(t[6].name, e) in errors <==> VerdictOf(t[6]) == Some(e);
    assert forall e :: Violation(t[7].name, e) in errors <==> VerdictOf(t[7]) == Some(e);
    assert forall e :: Violation(t[8].name, e) in errors <==> VerdictOf(t[8]) == Some(e);
    assert forall e :: Violation(t[9].name, e) in errors <==> VerdictOf(t[9]) == Some(e);
    assert forall e :: Violation(t[10].name, e) in errors <==> VerdictOf(t[10]) == Some(e);
    assert forall e :: Violation(t[11].name, e) in errors <==> VerdictOf(t[11]) == Some(e);
    assert forall e :: Violation(t[12].name, e) in errors <==> VerdictOf(t[12]) == Some(e);
  }

  method ValidateQuotas(quota: Option<ProjectResourceQuota>, nsLimits: Option<ResourceQuotaLimit>)
    returns (errors: seq<Violation>)
    ensures quota.None? ==> errors == []
    ensures quota.Some? ==>
              var none := ResourceQuotaLimit("", "", "", "", "", "", "", "", "", "", "", "", "");
              var ns := if nsLimits.Some? then nsLimits.value else none;
              var limit, used := quota.value.limit, quota.value.usedLimit;
              errors == Reports(Rows(ns, limit, used)) && (errors == [] <==> AllFit(ns, limit, used))
  {
    if quota.None? {
      return [];
    }
    var ns := if nsLimits.Some? then nsLimits.value else NO_LIMITS;
    AcceptedByField(ns, quota.value.limit, quota.value.usedLimit);
    hide Reports, Rows, AllFit;
    errors := CheckRows(Rows(ns, quota.value.limit, quota.value.usedLimit));
  }
}
