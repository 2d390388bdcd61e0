/** Mounted host paths against an allow list in which the most specific prefix wins (`hostpaths-psp-policy`). */
module HostPaths {
  import opened Wrappers

  datatype HostPath = HostPath(pathPrefix: string, readOnly: bool)

  datatype Volume = Volume(name: string, hostPath: Option<string>)

  datatype VolumeMount = VolumeMount(name: string, readOnly: bool)

  datatype MountError = ShouldBeReadOnly(readOnly: bool) | NotInList

  function Terminated(path: string): string {
    if path != "" && path[|path| - 1] == '/' then path else path + "/"
  }

  /** Whole path elements only: "/foo" is a prefix of "/foo/bar" and not of "/fool". */
  predicate HasPathPrefix(path: string, prefix: string) {
    Terminated(prefix) <= Terminated(path)
  }

  predicate EndsInSlash(path: string) {
    path != "" && path[|path| - 1] == '/'
  }

  /** Terminating both paths, in terms of the paths themselves. */
  lemma PrefixIsWholeElements(path: string, prefix: string)
    ensures EndsInSlash(prefix) ==>
              (HasPathPrefix(path, prefix) <==> prefix <= path || (path + "/" == prefix && !EndsInSlash(path)))
    ensures !EndsInSlash(prefix) ==>
              (HasPathPrefix(path, prefix) <==> path == prefix || prefix + "/" <= path)
  {
    PrefixOfAppended(path, prefix);
    PrefixOfAppended(path, prefix + "/");
    assert prefix + "/" == path + "/" <==> prefix == path by {
      assert (prefix + "/")[..|prefix|] == prefix && (path + "/")[..|path|] == path;
    }
    assert path != "" && path[|path| - 1] == '/' && path == prefix ==> prefix[|prefix| - 1] == '/';
  }

  lemma PrefixOfAppended(path: string, p: string)
    ensures p <= path + "/" <==> p <= path || p == path + "/"
  {
    if p <= path + "/" && |p| <= |path| {
      assert p == (path + "/")[..|p|] == path[..|p|];
    }
  }

  function ValidatePath(path: string, readOnly: bool, hostPath: HostPath): Option<MountError> {
    if HasPathPrefix(path, hostPath.pathPrefix) && readOnly != hostPath.readOnly then
      Some(ShouldBeReadOnly(hostPath.readOnly))
    else None
  }

  // ----- the rule, without an order of evaluation

  /** The entry starts at the root and covers the path. */
  predicate Covers(h: HostPath, path: string) {
    HasPathPrefix(path, h.pathPrefix) && HasPathPrefix(h.pathPrefix, "")
  }

  lemma CoversIs(h: HostPath, path: string)
    ensures Covers(h, path) <==>
              HasPathPrefix(path, h.pathPrefix) && (h.pathPrefix == "" || h.pathPrefix[0] == '/')
  {
  }

  function Specificity(h: HostPath): nat {
    |Terminated(h.pathPrefix)|
  }

  /** No entry of the list covers the path with a longer prefix. */
  ghost predicate IsLongest(h: HostPath, allowed: seq<HostPath>, path: string) {
    && h in allowed && Covers(h, path)
    && forall g :: g in allowed && Covers(g, path) ==> Specificity(g) <= Specificity(h)
  }

  /** The last-listed of the longest entries. */
  ghost predicate Decides(i: nat, allowed: seq<HostPath>, path: string) {
    && i < |allowed| && IsLongest(allowed[i], allowed, path)
    && forall j :: i < j < |allowed| ==> !IsLongest(allowed[j], allowed, path)
  }

  ghost predicate IsAllowed(allowed: seq<HostPath>, path: string, readOnly: bool) {
    exists i: nat :: Decides(i, allowed, path) && allowed[i].readOnly == readOnly
  }

  ghost predicate IsCovered(allowed: seq<HostPath>, path: string) {
    exists h :: h in allowed && Covers(h, path)
  }

  /** Prefixes of one path are ordered by their length. */
  lemma PrefixesAreNested(path: string, a: string, b: string)
    requires HasPathPrefix(path, a) && HasPathPrefix(path, b)
    ensures HasPathPrefix(a, b) <==> |Terminated(b)| <= |Terminated(a)|
  {
  }

  /** The longest entries are those that lie within every other entry that covers the path. */
  lemma LongestLiesInAll(h: HostPath, allowed: seq<HostPath>, path: string)
    ensures IsLongest(h, allowed, path) <==>
              && h in allowed && Covers(h, path)
              && forall g :: g in allowed && Covers(g, path) ==> HasPathPrefix(h.pathPrefix, g.pathPrefix)
  {
    forall g | Covers(g, path) && Covers(h, path)
      ensures HasPathPrefix(h.pathPrefix, g.pathPrefix) <==> Specificity(g) <= Specificity(h)
    {
      PrefixesAreNested(path, h.pathPrefix, g.pathPrefix);
    }
  }

  /** An entry at least as specific as all before it takes over. */
  lemma TakesOver(allowed: seq<HostPath>, h: HostPath, path: string)
    requires Covers(h, path)
    requires forall g :: g in allowed && Covers(g, path) ==> Specificity(g) <= Specificity(h)
    ensures Decides(|allowed|, allowed + [h], path)
  {
  }

  /** A less specific entry, or one that does not cover the path, changes nothing. */
  lemma KeepsDeciding(allowed: seq<HostPath>, h: HostPath, path: string, i: nat)
    requires Decides(i, allowed, path)
    requires Covers(h, path) ==> Specificity(h) < Specificity(allowed[i])
    ensures Decides(i, allowed + [h], path)
  {
    hide Covers, Specificity;
    var more := allowed + [h];
    assert more[i] == allowed[i];
    assert forall g :: g in more ==> g in allowed || g == h;
    assert IsLongest(more[i], more, path);
    forall j | i < j < |more| ensures !IsLongest(more[j], more, path) {
      if j < |allowed| {
        assert more[j] == allowed[j] && !IsLongest(allowed[j], allowed, path);
        assert forall g :: g in allowed ==> g in more;
      } else {
        assert more[i] in more;
      }
    }
  }

  lemma DecidesNext(allowed: seq<HostPath>, h: HostPath, path: string, i: nat)
    requires IsCovered(allowed, path) ==> Decides(i, allowed, path)
    ensures var more := allowed + [h];
            if Covers(h, path) && (!IsCovered(allowed, path) || Specificity(h) >= Specificity(allowed[i]))
            then Decides(|allowed|, more, path)
            else IsCovered(allowed, path) ==> Decides(i, more, path)
  {
    hide Covers, Specificity;
    if Covers(h, path) && (!IsCovered(allowed, path) || Specificity(h) >= Specificity(allowed[i])) {
      TakesOver(allowed, h, path);
    } else if IsCovered(allowed, path) {
      KeepsDeciding(allowed, h, path, i);
    }
  }

  // ----- the loop

  method CheckMountAgainstAllowedHostPaths(path: string, readOnly: bool, allowed: seq<HostPath>)
    returns (errs: seq<MountError>)
    ensures errs == [] <==> IsAllowed(allowed, path, readOnly)
    ensures !IsCovered(allowed, path) ==> errs == [NotInList]
    ensures IsCovered(allowed, path) ==> forall e :: e in errs ==> e == ShouldBeReadOnly(!readOnly)
  {
    var found := false;
    errs := [];
    var previous := "";
    ghost var last := 0;
    for n := 0 to |allowed|
      invariant found <==> IsCovered(allowed[..n], path)
      invariant !found ==> previous == "" && errs == []
      invariant found ==> Decides(last, allowed[..n], path) && previous == allowed[last].pathPrefix
      invariant found ==> (errs == [] <==> allowed[last].readOnly == readOnly)
      invariant forall e :: e in errs ==> e == ShouldBeReadOnly(!readOnly)
    {
      var h := allowed[n];
      assert allowed[..n + 1] == allowed[..n] + [h];
      DecidesNext(allowed[..n], h, path, last);
      CoveredNext(allowed[..n], h, path);
      if !HasPathPrefix(path, h.pathPrefix) {
        continue;
      }
      if found {
        PrefixesAreNested(path, h.pathPrefix, previous);
      }
      if !HasPathPrefix(h.pathPrefix, previous) {
        continue;
      }
      found := true;
      var err := ValidatePath(path, readOnly, h);
      if err.None? {
        errs := [];
      } else {
        errs := errs + [err.value];
      }
      previous, last := h.pathPrefix, n;
    }
    assert allowed[..|allowed|] == allowed;
    if !found {
      errs := errs + [NotInList];
    }
  }

  lemma FoolIsOutside(h: HostPath)
    requires h == HostPath("/foo", false)
    ensures !IsCovered([h], "/fool")
  {
    PrefixIsWholeElements("/fool", "/foo");
    assert "/foo" + "/" == "/foo/" && "/foo/"[4] != "/fool"[4];
    hide HasPathPrefix;
  }

  /** A directory whose name only begins like that of an entry is not in the list. */
  method FoolIsNotFoo() returns (errs: seq<MountError>)
    ensures errs == [NotInList]
  {
    var h := HostPath("/foo", false);
    FoolIsOutside(h);
    errs := CheckMountAgainstAllowedHostPaths("/fool", false, [h]);
  }

  lemma CoveredNext(allowed: seq<HostPath>, h: HostPath, path: string)
    ensures IsCovered(allowed + [h], path) <==> IsCovered(allowed, path) || Covers(h, path)
  {
  }

  // ----- the order of the list

  /** The longest entries that cover the path all say the same. */
  ghost predicate Agrees(allowed: seq<HostPath>, path: string) {
    forall g, h :: IsLongest(g, allowed, path) && IsLongest(h, allowed, path) ==> g.readOnly == h.readOnly
  }

  lemma {:induction false} SomeLongest(allowed: seq<HostPath>, path: string) returns (i: nat)
    requires IsCovered(allowed, path)
    ensures Decides(i, allowed, path)
    decreases |allowed|
  {
    var n := |allowed| - 1;
    assert allowed == allowed[..n] + [allowed[n]];
    CoveredNext(allowed[..n], allowed[n], path);
    i := 0;
    if IsCovered(allowed[..n], path) {
      i := SomeLongest(allowed[..n], path);
    }
    DecidesNext(allowed[..n], allowed[n], path, i);
    hide Decides, IsCovered, Covers;
    if Decides(n, allowed, path) {
      i := n;
    }
  }

  lemma SameEntries(a: seq<HostPath>, b: seq<HostPath>, path: string)
    requires multiset(a) == multiset(b)
    ensures forall h :: h in a <==> h in b
    ensures forall h :: IsLongest(h, a, path) <==> IsLongest(h, b, path)
    ensures IsCovered(a, path) <==> IsCovered(b, path)
  {
    assert forall h :: h in a <==> h in multiset(a);
    assert forall h :: h in b <==> h in multiset(b);
    hide Covers, Specificity;
  }

  /** Where the longest entries agree, every order of the list gives one verdict. */
  lemma OrderDoesNotMatter(a: seq<HostPath>, b: seq<HostPath>, path: string, readOnly: bool)
    requires multiset(a) == multiset(b) && Agrees(a, path)
    ensures IsAllowed(a, path, readOnly) <==> IsAllowed(b, path, readOnly)
  {
    SameEntries(a, b, path);
    if IsCovered(a, path) {
      var i := SomeLongest(a, path);
      var j := SomeLongest(b, path);
      DecidesAlone(a, path, i, readOnly);
      DecidesAlone(b, path, j, readOnly);
      hide Decides, Covers, IsAllowed, IsLongest;
      DecidersAreLongest(a, path, i);
      DecidersAreLongest(b, path, j);
    }
  }

  lemma DecidersAreLongest(a: seq<HostPath>, path: string, i: nat)
    requires Decides(i, a, path)
    ensures i < |a| && IsLongest(a[i], a, path)
  {
  }

  lemma DecidesAlone(a: seq<HostPath>, path: string, i: nat, readOnly: bool)
    requires Decides(i, a, path)
    ensures IsAllowed(a, path, readOnly) <==> a[i].readOnly == readOnly
  {
  }

  /** Where they disagree, moving one of them to the end changes the verdict. */
  lemma OrderMatters(a: seq<HostPath>, path: string, readOnly: bool) returns (b: seq<HostPath>)
    requires !Agrees(a, path)
    ensures multiset(a) == multiset(b)
    ensures IsAllowed(a, path, readOnly) != IsAllowed(b, path, readOnly)
  {
    hide *;
    var g, h := Disagreement(a, path);
    var i := SomeLongest(a, path);
    DecidersAreLongest(a, path, i);
    var last := if a[i].readOnly == g.readOnly then h else g;
    b := MoveToEnd(a, last);
    StaysLongest(a, b, path, last);
    LastLongestDecides(b, path);
    DecidesAlone(a, path, i, readOnly);
    DecidesAlone(b, path, |b| - 1, readOnly);
  }

  lemma Disagreement(a: seq<HostPath>, path: string) returns (g: HostPath, h: HostPath)
    requires !Agrees(a, path)
    ensures g in a && h in a && IsLongest(g, a, path) && IsLongest(h, a, path) && g.readOnly != h.readOnly
    ensures IsCovered(a, path)
  {
    hide Covers, Specificity;
    g, h :| IsLongest(g, a, path) && IsLongest(h, a, path) && g.readOnly != h.readOnly;
  }

  lemma StaysLongest(a: seq<HostPath>, b: seq<HostPath>, path: string, h: HostPath)
    requires multiset(a) == multiset(b) && IsLongest(h, a, path)
    ensures IsLongest(h, b, path)
  {
    SameEntries(a, b, path);
  }

  lemma LastLongestDecides(b: seq<HostPath>, path: string)
    requires b != [] && IsLongest(b[|b| - 1], b, path)
    ensures Decides(|b| - 1, b, path)
  {
  }

  lemma MoveToEnd(a: seq<HostPath>, h: HostPath) returns (b: seq<HostPath>)
    requires h in a
    ensures multiset(a) == multiset(b) && b != [] && b[|b| - 1] == h
  {
    var k :| 0 <= k < |a| && a[k] == h;
    b := a[..k] + a[k + 1..] + [h];
    assert a == a[..k] + [a[k]] + a[k + 1..];
  }

  /** The verdict is a property of the set of entries exactly if the longest ones agree. */
  lemma VerdictIsOrderFree(a: seq<HostPath>, path: string, readOnly: bool)
    ensures Agrees(a, path) <==>
            forall b :: multiset(b) == multiset(a) ==> (IsAllowed(b, path, readOnly) <==> IsAllowed(a, path, readOnly))
  {
    hide Agrees, IsAllowed;
    if Agrees(a, path) {
      forall b | multiset(b) == multiset(a) ensures IsAllowed(b, path, readOnly) <==> IsAllowed(a, path, readOnly) {
        OrderDoesNotMatter(a, b, path, readOnly);
      }
    } else {
      var b := OrderMatters(a, path, readOnly);
    }
  }

  // ----- all volumes and mounts

  /** Every mount of every host-path volume is allowed. */
  ghost predicate AllMountsAllowed(volumes: seq<Volume>, mounts: seq<VolumeMount>, allowed: seq<HostPath>) {
    forall v, m :: v in volumes && m in mounts && v.hostPath.Some? && v.name == m.name ==>
      IsAllowed(allowed, v.hostPath.value, m.readOnly)
  }

  method CheckVolumeHostPaths(volumes: seq<Volume>, mounts: seq<VolumeMount>, allowed: seq<HostPath>)
    returns (errs: seq<MountError>)
    requires forall v :: v in volumes ==> v.hostPath.Some?
    ensures errs == [] <==> AllMountsAllowed(volumes, mounts, allowed)
  {
    hide IsAllowed;
    errs := [];
    for i := 0 to |volumes|
      invariant errs == [] <==> AllMountsAllowed(volumes[..i], mounts, allowed)
    {
      var v := volumes[i];
      assert v in volumes;
      for j := 0 to |mounts|
        invariant errs == [] <==>
                    AllMountsAllowed(volumes[..i], mounts, allowed) && AllMountsAllowed([v], mounts[..j], allowed)
      {
        var m := mounts[j];
        assert mounts[..j + 1] == mounts[..j] + [m];
        if v.name != m.name {
          continue;
        }
        var more := CheckMountAgainstAllowedHostPaths(v.hostPath.value, m.readOnly, allowed);
        errs := errs + more;
      }
      assert mounts[..|mounts|] == mounts && volumes[..i + 1] == volumes[..i] + [v];
    }
    assert volumes[..|volumes|] == volumes;
  }

  /** An empty allow list restricts nothing. */
  method Validate(volumes: seq<Volume>, initMounts: seq<VolumeMount>, mounts: seq<VolumeMount>, allowed: seq<HostPath>)
    returns (accepted: bool)
    ensures accepted <==> allowed == [] || AllMountsAllowed(volumes, initMounts + mounts, allowed)
  {
    if |allowed| == 0 {
      return true;
    }
    var hostVolumes: seq<Volume> := [];
    for i := 0 to |volumes|
      invariant forall v :: v in hostVolumes <==> v in volumes[..i] && v.hostPath.Some?
    {
      assert volumes[..i + 1] == volumes[..i] + [volumes[i]];
      if volumes[i].hostPath.Some? {
        hostVolumes := hostVolumes + [volumes[i]];
      }
    }
    assert volumes[..|volumes|] == volumes;
    var errs := CheckVolumeHostPaths(hostVolumes, initMounts + mounts, allowed);
    return errs == [];
  }

  /** Only the mounts of a volume itself are compared with the list. */
  method OtherMountsAreIgnored() returns (other: bool, own: bool)
    ensures other && !own
  {
    var volumes, allowed := [Volume("a", Some("/fool")), Volume("b", None)], [HostPath("/foo", false)];
    FoolIsOutside(allowed[0]);
    assert allowed == [HostPath("/foo", false)] && !IsAllowed(allowed, "/fool", false);
    hide IsAllowed;
    other := Validate(volumes, [], [VolumeMount("b", false)], allowed);
    own := Validate(volumes, [VolumeMount("a", false)], [], allowed);
    assert volumes[0] in volumes && ([VolumeMount("a", false)] + [])[0] == VolumeMount("a", false);
  }
}
