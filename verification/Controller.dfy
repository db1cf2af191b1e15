/** The CA bundle controller: one reconciliation pass over every namespace, against an API
    that may fail at any call, before or after taking effect. */
module Controller {
  import opened Text
  import opened Api

  /** A trust bundle, as the certificates in it. */
  type Pem = seq<nat>

  datatype ConfigMap = ConfigMap(labels: LabelSet, data: map<Bytes, Pem>)

  datatype Namespace = Namespace(name: Bytes, labels: LabelSet, terminating: bool)

  const BUNDLE_KEY: Bytes := "ca.crt"
  const MANAGED_LABEL: Bytes := "app.kubernetes.io/managed-by"
  const MANAGED_VALUE: Bytes := "proxy-relay-control"

  type Cluster = map<Bytes, ConfigMap>

  predicate Managed(cm: ConfigMap) {
    MANAGED_LABEL in cm.labels && cm.labels[MANAGED_LABEL] == MANAGED_VALUE
  }

  predicate Holds(cm: ConfigMap, pem: Pem) {
    BUNDLE_KEY in cm.data && cm.data[BUNDLE_KEY] == pem
  }

  function At(maps: Cluster, ns: Bytes): Option<ConfigMap> {
    if ns in maps then Some(maps[ns]) else None
  }

  function Published(pem: Pem): ConfigMap {
    ConfigMap(map[MANAGED_LABEL := MANAGED_VALUE], map[BUNDLE_KEY := pem])
  }

  /** What one pass makes of a namespace's ConfigMap. */
  function Desired(was: Option<ConfigMap>, wanted: bool, pem: Pem): Option<ConfigMap> {
    match was
    case None => if wanted then Some(Published(pem)) else None
    case Some(cm) =>
      if !Managed(cm) then was
      else if !wanted then None
      else if Holds(cm, pem) then was
      else Some(cm.(data := map[BUNDLE_KEY := pem]))
  }

  /** A ConfigMap of that name that somebody else owns. */
  predicate Blocked(was: Option<ConfigMap>, wanted: bool) {
    wanted && was.Some? && !Managed(was.value)
  }

  // ----- the API -----

  datatype Fault = Works | FailsBefore | FailsAfter

  datatype GetResult = Found(cm: ConfigMap) | NotFound | GetFailed

  datatype WriteResult = Done | AlreadyExists | Missing | Conflict | WriteFailed

  class Client {
    var maps: Cluster
    var calls: nat
    var writes: nat
    const faults: nat -> Fault

    ghost predicate Reliable() {
      forall n: nat :: faults(n) == Works
    }

    constructor (maps: Cluster, faults: nat -> Fault)
      ensures this.maps == maps && this.faults == faults && writes == 0
    {
      this.maps, calls, writes, this.faults := maps, 0, 0, faults;
    }

    method Get(ns: Bytes) returns (r: GetResult)
      modifies `calls
      ensures r.Found? ==> At(maps, ns) == Some(r.cm)
      ensures r.NotFound? ==> At(maps, ns) == None
      ensures Reliable() ==> !r.GetFailed?
    {
      var fault := faults(calls);
      calls := calls + 1;
      if fault != Works {
        return GetFailed;
      }
      return if ns in maps then Found(maps[ns]) else NotFound;
    }

    method Create(ns: Bytes, cm: ConfigMap) returns (r: WriteResult)
      modifies this
      ensures writes == old(writes) + 1
      ensures maps == old(maps) || (ns !in old(maps) && maps == old(maps)[ns := cm])
      ensures r.Done? ==> maps == old(maps)[ns := cm]
      ensures r.AlreadyExists? ==> ns in old(maps)
      ensures Reliable() ==> if ns in old(maps) then r.AlreadyExists? else r.Done?
    {
      var fault := faults(calls);
      calls, writes := calls + 1, writes + 1;
      if fault == FailsBefore {
        return WriteFailed;
      }
      if ns in maps {
        return AlreadyExists;
      }
      maps := maps[ns := cm];
      return if fault == Works then Done else WriteFailed;
    }

    /** An update names the version it was made from: on any other it is a conflict. */
    method Update(ns: Bytes, seen: ConfigMap, cm: ConfigMap) returns (r: WriteResult)
      modifies this
      ensures writes == old(writes) + 1
      ensures maps == old(maps) || (old(At(maps, ns)) == Some(seen) && maps == old(maps)[ns := cm])
      ensures r.Done? ==> old(At(maps, ns)) == Some(seen) && maps == old(maps)[ns := cm]
      ensures Reliable() && old(At(maps, ns)) == Some(seen) ==> r.Done?
    {
      var fault := faults(calls);
      calls, writes := calls + 1, writes + 1;
      if fault == FailsBefore {
        return WriteFailed;
      }
      if ns !in maps {
        return Missing;
      }
      if maps[ns] != seen {
        return Conflict;
      }
      maps := maps[ns := cm];
      return if fault == Works then Done else WriteFailed;
    }

    method Delete(ns: Bytes) returns (r: WriteResult)
      modifies this
      ensures writes == old(writes) + 1
      ensures maps == old(maps) || maps == old(maps) - {ns}
      ensures r.Done? || r.Missing? ==> maps == old(maps) - {ns}
      ensures Reliable() ==> r.Done? || r.Missing?
    {
      var fault := faults(calls);
      calls, writes := calls + 1, writes + 1;
      if fault == FailsBefore {
        return WriteFailed;
      }
      if ns !in maps {
        assert maps - {ns} == maps;
        return Missing;
      }
      maps := maps - {ns};
      return if fault == Works then Done else WriteFailed;
    }

    // ----- one namespace -----

    /** publish: create or update, but never take over somebody else's ConfigMap. */
    method Publish(ns: Bytes, pem: Pem) returns (ok: bool)
      modifies this
      ensures Moved(old(maps), maps, ns, true, pem)
      ensures ok ==> At(maps, ns) == Desired(old(At(maps, ns)), true, pem) && !Blocked(old(At(maps, ns)), true)
      ensures Reliable() ==> (ok <==> !Blocked(old(At(maps, ns)), true))
      ensures old(At(maps, ns)) == Desired(old(At(maps, ns)), true, pem) ==> writes == old(writes)
    {
      var existing := Get(ns);
      ok := PublishSeen(ns, existing, pem);
    }

    /** publish after its Get, whatever has been written since.  Where what was seen no longer
        stands, nothing is written; and then nil is returned if there was nothing to be seen, or
        if it was the bundle already. */
    method PublishSeen(ns: Bytes, existing: GetResult, pem: Pem) returns (ok: bool)
      modifies this
      ensures StillSo(existing, old(At(maps, ns))) ==> Moved(old(maps), maps, ns, true, pem)
      ensures StillSo(existing, old(At(maps, ns))) && ok ==>
                At(maps, ns) == Desired(old(At(maps, ns)), true, pem) && !Blocked(old(At(maps, ns)), true)
      ensures StillSo(existing, old(At(maps, ns))) && Reliable() ==> (ok <==> !Blocked(old(At(maps, ns)), true))
      ensures !StillSo(existing, old(At(maps, ns))) ==> maps == old(maps)
      ensures !StillSo(existing, old(At(maps, ns))) && ok ==>
                existing.NotFound? || (existing.Found? && Managed(existing.cm) && Holds(existing.cm, pem))
      ensures !StillSo(existing, old(At(maps, ns))) && Reliable() && existing.NotFound? ==> ok
      ensures existing.GetFailed? || (existing.Found? && (!Managed(existing.cm) || Holds(existing.cm, pem))) ==>
                writes == old(writes)
    {
      match existing {
        case NotFound =>
          var r := Create(ns, Published(pem));
          return r.Done? || r.AlreadyExists?;
        case GetFailed =>
          return false;
        case Found(cm) =>
          if !Managed(cm) {
            return false;
          }
          if Holds(cm, pem) {
            return true;
          }
          var r := Update(ns, cm, cm.(data := map[BUNDLE_KEY := pem]));
          return r.Done?;
      }
    }

    /** remove: only what this controller manages. */
    method Remove(ns: Bytes) returns (ok: bool)
      modifies this
      ensures Moved(old(maps), maps, ns, false, [])
      ensures ok ==> At(maps, ns) == Desired(old(At(maps, ns)), false, [])
      ensures Reliable() ==> ok
      ensures old(At(maps, ns)) == Desired(old(At(maps, ns)), false, []) ==> writes == old(writes)
    {
      var existing := Get(ns);
      ok := RemoveSeen(ns, existing);
    }

    /** remove after its Get, whatever has been written since.  A delete names no version: once
        a managed ConfigMap was seen, whatever stands in its place now goes, managed or not. */
    method RemoveSeen(ns: Bytes, existing: GetResult) returns (ok: bool)
      modifies this
      ensures if existing.Found? && Managed(existing.cm) then maps == old(maps) || maps == old(maps) - {ns}
              else maps == old(maps) && writes == old(writes)
      ensures existing.Found? && Managed(existing.cm) && (ok || Reliable()) ==> ns !in maps
      ensures existing.GetFailed? ==> !ok
      ensures Reliable() ==> (ok <==> !existing.GetFailed?)
    {
      match existing {
        case NotFound =>
          return true;
        case GetFailed =>
          return false;
        case Found(cm) =>
          if !Managed(cm) {
            return true;
          }
          var r := Delete(ns);
          return r.Done? || r.Missing?;
      }
    }
  }

  /** What a Get returned is still what stands there. */
  predicate StillSo(seen: GetResult, now: Option<ConfigMap>) {
    match seen
    case Found(cm) => now == Some(cm)
    case NotFound => now == None
    case GetFailed => false
  }

  /** Only this namespace may have changed, and only to what is desired. */
  ghost predicate Moved(before: Cluster, after: Cluster, ns: Bytes, wanted: bool, pem: Pem) {
    && (forall n :: n != ns ==> At(after, n) == At(before, n))
    && (At(after, ns) == At(before, ns) || At(after, ns) == Desired(At(before, ns), wanted, pem))
  }

  // ----- which namespaces want the bundle -----

  predicate NamespaceSelectorsParse(ps: seq<Policy>) {
    forall k :: 0 <= k < |ps| ==> ps[k].namespaceSelector.Some? ==> ps[k].namespaceSelector.value.parses
  }

  predicate FirstUnparsable(ps: seq<Policy>, k: int) {
    && 0 <= k < |ps| && ps[k].namespaceSelector.Some? && !ps[k].namespaceSelector.value.parses
    && NamespaceSelectorsParse(ps[..k])
  }

  /** Some inspecting policy's namespace selector accepts the labels; pod selectors do not matter here. */
  predicate Wants(inspected: seq<Policy>, labels: LabelSet) {
    exists k :: && 0 <= k < |inspected| && inspected[k].namespaceSelector.Some?
                && inspected[k].namespaceSelector.value.accepts(labels)
  }

  predicate AnyAccepts(selectors: seq<Selector>, labels: LabelSet) {
    exists k :: 0 <= k < |selectors| && selectors[k].accepts(labels)
  }

  /** The namespace selectors of the first k policies that have one. */
  function SelectorsOf(ps: seq<Policy>, k: nat): seq<Selector>
    requires k <= |ps|
  {
    if k == 0 then []
    else
      SelectorsOf(ps, k - 1) +
      match ps[k - 1].namespaceSelector { case None => [] case Some(selector) => [selector] }
  }

  method InspectedSelectors(snapshot: seq<Policy>) returns (bad: Option<Bytes>, selectors: seq<Selector>)
    ensures bad.None? <==> NamespaceSelectorsParse(Inspected(snapshot))
    ensures bad.None? ==> selectors == SelectorsOf(Inspected(snapshot), |Inspected(snapshot)|)
    ensures bad.Some? ==>
              exists k :: FirstUnparsable(Inspected(snapshot), k) && bad.value == Inspected(snapshot)[k].name
  {
    var inspected := InspectedPolicies(snapshot);
    bad, selectors := None, [];
    for k := 0 to |inspected|
      invariant bad.None?
      invariant forall j :: 0 <= j < k && inspected[j].namespaceSelector.Some? ==>
                  inspected[j].namespaceSelector.value.parses
      invariant selectors == SelectorsOf(inspected, k)
    {
      var selector := inspected[k].namespaceSelector;
      if selector.None? {
        continue;
      }
      if !selector.value.parses {
        bad := Some(inspected[k].name);
        assert FirstUnparsable(inspected, k);
        return;
      }
      selectors := selectors + [selector.value];
    }
  }

  lemma {:induction false} SelectorsDecide(ps: seq<Policy>, k: nat, labels: LabelSet)
    requires k <= |ps|
    ensures AnyAccepts(SelectorsOf(ps, k), labels) <==>
            exists j :: && 0 <= j < k && ps[j].namespaceSelector.Some?
                        && ps[j].namespaceSelector.value.accepts(labels)
  {
    if k > 0 {
      SelectorsDecide(ps, k - 1, labels);
      if ps[k - 1].namespaceSelector.Some? {
        AcceptsSnoc(SelectorsOf(ps, k - 1), ps[k - 1].namespaceSelector.value, labels);
      } else {
        assert SelectorsOf(ps, k - 1) + [] == SelectorsOf(ps, k - 1);
      }
    }
  }

  lemma AcceptsSnoc(selectors: seq<Selector>, s: Selector, labels: LabelSet)
    ensures AnyAccepts(selectors + [s], labels) <==> AnyAccepts(selectors, labels) || s.accepts(labels)
  {
    var more := selectors + [s];
    assert forall j :: 0 <= j < |selectors| ==> more[j] == selectors[j];
    assert more[|selectors|] == s;
  }

  method MatchesAny(selectors: seq<Selector>, labels: LabelSet) returns (wanted: bool)
    ensures wanted <==> AnyAccepts(selectors, labels)
  {
    for k := 0 to |selectors|
      invariant forall j :: 0 <= j < k ==> !selectors[j].accepts(labels)
    {
      if selectors[k].accepts(labels) {
        return true;
      }
    }
    return false;
  }

  // ----- one pass -----

  datatype SyncResult =
    | Synced
    | EmptyBundle
    | ListFailed
    | PolicyFailed(policy: Bytes)
    | NamespacesFailed(count: nat, first: Bytes)

  ghost predicate DistinctNamespaces(nss: seq<Namespace>) {
    forall i, j :: 0 <= i < j < |nss| ==> nss[i].name != nss[j].name
  }

  predicate Listed(nss: seq<Namespace>, n: Bytes) {
    exists k :: 0 <= k < |nss| && nss[k].name == n && !nss[k].terminating
  }

  function Goal(before: Cluster, ns: Namespace, inspected: seq<Policy>, pem: Pem): Option<ConfigMap> {
    Desired(At(before, ns.name), Wants(inspected, ns.labels), pem)
  }

  predicate BlockedIn(before: Cluster, ns: Namespace, inspected: seq<Policy>) {
    !ns.terminating && Blocked(At(before, ns.name), Wants(inspected, ns.labels))
  }

  /** Every namespace is as it was or as desired; terminating and unlisted ones are as they were. */
  ghost predicate Towards(before: Cluster, after: Cluster, nss: seq<Namespace>, inspected: seq<Policy>, pem: Pem) {
    && (forall n :: !Listed(nss, n) ==> At(after, n) == At(before, n))
    && forall k :: 0 <= k < |nss| && !nss[k].terminating ==>
         At(after, nss[k].name) == At(before, nss[k].name) ||
         At(after, nss[k].name) == Goal(before, nss[k], inspected, pem)
  }

  /** Every listed namespace got what it should have. */
  ghost predicate Reached(before: Cluster, after: Cluster, nss: seq<Namespace>, inspected: seq<Policy>, pem: Pem) {
    ReachedUpTo(before, after, nss, |nss|, inspected, pem)
  }

  ghost predicate ReachedUpTo(before: Cluster, after: Cluster, nss: seq<Namespace>, n: nat, inspected: seq<Policy>,
                              pem: Pem)
    requires n <= |nss|
  {
    forall k :: 0 <= k < n && !nss[k].terminating ==>
      && At(after, nss[k].name) == Goal(before, nss[k], inspected, pem)
      && !BlockedIn(before, nss[k], inspected)
  }

  ghost predicate Settled(maps: Cluster, nss: seq<Namespace>, inspected: seq<Policy>, pem: Pem) {
    forall k :: 0 <= k < |nss| && !nss[k].terminating ==> At(maps, nss[k].name) == Goal(maps, nss[k], inspected, pem)
  }

  ghost predicate NoneBlocked(maps: Cluster, nss: seq<Namespace>, inspected: seq<Policy>) {
    forall k :: 0 <= k < |nss| ==> !BlockedIn(maps, nss[k], inspected)
  }

  lemma ListedSnoc(nss: seq<Namespace>, k: nat, n: Bytes)
    requires k < |nss|
    ensures Listed(nss[..k + 1], n) <==> Listed(nss[..k], n) || (nss[k].name == n && !nss[k].terminating)
  {
  }

  lemma TowardsSnoc(before: Cluster, mid: Cluster, after: Cluster, nss: seq<Namespace>, k: nat,
                    inspected: seq<Policy>, pem: Pem)
    requires k < |nss| && DistinctNamespaces(nss) && Towards(before, mid, nss[..k], inspected, pem)
    requires if nss[k].terminating then after == mid
             else Moved(mid, after, nss[k].name, Wants(inspected, nss[k].labels), pem)
    ensures Towards(before, after, nss[..k + 1], inspected, pem)
    ensures !nss[k].terminating ==> At(mid, nss[k].name) == At(before, nss[k].name)
    ensures forall j :: 0 <= j < k ==> At(after, nss[j].name) == At(mid, nss[j].name)
  {
    var done, more := nss[..k], nss[..k + 1];
    assert !Listed(done, nss[k].name);
    forall n | !Listed(more, n) ensures At(after, n) == At(before, n) {
      ListedSnoc(nss, k, n);
    }
    forall j | 0 <= j < |more| && !more[j].terminating
      ensures At(after, more[j].name) == At(before, more[j].name) ||
              At(after, more[j].name) == Goal(before, more[j], inspected, pem)
    {
      if j < k { assert done[j] == more[j]; }
    }
  }

  /** What one visit may make of the cluster, and what it may report. */
  ghost predicate VisitedOne(before: Cluster, after: Cluster, ns: Namespace, inspected: seq<Policy>, pem: Pem,
                             ok: bool) {
    if ns.terminating then after == before && ok
    else
      && Moved(before, after, ns.name, Wants(inspected, ns.labels), pem)
      && (ok ==> At(after, ns.name) == Goal(before, ns, inspected, pem) && !BlockedIn(before, ns, inspected))
  }

  /** A pass namespace by namespace: the cluster before, between and after the visits, and
      whether each succeeded. */
  ghost predicate IsPass(trace: seq<Cluster>, oks: seq<bool>, nss: seq<Namespace>, inspected: seq<Policy>, pem: Pem) {
    && |trace| == |oks| + 1 && |oks| == |nss|
    && forall k :: 0 <= k < |nss| ==> VisitedOne(trace[k], trace[k + 1], nss[k], inspected, pem, oks[k])
  }

  /** The namespaces among the first k whose visit failed, in order. */
  function Failures(nss: seq<Namespace>, oks: seq<bool>, k: nat): (names: seq<Bytes>)
    requires k <= |nss| && k <= |oks|
    ensures names == [] <==> forall j :: 0 <= j < k ==> oks[j]
  {
    if k == 0 then [] else Failures(nss, oks, k - 1) + if oks[k - 1] then [] else [nss[k - 1].name]
  }

  lemma {:induction false} FailuresOfPrefix(nss: seq<Namespace>, oks: seq<bool>, ok: bool, k: nat)
    requires k <= |nss| && k <= |oks|
    ensures Failures(nss, oks + [ok], k) == Failures(nss, oks, k)
  {
    if k > 0 {
      FailuresOfPrefix(nss, oks, ok, k - 1);
    }
  }

  /** nil, or how many namespaces failed and which was the first. */
  function Report(failed: seq<Bytes>): SyncResult {
    if failed == [] then Synced else NamespacesFailed(|failed|, failed[0])
  }

  /** Sync: every namespace in the list once, collecting failures and carrying on.  trace and
      oks are the pass it made, if it got as far as making one. */
  method Sync(client: Client, pem: Pem, listed: Option<seq<Namespace>>, snapshot: seq<Policy>)
    returns (r: SyncResult, ghost trace: seq<Cluster>, ghost oks: seq<bool>)
    requires listed.Some? ==> DistinctNamespaces(listed.value)
    modifies client
    ensures r.EmptyBundle? <==> pem == []
    ensures r.ListFailed? <==> pem != [] && listed.None?
    ensures r.PolicyFailed? <==> pem != [] && listed.Some? && !NamespaceSelectorsParse(Inspected(snapshot))
    ensures r.PolicyFailed? ==>
              exists k :: FirstUnparsable(Inspected(snapshot), k) && r.policy == Inspected(snapshot)[k].name
    ensures r.Synced? || r.NamespacesFailed? || client.maps == old(client.maps)
    ensures r.Synced? || r.NamespacesFailed? ==>
              && IsPass(trace, oks, listed.value, Inspected(snapshot), pem)
              && trace[0] == old(client.maps) && trace[|oks|] == client.maps
              && r == Report(Failures(listed.value, oks, |oks|))
    ensures listed.Some? ==> Towards(old(client.maps), client.maps, listed.value, Inspected(snapshot), pem)
    ensures r.Synced? ==> Reached(old(client.maps), client.maps, listed.value, Inspected(snapshot), pem)
    ensures client.Reliable() && r.NamespacesFailed? ==>
              !NoneBlocked(old(client.maps), listed.value, Inspected(snapshot))
    ensures listed.Some? && Settled(old(client.maps), listed.value, Inspected(snapshot), pem) ==>
              client.writes == old(client.writes)
  {
    trace, oks := [], [];
    if |pem| == 0 {
      r := EmptyBundle;
      return;
    }
    if listed.None? {
      r := ListFailed;
      return;
    }
    var bad, selectors := InspectedSelectors(snapshot);
    if bad.Some? {
      r := PolicyFailed(bad.value);
      return;
    }
    r, trace, oks := SyncNamespaces(client, pem, listed.value, selectors, Inspected(snapshot));
  }

  /** The loop body: skip a terminating namespace, otherwise publish or remove, as the
      selectors say. */
  method SyncOne(client: Client, ns: Namespace, pem: Pem, selectors: seq<Selector>, ghost inspected: seq<Policy>)
    returns (ok: bool)
    requires selectors == SelectorsOf(inspected, |inspected|)
    modifies client
    ensures VisitedOne(old(client.maps), client.maps, ns, inspected, pem, ok)
    ensures client.Reliable() && !ok ==> BlockedIn(old(client.maps), ns, inspected)
    ensures ns.terminating || old(At(client.maps, ns.name)) == Goal(old(client.maps), ns, inspected, pem) ==>
              client.writes == old(client.writes)
  {
    if ns.terminating {
      return true;
    }
    SelectorsDecide(inspected, |inspected|, ns.labels);
    var wanted := MatchesAny(selectors, ns.labels);
    if wanted {
      ok := client.Publish(ns.name, pem);
    } else {
      ok := client.Remove(ns.name);
      DesiredIgnoresPem(old(At(client.maps, ns.name)), [], pem);
    }
  }

  method SyncNamespaces(client: Client, pem: Pem, nss: seq<Namespace>, selectors: seq<Selector>,
                        ghost inspected: seq<Policy>)
    returns (r: SyncResult, ghost trace: seq<Cluster>, ghost oks: seq<bool>)
    requires DistinctNamespaces(nss)
    requires selectors == SelectorsOf(inspected, |inspected|)
    modifies client
    ensures IsPass(trace, oks, nss, inspected, pem) && trace[0] == old(client.maps) && trace[|nss|] == client.maps
    ensures r == Report(Failures(nss, oks, |nss|))
    ensures Towards(old(client.maps), client.maps, nss, inspected, pem)
    ensures r.Synced? ==> Reached(old(client.maps), client.maps, nss, inspected, pem)
    ensures client.Reliable() && r.NamespacesFailed? ==> !NoneBlocked(old(client.maps), nss, inspected)
    ensures Settled(old(client.maps), nss, inspected, pem) ==> client.writes == old(client.writes)
  {
    ghost var before := client.maps;
    var errs: seq<Bytes> := [];
    trace, oks := [before], [];
    for k := 0 to |nss|
      invariant IsPass(trace, oks, nss[..k], inspected, pem) && trace[0] == before && trace[k] == client.maps
      invariant errs == Failures(nss, oks, k)
      invariant client.Reliable() && errs != [] ==> !NoneBlocked(before, nss, inspected)
      invariant Settled(before, nss, inspected, pem) ==> client.writes == old(client.writes)
    {
      PassTowards(trace, oks, nss, k, inspected, pem);
      var ok := SyncOne(client, nss[k], pem, selectors, inspected);
      PassSnoc(trace, oks, nss, k, inspected, pem, client.maps, ok);
      trace, oks := trace + [client.maps], oks + [ok];
      if !ok {
        errs := errs + [nss[k].name];
      }
    }
    assert nss[..|nss|] == nss;
    PassTowards(trace, oks, nss, |nss|, inspected, pem);
    if |errs| > 0 {
      r := NamespacesFailed(|errs|, errs[0]);
      return;
    }
    r := Synced;
  }

  /** A pass brings the namespaces it has visited towards what they should have, and leaves
      the others alone. */
  lemma {:induction false} PassTowards(trace: seq<Cluster>, oks: seq<bool>, nss: seq<Namespace>, k: nat,
                                       inspected: seq<Policy>, pem: Pem)
    requires k <= |nss| && DistinctNamespaces(nss) && IsPass(trace, oks, nss[..k], inspected, pem)
    ensures Towards(trace[0], trace[k], nss[..k], inspected, pem)
    ensures (forall j :: 0 <= j < k ==> oks[j]) ==> ReachedUpTo(trace[0], trace[k], nss, k, inspected, pem)
    ensures forall j :: k <= j < |nss| ==> At(trace[k], nss[j].name) == At(trace[0], nss[j].name)
    decreases k
  {
    if k > 0 {
      var ns := nss[k - 1];
      PassPrefix(trace, oks, nss, k, inspected, pem);
      PassTowards(trace[..k], oks[..k - 1], nss, k - 1, inspected, pem);
      TowardsSnoc(trace[0], trace[k - 1], trace[k], nss, k - 1, inspected, pem);
      assert Goal(trace[k - 1], ns, inspected, pem) == Goal(trace[0], ns, inspected, pem);
    }
    forall j | k <= j < |nss| ensures At(trace[k], nss[j].name) == At(trace[0], nss[j].name) {
      assert !Listed(nss[..k], nss[j].name);
    }
  }

  lemma PassPrefix(trace: seq<Cluster>, oks: seq<bool>, nss: seq<Namespace>, k: nat, inspected: seq<Policy>, pem: Pem)
    requires 0 < k <= |nss| && IsPass(trace, oks, nss[..k], inspected, pem)
    ensures IsPass(trace[..k], oks[..k - 1], nss[..k - 1], inspected, pem)
    ensures VisitedOne(trace[k - 1], trace[k], nss[k - 1], inspected, pem, oks[k - 1])
  {
    assert nss[..k][k - 1] == nss[k - 1];
    forall j | 0 <= j < k - 1
      ensures VisitedOne(trace[..k][j], trace[..k][j + 1], nss[..k - 1][j], inspected, pem, oks[..k - 1][j])
    {
      assert VisitedOne(trace[j], trace[j + 1], nss[..k][j], inspected, pem, oks[j]);
    }
  }

  lemma PassSnoc(trace: seq<Cluster>, oks: seq<bool>, nss: seq<Namespace>, k: nat, inspected: seq<Policy>, pem: Pem,
                 after: Cluster, ok: bool)
    requires k < |nss| && IsPass(trace, oks, nss[..k], inspected, pem)
    requires VisitedOne(trace[k], after, nss[k], inspected, pem, ok)
    ensures IsPass(trace + [after], oks + [ok], nss[..k + 1], inspected, pem)
    ensures Failures(nss, oks + [ok], k + 1) == Failures(nss, oks, k) + if ok then [] else [nss[k].name]
  {
    FailuresOfPrefix(nss, oks, ok, k);
    var trace', oks', nss' := trace + [after], oks + [ok], nss[..k + 1];
    forall j | 0 <= j < |nss'| ensures VisitedOne(trace'[j], trace'[j + 1], nss'[j], inspected, pem, oks'[j]) {
      if j < k {
        assert VisitedOne(trace[j], trace[j + 1], nss[..k][j], inspected, pem, oks[j]);
      }
    }
  }

  lemma DesiredIgnoresPem(was: Option<ConfigMap>, a: Pem, b: Pem)
    ensures Desired(was, false, a) == Desired(was, false, b)
  {
  }

  // ----- what a pass promises -----

  /** Labelled as this controller's own. */
  predicate Owned(cm: ConfigMap) {
    && "app.kubernetes.io/managed-by" in cm.labels
    && cm.labels["app.kubernetes.io/managed-by"] == "proxy-relay-control"
  }

  /** A ConfigMap the controller does not manage is never touched, whatever fails. */
  lemma UnmanagedIsNeverTouched(before: Cluster, after: Cluster, nss: seq<Namespace>, inspected: seq<Policy>,
                                pem: Pem, n: Bytes)
    requires Towards(before, after, nss, inspected, pem)
    requires n in before && !Owned(before[n])
    ensures At(after, n) == Some(before[n])
  {
  }

  /** After a pass that returned nil, a live namespace holds a managed ConfigMap with the
      bundle exactly when some inspecting policy selects it - and no managed one otherwise. */
  lemma SyncedMeansConverged(before: Cluster, after: Cluster, nss: seq<Namespace>, inspected: seq<Policy>, pem: Pem,
                             k: nat)
    requires Reached(before, after, nss, inspected, pem)
    requires k < |nss| && !nss[k].terminating
    ensures var now := At(after, nss[k].name);
            if Wants(inspected, nss[k].labels)
            then now.Some? && Owned(now.value) && "ca.crt" in now.value.data && now.value.data["ca.crt"] == pem
            else now.None? || !Owned(now.value)
    ensures Wants(inspected, nss[k].labels) && nss[k].name in before ==>
              At(after, nss[k].name).value.labels == before[nss[k].name].labels
  {
  }

  /** What has been reached is settled: there is nothing left to do. */
  lemma ReachedIsSettled(before: Cluster, after: Cluster, nss: seq<Namespace>, inspected: seq<Policy>, pem: Pem)
    requires Reached(before, after, nss, inspected, pem)
    ensures Settled(after, nss, inspected, pem) && NoneBlocked(after, nss, inspected)
  {
  }

  /** A second pass over the same inputs makes no write call and changes nothing. */
  method SyncTwice(client: Client, pem: Pem, nss: seq<Namespace>, snapshot: seq<Policy>)
    returns (first: SyncResult, second: SyncResult, written: int)
    requires DistinctNamespaces(nss)
    modifies client
    ensures first.Synced? ==> written == 0
    ensures first.Synced? && client.Reliable() ==> second.Synced?
    ensures first.Synced? ==> Reached(old(client.maps), client.maps, nss, Inspected(snapshot), pem)
  {
    ghost var trace, oks;
    first, trace, oks := Sync(client, pem, Some(nss), snapshot);
    ghost var mid := client.maps;
    var before := client.writes;
    if first.Synced? {
      ReachedIsSettled(old(client.maps), mid, nss, Inspected(snapshot), pem);
    }
    second, trace, oks := Sync(client, pem, Some(nss), snapshot);
    written := client.writes - before;
    if first.Synced? {
      SettledStays(mid, client.maps, nss, Inspected(snapshot), pem);
      assert forall k :: 0 <= k < |nss| && !nss[k].terminating ==> At(client.maps, nss[k].name) == At(mid, nss[k].name);
    }
  }

  lemma SettledStays(before: Cluster, after: Cluster, nss: seq<Namespace>, inspected: seq<Policy>, pem: Pem)
    requires Towards(before, after, nss, inspected, pem) && Settled(before, nss, inspected, pem)
    ensures forall n :: At(after, n) == At(before, n)
  {
  }
}
