/** The policy objects the relay reads: destinations, rules, selectors and identities. */
module Api {
  import opened Text

  datatype TlsMode = Unset | Tunnel | Inspect

  datatype PathRule = PathRule(path: Bytes, exact: bool, methods: seq<Bytes>, allowUpgrade: bool)

  datatype Destination = Destination(host: Bytes, ports: seq<int>, tlsMode: TlsMode, paths: seq<PathRule>)

  type LabelSet = map<Bytes, Bytes>

  /** A Kubernetes label selector: whether it parses, and which label sets it then accepts. */
  datatype Selector = Selector(parses: bool, accepts: LabelSet -> bool)

  datatype Policy = Policy(
    name: Bytes,
    namespaceSelector: Option<Selector>,
    podSelector: Option<Selector>,
    destinations: seq<Destination>,
    upstream: Bytes)

  datatype Identity = Identity(namespace: Bytes, podLabels: LabelSet, namespaceLabels: LabelSet)

  /** Policies are cluster-scoped objects, so their names differ. */
  ghost predicate DistinctNames(ps: seq<Policy>) {
    forall i, j :: 0 <= i < j < |ps| ==> ps[i].name != ps[j].name
  }

  datatype Selection = Selected | NotSelected | BadSelector

  /** A missing namespace selector selects nothing; an unparsable one is an error, but a pod
      selector is only parsed once the namespace matched. */
  function Selects(p: Policy, id: Identity): Selection {
    match p.namespaceSelector
    case None => NotSelected
    case Some(ns) =>
      if !ns.parses then BadSelector
      else if !ns.accepts(id.namespaceLabels) then NotSelected
      else
        match p.podSelector
        case None => Selected
        case Some(pod) =>
          if !pod.parses then BadSelector
          else if pod.accepts(id.podLabels) then Selected
          else NotSelected
  }

  /** The policy is for this workload: its namespace selector accepts the namespace's labels, and
      its pod selector, if it has one, the pod's. */
  predicate Chooses(p: Policy, id: Identity) {
    && p.namespaceSelector.Some?
    && p.namespaceSelector.value.parses && p.namespaceSelector.value.accepts(id.namespaceLabels)
    && (p.podSelector.Some? ==> p.podSelector.value.parses && p.podSelector.value.accepts(id.podLabels))
  }

  /** Judging the policy for this workload comes to a selector that does not parse: that of the
      namespace, or that of the pod once the namespace's is satisfied. */
  predicate FailsOn(p: Policy, id: Identity) {
    && p.namespaceSelector.Some?
    && if !p.namespaceSelector.value.parses then true
       else p.namespaceSelector.value.accepts(id.namespaceLabels) && p.podSelector.Some? && !p.podSelector.value.parses
  }

  lemma SelectsMeans(p: Policy, id: Identity)
    ensures Selects(p, id) == Selected <==> Chooses(p, id)
    ensures Selects(p, id) == BadSelector <==> FailsOn(p, id)
    ensures p.namespaceSelector.None? ==> Selects(p, id) == NotSelected
  {
  }

  predicate UsesInspection(p: Policy) {
    exists k :: 0 <= k < |p.destinations| && p.destinations[k].tlsMode == Inspect
  }

  function Inspected(ps: seq<Policy>): seq<Policy> {
    if ps == [] then []
    else (if UsesInspection(ps[0]) then [ps[0]] else []) + Inspected(ps[1..])
  }

  lemma {:induction false} InspectedSnoc(ps: seq<Policy>, p: Policy)
    ensures Inspected(ps + [p]) == Inspected(ps) + if UsesInspection(p) then [p] else []
  {
    if ps == [] {
      assert ps + [p] == [p] && [p][1..] == [];
    } else {
      var head := if UsesInspection(ps[0]) then [ps[0]] else [];
      var last := if UsesInspection(p) then [p] else [];
      assert (ps + [p])[1..] == ps[1..] + [p] && (ps + [p])[0] == ps[0];
      InspectedSnoc(ps[1..], p);
      assert head + (Inspected(ps[1..]) + last) == head + Inspected(ps[1..]) + last;
    }
  }

  lemma {:induction false} InspectedMembers(ps: seq<Policy>, p: Policy)
    ensures p in Inspected(ps) <==>
            p in ps && exists k :: 0 <= k < |p.destinations| && p.destinations[k].tlsMode == Inspect
  {
    if ps != [] {
      InspectedMembers(ps[1..], p);
      assert p in ps <==> p == ps[0] || p in ps[1..];
    }
  }

  /** Store.InspectedPolicies: the policies with an inspect-mode destination, in order. */
  method InspectedPolicies(snapshot: seq<Policy>) returns (out: seq<Policy>)
    ensures out == Inspected(snapshot)
  {
    out := [];
    for i := 0 to |snapshot|
      invariant out == Inspected(snapshot[..i])
    {
      var pol := snapshot[i];
      ghost var before := out;
      var found := false;
      for k := 0 to |pol.destinations|
        invariant !found && out == before
        invariant forall j :: 0 <= j < k ==> pol.destinations[j].tlsMode != Inspect
      {
        if pol.destinations[k].tlsMode == Inspect {
          out := out + [pol];
          found := true;
          break;
        }
      }
      InspectedSnoc(snapshot[..i], pol);
      assert snapshot[..i + 1] == snapshot[..i] + [pol];
    }
    assert snapshot[..|snapshot|] == snapshot;
  }
}
