/** The two-stage engine: the methods as the relay runs them, each proved against a
    specification.

    The specification is written over two questions - does this destination reach the
    host and port, does it grant the request - kept as function values, so that what the
    engine adds (collecting, ordering, searching) is reasoned about on its own. */
module Engine {
  import opened Text
  import opened Api
  import opened GrantOrder
  import opened HostMatch
  import opened PathMatch
  import Decode
  import Normalize

  datatype ConnectReason =
    | NoIdentity
    | NoPolicySelects(namespace: Bytes)
    | NoDestination(selected: nat)
    | AllowedBy(policies: seq<Bytes>)

  datatype ConnectDecision = ConnectDecision(
    allowed: bool, reason: ConnectReason, host: Bytes, port: int,
    tlsMode: TlsMode, matched: seq<Grant>, upstream: Bytes)

  datatype ConnectResult = Decided(decision: ConnectDecision) | SelectorFailed(policy: Bytes) | ListFailed

  // ----- the connect stage, specified -----

  predicate Reaches(d: Destination, host: Bytes, port: int) {
    MatchHost(d.host, host) && PortAllowed(d.ports, port)
  }

  function GrantOf(p: Policy, d: Destination): Grant {
    Grant(p.name, p.upstream, d, HostSpecificity(d.host))
  }

  /** The grants among the policy's first k destinations, in order. */
  function GrantsOfPolicy(p: Policy, k: nat, reaches: Destination -> bool): seq<Grant>
    requires k <= |p.destinations|
  {
    if k == 0 then []
    else
      GrantsOfPolicy(p, k - 1, reaches) +
      if reaches(p.destinations[k - 1]) then [GrantOf(p, p.destinations[k - 1])] else []
  }

  function PolicyGrants(p: Policy, id: Identity, reaches: Destination -> bool): seq<Grant> {
    if Selects(p, id) == Selected then GrantsOfPolicy(p, |p.destinations|, reaches) else []
  }

  function Collected(ps: seq<Policy>, id: Identity, reaches: Destination -> bool): seq<Grant> {
    if ps == [] then [] else PolicyGrants(ps[0], id, reaches) + Collected(ps[1..], id, reaches)
  }

  function SelectedCount(ps: seq<Policy>, id: Identity): nat {
    if ps == [] then 0
    else (if Selects(ps[0], id) == Selected then 1 else 0) + SelectedCount(ps[1..], id)
  }

  predicate SelectorsParse(ps: seq<Policy>, id: Identity) {
    forall k :: 0 <= k < |ps| ==> !FailsOn(ps[k], id)
  }

  predicate FirstBadSelector(ps: seq<Policy>, k: int, id: Identity) {
    && 0 <= k < |ps| && FailsOn(ps[k], id)
    && forall j :: 0 <= j < k ==> !FailsOn(ps[j], id)
  }

  predicate AnyInspect(gs: seq<Grant>) {
    exists k :: 0 <= k < |gs| && gs[k].destination.tlsMode == Inspect
  }

  /** Policy names in order of first appearance, leaving out those already seen. */
  function NamesFrom(gs: seq<Grant>, seen: set<Bytes>): seq<Bytes> {
    if gs == [] then []
    else if gs[0].policy in seen then NamesFrom(gs[1..], seen)
    else [gs[0].policy] + NamesFrom(gs[1..], seen + {gs[0].policy})
  }

  function Denied(reason: ConnectReason, host: Bytes, port: int): ConnectDecision {
    ConnectDecision(false, reason, host, port, Tunnel, [], [])
  }

  function DecisionFor(gs: seq<Grant>, selected: nat, id: Identity, host: Bytes, port: int): ConnectDecision {
    if gs == [] then
      Denied(if selected == 0 then NoPolicySelects(id.namespace) else NoDestination(selected), host, port)
    else
      var sorted := StableSort(gs);
      ConnectDecision(true, AllowedBy(NamesFrom(sorted, {})), host, port,
                      if AnyInspect(sorted) then Inspect else Tunnel, sorted, sorted[0].upstream)
  }

  function Connect(id: Identity, ps: seq<Policy>, host: Bytes, port: int): ConnectDecision {
    DecisionFor(Collected(ps, id, d => Reaches(d, host, port)), SelectedCount(ps, id), id, host, port)
  }

  /** What AuthorizeConnect answers about a workload once the policies are listed: a selector
      that does not parse fails the whole call, naming the first such policy. */
  ghost predicate ConnectAnswer(r: ConnectResult, ps: seq<Policy>, id: Identity, host: Bytes, port: int) {
    if SelectorsParse(ps, id) then r == Decided(Connect(id, ps, host, port))
    else exists k :: FirstBadSelector(ps, k, id) && r == SelectorFailed(ps[k].name)
  }

  // ----- the connect stage, as run -----

  lemma {:induction false} CollectedAppend(a: seq<Policy>, b: seq<Policy>, id: Identity, reaches: Destination -> bool)
    ensures Collected(a + b, id, reaches) == Collected(a, id, reaches) + Collected(b, id, reaches)
    ensures SelectedCount(a + b, id) == SelectedCount(a, id) + SelectedCount(b, id)
  {
    if a == [] {
      assert a + b == b;
    } else {
      assert (a + b)[1..] == a[1..] + b;
      CollectedAppend(a[1..], b, id, reaches);
    }
  }

  lemma CollectedSnoc(ps: seq<Policy>, k: nat, id: Identity, reaches: Destination -> bool)
    requires k < |ps|
    ensures Collected(ps[..k + 1], id, reaches) == Collected(ps[..k], id, reaches) + PolicyGrants(ps[k], id, reaches)
    ensures SelectedCount(ps[..k + 1], id) ==
            SelectedCount(ps[..k], id) + if Selects(ps[k], id) == Selected then 1 else 0
  {
    assert ps[..k + 1] == ps[..k] + [ps[k]];
    CollectedAppend(ps[..k], [ps[k]], id, reaches);
    assert [ps[k]][1..] == [];
    assert Collected([ps[k]], id, reaches) == PolicyGrants(ps[k], id, reaches) + [];
  }

  method CheckDestination(d: Destination, host: Bytes, port: int) returns (reached: bool)
    ensures reached <==> Reaches(d, host, port)
  {
    var portOk := MatchPort(d.ports, port);
    return MatchHost(d.host, host) && portOk;
  }

  /** The inner loop: the destinations of one selecting policy. */
  method CollectGrants(p: Policy, host: Bytes, port: int, sofar: seq<Grant>, ghost reaches: Destination -> bool)
    returns (matched: seq<Grant>)
    requires forall d {:trigger Reaches(d, host, port)} :: reaches(d) <==> Reaches(d, host, port)
    ensures matched == sofar + GrantsOfPolicy(p, |p.destinations|, reaches)
  {
    matched := sofar;
    for k := 0 to |p.destinations|
      invariant matched == sofar + GrantsOfPolicy(p, k, reaches)
    {
      var dst := p.destinations[k];
      var reached := CheckDestination(dst, host, port);
      if !reached {
        continue;
      }
      matched := matched + [Grant(p.name, p.upstream, dst, HostSpecificity(dst.host))];
    }
  }

  /** The outer loop: every policy in list order, until a selector fails to parse. */
  method CollectAll(id: Identity, policies: seq<Policy>, host: Bytes, port: int, ghost reaches: Destination -> bool)
    returns (bad: Option<nat>, matched: seq<Grant>, selected: nat)
    requires forall d {:trigger Reaches(d, host, port)} :: reaches(d) <==> Reaches(d, host, port)
    ensures bad.Some? ==> FirstBadSelector(policies, bad.value, id)
    ensures bad.None? ==> SelectorsParse(policies, id)
    ensures bad.None? ==> matched == Collected(policies, id, reaches) && selected == SelectedCount(policies, id)
  {
    bad, matched, selected := None, [], 0;
    for k := 0 to |policies|
      invariant bad.None?
      invariant forall j :: 0 <= j < k ==> !FailsOn(policies[j], id)
      invariant matched == Collected(policies[..k], id, reaches)
      invariant selected == SelectedCount(policies[..k], id)
    {
      CollectedSnoc(policies, k, id, reaches);
      SelectsMeans(policies[k], id);
      var selection := Selects(policies[k], id);
      if selection == BadSelector {
        bad := Some(k);
        return;
      }
      if selection == NotSelected {
        continue;
      }
      selected := selected + 1;
      matched := CollectGrants(policies[k], host, port, matched, reaches);
    }
    assert policies[..|policies|] == policies;
  }

  /** policyNames: each granting policy once, in the order the grants stand. */
  method PolicyNames(matched: seq<Grant>) returns (names: seq<Bytes>)
    ensures names == NamesFrom(matched, {})
  {
    var seen: set<Bytes> := {};
    names := [];
    assert matched[0..] == matched;
    for k := 0 to |matched|
      invariant names + NamesFrom(matched[k..], seen) == NamesFrom(matched, {})
    {
      assert matched[k..][1..] == matched[k + 1..];
      if matched[k].policy in seen {
        continue;
      }
      assert names + ([matched[k].policy] + NamesFrom(matched[k + 1..], seen + {matched[k].policy})) ==
             names + [matched[k].policy] + NamesFrom(matched[k + 1..], seen + {matched[k].policy});
      seen := seen + {matched[k].policy};
      names := names + [matched[k].policy];
    }
  }

  /** The connection is inspected as soon as one grant asks for it. */
  method ConnectionMode(matched: seq<Grant>) returns (mode: TlsMode)
    ensures mode == if AnyInspect(matched) then Inspect else Tunnel
  {
    mode := Tunnel;
    for k := 0 to |matched|
      invariant mode == Tunnel
      invariant forall j :: 0 <= j < k ==> matched[j].destination.tlsMode != Inspect
    {
      if matched[k].destination.tlsMode == Inspect {
        mode := Inspect;
        break;
      }
    }
  }

  /** The part of AuthorizeConnect after the grants are collected. */
  method Summarise(collected: seq<Grant>, selected: nat, id: Identity, host: Bytes, port: int)
    returns (dec: ConnectDecision)
    ensures dec == DecisionFor(collected, selected, id, host, port)
  {
    if |collected| == 0 {
      var reason := if selected == 0 then NoPolicySelects(id.namespace) else NoDestination(selected);
      return Denied(reason, host, port);
    }
    var matched := StableSort(collected);
    assert |matched| == |multiset(matched)| == |multiset(collected)| == |collected|;
    var mode := ConnectionMode(matched);
    var names := PolicyNames(matched);
    dec := ConnectDecision(true, AllowedBy(names), host, port, mode, matched, matched[0].upstream);
  }

  /** AuthorizeConnect: no identity is a denial, a failed listing an error. */
  method AuthorizeConnect(id: Option<Identity>, listed: Option<seq<Policy>>, host: Bytes, port: int)
    returns (r: ConnectResult)
    ensures id.None? ==> r == Decided(Denied(NoIdentity, host, port))
    ensures id.Some? && listed.None? ==> r == ListFailed
    ensures id.Some? && listed.Some? ==> ConnectAnswer(r, listed.value, id.value, host, port)
  {
    if id.None? {
      return Decided(Denied(NoIdentity, host, port));
    }
    if listed.None? {
      return ListFailed;
    }
    var bad, matched, selected := CollectAll(id.value, listed.value, host, port, d => Reaches(d, host, port));
    if bad.Some? {
      return SelectorFailed(listed.value[bad.value].name);
    }
    var dec := Summarise(matched, selected, id.value, host, port);
    return Decided(dec);
  }

  // ----- the request stage, specified -----

  datatype RequestReason =
    | NotAuthorized
    | Malformed(error: Decode.PathError)
    | NoRuleAllows(path: Bytes, upgrade: bool)
    | WholeHost
    | ByRule(rule: Bytes)

  datatype RequestDecision = RequestDecision(
    allowed: bool, reason: RequestReason, policy: Bytes, upstream: Bytes, rule: Bytes)

  datatype Request = Request(verb: Bytes, target: Bytes, upgrade: bool)

  function Refused(reason: RequestReason): RequestDecision {
    RequestDecision(false, reason, [], [], [])
  }

  /** A rule grants a path to a method; past an upgrade only if the rule says so. */
  ghost predicate RuleGrants(rule: PathRule, verb: Bytes, path: Bytes, upgrade: bool) {
    PathMatches(rule.path, rule.exact, path) && MethodAllowed(rule.methods, verb) &&
    (upgrade ==> rule.allowUpgrade)
  }

  ghost function Grants(verb: Bytes, path: Bytes, upgrade: bool): PathRule -> bool {
    rule => RuleGrants(rule, verb, path, upgrade)
  }

  ghost predicate FirstRule(rules: seq<PathRule>, k: nat, grants: PathRule -> bool) {
    k < |rules| && grants(rules[k]) && forall j :: 0 <= j < k ==> !grants(rules[j])
  }

  /** A destination without rules grants its whole host, except upgrades under inspection. */
  ghost predicate DestinationGrants(d: Destination, upgrade: bool, grants: PathRule -> bool) {
    if d.paths == [] then !(upgrade && d.tlsMode == Inspect)
    else exists k :: 0 <= k < |d.paths| && grants(d.paths[k])
  }

  ghost predicate FirstGrant(gs: seq<Grant>, i: nat, upgrade: bool, grants: PathRule -> bool) {
    && i < |gs| && DestinationGrants(gs[i].destination, upgrade, grants)
    && forall j :: 0 <= j < i ==> !DestinationGrants(gs[j].destination, upgrade, grants)
  }

  /** The answer given when grant g is the one that allows the request. */
  ghost predicate AnswerOf(r: RequestDecision, g: Grant, grants: PathRule -> bool) {
    && r.allowed && r.policy == g.policy && r.upstream == g.upstream
    && if g.destination.paths == []
       then r.rule == "host grant" && r.reason == WholeHost
       else exists k: nat :: FirstRule(g.destination.paths, k, grants) &&
                             r.rule == g.destination.paths[k].path && r.reason == ByRule(r.rule)
  }

  /** The first grant in order decides; without one the request is refused. */
  ghost predicate SearchAnswer(r: RequestDecision, gs: seq<Grant>, path: Bytes, upgrade: bool,
                               grants: PathRule -> bool) {
    if exists i: nat :: FirstGrant(gs, i, upgrade, grants)
    then exists i: nat :: FirstGrant(gs, i, upgrade, grants) && AnswerOf(r, gs[i], grants)
    else r == Refused(NoRuleAllows(path, upgrade))
  }

  ghost predicate RequestAnswer(r: RequestDecision, conn: Option<ConnectDecision>, req: Request) {
    if conn.None? || !conn.value.allowed then r == Refused(NotAuthorized)
    else
      match Normalize.Normalized(req.target)
      case Err(e) => r == Refused(Malformed(e))
      case Ok(path) => SearchAnswer(r, conn.value.matched, path, req.upgrade, Grants(req.verb, path, req.upgrade))
  }

  // ----- the request stage, as run -----

  method CheckRule(rule: PathRule, verb: Bytes, path: Bytes, upgrade: bool) returns (applies: bool)
    ensures applies <==> RuleGrants(rule, verb, path, upgrade)
  {
    var pathOk := MatchPath(rule.path, rule.exact, path);
    var methodOk := MatchMethod(rule.methods, verb);
    if !pathOk || !methodOk {
      return false;
    }
    return !(upgrade && !rule.allowUpgrade);
  }

  /** The search through one destination's rules: the first that applies, if any. */
  method FindRule(rules: seq<PathRule>, verb: Bytes, path: Bytes, upgrade: bool, ghost grants: PathRule -> bool)
    returns (found: Option<nat>)
    requires forall r {:trigger RuleGrants(r, verb, path, upgrade)} :: grants(r) <==> RuleGrants(r, verb, path, upgrade)
    ensures found.Some? ==> FirstRule(rules, found.value, grants)
    ensures found.None? ==> forall j :: 0 <= j < |rules| ==> !grants(rules[j])
  {
    for k := 0 to |rules|
      invariant forall j :: 0 <= j < k ==> !grants(rules[j])
    {
      var applies := CheckRule(rules[k], verb, path, upgrade);
      if applies {
        return Some(k);
      }
    }
    return None;
  }

  method SearchGrants(gs: seq<Grant>, verb: Bytes, path: Bytes, upgrade: bool, ghost grants: PathRule -> bool)
    returns (r: RequestDecision)
    requires forall r {:trigger RuleGrants(r, verb, path, upgrade)} :: grants(r) <==> RuleGrants(r, verb, path, upgrade)
    ensures SearchAnswer(r, gs, path, upgrade, grants)
  {
    for i := 0 to |gs|
      invariant forall j :: 0 <= j < i ==> !DestinationGrants(gs[j].destination, upgrade, grants)
    {
      var d := gs[i].destination;
      if |d.paths| == 0 {
        if upgrade && d.tlsMode == Inspect {
          continue;
        }
        assert FirstGrant(gs, i, upgrade, grants);
        return RequestDecision(true, WholeHost, gs[i].policy, gs[i].upstream, "host grant");
      }
      var found := FindRule(d.paths, verb, path, upgrade, grants);
      if found.Some? {
        assert FirstGrant(gs, i, upgrade, grants);
        var rule := d.paths[found.value].path;
        return RequestDecision(true, ByRule(rule), gs[i].policy, gs[i].upstream, rule);
      }
    }
    return Refused(NoRuleAllows(path, upgrade));
  }

  method AuthorizeRequest(conn: Option<ConnectDecision>, req: Request) returns (r: RequestDecision)
    ensures RequestAnswer(r, conn, req)
  {
    if conn.None? || !conn.value.allowed {
      return Refused(NotAuthorized);
    }
    var normalized := Normalize.NormalizePath(req.target);
    if normalized.Err? {
      return Refused(Malformed(normalized.error));
    }
    var path := normalized.value;
    r := SearchGrants(conn.value.matched, req.verb, path, req.upgrade, Grants(req.verb, path, req.upgrade));
  }
}
