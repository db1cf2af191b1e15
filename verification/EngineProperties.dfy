/** What the two stages promise together: they grant exactly what some policy grants, the
    most specific grant answers, and the order policies are listed in does not matter. */
module EngineProperties {
  import opened Text
  import opened Api
  import opened GrantOrder
  import opened Engine
  import opened HostMatch
  import Normalize

  // ----- what is collected -----

  /** Destination j of policy i selects this workload and reaches the host and port. */
  predicate Offers(ps: seq<Policy>, i: nat, j: nat, id: Identity, reaches: Destination -> bool) {
    && i < |ps| && Chooses(ps[i], id)
    && j < |ps[i].destinations| && reaches(ps[i].destinations[j])
  }

  lemma {:induction false} PolicyGrantsMembers(p: Policy, k: nat, reaches: Destination -> bool, g: Grant)
    requires k <= |p.destinations|
    ensures g in GrantsOfPolicy(p, k, reaches) <==>
            exists j :: 0 <= j < k && reaches(p.destinations[j]) && g == GrantOf(p, p.destinations[j])
  {
    if k > 0 {
      PolicyGrantsMembers(p, k - 1, reaches, g);
    }
  }

  lemma {:induction false} CollectedMembers(ps: seq<Policy>, id: Identity, reaches: Destination -> bool, g: Grant)
    ensures g in Collected(ps, id, reaches) <==>
            exists i: nat, j: nat :: Offers(ps, i, j, id, reaches) && g == GrantOf(ps[i], ps[i].destinations[j])
  {
    if ps != [] {
      SelectsMeans(ps[0], id);
      CollectedMembers(ps[1..], id, reaches, g);
      PolicyGrantsMembers(ps[0], |ps[0].destinations|, reaches, g);
      if g in PolicyGrants(ps[0], id, reaches) {
        var j :| 0 <= j < |ps[0].destinations| && reaches(ps[0].destinations[j]) &&
                 g == GrantOf(ps[0], ps[0].destinations[j]);
        assert Offers(ps, 0, j, id, reaches);
      }
      if g in Collected(ps[1..], id, reaches) {
        var i: nat, j: nat :| Offers(ps[1..], i, j, id, reaches) &&
                              g == GrantOf(ps[1..][i], ps[1..][i].destinations[j]);
        assert Offers(ps, i + 1, j, id, reaches);
      }
      if i: nat, j: nat :| Offers(ps, i, j, id, reaches) && g == GrantOf(ps[i], ps[i].destinations[j]) {
        if i > 0 {
          assert Offers(ps[1..], i - 1, j, id, reaches);
        }
      }
    }
  }

  // ----- order independence -----

  lemma {:induction false} ForeignKey(p: Policy, k: nat, reaches: Destination -> bool, s: int, n: Bytes)
    requires k <= |p.destinations| && p.name != n
    ensures WithKey(GrantsOfPolicy(p, k, reaches), s, n) == []
  {
    if k > 0 {
      ForeignKey(p, k - 1, reaches, s, n);
      var last := if reaches(p.destinations[k - 1]) then [GrantOf(p, p.destinations[k - 1])] else [];
      WithKeyAppend(GrantsOfPolicy(p, k - 1, reaches), last, s, n);
    }
  }

  lemma {:induction false} NoPolicyNamed(ps: seq<Policy>, id: Identity, reaches: Destination -> bool, s: int, n: Bytes)
    requires forall k :: 0 <= k < |ps| ==> ps[k].name != n
    ensures WithKey(Collected(ps, id, reaches), s, n) == []
  {
    if ps != [] {
      NoPolicyNamed(ps[1..], id, reaches, s, n);
      ForeignKey(ps[0], |ps[0].destinations|, reaches, s, n);
      WithKeyAppend(PolicyGrants(ps[0], id, reaches), Collected(ps[1..], id, reaches), s, n);
    }
  }

  lemma WithKeyAround(a: seq<Policy>, p: Policy, b: seq<Policy>, id: Identity, reaches: Destination -> bool, s: int,
                      n: Bytes)
    ensures WithKey(Collected(a + [p] + b, id, reaches), s, n) ==
            WithKey(Collected(a, id, reaches), s, n) + WithKey(PolicyGrants(p, id, reaches), s, n) +
            WithKey(Collected(b, id, reaches), s, n)
    ensures SelectedCount(a + [p] + b, id) ==
            SelectedCount(a, id) + SelectedCount(b, id) + if Selects(p, id) == Selected then 1 else 0
  {
    CollectedAppend(a + [p], b, id, reaches);
    CollectedAppend(a, [p], id, reaches);
    assert [p][1..] == [];
    assert Collected([p], id, reaches) == PolicyGrants(p, id, reaches) + [] == PolicyGrants(p, id, reaches);
    WithKeyAppend(Collected(a + [p], id, reaches), Collected(b, id, reaches), s, n);
    WithKeyAppend(Collected(a, id, reaches), PolicyGrants(p, id, reaches), s, n);
  }

  /** Where the first policy of ps stands in a permutation qs of it. */
  lemma FindFirst(ps: seq<Policy>, qs: seq<Policy>) returns (a: seq<Policy>, b: seq<Policy>)
    requires ps != [] && multiset(ps) == multiset(qs)
    ensures qs == a + [ps[0]] + b && multiset(ps[1..]) == multiset(a + b)
  {
    assert ps[0] in multiset(qs);
    var i :| 0 <= i < |qs| && qs[i] == ps[0];
    a, b := qs[..i], qs[i + 1..];
    assert qs == a + [ps[0]] + b;
    assert ps == [ps[0]] + ps[1..];
    assert multiset(ps) == multiset{ps[0]} + multiset(ps[1..]);
    assert multiset(qs) == multiset(a) + multiset{ps[0]} + multiset(b);
    assert multiset(a + b) == multiset(a) + multiset(b) == multiset(qs) - multiset{ps[0]};
    assert multiset(ps[1..]) == multiset(ps) - multiset{ps[0]};
  }

  /** Listing the policies in another order changes nothing key by key: a key names one
      policy, and that policy's destinations keep their own order. */
  lemma {:induction false} PermutationKeepsKeys(ps: seq<Policy>, qs: seq<Policy>, id: Identity,
                                                reaches: Destination -> bool, s: int, n: Bytes)
    requires DistinctNames(ps) && multiset(ps) == multiset(qs)
    ensures WithKey(Collected(ps, id, reaches), s, n) == WithKey(Collected(qs, id, reaches), s, n)
    ensures SelectedCount(ps, id) == SelectedCount(qs, id)
    decreases |ps|
  {
    if ps == [] {
      assert |multiset(qs)| == 0;
    } else {
      var a, b := FindFirst(ps, qs);
      PermutationKeepsKeys(ps[1..], a + b, id, reaches, s, n);
      OthersNamedOtherwise(ps, a + b);
      MoveHeadInto(ps, a, b, id, reaches, s, n);
    }
  }

  /** Moving a policy between others of different names keeps every key's grants. */
  lemma MoveHeadInto(ps: seq<Policy>, a: seq<Policy>, b: seq<Policy>, id: Identity, reaches: Destination -> bool,
                     s: int, n: Bytes)
    requires ps != []
    requires forall k :: 0 <= k < |a + b| ==> (a + b)[k].name != ps[0].name
    requires WithKey(Collected(ps[1..], id, reaches), s, n) == WithKey(Collected(a + b, id, reaches), s, n)
    requires SelectedCount(ps[1..], id) == SelectedCount(a + b, id)
    ensures WithKey(Collected(ps, id, reaches), s, n) == WithKey(Collected(a + [ps[0]] + b, id, reaches), s, n)
    ensures SelectedCount(ps, id) == SelectedCount(a + [ps[0]] + b, id)
  {
    var p := ps[0];
    WithKeyAround(a, p, b, id, reaches, s, n);
    WithKeyAppend(PolicyGrants(p, id, reaches), Collected(ps[1..], id, reaches), s, n);
    WithKeySplit(a, b, id, reaches, s, n);
    if p.name == n {
      OthersLackKey(a, b, id, reaches, s, n);
    } else {
      ForeignKey(p, |p.destinations|, reaches, s, n);
      assert WithKey(PolicyGrants(p, id, reaches), s, n) == [];
    }
    MovePastEmpty(WithKey(PolicyGrants(p, id, reaches), s, n),
                  WithKey(Collected(a, id, reaches), s, n), WithKey(Collected(b, id, reaches), s, n));
  }

  lemma MovePastEmpty(w: seq<Grant>, a: seq<Grant>, b: seq<Grant>)
    requires w == [] || a == b == []
    ensures w + (a + b) == a + w + b
  {
  }

  lemma WithKeySplit(a: seq<Policy>, b: seq<Policy>, id: Identity, reaches: Destination -> bool, s: int, n: Bytes)
    ensures WithKey(Collected(a + b, id, reaches), s, n) ==
            WithKey(Collected(a, id, reaches), s, n) + WithKey(Collected(b, id, reaches), s, n)
    ensures SelectedCount(a + b, id) == SelectedCount(a, id) + SelectedCount(b, id)
  {
    CollectedAppend(a, b, id, reaches);
    WithKeyAppend(Collected(a, id, reaches), Collected(b, id, reaches), s, n);
  }

  lemma OthersLackKey(a: seq<Policy>, b: seq<Policy>, id: Identity, reaches: Destination -> bool, s: int, n: Bytes)
    requires forall k :: 0 <= k < |a + b| ==> (a + b)[k].name != n
    ensures WithKey(Collected(a, id, reaches), s, n) == [] == WithKey(Collected(b, id, reaches), s, n)
  {
    assert forall k :: 0 <= k < |a| ==> a[k] == (a + b)[k];
    assert forall k :: 0 <= k < |b| ==> b[k] == (a + b)[|a| + k];
    NoPolicyNamed(a, id, reaches, s, n);
    NoPolicyNamed(b, id, reaches, s, n);
  }

  lemma OthersNamedOtherwise(ps: seq<Policy>, others: seq<Policy>)
    requires ps != [] && DistinctNames(ps) && multiset(ps[1..]) == multiset(others)
    ensures forall k :: 0 <= k < |others| ==> others[k].name != ps[0].name
  {
    forall k | 0 <= k < |others| ensures others[k].name != ps[0].name {
      assert others[k] in multiset(ps[1..]);
      var m :| 0 <= m < |ps[1..]| && ps[1..][m] == others[k];
      assert ps[m + 1] == others[k];
    }
  }

  /** The connect decision - grants in order, upstream, TLS mode, reason - is the same for
      every order of the policy list; so is whether some selector fails to parse. */
  lemma ConnectIgnoresListOrder(ps: seq<Policy>, qs: seq<Policy>, id: Identity, host: Bytes, port: int)
    requires DistinctNames(ps) && multiset(ps) == multiset(qs)
    ensures Connect(id, ps, host, port) == Connect(id, qs, host, port)
    ensures SelectorsParse(ps, id) <==> SelectorsParse(qs, id)
  {
    var reaches := (d: Destination) => Reaches(d, host, port);
    DecisionIgnoresListOrder(ps, qs, id, host, port, reaches);
    if SelectorsParse(ps, id) { SameSelectors(ps, qs, id); }
    if SelectorsParse(qs, id) { SameSelectors(qs, ps, id); }
  }

  lemma DecisionIgnoresListOrder(ps: seq<Policy>, qs: seq<Policy>, id: Identity, host: Bytes, port: int,
                                 reaches: Destination -> bool)
    requires DistinctNames(ps) && multiset(ps) == multiset(qs)
    ensures DecisionFor(Collected(ps, id, reaches), SelectedCount(ps, id), id, host, port) ==
            DecisionFor(Collected(qs, id, reaches), SelectedCount(qs, id), id, host, port)
  {
    var a, b := Collected(ps, id, reaches), Collected(qs, id, reaches);
    forall s: int, n: Bytes ensures WithKey(a, s, n) == WithKey(b, s, n) {
      PermutationKeepsKeys(ps, qs, id, reaches, s, n);
    }
    PermutationKeepsKeys(ps, qs, id, reaches, 0, []);
    SortOfSameByKey(a, b);
    assert |a| == |multiset(StableSort(a))| == |b|;
  }

  lemma SameSelectors(ps: seq<Policy>, qs: seq<Policy>, id: Identity)
    requires multiset(ps) == multiset(qs) && SelectorsParse(ps, id)
    ensures SelectorsParse(qs, id)
  {
    forall k | 0 <= k < |qs| ensures !FailsOn(qs[k], id) {
      assert qs[k] in multiset(ps);
      var m :| 0 <= m < |ps| && ps[m] == qs[k];
    }
  }

  lemma SearchAnswerIsUnique(a: RequestDecision, b: RequestDecision, gs: seq<Grant>, path: Bytes, upgrade: bool,
                             grants: PathRule -> bool)
    requires SearchAnswer(a, gs, path, upgrade, grants) && SearchAnswer(b, gs, path, upgrade, grants)
    ensures a == b
  {
  }

  /** With the connection fixed, one request has one answer. */
  lemma RequestAnswerIsUnique(a: RequestDecision, b: RequestDecision, conn: Option<ConnectDecision>, req: Request)
    requires RequestAnswer(a, conn, req) && RequestAnswer(b, conn, req)
    ensures a == b
  {
    var normalized := Normalize.Normalized(req.target);
    if conn.Some? && conn.value.allowed && normalized.Ok? {
      var path := normalized.value;
      SearchAnswerIsUnique(a, b, conn.value.matched, path, req.upgrade, Grants(req.verb, path, req.upgrade));
    }
  }

  /** Nor does any later request decision depend on the order policies are listed in. */
  lemma RequestsIgnoreListOrder(ps: seq<Policy>, qs: seq<Policy>, id: Identity, host: Bytes, port: int,
                                req: Request, r: RequestDecision, s: RequestDecision)
    requires DistinctNames(ps) && multiset(ps) == multiset(qs)
    requires RequestAnswer(r, Some(Connect(id, ps, host, port)), req)
    requires RequestAnswer(s, Some(Connect(id, qs, host, port)), req)
    ensures r == s
  {
    ConnectIgnoresListOrder(ps, qs, id, host, port);
    RequestAnswerIsUnique(r, s, Some(Connect(id, ps, host, port)), req);
  }

  // ----- the two stages as one specification -----

  /** Destination j of policy i grants the request outright. */
  ghost predicate Granting(ps: seq<Policy>, i: nat, j: nat, id: Identity, reaches: Destination -> bool,
                           upgrade: bool, grants: PathRule -> bool) {
    Offers(ps, i, j, id, reaches) && DestinationGrants(ps[i].destinations[j], upgrade, grants)
  }

  ghost predicate AnyGrants(ps: seq<Policy>, id: Identity, reaches: Destination -> bool,
                            upgrade: bool, grants: PathRule -> bool) {
    exists i: nat, j: nat :: Granting(ps, i, j, id, reaches, upgrade, grants)
  }

  /** The order of grants: a more specific host pattern first, then the policy whose name is
      earlier in byte order. */
  ghost predicate Precedes(p: Policy, d: Destination, q: Policy, e: Destination) {
    || HostSpecificity(d.host) > HostSpecificity(e.host)
    || (HostSpecificity(d.host) == HostSpecificity(e.host) && EarlierName(p.name, q.name))
  }

  lemma PrecedesIsBefore(p: Policy, d: Destination, q: Policy, e: Destination)
    ensures Precedes(p, d, q, e) <==> Before(GrantOf(p, d), GrantOf(q, e))
  {
    LexLessMeans(p.name, q.name);
  }

  /** The grant behind an answer: no granting destination is more specific, and among the
      equally specific none belongs to a policy earlier by name. */
  ghost predicate BestGrant(ps: seq<Policy>, i: nat, j: nat, id: Identity, reaches: Destination -> bool,
                            upgrade: bool, grants: PathRule -> bool) {
    && Granting(ps, i, j, id, reaches, upgrade, grants)
    && forall i': nat, j': nat :: Granting(ps, i', j', id, reaches, upgrade, grants) ==>
         !Precedes(ps[i'], ps[i'].destinations[j'], ps[i], ps[i].destinations[j])
  }

  lemma FirstGrantExists(gs: seq<Grant>, k: nat, upgrade: bool, grants: PathRule -> bool) returns (i: nat)
    requires k < |gs| && DestinationGrants(gs[k].destination, upgrade, grants)
    ensures FirstGrant(gs, i, upgrade, grants)
  {
    i := 0;
    while !DestinationGrants(gs[i].destination, upgrade, grants)
      invariant i <= k
      invariant forall j :: 0 <= j < i ==> !DestinationGrants(gs[j].destination, upgrade, grants)
      decreases k - i
    {
      i := i + 1;
    }
  }

  lemma SortedMembers(gs: seq<Grant>, g: Grant)
    ensures g in StableSort(gs) <==> g in gs
  {
    assert g in multiset(StableSort(gs)) <==> g in multiset(gs);
  }

  /** A granting destination turns up in the sorted grants. */
  lemma GrantingIsMatched(ps: seq<Policy>, i: nat, j: nat, id: Identity, reaches: Destination -> bool,
                          upgrade: bool, grants: PathRule -> bool) returns (k: nat)
    requires Granting(ps, i, j, id, reaches, upgrade, grants)
    ensures var gs := StableSort(Collected(ps, id, reaches));
            k < |gs| && gs[k] == GrantOf(ps[i], ps[i].destinations[j])
  {
    var gs := Collected(ps, id, reaches);
    var g := GrantOf(ps[i], ps[i].destinations[j]);
    CollectedMembers(ps, id, reaches, g);
    SortedMembers(gs, g);
    k :| 0 <= k < |StableSort(gs)| && StableSort(gs)[k] == g;
  }

  /** The first grant in sorted order is the best one. */
  lemma FirstIsBest(ps: seq<Policy>, k: nat, id: Identity, reaches: Destination -> bool,
                    upgrade: bool, grants: PathRule -> bool) returns (i: nat, j: nat)
    requires FirstGrant(StableSort(Collected(ps, id, reaches)), k, upgrade, grants)
    ensures BestGrant(ps, i, j, id, reaches, upgrade, grants)
    ensures StableSort(Collected(ps, id, reaches))[k] == GrantOf(ps[i], ps[i].destinations[j])
  {
    var gs := StableSort(Collected(ps, id, reaches));
    SortedMembers(Collected(ps, id, reaches), gs[k]);
    CollectedMembers(ps, id, reaches, gs[k]);
    i, j :| Offers(ps, i, j, id, reaches) && gs[k] == GrantOf(ps[i], ps[i].destinations[j]);
    forall i': nat, j': nat | Granting(ps, i', j', id, reaches, upgrade, grants)
      ensures !Precedes(ps[i'], ps[i'].destinations[j'], ps[i], ps[i].destinations[j])
    {
      PrecedesIsBefore(ps[i'], ps[i'].destinations[j'], ps[i], ps[i].destinations[j]);
      NothingBeforeFirst(ps, k, i', j', id, reaches, upgrade, grants);
    }
  }

  lemma NothingBeforeFirst(ps: seq<Policy>, k: nat, i: nat, j: nat, id: Identity, reaches: Destination -> bool,
                           upgrade: bool, grants: PathRule -> bool)
    requires FirstGrant(StableSort(Collected(ps, id, reaches)), k, upgrade, grants)
    requires Granting(ps, i, j, id, reaches, upgrade, grants)
    ensures !Before(GrantOf(ps[i], ps[i].destinations[j]), StableSort(Collected(ps, id, reaches))[k])
  {
    var gs := StableSort(Collected(ps, id, reaches));
    StableSortIsStable(Collected(ps, id, reaches), 0, []);
    var m := GrantingIsMatched(ps, i, j, id, reaches, upgrade, grants);
    assert k <= m;
    BeforeIsTotal(gs[m], gs[k]);
  }

  /** The specification of both stages together, with no order and no search in it: allowed
      exactly when something grants, and then answered by a best grant. */
  ghost predicate OneSpecification(r: RequestDecision, ps: seq<Policy>, id: Identity, reaches: Destination -> bool,
                                   upgrade: bool, grants: PathRule -> bool) {
    && (r.allowed <==> AnyGrants(ps, id, reaches, upgrade, grants))
    && (r.allowed ==> exists i: nat, j: nat :: AnsweredBy(r, ps, i, j, id, reaches, upgrade, grants))
  }

  ghost predicate AnsweredBy(r: RequestDecision, ps: seq<Policy>, i: nat, j: nat, id: Identity,
                             reaches: Destination -> bool,
                             upgrade: bool, grants: PathRule -> bool) {
    BestGrant(ps, i, j, id, reaches, upgrade, grants) && AnswerOf(r, GrantOf(ps[i], ps[i].destinations[j]), grants)
  }

  lemma SearchFindsBest(ps: seq<Policy>, id: Identity, reaches: Destination -> bool,
                        r: RequestDecision, path: Bytes, upgrade: bool, grants: PathRule -> bool)
    requires SearchAnswer(r, StableSort(Collected(ps, id, reaches)), path, upgrade, grants)
    ensures OneSpecification(r, ps, id, reaches, upgrade, grants)
  {
    var gs := StableSort(Collected(ps, id, reaches));
    if i: nat, j: nat :| Granting(ps, i, j, id, reaches, upgrade, grants) {
      var k := GrantingIsMatched(ps, i, j, id, reaches, upgrade, grants);
      var first := FirstGrantExists(gs, k, upgrade, grants);
    }
    if r.allowed {
      var k: nat :| FirstGrant(gs, k, upgrade, grants) && AnswerOf(r, gs[k], grants);
      var i, j := FirstIsBest(ps, k, id, reaches, upgrade, grants);
      assert AnsweredBy(r, ps, i, j, id, reaches, upgrade, grants);
    }
  }

  /** Both stages over any "reaches" and any "grants": what the engine adds is exactly this. */
  lemma DecisionThenSearch(ps: seq<Policy>, id: Identity, host: Bytes, port: int, reaches: Destination -> bool,
                           r: RequestDecision, path: Bytes, upgrade: bool, grants: PathRule -> bool)
    requires var dec := DecisionFor(Collected(ps, id, reaches), SelectedCount(ps, id), id, host, port);
             if dec.allowed then SearchAnswer(r, dec.matched, path, upgrade, grants) else !r.allowed
    ensures OneSpecification(r, ps, id, reaches, upgrade, grants)
  {
    if Collected(ps, id, reaches) == [] {
      NothingCollected(ps, id, reaches);
    } else {
      SearchFindsBest(ps, id, reaches, r, path, upgrade, grants);
    }
  }

  /** Some destination of some selecting policy reaches the host and port and grants the
      method, the normalized path and the upgrade. */
  ghost predicate SomethingGrants(ps: seq<Policy>, id: Identity, host: Bytes, port: int, req: Request) {
    match Normalize.Normalized(req.target)
    case Err(_) => false
    case Ok(path) =>
      AnyGrants(ps, id, d => Reaches(d, host, port), req.upgrade, Grants(req.verb, path, req.upgrade))
  }

  /** Both stages as the relay runs them: what AuthorizeConnect answered, and, if that was a
      decision, what AuthorizeRequest answered on it. */
  ghost predicate TwoStages(c: ConnectResult, r: RequestDecision, ps: seq<Policy>, id: Identity,
                            host: Bytes, port: int, req: Request) {
    && ConnectAnswer(c, ps, id, host, port)
    && (c.Decided? ==> RequestAnswer(r, Some(c.decision), req))
  }

  /** The request goes through. */
  predicate LetThrough(c: ConnectResult, r: RequestDecision) {
    c.Decided? && r.allowed
  }

  /** Connect, then request: there is a decision exactly when every selector parses; the request
      is let through exactly when, besides, something grants it; and the policy, upstream and
      rule then reported are those of a best grant. */
  lemma TwoStagesAreOneSpecification(c: ConnectResult, r: RequestDecision, ps: seq<Policy>, id: Identity,
                                     host: Bytes, port: int, req: Request)
    requires TwoStages(c, r, ps, id, host, port, req)
    ensures c.Decided? <==> SelectorsParse(ps, id)
    ensures LetThrough(c, r) <==> SelectorsParse(ps, id) && SomethingGrants(ps, id, host, port, req)
    ensures c.Decided? ==>
              match Normalize.Normalized(req.target)
              case Err(_) => !r.allowed
              case Ok(path) => OneSpecification(r, ps, id, d => Reaches(d, host, port), req.upgrade,
                                                Grants(req.verb, path, req.upgrade))
  {
    if SelectorsParse(ps, id) {
      DecidedIsOneSpecification(r, ps, id, host, port, req);
    }
  }

  lemma DecidedIsOneSpecification(r: RequestDecision, ps: seq<Policy>, id: Identity, host: Bytes, port: int,
                                  req: Request)
    requires RequestAnswer(r, Some(Connect(id, ps, host, port)), req)
    ensures r.allowed <==> SomethingGrants(ps, id, host, port, req)
    ensures match Normalize.Normalized(req.target)
            case Err(_) => !r.allowed
            case Ok(path) => OneSpecification(r, ps, id, d => Reaches(d, host, port), req.upgrade,
                                              Grants(req.verb, path, req.upgrade))
  {
    var normalized := Normalize.Normalized(req.target);
    if normalized.Ok? {
      DecisionThenSearch(ps, id, host, port, d => Reaches(d, host, port), r, normalized.value,
                         req.upgrade, Grants(req.verb, normalized.value, req.upgrade));
    }
  }

  lemma NothingCollected(ps: seq<Policy>, id: Identity, reaches: Destination -> bool)
    requires Collected(ps, id, reaches) == []
    ensures forall i: nat, j: nat :: !Offers(ps, i, j, id, reaches)
  {
    forall i: nat, j: nat ensures !Offers(ps, i, j, id, reaches) {
      if Offers(ps, i, j, id, reaches) {
        CollectedMembers(ps, id, reaches, GrantOf(ps[i], ps[i].destinations[j]));
      }
    }
  }

  lemma MorePoliciesGrantMore(ps: seq<Policy>, qs: seq<Policy>, id: Identity, host: Bytes, port: int, req: Request)
    requires forall p :: p in ps ==> p in qs
    requires SomethingGrants(ps, id, host, port, req)
    ensures SomethingGrants(qs, id, host, port, req)
  {
    var reaches := (d: Destination) => Reaches(d, host, port);
    var grants := Grants(req.verb, Normalize.Normalized(req.target).value, req.upgrade);
    var i: nat, j: nat :| Granting(ps, i, j, id, reaches, req.upgrade, grants);
    assert ps[i] in qs;
    var m :| 0 <= m < |qs| && qs[m] == ps[i];
    assert Granting(qs, m, j, id, reaches, req.upgrade, grants);
  }

  /** Grants are additive, up to one thing: with more policies listed, a request that was let
      through still is exactly when every selector of the longer list parses. */
  lemma MorePoliciesDenyOnlyBySelector(ps: seq<Policy>, qs: seq<Policy>, id: Identity, host: Bytes, port: int,
                                       req: Request,
                                       c: ConnectResult, r: RequestDecision, d: ConnectResult, s: RequestDecision)
    requires forall p :: p in ps ==> p in qs
    requires TwoStages(c, r, ps, id, host, port, req) && LetThrough(c, r)
    requires TwoStages(d, s, qs, id, host, port, req)
    ensures LetThrough(d, s) <==> SelectorsParse(qs, id)
  {
    TwoStagesAreOneSpecification(c, r, ps, id, host, port, req);
    TwoStagesAreOneSpecification(d, s, qs, id, host, port, req);
    MorePoliciesGrantMore(ps, qs, id, host, port, req);
  }

  /** And that happens: one more policy, granting nothing, whose namespace selector does not
      parse, ends every request the others grant - whoever asks, and for whatever. */
  lemma OneBadSelectorStopsAll(ps: seq<Policy>, name: Bytes, id: Identity, host: Bytes, port: int, req: Request,
                               d: ConnectResult, s: RequestDecision)
    requires SelectorsParse(ps, id)
    requires var bad := Policy(name, Some(Selector(false, _ => false)), None, [], []);
             TwoStages(d, s, ps + [bad], id, host, port, req)
    ensures d == SelectorFailed(name) && !LetThrough(d, s)
  {
    var bad := Policy(name, Some(Selector(false, _ => false)), None, [], []);
    var qs := ps + [bad];
    assert FailsOn(qs[|ps|], id);
    assert forall j :: 0 <= j < |ps| ==> qs[j] == ps[j];
  }

  // ----- the connect summary -----

  /** An offered destination that no other offered one comes before. */
  ghost predicate BestOffer(ps: seq<Policy>, i: nat, j: nat, id: Identity, reaches: Destination -> bool) {
    && Offers(ps, i, j, id, reaches)
    && forall i': nat, j': nat :: Offers(ps, i', j', id, reaches) ==>
         !Precedes(ps[i'], ps[i'].destinations[j'], ps[i], ps[i].destinations[j])
  }

  ghost predicate OffersInspection(ps: seq<Policy>, i: nat, j: nat, id: Identity, reaches: Destination -> bool) {
    Offers(ps, i, j, id, reaches) && ps[i].destinations[j].tlsMode == Inspect
  }

  /** What a connect decision says: allowed exactly when something is offered, inspected
      exactly when some offer asks for it, and tunnelled through a best offer's upstream. */
  ghost predicate Summarises(dec: ConnectDecision, ps: seq<Policy>, id: Identity, reaches: Destination -> bool) {
    && (dec.allowed <==> exists i: nat, j: nat :: Offers(ps, i, j, id, reaches))
    && (dec.tlsMode == Inspect <==> exists i: nat, j: nat :: OffersInspection(ps, i, j, id, reaches))
    && (dec.allowed ==> exists i: nat, j: nat :: BestOffer(ps, i, j, id, reaches) && dec.upstream == ps[i].upstream)
  }

  lemma ConnectSummary(ps: seq<Policy>, id: Identity, host: Bytes, port: int)
    ensures Summarises(Connect(id, ps, host, port), ps, id, d => Reaches(d, host, port))
  {
    SummaryOf(ps, id, host, port, d => Reaches(d, host, port));
  }

  /** Every offer is somewhere in the sorted grants, and never before the first. */
  lemma OfferIsSorted(ps: seq<Policy>, i: nat, j: nat, id: Identity, reaches: Destination -> bool) returns (m: nat)
    requires Offers(ps, i, j, id, reaches)
    ensures var sorted := StableSort(Collected(ps, id, reaches));
            && m < |sorted| && sorted[m] == GrantOf(ps[i], ps[i].destinations[j])
            && !Before(sorted[m], sorted[0])
  {
    var gs, g := Collected(ps, id, reaches), GrantOf(ps[i], ps[i].destinations[j]);
    CollectedMembers(ps, id, reaches, g);
    SortedMembers(gs, g);
    m :| 0 <= m < |StableSort(gs)| && StableSort(gs)[m] == g;
    StableSortIsStable(gs, 0, []);
    BeforeIsTotal(StableSort(gs)[m], StableSort(gs)[0]);
  }

  lemma SummaryOf(ps: seq<Policy>, id: Identity, host: Bytes, port: int, reaches: Destination -> bool)
    ensures Summarises(DecisionFor(Collected(ps, id, reaches), SelectedCount(ps, id), id, host, port), ps, id, reaches)
  {
    var gs := Collected(ps, id, reaches);
    if gs == [] {
      NothingCollected(ps, id, reaches);
    } else {
      var i, j := FirstIsBestOffer(ps, id, reaches);
      InspectionIsOffered(ps, id, reaches);
    }
  }

  lemma FirstIsBestOffer(ps: seq<Policy>, id: Identity, reaches: Destination -> bool) returns (i: nat, j: nat)
    requires Collected(ps, id, reaches) != []
    ensures StableSort(Collected(ps, id, reaches)) != []
    ensures BestOffer(ps, i, j, id, reaches) && StableSort(Collected(ps, id, reaches))[0].upstream == ps[i].upstream
  {
    var gs := Collected(ps, id, reaches);
    var sorted := StableSort(gs);
    assert |multiset(sorted)| == |multiset(gs)|;
    SortedMembers(gs, sorted[0]);
    CollectedMembers(ps, id, reaches, sorted[0]);
    i, j :| Offers(ps, i, j, id, reaches) && sorted[0] == GrantOf(ps[i], ps[i].destinations[j]);
    forall i': nat, j': nat | Offers(ps, i', j', id, reaches)
      ensures !Precedes(ps[i'], ps[i'].destinations[j'], ps[i], ps[i].destinations[j])
    {
      PrecedesIsBefore(ps[i'], ps[i'].destinations[j'], ps[i], ps[i].destinations[j]);
      var m := OfferIsSorted(ps, i', j', id, reaches);
    }
  }

  lemma InspectionIsOffered(ps: seq<Policy>, id: Identity, reaches: Destination -> bool)
    ensures AnyInspect(StableSort(Collected(ps, id, reaches))) <==>
            exists i: nat, j: nat :: OffersInspection(ps, i, j, id, reaches)
  {
    var gs := Collected(ps, id, reaches);
    var sorted := StableSort(gs);
    if AnyInspect(sorted) {
      var m :| 0 <= m < |sorted| && sorted[m].destination.tlsMode == Inspect;
      SortedMembers(gs, sorted[m]);
      CollectedMembers(ps, id, reaches, sorted[m]);
      var a: nat, b: nat :| Offers(ps, a, b, id, reaches) && sorted[m] == GrantOf(ps[a], ps[a].destinations[b]);
      assert OffersInspection(ps, a, b, id, reaches);
    }
    if a: nat, b: nat :| OffersInspection(ps, a, b, id, reaches) {
      var m := OfferIsSorted(ps, a, b, id, reaches);
      assert sorted[m].destination.tlsMode == Inspect;
    }
  }

  /** The grants of a decision stand most specific host pattern first, and by policy name in
      byte order where that is equal. */
  lemma MatchedInOrder(ps: seq<Policy>, id: Identity, host: Bytes, port: int, a: nat, b: nat)
    requires var m := Connect(id, ps, host, port).matched; a < b < |m|
    ensures var m := Connect(id, ps, host, port).matched;
            var x, y := HostSpecificity(m[a].destination.host), HostSpecificity(m[b].destination.host);
            && m[a].specificity == x && m[b].specificity == y
            && x >= y && (x == y ==> m[a].policy == m[b].policy || EarlierName(m[a].policy, m[b].policy))
  {
    SortedInOrder(ps, id, d => Reaches(d, host, port), a, b);
  }

  lemma SortedInOrder(ps: seq<Policy>, id: Identity, reaches: Destination -> bool, a: nat, b: nat)
    requires a < b < |StableSort(Collected(ps, id, reaches))|
    ensures var m := StableSort(Collected(ps, id, reaches));
            var x, y := HostSpecificity(m[a].destination.host), HostSpecificity(m[b].destination.host);
            && m[a].specificity == x && m[b].specificity == y
            && x >= y && (x == y ==> m[a].policy == m[b].policy || EarlierName(m[a].policy, m[b].policy))
  {
    var gs := Collected(ps, id, reaches);
    var m := StableSort(gs);
    StableSortIsStable(gs, 0, []);
    RankedBySpelling(ps, id, reaches, m[a]);
    RankedBySpelling(ps, id, reaches, m[b]);
    LexTrichotomy(m[a].policy, m[b].policy);
    LexLessMeans(m[a].policy, m[b].policy);
  }

  lemma RankedBySpelling(ps: seq<Policy>, id: Identity, reaches: Destination -> bool, g: Grant)
    requires g in StableSort(Collected(ps, id, reaches))
    ensures g.specificity == HostSpecificity(g.destination.host)
  {
    SortedMembers(Collected(ps, id, reaches), g);
    CollectedMembers(ps, id, reaches, g);
  }

  // ----- why a connection is denied -----

  /** The policies for this workload, by position. */
  function ChoosingAmong(ps: seq<Policy>, id: Identity): set<nat> {
    set i: nat | i < |ps| && Chooses(ps[i], id)
  }

  lemma {:induction false} SelectedCountMeans(ps: seq<Policy>, id: Identity)
    ensures SelectedCount(ps, id) == |ChoosingAmong(ps, id)|
  {
    if ps != [] {
      var last := |ps| - 1;
      SelectedCountMeans(ps[..last], id);
      CollectedSnoc(ps, last, id, _ => false);
      assert ps[..last + 1] == ps;
      SelectsMeans(ps[last], id);
      var before := ChoosingAmong(ps[..last], id);
      assert ChoosingAmong(ps, id) == if Chooses(ps[last], id) then before + {last} else before;
    }
  }

  /** A denial says that no policy is for this workload, or how many are and grant nothing. */
  lemma DenialReason(ps: seq<Policy>, id: Identity, host: Bytes, port: int)
    requires !Connect(id, ps, host, port).allowed
    ensures var n := |ChoosingAmong(ps, id)|;
            Connect(id, ps, host, port).reason == if n == 0 then NoPolicySelects(id.namespace) else NoDestination(n)
  {
    SelectedCountMeans(ps, id);
  }

  predicate Appears(gs: seq<Grant>, n: Bytes) {
    exists k :: 0 <= k < |gs| && gs[k].policy == n
  }

  lemma AppearsUnfolds(gs: seq<Grant>, n: Bytes)
    requires gs != []
    ensures Appears(gs, n) <==> gs[0].policy == n || Appears(gs[1..], n)
  {
  }

  /** policyNames lists each granting policy once, and first appearances decide the order:
      a longer list of grants only adds names at the end. */
  lemma {:induction false} NamesAreFirstAppearances(gs: seq<Grant>, more: seq<Grant>, seen: set<Bytes>)
    ensures NamesFrom(gs, seen) <= NamesFrom(gs + more, seen)
    ensures forall n :: n in NamesFrom(gs, seen) <==> n !in seen && Appears(gs, n)
    ensures forall a, b :: 0 <= a < b < |NamesFrom(gs, seen)| ==> NamesFrom(gs, seen)[a] != NamesFrom(gs, seen)[b]
    decreases |gs|
  {
    if gs != [] {
      var n := gs[0].policy;
      assert (gs + more)[1..] == gs[1..] + more;
      var seen' := if n in seen then seen else seen + {n};
      NamesAreFirstAppearances(gs[1..], more, seen');
      forall x ensures Appears(gs, x) <==> n == x || Appears(gs[1..], x) {
        AppearsUnfolds(gs, x);
      }
    }
  }
}
