/** What the relay lets through, in the terms policies are written in: labels, ports, path
    segments, letters - with none of the engine's own tests. */
module Admission {
  import opened Text
  import opened Api
  import opened Engine
  import opened EngineProperties
  import opened GrantOrder
  import opened HostMatch
  import opened PathMatch
  import opened SegmentGlob
  import Decode
  import NormalForm
  import Normalize

  /** On canonical names: any host, one or more labels before a suffix, one label before a
      suffix, or that very name. */
  ghost predicate NameCovered(p: Bytes, h: Bytes) {
    && p != [] && h != []
    && (|| p == "*" || p == "**"
        || ("**." <= p && ExtraLabels(h, p[3..], |Labels(h)| - |Labels(p[3..])|))
        || ("*." <= p && ExtraLabels(h, p[2..], 1))
        || (!("**." <= p) && !("*." <= p) && p == h))
  }

  predicate PortCovered(ports: seq<int>, port: int) {
    port in ports || (ports == [] && (port == 80 || port == 443))
  }

  /** A pattern's elements against a path's segments: a run of segments for each element if
      there is a star, otherwise the same segments, or the first ones. */
  ghost predicate PathCovered(pattern: Bytes, exact: bool, path: Bytes) {
    var es, segs := SplitSegments(pattern), SplitSegments(path);
    if '*' in pattern then exists runs :: RunsFit(es, runs) && Flatten(runs) == segs
    else NoDoubleSlash(pattern) && if exact then es == segs else |es| <= |segs| && segs[..|es|] == es
  }

  ghost predicate RuleCovers(rule: PathRule, req: Request, path: Bytes) {
    && PathCovered(rule.path, rule.exact, path)
    && MethodAllowed(rule.methods, req.verb)
    && (req.upgrade ==> rule.allowUpgrade)
  }

  ghost predicate RequestCovered(d: Destination, req: Request, path: Bytes) {
    if d.paths == [] then req.upgrade ==> d.tlsMode != Inspect
    else exists k :: 0 <= k < |d.paths| && RuleCovers(d.paths[k], req, path)
  }

  /** Destination j of policy i is for this workload, this host and port, and this request. */
  ghost predicate Covers(ps: seq<Policy>, i: nat, j: nat, id: Identity, host: Bytes, port: int,
                         req: Request, path: Bytes) {
    && i < |ps| && Chooses(ps[i], id) && j < |ps[i].destinations|
    && NameCovered(CanonicalHost(ps[i].destinations[j].host), CanonicalHost(host))
    && PortCovered(ps[i].destinations[j].ports, port)
    && RequestCovered(ps[i].destinations[j], req, path)
  }

  lemma ReachesMeans(d: Destination, host: Bytes, port: int)
    ensures Reaches(d, host, port) <==>
            NameCovered(CanonicalHost(d.host), CanonicalHost(host)) && PortCovered(d.ports, port)
  {
    MatchHostMeansLabels(CanonicalHost(d.host), CanonicalHost(host));
  }

  lemma PathMeans(pattern: Bytes, exact: bool, path: Bytes)
    requires CleanPath(path)
    ensures PathMatches(pattern, exact, path) <==> PathCovered(pattern, exact, path)
  {
    if '*' in pattern {
      WildcardMeansRuns(pattern, exact, path);
    } else {
      LiteralPatternMeansSegments(pattern, exact, path);
      SameElements(pattern);
      RootedDoubles(pattern);
    }
  }

  lemma SameElements(pattern: Bytes)
    ensures SplitSegments(Rooted(pattern)) == SplitSegments(pattern)
  {
    if pattern == [] {
      TrimAll(pattern, IsSlash);
      TrimAll("/", IsSlash);
    } else {
      TrimOfRooted(pattern);
    }
  }

  lemma RootedDoubles(pattern: Bytes)
    ensures NoDoubleSlash(Rooted(pattern)) <==> NoDoubleSlash(pattern)
  {
    var p := Rooted(pattern);
    if p != pattern {
      forall i: nat ensures DoubleSlashAt(p, i) <==> i > 0 && DoubleSlashAt(pattern, i - 1) {
        assert p == "/" + pattern;
      }
      forall i: nat ensures DoubleSlashAt(pattern, i) <==> DoubleSlashAt(p, i + 1) {
      }
    }
  }

  lemma RuleMeans(rule: PathRule, req: Request, path: Bytes)
    requires CleanPath(path)
    ensures RuleGrants(rule, req.verb, path, req.upgrade) <==> RuleCovers(rule, req, path)
  {
    PathMeans(rule.path, rule.exact, path);
  }

  lemma RequestMeans(d: Destination, req: Request, path: Bytes)
    requires CleanPath(path)
    ensures DestinationGrants(d, req.upgrade, Grants(req.verb, path, req.upgrade)) <==> RequestCovered(d, req, path)
  {
    forall k | 0 <= k < |d.paths|
      ensures Grants(req.verb, path, req.upgrade)(d.paths[k]) <==> RuleCovers(d.paths[k], req, path)
    {
      RuleMeans(d.paths[k], req, path);
    }
  }

  lemma GrantingMeans(ps: seq<Policy>, i: nat, j: nat, id: Identity, host: Bytes, port: int, req: Request, path: Bytes)
    requires CleanPath(path)
    ensures Granting(ps, i, j, id, d => Reaches(d, host, port), req.upgrade, Grants(req.verb, path, req.upgrade)) <==>
            Covers(ps, i, j, id, host, port, req, path)
  {
    if i < |ps| && j < |ps[i].destinations| {
      ReachesMeans(ps[i].destinations[j], host, port);
      RequestMeans(ps[i].destinations[j], req, path);
    }
  }

  ghost predicate SomethingCovers(ps: seq<Policy>, id: Identity, host: Bytes, port: int, req: Request, path: Bytes) {
    exists i: nat, j: nat :: Covers(ps, i, j, id, host, port, req, path)
  }

  lemma AnyGrantsMeans(ps: seq<Policy>, id: Identity, host: Bytes, port: int, req: Request, path: Bytes)
    requires CleanPath(path)
    ensures AnyGrants(ps, id, d => Reaches(d, host, port), req.upgrade, Grants(req.verb, path, req.upgrade)) <==>
            SomethingCovers(ps, id, host, port, req, path)
  {
    var reaches, grants := (d: Destination) => Reaches(d, host, port), Grants(req.verb, path, req.upgrade);
    if i: nat, j: nat :| Granting(ps, i, j, id, reaches, req.upgrade, grants) {
      GrantingMeans(ps, i, j, id, host, port, req, path);
    }
    if i: nat, j: nat :| Covers(ps, i, j, id, host, port, req, path) {
      GrantingMeans(ps, i, j, id, host, port, req, path);
    }
  }

  /** A request goes through exactly when no selector it depends on fails to parse, its target
      has a normal form, and some policy for the workload has a destination that covers it. */
  lemma LetThroughMeans(c: ConnectResult, r: RequestDecision, ps: seq<Policy>, id: Identity,
                        host: Bytes, port: int, req: Request)
    requires TwoStages(c, r, ps, id, host, port, req)
    ensures LetThrough(c, r) <==>
            && (forall k :: 0 <= k < |ps| ==> !FailsOn(ps[k], id))
            && match Normalize.Normalized(req.target)
               case Err(_) => false
               case Ok(path) => SomethingCovers(ps, id, host, port, req, path)
  {
    TwoStagesAreOneSpecification(c, r, ps, id, host, port, req);
    if Normalize.Normalized(req.target).Ok? {
      var path := Normalize.Normalized(req.target).value;
      NormalForm.NormalizedIsNormalForm(req.target, path);
      AnyGrantsMeans(ps, id, host, port, req, path);
    }
  }

  /** The rule named is the first of the destination's that covers the request. */
  ghost predicate FirstCovering(d: Destination, k: nat, req: Request, path: Bytes) {
    k < |d.paths| && RuleCovers(d.paths[k], req, path) && forall m :: 0 <= m < k ==> !RuleCovers(d.paths[m], req, path)
  }

  lemma RuleNamed(r: RequestDecision, g: Grant, req: Request, path: Bytes)
    requires CleanPath(path) && AnswerOf(r, g, Grants(req.verb, path, req.upgrade))
    ensures g.destination.paths == [] ==> r.rule == "host grant"
    ensures g.destination.paths != [] ==>
              exists k: nat :: FirstCovering(g.destination, k, req, path) && r.rule == g.destination.paths[k].path
  {
    var rules, grants := g.destination.paths, Grants(req.verb, path, req.upgrade);
    if rules != [] {
      var k: nat :| FirstRule(rules, k, grants) && r.rule == rules[k].path;
      forall m | 0 <= m < |rules| ensures grants(rules[m]) <==> RuleCovers(rules[m], req, path) {
        RuleMeans(rules[m], req, path);
      }
      assert FirstCovering(g.destination, k, req, path);
    }
  }

  /** A request that goes through is answered by a destination that covers it, named with its
      policy, upstream and rule; none that covers it has a more specific host pattern, and of the
      equally specific ones none belongs to a policy earlier by name. */
  lemma BestCoveringAnswers(c: ConnectResult, r: RequestDecision, ps: seq<Policy>, id: Identity,
                            host: Bytes, port: int, req: Request, path: Bytes) returns (i: nat, j: nat)
    requires TwoStages(c, r, ps, id, host, port, req) && LetThrough(c, r)
    requires Normalize.Normalized(req.target) == Decode.Ok(path)
    ensures Covers(ps, i, j, id, host, port, req, path)
    ensures r.policy == ps[i].name && r.upstream == ps[i].upstream
    ensures var d := ps[i].destinations[j];
            if d.paths == [] then r.rule == "host grant"
            else exists k: nat :: FirstCovering(d, k, req, path) && r.rule == d.paths[k].path
    ensures forall i': nat, j': nat :: Covers(ps, i', j', id, host, port, req, path) ==>
              var x, y := HostSpecificity(ps[i'].destinations[j'].host), HostSpecificity(ps[i].destinations[j].host);
              x <= y && (x == y ==> !EarlierName(ps[i'].name, ps[i].name))
  {
    TwoStagesAreOneSpecification(c, r, ps, id, host, port, req);
    NormalForm.NormalizedIsNormalForm(req.target, path);
    var grants := Grants(req.verb, path, req.upgrade);
    var reaches := (d: Destination) => Reaches(d, host, port);
    i, j :| AnsweredBy(r, ps, i, j, id, reaches, req.upgrade, grants);
    GrantingMeans(ps, i, j, id, host, port, req, path);
    RuleNamed(r, GrantOf(ps[i], ps[i].destinations[j]), req, path);
    forall i': nat, j': nat | Covers(ps, i', j', id, host, port, req, path)
      ensures !Precedes(ps[i'], ps[i'].destinations[j'], ps[i], ps[i].destinations[j])
    {
      GrantingMeans(ps, i', j', id, host, port, req, path);
    }
  }
}
