/** CA rotation as a protocol: the operator's Secret, the issuer that re-reads it, and the
    controller that publishes the issuer's bundle, each acting on its own. */
module Rotation {
  import opened Text
  import opened Api
  import opened Controller
  import I = Issuer

  /** The CA Secret, as the certificates in it. */
  datatype Secret = Secret(current: nat, next: Option<nat>)

  function CertOf(ca: Option<I.CA>): Option<nat> {
    match ca { case None => None case Some(c) => Some(c.cert) }
  }

  /** bundleFromSecret: a fresh parse of the certificates. */
  function Loaded(secret: Secret, load: nat): I.Bundle {
    I.Bundle(Some(I.CA(secret.current, load)),
             match secret.next { case None => None case Some(c) => Some(I.CA(c, load)) })
  }

  /** watchCARotation keeps the parsed bundle it has when the certificates are the same ones. */
  predicate SameCertificates(a: I.Bundle, b: I.Bundle) {
    a.current.Some? && b.current.Some? && CertOf(a.current) == CertOf(b.current) && CertOf(a.next) == CertOf(b.next)
  }

  function Reloaded(bundle: I.Bundle, read: I.Bundle): I.Bundle {
    if SameCertificates(bundle, read) then bundle else read
  }

  /** Bundle.PEM: the current certificate, then the next one if there is one. */
  function PemOf(b: I.Bundle): Pem {
    (match b.current { case None => [] case Some(c) => [c.cert] }) +
    (match b.next { case None => [] case Some(c) => [c.cert] })
  }

  predicate SameNext(a: Option<I.CA>, b: Option<I.CA>) {
    if a.None? && b.None? then true
    else if a.None? || b.None? then false
    else a.value.cert == b.value.cert
  }

  /** What a tick of watchCARotation does with what it read: an unreadable or unparsable Secret
      changes nothing. */
  method WatchTick(issuer: I.Issuer, read: Option<I.Bundle>)
    requires issuer.Valid() && (read.Some? ==> read.value.current.Some?)
    modifies issuer`bundle
    ensures issuer.Valid()
    ensures issuer.bundle == if read.Some? then Reloaded(old(issuer.bundle), read.value) else old(issuer.bundle)
    ensures read.Some? ==>
              var was, now := old(issuer.bundle), read.value;
              issuer.bundle ==
              if was.current.value.cert == now.current.value.cert && was.next.Some? == now.next.Some? &&
                 (was.next.Some? ==> was.next.value.cert == now.next.value.cert)
              then was else now
  {
    if read.None? {
      return;
    }
    var current, bundle := issuer.bundle, read.value;
    if current.current.Some? && bundle.current.Some? &&
       current.current.value.cert == bundle.current.value.cert && SameNext(current.next, bundle.next) {
      return;
    }
    issuer.SetBundle(Some(bundle));
  }

  // ----- the protocol -----

  /** A Sync under way: the bundle it captured, whether it has listed the namespaces since,
      which of them it has still to visit, which its selectors want, whether anything failed,
      and whether the issuer has kept the same bundle since it started. */
  datatype Pass = Pass(pem: Pem, listed: bool, todo: set<Bytes>, plan: map<Bytes, bool>, ok: bool, sameBundle: bool)

  /** read is what the watcher has read of the Secret and not yet installed; spaces says of each
      namespace whether it is terminating; acked, whether a Sync that started with the issuer's
      present bundle has returned nil. */
  datatype State = State(
    secret: Secret, read: Option<I.Bundle>, bundle: I.Bundle, spaces: map<Bytes, bool>, maps: Cluster,
    pass: Option<Pass>, acked: bool)

  datatype Step =
    | SetNext(next: Option<nat>)
    | Promote(next: Option<nat>)
    | ReadSecret(load: nat)
    | InstallRead
    | Restart(load: nat)
    | StartSync
    | ListNamespaces(plan: map<Bytes, bool>)
    | AbandonSync
    | Visit(ns: Bytes, effect: bool, reported: bool)
    | EndSync
    | CreateNamespace(ns: Bytes)
    | Terminate(ns: Bytes)
    | DeleteNamespace(ns: Bytes)
    | ForeignWrite(ns: Bytes, cm: Option<ConfigMap>)

  predicate IsManaged(cm: Option<ConfigMap>) {
    cm.Some? && Managed(cm.value)
  }

  function Put(maps: Cluster, ns: Bytes, cm: Option<ConfigMap>): Cluster {
    match cm { case None => maps - {ns} case Some(c) => maps[ns := c] }
  }

  function Live(spaces: map<Bytes, bool>): set<Bytes> {
    set n | n in spaces && !spaces[n]
  }

  function Visited(s: State, ns: Bytes, effect: bool): Cluster
    requires s.pass.Some? && ns in s.pass.value.plan
  {
    if effect then Put(s.maps, ns, Desired(At(s.maps, ns), s.pass.value.plan[ns], s.pass.value.pem)) else s.maps
  }

  /** A visit may fail before or after taking effect; nothing can be written into a namespace
      that is gone; and success is only reported if no stale managed ConfigMap was left. */
  predicate VisitEnabled(s: State, ns: Bytes, effect: bool, reported: bool) {
    && s.pass.Some? && ns in s.pass.value.todo && ns in s.pass.value.plan
    && var after := Visited(s, ns, effect);
    && (ns !in s.spaces ==> after == s.maps)
    && (reported && IsManaged(At(after, ns)) ==> Holds(after[ns], s.pass.value.pem))
  }

  /** The CA announced next is loaded by the issuer as its next one, and a Sync that started
      with that bundle has returned nil. */
  predicate Announced(s: State) {
    s.acked && s.secret.next.Some? && CertOf(s.bundle.next) == s.secret.next
  }

  /** The watcher is not about to install a bundle without the announced CA. */
  predicate ReadHoldsNext(s: State) {
    s.read.Some? && s.secret.next.Some? ==> s.secret.next.value in PemOf(s.read.value)
  }

  /** The operator's rule: promote what has been announced, and not while an older read of the
      Secret, without it, is waiting to be installed. */
  predicate MayPromote(s: State) {
    Announced(s) && ReadHoldsNext(s)
  }

  function Promoted(s: State, next: Option<nat>): State
    requires s.secret.next.Some?
  {
    s.(secret := Secret(s.secret.next.value, next))
  }

  function WithBundle(s: State, bundle: I.Bundle): State {
    if bundle == s.bundle then s
    else s.(bundle := bundle, acked := false,
            pass := match s.pass { case None => None case Some(p) => Some(p.(sameBundle := false)) })
  }

  /** A restarted process reads the Secret before anything signs, syncs or watches, so its
      reading and installing are one step. */
  function Apply(s: State, step: Step): Option<State> {
    match step
    case SetNext(next) => Some(s.(secret := s.secret.(next := next)))
    case Promote(next) => if MayPromote(s) then Some(Promoted(s, next)) else None
    case ReadSecret(load) => if s.read.None? then Some(s.(read := Some(Loaded(s.secret, load)))) else None
    case InstallRead =>
      if s.read.Some? then Some(WithBundle(s, Reloaded(s.bundle, s.read.value)).(read := None)) else None
    case Restart(load) => Some(s.(read := None, bundle := Loaded(s.secret, load), acked := false, pass := None))
    case StartSync =>
      if s.pass.None? then Some(s.(pass := Some(Pass(PemOf(s.bundle), false, {}, map[], true, true)))) else None
    case ListNamespaces(plan) =>
      if s.pass.Some? && !s.pass.value.listed && Live(s.spaces) <= plan.Keys
      then Some(s.(pass := Some(s.pass.value.(listed := true, todo := Live(s.spaces), plan := plan)))) else None
    case AbandonSync => if s.pass.Some? && !s.pass.value.listed then Some(s.(pass := None)) else None
    case Visit(ns, effect, reported) =>
      if VisitEnabled(s, ns, effect, reported) then
        var p := s.pass.value;
        Some(s.(maps := Visited(s, ns, effect),
                pass := Some(p.(todo := p.todo - {ns}, ok := p.ok && reported))))
      else None
    case EndSync =>
      if s.pass.Some? && s.pass.value.listed && s.pass.value.todo == {}
      then Some(s.(pass := None, acked := s.acked || (s.pass.value.ok && s.pass.value.sameBundle))) else None
    case CreateNamespace(ns) => if ns !in s.spaces then Some(s.(spaces := s.spaces[ns := false])) else None
    case Terminate(ns) => if ns in s.spaces then Some(s.(spaces := s.spaces[ns := true])) else None
    case DeleteNamespace(ns) => Some(s.(spaces := s.spaces - {ns}, maps := s.maps - {ns}))
    case ForeignWrite(ns, cm) =>
      if ns in s.spaces && !IsManaged(At(s.maps, ns)) && !IsManaged(cm)
      then Some(s.(maps := Put(s.maps, ns, cm))) else None
  }

  ghost predicate Initial(s: State) {
    s.maps == map[] && s.read.None? && s.pass.None? && !s.acked && exists load :: s.bundle == Loaded(s.secret, load)
  }

  /** The steps lead from each state to the next. */
  ghost predicate Leads(steps: seq<Step>, states: seq<State>) {
    && |states| == |steps| + 1
    && forall k :: 0 <= k < |steps| ==> Apply(states[k], steps[k]) == Some(states[k + 1])
  }

  ghost predicate IsRun(steps: seq<Step>, states: seq<State>) {
    Leads(steps, states) && Initial(states[0])
  }

  // ----- safety -----

  predicate Trusts(cm: ConfigMap, cert: nat) {
    BUNDLE_KEY in cm.data && cert in cm.data[BUNDLE_KEY]
  }

  /** A managed ConfigMap in a namespace that is not terminating. */
  predicate LiveManaged(s: State, n: Bytes) {
    n in s.spaces && !s.spaces[n] && n in s.maps && Managed(s.maps[n])
  }

  ghost predicate AllTrust(s: State, cert: nat) {
    forall n :: LiveManaged(s, n) ==> Trusts(s.maps[n], cert)
  }

  ghost predicate PassInv(s: State, p: Pass)
    requires s.bundle.current.Some?
  {
    && s.bundle.current.value.cert in p.pem && s.secret.current in p.pem
    && (p.sameBundle ==> p.pem == PemOf(s.bundle))
    && (s.acked ==> p.sameBundle)
    && p.todo <= p.plan.Keys
    && (p.ok && p.listed ==>
          forall n :: LiveManaged(s, n) && n !in p.todo ==> forall c :: c in p.pem ==> Trusts(s.maps[n], c))
  }

  /** What is waiting to be installed holds the Secret's CA, and would not make the issuer sign
      with another. */
  ghost predicate ReadInv(s: State, read: I.Bundle) {
    && read.current.Some? && s.secret.current in PemOf(read)
    && (CertOf(read.current) == Some(s.secret.current) || SameCertificates(s.bundle, read))
  }

  ghost predicate Inv(s: State)
  {
    && s.bundle.current.Some?
    && s.secret.current in PemOf(s.bundle)
    && s.maps.Keys <= s.spaces.Keys
    && AllTrust(s, s.bundle.current.value.cert) && AllTrust(s, s.secret.current)
    && (s.acked ==> forall c :: c in PemOf(s.bundle) ==> AllTrust(s, c))
    && (s.pass.Some? ==> PassInv(s, s.pass.value))
    && (s.read.Some? ==> ReadInv(s, s.read.value))
  }

  lemma DesiredTrusts(was: Option<ConfigMap>, wanted: bool, pem: Pem)
    ensures var now := Desired(was, wanted, pem); IsManaged(now) ==> Holds(now.value, pem)
  {
  }

  /** A visit leaves every other namespace alone, and whatever it puts here holds the bundle. */
  lemma VisitEffect(s: State, ns: Bytes, effect: bool, reported: bool, s': State)
    requires s.maps.Keys <= s.spaces.Keys && Apply(s, Visit(ns, effect, reported)) == Some(s')
    ensures s'.maps.Keys <= s'.spaces.Keys
    ensures forall n :: LiveManaged(s', n) ==>
              || (LiveManaged(s, n) && s'.maps[n] == s.maps[n] &&
                  (n == ns && reported ==> Holds(s'.maps[n], s.pass.value.pem)))
              || (n == ns && Holds(s'.maps[n], s.pass.value.pem))
  {
    var p := s.pass.value;
    DesiredTrusts(At(s.maps, ns), p.plan[ns], p.pem);
    assert forall n :: n != ns ==> At(s'.maps, n) == At(s.maps, n);
    assert effect && IsManaged(At(s'.maps, ns)) ==> Holds(s'.maps[ns], p.pem);
    forall n | LiveManaged(s', n) ensures n != ns || !effect ==> LiveManaged(s, n) && s'.maps[n] == s.maps[n] {
      assert At(s'.maps, n) == Some(s'.maps[n]);
    }
  }

  lemma VisitKeepsInv(s: State, ns: Bytes, effect: bool, reported: bool, s': State)
    requires Inv(s) && Apply(s, Visit(ns, effect, reported)) == Some(s')
    ensures Inv(s')
  {
    VisitEffect(s, ns, effect, reported, s');
  }

  lemma BundleStepKeepsInv(s: State, step: Step, s': State)
    requires Inv(s) && Apply(s, step) == Some(s')
    requires step.ReadSecret? || step.InstallRead? || step.Restart? || step.SetNext? || step.Promote?
    ensures Inv(s')
  {
    SameMaps(s, s');
  }

  lemma SyncStepKeepsInv(s: State, step: Step, s': State)
    requires Inv(s) && Apply(s, step) == Some(s')
    requires step.StartSync? || step.ListNamespaces? || step.AbandonSync? || step.EndSync?
    ensures Inv(s')
  {
    SameMaps(s, s');
    assert step.ListNamespaces? ==> forall n :: LiveManaged(s', n) ==> n in s'.pass.value.todo;
  }

  lemma NamespaceStepKeepsInv(s: State, step: Step, s': State)
    requires Inv(s) && Apply(s, step) == Some(s')
    requires step.CreateNamespace? || step.Terminate? || step.DeleteNamespace? || step.ForeignWrite?
    ensures Inv(s')
  {
    if step.ForeignWrite? {
      assert forall n :: n != step.ns ==> At(s'.maps, n) == At(s.maps, n);
      assert !IsManaged(At(s'.maps, step.ns));
    }
    forall n | LiveManaged(s', n) ensures LiveManaged(s, n) && s'.maps[n] == s.maps[n] {
      assert At(s'.maps, n) == Some(s'.maps[n]);
    }
    FewerManaged(s, s');
  }

  lemma StepKeepsInv(s: State, step: Step, s': State)
    requires Inv(s) && Apply(s, step) == Some(s')
    ensures Inv(s')
  {
    if step.Visit? {
      VisitKeepsInv(s, step.ns, step.effect, step.reported, s');
    } else if step.StartSync? || step.ListNamespaces? || step.AbandonSync? || step.EndSync? {
      SyncStepKeepsInv(s, step, s');
    } else if step.ReadSecret? || step.InstallRead? || step.Restart? || step.SetNext? || step.Promote? {
      BundleStepKeepsInv(s, step, s');
    } else {
      NamespaceStepKeepsInv(s, step, s');
    }
  }

  lemma SameMaps(s: State, s': State)
    requires s'.maps == s.maps && s'.spaces == s.spaces
    ensures forall c :: AllTrust(s, c) <==> AllTrust(s', c)
    ensures forall n :: LiveManaged(s, n) <==> LiveManaged(s', n)
  {
  }

  /** Steps that only take managed ConfigMaps away keep whatever holds of all of them. */
  lemma FewerManaged(s: State, s': State)
    requires forall n :: LiveManaged(s', n) ==> LiveManaged(s, n) && s'.maps[n] == s.maps[n]
    ensures forall c :: AllTrust(s, c) ==> AllTrust(s', c)
  {
  }

  lemma {:induction false} InvHolds(steps: seq<Step>, states: seq<State>, n: nat)
    requires IsRun(steps, states) && n < |states|
    ensures Inv(states[n])
  {
    if n > 0 {
      InvHolds(steps, states, n - 1);
      StepKeepsInv(states[n - 1], steps[n - 1], states[n]);
    }
  }

  /** Over every run, at every state - also in the middle of a Sync - every managed ConfigMap
      in a namespace that is not terminating trusts the CA the issuer signs with. */
  lemma RotationIsSafe(steps: seq<Step>, states: seq<State>, n: nat, ns: Bytes)
    requires IsRun(steps, states) && n < |states|
    requires LiveManaged(states[n], ns)
    ensures states[n].bundle.current.Some?
    ensures Trusts(states[n].maps[ns], states[n].bundle.current.value.cert)
  {
    InvHolds(steps, states, n);
  }

  // ----- the controller's pass is such a sequence of visits -----

  /** What Controller.SyncOne is proved to do in one namespace is an enabled visit here, with
      the outcome it reports. */
  lemma SyncOneIsAVisit(s: State, ns: Bytes, after: Cluster, ok: bool) returns (effect: bool)
    requires s.pass.Some? && ns in s.pass.value.todo && ns in s.pass.value.plan
    requires ns in s.spaces
    requires Moved(s.maps, after, ns, s.pass.value.plan[ns], s.pass.value.pem)
    requires ok ==> At(after, ns) == Desired(At(s.maps, ns), s.pass.value.plan[ns], s.pass.value.pem)
    ensures VisitEnabled(s, ns, effect, ok) && Visited(s, ns, effect) == after
  {
    var goal := Desired(At(s.maps, ns), s.pass.value.plan[ns], s.pass.value.pem);
    effect := At(after, ns) == goal;
    DesiredTrusts(At(s.maps, ns), s.pass.value.plan[ns], s.pass.value.pem);
    var made := Visited(s, ns, effect);
    assert forall n :: At(made, n) == At(after, n);
    SameAt(made, after);
  }

  lemma SameAt(a: Cluster, b: Cluster)
    requires forall n :: At(a, n) == At(b, n)
    ensures a == b
  {
    forall n ensures n in a <==> n in b {
      assert At(a, n) == At(b, n);
    }
    forall n | n in a ensures a[n] == b[n] {
      assert At(a, n) == At(b, n);
    }
  }

  lemma ExtendRun(steps: seq<Step>, states: seq<State>, step: Step, s: State)
    requires Leads(steps, states) && Apply(states[|states| - 1], step) == Some(s)
    ensures Leads(steps + [step], states + [s])
  {
  }

  /** The namespaces a Sync lists, as the cluster has them: live ones and terminating ones. */
  ghost predicate Lists(nss: seq<Namespace>, spaces: map<Bytes, bool>) {
    && DistinctNamespaces(nss)
    && (forall k :: 0 <= k < |nss| ==> nss[k].name in spaces && spaces[nss[k].name] == nss[k].terminating)
    && (forall n :: n in spaces && !spaces[n] ==> Listed(nss, n))
  }

  /** Which namespaces the selectors want. */
  function PlanOf(nss: seq<Namespace>, inspected: seq<Policy>, k: nat): map<Bytes, bool>
    requires k <= |nss|
  {
    if k == 0 then map[]
    else PlanOf(nss, inspected, k - 1)[nss[k - 1].name := Wants(inspected, nss[k - 1].labels)]
  }

  lemma {:induction false} PlanHas(nss: seq<Namespace>, inspected: seq<Policy>, k: nat, j: nat)
    requires DistinctNamespaces(nss) && j < k <= |nss|
    ensures nss[j].name in PlanOf(nss, inspected, k)
    ensures PlanOf(nss, inspected, k)[nss[j].name] == Wants(inspected, nss[j].labels)
  {
    if j < k - 1 {
      PlanHas(nss, inspected, k - 1, j);
    }
  }

  /** Midway through the pass: the namespaces from k on are still to be visited. */
  ghost predicate Midway(s: State, start: State, nss: seq<Namespace>, inspected: seq<Policy>,
                         trace: seq<Cluster>, oks: seq<bool>, k: nat)
    requires k <= |nss| && k <= |oks| && k < |trace|
  {
    && s.pass.Some? && s == start.(maps := trace[k], pass := s.pass)
    && var p := s.pass.value;
       && p == Pass(PemOf(start.bundle), true, p.todo, PlanOf(nss, inspected, |nss|), AllOk(oks, k), true)
       && forall n :: n in p.todo <==> Listed(nss[k..], n)
  }

  predicate AllOk(oks: seq<bool>, k: nat)
    requires k <= |oks|
  {
    forall j :: 0 <= j < k ==> oks[j]
  }

  lemma ListedFrom(nss: seq<Namespace>, k: nat, n: Bytes)
    requires k < |nss| && DistinctNamespaces(nss)
    ensures Listed(nss[k..], n) <==> Listed(nss[k + 1..], n) || (nss[k].name == n && !nss[k].terminating)
    ensures !Listed(nss[k + 1..], nss[k].name)
  {
    assert nss[k..][0] == nss[k];
    assert forall j {:trigger nss[k + 1..][j]} :: 0 <= j < |nss[k + 1..]| ==>
             nss[k + 1..][j] == nss[k..][j + 1] == nss[k + 1 + j];
    if Listed(nss[k..], n) {
      var j :| 0 <= j < |nss[k..]| && nss[k..][j].name == n && !nss[k..][j].terminating;
      assert j > 0 ==> nss[k + 1..][j - 1] == nss[k..][j];
    }
  }

  lemma OneFewer(nss: seq<Namespace>, k: nat)
    requires k < |nss| && DistinctNamespaces(nss)
    ensures forall n :: Listed(nss[k + 1..], n) <==> Listed(nss[k..], n) && (n != nss[k].name || nss[k].terminating)
  {
    forall n ensures Listed(nss[k + 1..], n) <==> Listed(nss[k..], n) && (n != nss[k].name || nss[k].terminating) {
      ListedFrom(nss, k, n);
    }
  }

  /** One namespace further: nothing for a terminating one, a visit for a live one. */
  lemma NextVisit(s: State, start: State, nss: seq<Namespace>, inspected: seq<Policy>,
                  trace: seq<Cluster>, oks: seq<bool>, k: nat) returns (visit: Step, s': State)
    requires k < |nss| && Lists(nss, start.spaces) && IsPass(trace, oks, nss, inspected, PemOf(start.bundle))
    requires Midway(s, start, nss, inspected, trace, oks, k)
    ensures Midway(s', start, nss, inspected, trace, oks, k + 1)
    ensures if nss[k].terminating then s' == s
            else visit.Visit? && visit.ns == nss[k].name && visit.reported == oks[k] && Apply(s, visit) == Some(s')
  {
    assert VisitedOne(trace[k], trace[k + 1], nss[k], inspected, PemOf(start.bundle), oks[k]);
    OneFewer(nss, k);
    if nss[k].terminating {
      visit, s' := EndSync, s;
    } else {
      visit, s' := LiveVisit(s, start, nss, inspected, trace, oks, k);
    }
  }

  lemma LiveVisit(s: State, start: State, nss: seq<Namespace>, inspected: seq<Policy>,
                  trace: seq<Cluster>, oks: seq<bool>, k: nat) returns (visit: Step, s': State)
    requires k < |nss| == |oks| && |trace| == |nss| + 1 && Lists(nss, start.spaces) && !nss[k].terminating
    requires VisitedOne(trace[k], trace[k + 1], nss[k], inspected, PemOf(start.bundle), oks[k])
    requires Midway(s, start, nss, inspected, trace, oks, k)
    ensures visit.Visit? && visit.ns == nss[k].name && visit.reported == oks[k] && Apply(s, visit) == Some(s')
    ensures s' == s.(maps := trace[k + 1],
                     pass := Some(s.pass.value.(todo := s.pass.value.todo - {nss[k].name}, ok := AllOk(oks, k + 1))))
  {
    var ns := nss[k].name;
    PlanHas(nss, inspected, |nss|, k);
    assert nss[k..][0] == nss[k];
    var effect := SyncOneIsAVisit(s, ns, trace[k + 1], oks[k]);
    visit := Visit(ns, effect, oks[k]);
    s' := Apply(s, visit).value;
  }

  lemma PassStarts(s: State, nss: seq<Namespace>, inspected: seq<Policy>, trace: seq<Cluster>, oks: seq<bool>)
    returns (listing: State)
    requires s.pass.None? && Lists(nss, s.spaces)
    requires IsPass(trace, oks, nss, inspected, PemOf(s.bundle)) && trace[0] == s.maps
    ensures Apply(s, StartSync).Some?
    ensures Apply(Apply(s, StartSync).value, ListNamespaces(PlanOf(nss, inspected, |nss|))) == Some(listing)
    ensures Midway(listing, s, nss, inspected, trace, oks, 0)
  {
    var plan := PlanOf(nss, inspected, |nss|);
    forall n | n in Live(s.spaces) ensures n in plan {
      var k :| 0 <= k < |nss| && nss[k].name == n && !nss[k].terminating;
      PlanHas(nss, inspected, |nss|, k);
    }
    listing := Apply(Apply(s, StartSync).value, ListNamespaces(plan)).value;
    assert nss[0..] == nss;
    assert forall n :: n in Live(s.spaces) <==> Listed(nss, n);
  }

  /** Every step is the Sync's own. */
  predicate SyncSteps(steps: seq<Step>) {
    forall k :: 0 <= k < |steps| ==>
      steps[k].StartSync? || steps[k].ListNamespaces? || steps[k].Visit? || steps[k].EndSync?
  }

  /** What Controller.Sync is proved to do with the issuer's bundle is, from any state with no
      Sync under way, a run of the protocol: the bundle captured, the namespaces listed, the
      live ones visited with the outcomes it met, the end.  A Sync that returns nil - no visit
      failed - is what the operator waits for. */
  lemma SyncIsARun(s: State, nss: seq<Namespace>, inspected: seq<Policy>, trace: seq<Cluster>, oks: seq<bool>)
    returns (steps: seq<Step>, states: seq<State>)
    requires s.pass.None? && Lists(nss, s.spaces)
    requires IsPass(trace, oks, nss, inspected, PemOf(s.bundle)) && trace[0] == s.maps
    ensures Leads(steps, states) && states[0] == s && SyncSteps(steps)
    ensures states[|steps|] ==
            s.(maps := trace[|nss|], acked := s.acked || Report(Failures(nss, oks, |nss|)) == Synced)
  {
    var cur := PassStarts(s, nss, inspected, trace, oks);
    var started := Apply(s, StartSync).value;
    steps, states := [StartSync, ListNamespaces(PlanOf(nss, inspected, |nss|))], [s, started, cur];
    for k := 0 to |nss|
      invariant Leads(steps, states) && states[0] == s && SyncSteps(steps)
      invariant states[|steps|] == cur && Midway(cur, s, nss, inspected, trace, oks, k)
    {
      var visit, next := NextVisit(cur, s, nss, inspected, trace, oks, k);
      if !nss[k].terminating {
        ExtendRun(steps, states, visit, next);
        steps, states := steps + [visit], states + [next];
      }
      cur := next;
    }
    PassEnds(cur, s, nss, inspected, trace, oks);
    var done := Apply(cur, EndSync).value;
    ExtendRun(steps, states, EndSync, done);
    steps, states := steps + [EndSync], states + [done];
  }

  lemma PassEnds(s: State, start: State, nss: seq<Namespace>, inspected: seq<Policy>,
                 trace: seq<Cluster>, oks: seq<bool>)
    requires start.pass.None? && IsPass(trace, oks, nss, inspected, PemOf(start.bundle))
    requires Midway(s, start, nss, inspected, trace, oks, |nss|)
    ensures Apply(s, EndSync) ==
            Some(start.(maps := trace[|nss|], acked := start.acked || Report(Failures(nss, oks, |nss|)) == Synced))
  {
    assert nss[|nss|..] == [];
    assert s.pass.value.todo == {};
    assert Failures(nss, oks, |nss|) == [] <==> AllOk(oks, |nss|);
  }

  // ----- where the promise ends -----

  lemma OneStep(steps: seq<Step>, states: seq<State>, step: Step)
    returns (steps': seq<Step>, states': seq<State>, s: State)
    requires Leads(steps, states) && Apply(states[|states| - 1], step).Some?
    ensures Leads(steps', states') && states'[0] == states[0] && s == states'[|states'| - 1]
    ensures Apply(states[|states| - 1], step) == Some(s)
  {
    s := Apply(states[|states| - 1], step).value;
    steps', states' := steps + [step], states + [s];
    ExtendRun(steps, states, step, s);
  }

  /** A namespace ns, and a Sync about to visit it. */
  lemma ListOnce(ns: Bytes) returns (steps: seq<Step>, states: seq<State>, s: State)
    ensures IsRun(steps, states) && s == states[|states| - 1]
    ensures s == State(Secret(0, None), None, Loaded(Secret(0, None), 0), map[ns := false], map[],
                       Some(Pass([0], true, {ns}, map[ns := true], true, true)), false)
  {
    s := State(Secret(0, None), None, Loaded(Secret(0, None), 0), map[], map[], None, false);
    steps, states := [], [s];
    steps, states, s := OneStep(steps, states, CreateNamespace(ns));
    assert Live(s.spaces) == {ns};
    steps, states, s := OneStep(steps, states, StartSync);
    steps, states, s := OneStep(steps, states, ListNamespaces(map[ns := true]));
    assert s.pass.value.pem == [0];
  }

  /** A rotation that publishes the old CA to ns, once. */
  lemma PublishOnce(ns: Bytes) returns (steps: seq<Step>, states: seq<State>, s: State)
    ensures IsRun(steps, states) && s == states[|states| - 1]
    ensures s.secret == Secret(0, None) && s.bundle == Loaded(s.secret, 0)
    ensures s.pass.None? && s.read.None? && s.acked
    ensures s.spaces == map[ns := false] && s.maps == map[ns := Published([0])]
  {
    steps, states, s := ListOnce(ns);
    assert Visited(s, ns, true) == map[ns := Published([0])];
    steps, states, s := OneStep(steps, states, Visit(ns, true, true));
    assert s.pass.value.todo == {};
    steps, states, s := OneStep(steps, states, EndSync);
  }

  /** The next CA is loaded and a Sync returns nil, but ns was terminating by then. */
  lemma SkippedOnce(ns: Bytes) returns (steps: seq<Step>, states: seq<State>, s: State)
    ensures IsRun(steps, states) && s == states[|states| - 1]
    ensures s.spaces == map[ns := true] && s.maps == map[ns := Published([0])] && s.pass.None? && s.read.None?
    ensures s.acked && s.secret == Secret(0, Some(1)) && s.bundle == Loaded(s.secret, 1)
  {
    steps, states, s := PublishOnce(ns);
    steps, states, s := OneStep(steps, states, Terminate(ns));
    steps, states, s := OneStep(steps, states, SetNext(Some(1)));
    steps, states, s := OneStep(steps, states, ReadSecret(1));
    steps, states, s := OneStep(steps, states, InstallRead);
    assert Live(s.spaces) == {};
    steps, states, s := OneStep(steps, states, StartSync);
    steps, states, s := OneStep(steps, states, ListNamespaces(map[]));
    steps, states, s := OneStep(steps, states, EndSync);
  }

  /** Sync skips terminating namespaces, so there - and by RotationIsSafe only there - a
      managed ConfigMap can be left without the CA the issuer signs with. */
  lemma TerminatingNamespaceMayLag(ns: Bytes) returns (steps: seq<Step>, states: seq<State>, s: State)
    ensures IsRun(steps, states) && s == states[|states| - 1]
    ensures ns in s.spaces && s.spaces[ns] && ns in s.maps && Managed(s.maps[ns])
    ensures s.bundle.current.Some? && !Trusts(s.maps[ns], s.bundle.current.value.cert)
  {
    steps, states, s := SkippedOnce(ns);
    steps, states, s := OneStep(steps, states, Promote(None));
    steps, states, s := OneStep(steps, states, ReadSecret(2));
    steps, states, s := OneStep(steps, states, InstallRead);
  }

  /** The operator's rule cannot be dropped: a CA swapped in without it reaches the issuer
      before any live namespace trusts it. */
  lemma SwappingInPlaceBreaks(ns: Bytes) returns (steps: seq<Step>, states: seq<State>, s: State)
    ensures IsRun(steps, states) && s == states[|states| - 1] && !Announced(s) && s.read.None?
    ensures var swapped := s.(secret := Secret(1, None));
            var reloaded := Apply(Apply(swapped, ReadSecret(1)).value, InstallRead).value;
            && LiveManaged(reloaded, ns) && reloaded.bundle.current.Some?
            && !Trusts(reloaded.maps[ns], reloaded.bundle.current.value.cert)
  {
    steps, states, s := PublishOnce(ns);
  }

  // ----- a read that waits -----

  /** Whatever happens from here on, every live managed ConfigMap trusts the CA the issuer
      signs with. */
  ghost predicate TrustedFrom(s: State) {
    forall steps, states :: Leads(steps, states) && states[0] == s ==> SignerTrusted(states[|steps|])
  }

  ghost predicate SignerTrusted(s: State) {
    s.bundle.current.Some? && AllTrust(s, s.bundle.current.value.cert)
  }

  lemma {:induction false} LeadsKeepInv(steps: seq<Step>, states: seq<State>, n: nat)
    requires Leads(steps, states) && n < |states| && Inv(states[0])
    ensures Inv(states[n])
  {
    if n > 0 {
      LeadsKeepInv(steps, states, n - 1);
      StepKeepsInv(states[n - 1], steps[n - 1], states[n]);
    }
  }

  /** Once the CA is announced, promoting it is safe exactly when no read without it is waiting
      to be installed. */
  lemma PromotionIsSafeExactly(s: State, next: Option<nat>)
    requires Inv(s) && Announced(s)
    ensures TrustedFrom(Promoted(s, next)) <==> ReadHoldsNext(s)
  {
    var promoted := Promoted(s, next);
    if ReadHoldsNext(s) {
      StepKeepsInv(s, Promote(next), promoted);
      forall steps, states | Leads(steps, states) && states[0] == promoted ensures SignerTrusted(states[|steps|]) {
        LeadsKeepInv(steps, states, |steps|);
      }
    } else {
      var ns := FreshName(s.spaces.Keys);
      var steps, states := LateInstallBreaks(promoted, ns);
    }
  }

  lemma FreshName(names: set<Bytes>) returns (n: Bytes)
    ensures n !in names
  {
    var longest := Longest(names);
    n := seq(longest + 1, _ => 'a');
  }

  lemma Longest(names: set<Bytes>) returns (k: nat)
    ensures forall n :: n in names ==> |n| <= k
    decreases |names|
  {
    k := 0;
    if names != {} {
      var n :| n in names;
      var others := Longest(names - {n});
      k := if |n| > others then |n| else others;
      assert forall m :: m in names ==> m == n || m in names - {n};
    }
  }

  /** A Sync under way can always be brought to its end, by failing. */
  lemma DrainPass(steps: seq<Step>, states: seq<State>)
    returns (steps': seq<Step>, states': seq<State>, s: State)
    requires Leads(steps, states)
    requires var p := states[|steps|].pass; p.Some? && p.value.listed && p.value.todo <= p.value.plan.Keys
    ensures Leads(steps', states') && states'[0] == states[0] && s == states'[|steps'|]
    ensures s == states[|steps|].(pass := None, acked := s.acked)
    decreases |states[|steps|].pass.value.todo|
  {
    var here := states[|steps|];
    var p := here.pass.value;
    if p.todo == {} {
      steps', states', s := OneStep(steps, states, EndSync);
    } else {
      var n :| n in p.todo;
      var skipped, after, there := OneStep(steps, states, Visit(n, false, false));
      steps', states', s := DrainPass(skipped, after);
    }
  }

  lemma StopPass(start: State) returns (steps: seq<Step>, states: seq<State>, s: State)
    requires start.pass.Some? ==> start.pass.value.todo <= start.pass.value.plan.Keys
    ensures Leads(steps, states) && states[0] == start && s == states[|steps|]
    ensures s == start.(pass := None, acked := s.acked)
  {
    steps, states, s := [], [start], start;
    if start.pass.Some? && start.pass.value.listed {
      steps, states, s := DrainPass(steps, states);
    } else if start.pass.Some? {
      steps, states, s := OneStep(steps, states, AbandonSync);
    }
  }

  /** The waiting read is installed and published to a new namespace before the next tick makes
      the issuer sign with a CA that read does not hold. */
  lemma LateInstallBreaks(start: State, ns: Bytes) returns (steps: seq<Step>, states: seq<State>)
    requires start.pass.Some? ==> start.pass.value.todo <= start.pass.value.plan.Keys
    requires start.read.Some? && CertOf(start.bundle.next) == Some(start.secret.current)
    requires start.secret.current !in PemOf(start.read.value)
    requires ns !in start.spaces && ns !in start.maps
    ensures Leads(steps, states) && states[0] == start
    ensures var s := states[|steps|]; LiveManaged(s, ns) && !SignerTrusted(s)
  {
    var s;
    steps, states, s := StopPass(start);
    steps, states, s := OneStep(steps, states, InstallRead);
    assert s.bundle == start.read.value;
    steps, states, s := PublishNew(steps, states, ns);
    steps, states := NextTick(steps, states, ns);
  }

  /** The tick that makes the issuer sign with a CA the namespace does not hold. */
  lemma NextTick(steps: seq<Step>, states: seq<State>, ns: Bytes) returns (steps': seq<Step>, states': seq<State>)
    requires Leads(steps, states)
    requires var s := states[|steps|];
             && s.read.None? && s.secret.current !in PemOf(s.bundle)
             && ns in s.spaces && !s.spaces[ns] && ns in s.maps && s.maps[ns] == Published(PemOf(s.bundle))
    ensures Leads(steps', states') && states'[0] == states[0]
    ensures var s := states'[|steps'|]; LiveManaged(s, ns) && !SignerTrusted(s)
  {
    var s;
    steps', states', s := OneStep(steps, states, ReadSecret(0));
    steps', states', s := OneStep(steps', states', InstallRead);
    assert s.bundle == Loaded(s.secret, 0);
    assert LiveManaged(s, ns) && !Trusts(s.maps[ns], s.secret.current);
  }

  lemma PublishNew(steps: seq<Step>, states: seq<State>, ns: Bytes)
    returns (steps': seq<Step>, states': seq<State>, s: State)
    requires Leads(steps, states)
    requires var start := states[|steps|]; start.pass.None? && ns !in start.spaces && ns !in start.maps
    ensures Leads(steps', states') && states'[0] == states[0] && s == states'[|steps'|]
    ensures var start := states[|steps|];
            && s.secret == start.secret && s.read == start.read && s.bundle == start.bundle
            && s.spaces == start.spaces[ns := false] && s.maps == start.maps[ns := Published(PemOf(start.bundle))]
  {
    steps', states', s := OneStep(steps, states, CreateNamespace(ns));
    steps', states', s := OneStep(steps', states', StartSync);
    var plan := map n | n in Live(s.spaces) :: true;
    steps', states', s := OneStep(steps', states', ListNamespaces(plan));
    assert ns in Live(s.spaces);
    assert Desired(At(s.maps, ns), true, s.pass.value.pem) == Some(Published(s.pass.value.pem));
    steps', states', s := OneStep(steps', states', Visit(ns, true, true));
  }

  /** The next CA announced, withdrawn, read so, and announced again: the issuer still has the
      acknowledged bundle, and the read without the CA waits. */
  lemma ReadWaits(ns: Bytes) returns (steps: seq<Step>, states: seq<State>, s: State)
    ensures IsRun(steps, states) && s == states[|states| - 1]
    ensures Announced(s) && s.read == Some(Loaded(Secret(0, None), 2)) && s.secret == Secret(0, Some(1))
    ensures s.spaces == map[ns := false] && s.maps.Keys == {ns}
  {
    steps, states, s := AnnouncedOnce(ns);
    steps, states, s := OneStep(steps, states, SetNext(None));
    steps, states, s := OneStep(steps, states, ReadSecret(2));
    steps, states, s := OneStep(steps, states, SetNext(Some(1)));
  }

  lemma AnnouncedOnce(ns: Bytes) returns (steps: seq<Step>, states: seq<State>, s: State)
    ensures IsRun(steps, states) && s == states[|states| - 1]
    ensures Announced(s) && s.read.None? && s.secret == Secret(0, Some(1))
    ensures s.spaces == map[ns := false] && s.maps.Keys == {ns}
  {
    steps, states, s := LoadedNext(ns);
    steps, states, s := OneStep(steps, states, StartSync);
    assert Live(s.spaces) == {ns};
    steps, states, s := OneStep(steps, states, ListNamespaces(map[ns := true]));
    steps, states, s := OneStep(steps, states, Visit(ns, true, true));
    assert s.pass.value.todo == {};
    steps, states, s := OneStep(steps, states, EndSync);
  }

  lemma LoadedNext(ns: Bytes) returns (steps: seq<Step>, states: seq<State>, s: State)
    ensures IsRun(steps, states) && s == states[|states| - 1]
    ensures s == State(Secret(0, Some(1)), None, Loaded(Secret(0, Some(1)), 1), map[ns := false],
                       map[ns := Published([0])], None, false)
  {
    steps, states, s := PublishOnce(ns);
    steps, states, s := OneStep(steps, states, SetNext(Some(1)));
    steps, states, s := OneStep(steps, states, ReadSecret(1));
    steps, states, s := OneStep(steps, states, InstallRead);
  }

  /** So announcing is not enough: a run reaches a state where the CA is announced, and promoting
      it then lets a live managed ConfigMap lack the CA the issuer signs with. */
  lemma WaitingReadBreaks(ns: Bytes, other: Bytes)
    returns (steps: seq<Step>, states: seq<State>, later: seq<Step>, after: seq<State>)
    requires other != ns
    ensures IsRun(steps, states) && Announced(states[|steps|])
    ensures Leads(later, after) && after[0] == Promoted(states[|steps|], None)
    ensures LiveManaged(after[|later|], other) && !SignerTrusted(after[|later|])
  {
    var s;
    steps, states, s := ReadWaits(ns);
    assert PemOf(s.read.value) == [0];
    InvHolds(steps, states, |steps|);
    later, after := LateInstallBreaks(Promoted(s, None), other);
  }
}
