/** Every interleaving of Certificate callers with SetBundle.  A call is two atomic sections
    (the ones the Issuer class is proved to perform) around a mint with the lock released;
    between them anything else may happen, including a rotation. */
module IssuerRuns {
  import opened Text
  import opened HostMatch
  import opened Issuer

  datatype Config = Config(validity: int, maxSize: nat)

  datatype Call =
    | Minting(host: Bytes, ca: CA)
    | Minted(host: Bytes, ca: CA, leaf: Leaf)
    | Returned(host: Bytes, ca: CA, leaf: Leaf, fromCache: bool, at: int)
    | Failed(host: Bytes, ca: CA)
    | Rejected

  datatype State = State(now: int, bundle: Bundle, cache: seq<Entry>, calls: map<nat, Call>)

  datatype Step =
    | Tick(now: int)
    | SetBundle(b: Option<Bundle>)
    | Begin(id: nat, rawHost: Bytes)
    | Mint(id: nat)
    | MintFails(id: nat)
    | Finish(id: nat)

  // ----- the steps -----

  function Rotated(s: State, b: Option<Bundle>): State {
    if b.Some? && b.value.current.Some? then s.(bundle := b.value) else s
  }

  function Begun(s: State, id: nat, rawHost: Bytes): State
    requires s.bundle.current.Some?
  {
    var host := CanonicalHost(rawHost);
    if host == [] then s.(calls := s.calls[id := Rejected])
    else
      var ca := s.bundle.current.value;
      var (cache, hit) := Looked(s.cache, host, ca, s.now);
      match hit
      case Some(leaf) => s.(cache := cache, calls := s.calls[id := Returned(host, ca, leaf, true, s.now)])
      case None => s.(cache := cache, calls := s.calls[id := Minting(host, ca)])
  }

  function Finished(cfg: Config, s: State, id: nat): State
    requires id in s.calls && s.calls[id].Minted?
  {
    var c := s.calls[id];
    var entry := NewEntry(c.host, c.ca, c.leaf, cfg.validity);
    var (cache, served) := Stored(s.cache, entry, s.now, cfg.maxSize);
    var cached := Find(s.cache, c.host);
    var fromCache := cached.Some? && Fresh(cached.value, c.ca, s.now);
    s.(cache := cache, calls := s.calls[id := Returned(c.host, c.ca, served, fromCache, s.now)])
  }

  /** The state after a step, or None where the step is not enabled. */
  function Apply(cfg: Config, s: State, step: Step): Option<State> {
    match step
    case Tick(now) => if now >= s.now then Some(s.(now := now)) else None
    case SetBundle(b) => Some(Rotated(s, b))
    case Begin(id, rawHost) => if id in s.calls || s.bundle.current.None? then None else Some(Begun(s, id, rawHost))
    case Mint(id) =>
      if id in s.calls && s.calls[id].Minting? then
        var c := s.calls[id];
        Some(s.(calls := s.calls[id := Minted(c.host, c.ca, Leaf(c.host, c.ca, s.now + cfg.validity))]))
      else None
    case MintFails(id) =>
      if id in s.calls && s.calls[id].Minting? then
        Some(s.(calls := s.calls[id := Failed(s.calls[id].host, s.calls[id].ca)]))
      else None
    case Finish(id) =>
      if id in s.calls && s.calls[id].Minted? then Some(Finished(cfg, s, id)) else None
  }

  ghost predicate Initial(cfg: Config, s: State) {
    cfg.validity > 0 && cfg.maxSize > 0 && s.bundle.current.Some? && s.cache == [] && s.calls == map[]
  }

  ghost predicate IsRun(cfg: Config, steps: seq<Step>, states: seq<State>) {
    && |states| == |steps| + 1
    && Initial(cfg, states[0])
    && forall k :: 0 <= k < |steps| ==> Apply(cfg, states[k], steps[k]) == Some(states[k + 1])
  }

  // ----- what every unlock leaves behind -----

  ghost predicate GoodEntry(cfg: Config, e: Entry) {
    && e.key != [] && e.leaf.host == e.key && e.leaf.signer == e.signer
    && e.expires == e.leaf.notAfter - cfg.validity / 2
  }

  ghost predicate GoodCache(cfg: Config, s: seq<Entry>) {
    && DistinctKeys(s) && |s| <= cfg.maxSize
    && forall k :: 0 <= k < |s| ==> GoodEntry(cfg, s[k])
  }

  ghost predicate HalfLeft(cfg: Config, leaf: Leaf, now: int) {
    2 * (leaf.notAfter - now) > cfg.validity
  }

  ghost predicate GoodCall(cfg: Config, c: Call) {
    match c
    case Minting(host, _) => host != []
    case Minted(host, ca, leaf) => host != [] && leaf.host == host && leaf.signer == ca
    case Returned(host, ca, leaf, fromCache, at) =>
      leaf.host == host && leaf.signer == ca && (fromCache ==> HalfLeft(cfg, leaf, at))
    case Failed(_, _) => true
    case Rejected => true
  }

  ghost predicate Inv(cfg: Config, s: State) {
    && cfg.validity > 0 && cfg.maxSize > 0 && s.bundle.current.Some?
    && GoodCache(cfg, s.cache)
    && forall id :: id in s.calls ==> GoodCall(cfg, s.calls[id])
  }

  lemma FreshHasHalfLeft(cfg: Config, e: Entry, ca: CA, now: int)
    requires GoodEntry(cfg, e) && Fresh(e, ca, now)
    ensures HalfLeft(cfg, e.leaf, now)
  {
  }

  lemma WithoutKeepsGood(cfg: Config, s: seq<Entry>, host: Bytes)
    requires GoodCache(cfg, s)
    ensures GoodCache(cfg, Without(s, host)) && |Without(s, host)| <= |s|
  {
    var found := Find(s, host);
    if found.Some? {
      WithoutOne(s, found.value);
      forall k | 0 <= k < |Without(s, host)| ensures GoodEntry(cfg, Without(s, host)[k]) {
        assert Without(s, host)[k] in s;
      }
    } else {
      WithoutAbsent(s, host);
    }
  }

  lemma TouchedKeepsGood(cfg: Config, s: seq<Entry>, e: Entry)
    requires GoodCache(cfg, s) && GoodEntry(cfg, e) && cfg.maxSize > 0
    ensures GoodCache(cfg, Bounded(Touched(s, e), cfg.maxSize))
    ensures e in s ==> GoodCache(cfg, Touched(s, e))
  {
    WithoutKeepsGood(cfg, s, e.key);
    WithoutLacks(s, e.key);
    if e in s {
      WithoutOne(s, e);
    }
  }

  lemma LookedKeepsGood(cfg: Config, s: seq<Entry>, host: Bytes, ca: CA, now: int)
    requires GoodCache(cfg, s) && cfg.maxSize > 0
    ensures var (cache, hit) := Looked(s, host, ca, now);
            && GoodCache(cfg, cache)
            && (hit.Some? ==> hit.value.host == host && hit.value.signer == ca && HalfLeft(cfg, hit.value, now))
  {
    var found := Find(s, host);
    if found.Some? {
      var k :| 0 <= k < |s| && s[k] == found.value;
      TouchedKeepsGood(cfg, s, found.value);
      WithoutKeepsGood(cfg, s, host);
      if Fresh(found.value, ca, now) {
        FreshHasHalfLeft(cfg, found.value, ca, now);
      }
    }
  }

  lemma StoredKeepsGood(cfg: Config, s: seq<Entry>, minted: Entry, now: int)
    requires GoodCache(cfg, s) && GoodEntry(cfg, minted) && cfg.maxSize > 0
    ensures var (cache, served) := Stored(s, minted, now, cfg.maxSize);
            var found := Find(s, minted.key);
            && GoodCache(cfg, cache)
            && served.host == minted.key && served.signer == minted.signer
            && (found.Some? && Fresh(found.value, minted.signer, now) ==> HalfLeft(cfg, served, now))
  {
    TouchedKeepsGood(cfg, s, minted);
    var found := Find(s, minted.key);
    if found.Some? {
      var k :| 0 <= k < |s| && s[k] == found.value;
      TouchedKeepsGood(cfg, s, found.value);
      if Fresh(found.value, minted.signer, now) {
        FreshHasHalfLeft(cfg, found.value, minted.signer, now);
      }
    }
  }

  lemma StepKeepsInv(cfg: Config, s: State, step: Step, s': State)
    requires Inv(cfg, s) && Apply(cfg, s, step) == Some(s')
    ensures Inv(cfg, s')
  {
    match step {
      case Tick(_) =>
      case SetBundle(_) =>
      case Begin(id, rawHost) =>
        LookedKeepsGood(cfg, s.cache, CanonicalHost(rawHost), s.bundle.current.value, s.now);
      case Mint(id) =>
        assert GoodCall(cfg, s.calls[id]);
      case MintFails(_) =>
      case Finish(id) =>
        var c := s.calls[id];
        assert GoodCall(cfg, c);
        StoredKeepsGood(cfg, s.cache, NewEntry(c.host, c.ca, c.leaf, cfg.validity), s.now);
    }
  }

  lemma {:induction false} InvHolds(cfg: Config, steps: seq<Step>, states: seq<State>, n: nat)
    requires IsRun(cfg, steps, states) && n < |states|
    ensures Inv(cfg, states[n])
  {
    if n > 0 {
      InvHolds(cfg, steps, states, n - 1);
      StepKeepsInv(cfg, states[n - 1], steps[n - 1], states[n]);
    }
  }

  // ----- where a call's host and CA come from -----

  /** Step b started the call: it fixed the canonical host and read the current CA. */
  ghost predicate StartedAt(steps: seq<Step>, states: seq<State>, b: nat, id: nat, host: Bytes, ca: CA) {
    && b < |steps| && b < |states|
    && steps[b].Begin? && steps[b].id == id
    && host == CanonicalHost(steps[b].rawHost)
    && states[b].bundle.current == Some(ca)
  }

  lemma StepKeepsOrigin(cfg: Config, s: State, step: Step, s': State, id: nat)
    requires Apply(cfg, s, step) == Some(s') && id in s.calls
    ensures id in s'.calls
    ensures !s.calls[id].Rejected? ==>
              !s'.calls[id].Rejected? && s'.calls[id].host == s.calls[id].host && s'.calls[id].ca == s.calls[id].ca
    ensures s.calls[id].Rejected? ==> s'.calls[id].Rejected?
  {
  }

  lemma {:induction false} CallsHaveOrigins(cfg: Config, steps: seq<Step>, states: seq<State>, n: nat, id: nat)
    returns (b: nat)
    requires IsRun(cfg, steps, states) && n < |states|
    requires id in states[n].calls && !states[n].calls[id].Rejected?
    ensures b < n && StartedAt(steps, states, b, id, states[n].calls[id].host, states[n].calls[id].ca)
  {
    assert n > 0;
    assert Apply(cfg, states[n - 1], steps[n - 1]) == Some(states[n]);
    if id in states[n - 1].calls {
      StepKeepsOrigin(cfg, states[n - 1], steps[n - 1], states[n], id);
      b := CallsHaveOrigins(cfg, steps, states, n - 1, id);
    } else {
      b := n - 1;
    }
  }

  /** Issuer safety, over every run: the cache is well formed at every unlock, and every leaf
      a call returned is for the canonical host it asked for and signed by the CA that was
      current when the call first took the lock - however many rotations happened while it
      was minting; a leaf served from the cache had more than half its validity left. */
  lemma IssuerIsSafe(cfg: Config, steps: seq<Step>, states: seq<State>, n: nat)
    requires IsRun(cfg, steps, states) && n < |states|
    ensures GoodCache(cfg, states[n].cache)
    ensures forall id :: id in states[n].calls && states[n].calls[id].Returned? ==>
              var c := states[n].calls[id];
              && (exists b: nat :: b < n && StartedAt(steps, states, b, id, c.leaf.host, c.leaf.signer))
              && (c.fromCache ==> HalfLeft(cfg, c.leaf, c.at))
  {
    InvHolds(cfg, steps, states, n);
    forall id | id in states[n].calls && states[n].calls[id].Returned?
      ensures var c := states[n].calls[id];
              && (exists b: nat :: b < n && StartedAt(steps, states, b, id, c.leaf.host, c.leaf.signer))
              && (c.fromCache ==> HalfLeft(cfg, c.leaf, c.at))
    {
      assert GoodCall(cfg, states[n].calls[id]);
      var b := CallsHaveOrigins(cfg, steps, states, n, id);
    }
  }

  /** A caller that began before a rotation may put its old leaf over a newer one - the cache
      stays well formed, and no caller that begins under the new CA is ever served it. */
  lemma StaleEntryIsNeverServed(cfg: Config, s: State, id: nat, rawHost: Bytes)
    requires Inv(cfg, s) && id !in s.calls
    ensures var s' := Begun(s, id, rawHost);
            var found := Find(s.cache, CanonicalHost(rawHost));
            found.Some? && found.value.signer != s.bundle.current.value ==>
              s'.calls[id].Minting? && Find(s'.cache, CanonicalHost(rawHost)).None?
  {
    var host := CanonicalHost(rawHost);
    WithoutLacks(s.cache, host);
    var found := Find(s.cache, host);
    if found.Some? {
      var k :| 0 <= k < |s.cache| && s.cache[k] == found.value;
      assert GoodEntry(cfg, s.cache[k]);
    }
  }

  /** A caller is served from the cache exactly when there is an entry for its host whose leaf
      was signed by the current CA and has more than half its validity left. */
  lemma ServedExactlyWhenFresh(cfg: Config, s: State, id: nat, rawHost: Bytes)
    requires Inv(cfg, s) && id !in s.calls && CanonicalHost(rawHost) != []
    ensures Begun(s, id, rawHost).calls[id].Returned? <==>
            exists e :: && e in s.cache && e.key == CanonicalHost(rawHost)
                        && e.signer == s.bundle.current.value
                        && 2 * (e.leaf.notAfter - s.now) > cfg.validity
  {
    var host := CanonicalHost(rawHost);
    var found := Find(s.cache, host);
    if found.Some? {
      var k :| 0 <= k < |s.cache| && s.cache[k] == found.value;
      assert GoodEntry(cfg, found.value);
      forall e | e in s.cache && e.key == host ensures e == found.value {
        FindInDistinct(s.cache, e);
      }
    }
  }

  // ----- where leaves come from -----

  /** Step m minted the leaf, for the host and with the CA its call had asked with, to be valid
      for the configured time from then. */
  predicate MintedAt(cfg: Config, steps: seq<Step>, states: seq<State>, m: nat, leaf: Leaf) {
    && m < |steps| && m < |states| && steps[m].Mint? && steps[m].id in states[m].calls
    && states[m].calls[steps[m].id] == Minting(leaf.host, leaf.signer)
    && leaf.notAfter == states[m].now + cfg.validity
  }

  ghost predicate MintedBefore(cfg: Config, steps: seq<Step>, states: seq<State>, n: nat, leaf: Leaf) {
    exists m: nat :: m < n && MintedAt(cfg, steps, states, m, leaf)
  }

  ghost function MintTest(cfg: Config, steps: seq<Step>, states: seq<State>, n: nat): Leaf -> bool {
    leaf => MintedBefore(cfg, steps, states, n, leaf)
  }

  ghost predicate AllLeaves(s: State, good: Leaf -> bool) {
    && (forall e :: e in s.cache ==> good(e.leaf))
    && forall id :: id in s.calls && (s.calls[id].Minted? || s.calls[id].Returned?) ==> good(s.calls[id].leaf)
  }

  lemma {:induction false} WithoutMembers(s: seq<Entry>, host: Bytes)
    ensures forall e :: e in Without(s, host) ==> e in s
  {
    if s != [] {
      WithoutMembers(s[1..], host);
    }
  }

  lemma BegunKeepsLeaves(s: State, id: nat, rawHost: Bytes, good: Leaf -> bool)
    requires s.bundle.current.Some? && AllLeaves(s, good)
    ensures AllLeaves(Begun(s, id, rawHost), good)
  {
    WithoutMembers(s.cache, CanonicalHost(rawHost));
  }

  lemma FinishedKeepsLeaves(cfg: Config, s: State, id: nat, good: Leaf -> bool)
    requires id in s.calls && s.calls[id].Minted? && AllLeaves(s, good)
    ensures AllLeaves(Finished(cfg, s, id), good)
  {
    WithoutMembers(s.cache, s.calls[id].host);
  }

  /** Over every run, each leaf in the cache and each leaf returned was minted in that run, for
      its host, by its signer, with the configured validity counted from the mint. */
  lemma {:induction false} LeavesAreMinted(cfg: Config, steps: seq<Step>, states: seq<State>, n: nat)
    requires IsRun(cfg, steps, states) && n < |states|
    ensures forall e :: e in states[n].cache ==> MintedBefore(cfg, steps, states, n, e.leaf)
    ensures forall id :: id in states[n].calls && (states[n].calls[id].Minted? || states[n].calls[id].Returned?) ==>
              MintedBefore(cfg, steps, states, n, states[n].calls[id].leaf)
  {
    if n > 0 {
      var s, step, good := states[n - 1], steps[n - 1], MintTest(cfg, steps, states, n);
      LeavesAreMinted(cfg, steps, states, n - 1);
      InvHolds(cfg, steps, states, n - 1);
      assert Apply(cfg, s, step) == Some(states[n]);
      assert AllLeaves(s, good);
      match step {
        case Begin(id, rawHost) => BegunKeepsLeaves(s, id, rawHost, good);
        case Finish(id) => FinishedKeepsLeaves(cfg, s, id, good);
        case Mint(id) => assert MintedAt(cfg, steps, states, n - 1, states[n].calls[id].leaf);
        case _ =>
      }
      assert AllLeaves(states[n], good);
    }
  }

  // ----- least recently used -----

  lemma FindInDistinct(s: seq<Entry>, e: Entry)
    requires DistinctKeys(s) && e in s
    ensures Find(s, e.key) == Some(e)
  {
  }

  /** A served entry moves to the front and the others keep their order, in either section. */
  lemma HitMovesToFront(s: seq<Entry>, i: nat, minted: Entry, now: int, maxSize: nat)
    requires DistinctKeys(s) && i < |s| && now < s[i].expires
    requires minted.key == s[i].key && minted.signer == s[i].signer
    ensures Looked(s, s[i].key, s[i].signer, now) == ([s[i]] + s[..i] + s[i + 1..], Some(s[i].leaf))
    ensures Stored(s, minted, now, maxSize) == ([s[i]] + s[..i] + s[i + 1..], s[i].leaf)
  {
    FindInDistinct(s, s[i]);
    WithoutAt(s, i);
    assert [s[i]] + (s[..i] + s[i + 1..]) == [s[i]] + s[..i] + s[i + 1..];
  }

  /** A host new to a full cache pushes out the last entry of the list; one new to a cache
      with room pushes out nothing; in both cases the new entry itself stays, in front. */
  lemma InsertDropsLast(s: seq<Entry>, minted: Entry, now: int, maxSize: nat)
    requires DistinctKeys(s) && 0 < maxSize && |s| <= maxSize && Find(s, minted.key).None?
    ensures Stored(s, minted, now, maxSize) ==
            ([minted] + if |s| == maxSize then s[..maxSize - 1] else s, minted.leaf)
  {
    WithoutAbsent(s, minted.key);
    FullDropsLast(s, minted, maxSize);
  }

  lemma FullDropsLast(s: seq<Entry>, e: Entry, maxSize: nat)
    requires 0 < maxSize && |s| <= maxSize
    ensures Bounded([e] + s, maxSize) == [e] + if |s| == maxSize then s[..maxSize - 1] else s
  {
    if |s| == maxSize {
      assert ([e] + s)[..maxSize] == [e] + s[..maxSize - 1];
    }
  }

  /** Replacing a stale entry of the same host evicts nobody else. */
  lemma ReplaceKeepsOthers(s: seq<Entry>, i: nat, minted: Entry, now: int, maxSize: nat)
    requires DistinctKeys(s) && i < |s| <= maxSize && s[i].key == minted.key
    requires s[i].expires <= now || s[i].signer != minted.signer
    ensures Stored(s, minted, now, maxSize) == ([minted] + s[..i] + s[i + 1..], minted.leaf)
  {
    FindInDistinct(s, s[i]);
    WithoutAt(s, i);
    assert [minted] + (s[..i] + s[i + 1..]) == [minted] + s[..i] + s[i + 1..];
  }

  // ----- least recently used, over runs -----

  /** The step serves a leaf for this host from the cache, in either section, or inserts one. */
  predicate Uses(s: State, step: Step, host: Bytes) {
    match step
    case Begin(id, rawHost) =>
      s.bundle.current.Some? && CanonicalHost(rawHost) == host && host != [] &&
      Looked(s.cache, host, s.bundle.current.value, s.now).1.Some?
    case Finish(id) => id in s.calls && s.calls[id].Minted? && s.calls[id].host == host
    case _ => false
  }

  /** When, before moment n, the host was last used; -1 if never. */
  function LastUse(steps: seq<Step>, states: seq<State>, n: nat, host: Bytes): (m: int)
    requires n <= |steps| && n <= |states|
    ensures -1 <= m < n
    ensures 0 <= m ==> Uses(states[m], steps[m], host)
    ensures forall k :: m < k < n ==> !Uses(states[k], steps[k], host)
  {
    if n == 0 then -1
    else if Uses(states[n - 1], steps[n - 1], host) then n - 1
    else LastUse(steps, states, n - 1, host)
  }

  ghost function LastUses(steps: seq<Step>, states: seq<State>, n: nat): Bytes -> int
    requires n <= |steps| && n <= |states|
  {
    host => if n <= |steps| && n <= |states| then LastUse(steps, states, n, host) else -1
  }

  /** Most recently used first. */
  ghost predicate ByLastUse(s: seq<Entry>, last: Bytes -> int) {
    forall i, j :: 0 <= i < j < |s| ==> last(s[i].key) > last(s[j].key)
  }

  lemma {:induction false} WithoutKeepsOrder(s: seq<Entry>, host: Bytes, last: Bytes -> int)
    requires ByLastUse(s, last)
    ensures ByLastUse(Without(s, host), last)
    ensures forall e :: e in Without(s, host) ==> e in s && e.key != host
  {
    if s != [] {
      assert forall j :: 0 <= j < |s[1..]| ==> s[1..][j] == s[j + 1];
      WithoutKeepsOrder(s[1..], host, last);
      var rest := Without(s[1..], host);
      forall j | 0 <= j < |rest| ensures last(s[0].key) > last(rest[j].key) {
        assert rest[j] in s[1..];
      }
    }
  }

  /** A list kept in order of last use stays so when one host's entry goes to the front, at a
      moment later than all others', and perhaps some go from the end. */
  lemma TouchedIsByLastUse(s: seq<Entry>, e: Entry, maxSize: nat, last: Bytes -> int, now: Bytes -> int, at: int)
    requires ByLastUse(s, last)
    requires forall h :: now(h) == if h == e.key then at else last(h)
    requires forall h :: last(h) < at
    ensures ByLastUse(Touched(s, e), now) && ByLastUse(Bounded(Touched(s, e), maxSize), now)
  {
    WithoutKeepsOrder(s, e.key, last);
    var rest := Without(s, e.key);
    assert forall j :: 0 <= j < |rest| ==> rest[j].key != e.key;
  }

  lemma SameUses(s: seq<Entry>, last: Bytes -> int, now: Bytes -> int)
    requires ByLastUse(s, last) && forall h :: now(h) == last(h)
    ensures ByLastUse(s, now)
  {
  }

  lemma BegunIsByLastUse(s: State, id: nat, rawHost: Bytes, last: Bytes -> int, now: Bytes -> int, at: int)
    requires s.bundle.current.Some? && ByLastUse(s.cache, last)
    requires forall h :: last(h) < at
    requires forall h {:trigger now(h)} :: now(h) == if Uses(s, Begin(id, rawHost), h) then at else last(h)
    ensures ByLastUse(Begun(s, id, rawHost).cache, now)
  {
    var host := CanonicalHost(rawHost);
    var found := Find(s.cache, host);
    if host != [] && found.Some? {
      var ca := s.bundle.current.value;
      if Fresh(found.value, ca, s.now) {
        TouchedIsByLastUse(s.cache, found.value, 0, last, now, at);
      } else {
        WithoutKeepsOrder(s.cache, host, last);
        SameUses(Without(s.cache, host), last, now);
      }
    } else {
      SameUses(s.cache, last, now);
    }
  }

  lemma FinishedIsByLastUse(cfg: Config, s: State, id: nat, last: Bytes -> int, now: Bytes -> int, at: int)
    requires id in s.calls && s.calls[id].Minted? && ByLastUse(s.cache, last)
    requires forall h :: last(h) < at
    requires forall h {:trigger now(h)} :: now(h) == if Uses(s, Finish(id), h) then at else last(h)
    ensures ByLastUse(Finished(cfg, s, id).cache, now)
  {
    var c := s.calls[id];
    var entry := NewEntry(c.host, c.ca, c.leaf, cfg.validity);
    var found := Find(s.cache, c.host);
    TouchedIsByLastUse(s.cache, entry, cfg.maxSize, last, now, at);
    if found.Some? {
      TouchedIsByLastUse(s.cache, found.value, cfg.maxSize, last, now, at);
    }
  }

  /** Over every run, the cache lists its hosts in descending order of when a leaf of theirs
      was last served or inserted. */
  lemma {:induction false} CacheIsByLastUse(cfg: Config, steps: seq<Step>, states: seq<State>, n: nat)
    requires IsRun(cfg, steps, states) && n < |states|
    ensures ByLastUse(states[n].cache, LastUses(steps, states, n))
  {
    if n > 0 {
      CacheIsByLastUse(cfg, steps, states, n - 1);
      var s, step := states[n - 1], steps[n - 1];
      var last, now := LastUses(steps, states, n - 1), LastUses(steps, states, n);
      assert Apply(cfg, s, step) == Some(states[n]);
      StepKeepsUseOrder(cfg, s, step, states[n], last, now, n - 1);
    }
  }

  lemma StepKeepsUseOrder(cfg: Config, s: State, step: Step, s': State, last: Bytes -> int, now: Bytes -> int, at: int)
    requires Apply(cfg, s, step) == Some(s') && ByLastUse(s.cache, last)
    requires forall h :: last(h) < at
    requires forall h {:trigger now(h)} :: now(h) == if Uses(s, step, h) then at else last(h)
    ensures ByLastUse(s'.cache, now)
  {
    match step {
      case Begin(id, rawHost) => BegunIsByLastUse(s, id, rawHost, last, now, at);
      case Finish(id) => FinishedIsByLastUse(cfg, s, id, last, now, at);
      case _ => SameUses(s.cache, last, now);
    }
  }

  /** So in every run, what a new host evicts from a full cache is the entry whose last use
      is the longest ago, and nothing else. */
  lemma EvictsLeastRecentlyUsed(cfg: Config, steps: seq<Step>, states: seq<State>, n: nat, id: nat, evicted: Entry)
    requires IsRun(cfg, steps, states) && n < |steps| && steps[n] == Finish(id)
    requires evicted in states[n].cache && evicted !in states[n + 1].cache && evicted.key != states[n].calls[id].host
    ensures |states[n].cache| == cfg.maxSize
    ensures forall e :: e in states[n].cache && e != evicted ==>
              LastUse(steps, states, n, e.key) > LastUse(steps, states, n, evicted.key) && e in states[n + 1].cache
  {
    CacheIsByLastUse(cfg, steps, states, n);
    InvHolds(cfg, steps, states, n);
    assert Apply(cfg, states[n], steps[n]) == Some(states[n + 1]);
    var c := states[n].calls[id];
    var entry := NewEntry(c.host, c.ca, c.leaf, cfg.validity);
    var last := LastUses(steps, states, n);
    EvictedIsLast(states[n].cache, entry, states[n].now, cfg.maxSize, evicted, last);
    assert forall h :: last(h) == LastUse(steps, states, n, h);
  }

  lemma EvictedIsLast(s: seq<Entry>, minted: Entry, now: int, maxSize: nat, evicted: Entry, last: Bytes -> int)
    requires DistinctKeys(s) && 0 < maxSize && |s| <= maxSize && ByLastUse(s, last)
    requires evicted in s && evicted.key != minted.key
    requires evicted !in Stored(s, minted, now, maxSize).0
    ensures |s| == maxSize
    ensures forall e :: e in s && e != evicted ==>
              last(e.key) > last(evicted.key) && e in Stored(s, minted, now, maxSize).0
  {
    var found := Find(s, minted.key);
    if found.Some? {
      var i :| 0 <= i < |s| && s[i] == found.value;
      KeepsOthers(s, i, minted, now, maxSize, evicted);
    }
    InsertDropsLast(s, minted, now, maxSize);
    LastOfFull(s, minted, maxSize, evicted, last);
  }

  lemma LastOfFull(s: seq<Entry>, minted: Entry, maxSize: nat, evicted: Entry, last: Bytes -> int)
    requires 0 < maxSize && |s| <= maxSize && ByLastUse(s, last) && evicted in s
    requires evicted !in [minted] + if |s| == maxSize then s[..maxSize - 1] else s
    ensures |s| == maxSize
    ensures forall e :: e in s && e != evicted ==> last(e.key) > last(evicted.key) && e in [minted] + s[..maxSize - 1]
  {
    var k :| 0 <= k < |s| && s[k] == evicted;
    var kept := [minted] + if |s| == maxSize then s[..maxSize - 1] else s;
    assert forall j :: 0 <= j < |kept| - 1 ==> s[j] == kept[j + 1];
    assert k >= |kept| - 1;
    forall e | e in s && e != evicted ensures last(e.key) > last(evicted.key) && e in kept {
      var j :| 0 <= j < |s| && s[j] == e;
      assert j < |kept| - 1;
    }
  }

  lemma KeepsOthers(s: seq<Entry>, i: nat, minted: Entry, now: int, maxSize: nat, e: Entry)
    requires DistinctKeys(s) && i < |s| <= maxSize && s[i].key == minted.key
    requires e in s && e.key != minted.key
    ensures e in Stored(s, minted, now, maxSize).0
  {
    var k :| 0 <= k < |s| && s[k] == e;
    FindInDistinct(s, s[i]);
    WithoutAt(s, i);
    var others := s[..i] + s[i + 1..];
    assert others[if k < i then k else k - 1] == e;
  }
}
