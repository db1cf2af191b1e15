/** The negative identity cache: addresses recently found to belong to no pod, with lazy
    deletes and a size-triggered sweep that no caller can notice. */
module NegativeCache {
  import opened Text

  const SWEEP_ABOVE: nat := 1024
  const DEFAULT_TTL: int := 2_000_000_000

  type Misses = map<Bytes, int>

  // ----- the map operations -----

  predicate Hit(m: Misses, ip: Bytes, now: int) {
    ip in m && now <= m[ip]
  }

  function AfterLookup(m: Misses, ip: Bytes, now: int): Misses {
    if ip in m && now > m[ip] then m - {ip} else m
  }

  function Unexpired(m: Misses, now: int): Misses {
    map k | k in m && now <= m[k] :: m[k]
  }

  function AfterMiss(m: Misses, ip: Bytes, now: int, ttl: int): Misses {
    (if |m| > SWEEP_ABOVE then Unexpired(m, now) else m)[ip := now + ttl]
  }

  datatype Resolution = Pod(name: Bytes) | UnknownClient | OtherFailure

  class Provider {
    const ttl: int
    var negative: Misses

    constructor (ttl: int)
      ensures negative == map[] && this.ttl == if ttl <= 0 then DEFAULT_TTL else ttl
    {
      this.ttl, negative := if ttl <= 0 then DEFAULT_TTL else ttl, map[];
    }

    /** negativeHit: an expired entry is dropped on sight; a live one is left as it is. */
    method NegativeHit(ip: Bytes, now: int) returns (hit: bool)
      modifies this
      ensures hit <==> Hit(old(negative), ip, now)
      ensures negative == AfterLookup(old(negative), ip, now)
    {
      if ip !in negative {
        return false;
      }
      if now > negative[ip] {
        negative := negative - {ip};
        return false;
      }
      return true;
    }

    /** rememberMiss: above the threshold, sweep first; then record. */
    method RememberMiss(ip: Bytes, now: int)
      modifies this
      ensures negative == AfterMiss(old(negative), ip, now, ttl)
    {
      if |negative| > SWEEP_ABOVE {
        Sweep(now);
      }
      negative := negative[ip := now + ttl];
    }

    method Sweep(now: int)
      modifies this
      ensures negative == Unexpired(old(negative), now)
    {
      ghost var before := negative;
      var todo := negative.Keys;
      while todo != {}
        invariant todo <= before.Keys
        invariant forall k :: k in negative <==> k in before && (k in todo || now <= before[k])
        invariant forall k :: k in negative ==> negative[k] == before[k]
        decreases todo
      {
        var k :| k in todo;
        todo := todo - {k};
        if k in negative && now > negative[k] {
          negative := negative - {k};
        }
      }
    }

    /** The cache part of Identify: refuse a remembered miss without looking, and remember
        a miss only when the lookup found nobody. */
    method Identify(ip: Bytes, now: int, lookup: Resolution, later: int) returns (r: Resolution)
      modifies this
      ensures r == if Hit(old(negative), ip, now) then UnknownClient else lookup
      ensures negative ==
              if Hit(old(negative), ip, now) then old(negative)
              else if lookup.UnknownClient? then AfterMiss(AfterLookup(old(negative), ip, now), ip, later, ttl)
              else AfterLookup(old(negative), ip, now)
    {
      var hit := NegativeHit(ip, now);
      if hit {
        return UnknownClient;
      }
      if lookup.UnknownClient? {
        RememberMiss(ip, later);
      }
      return lookup;
    }
  }

  // ----- runs -----

  /** Lookups read the clock under the lock; a miss was timed before taking it. */
  datatype Op = Lookup(ip: Bytes, at: int) | Miss(ip: Bytes, timed: int, at: int)

  predicate Monotone(ops: seq<Op>, clock: int) {
    ops == [] || (ops[0].at >= clock && (ops[0].Miss? ==> ops[0].timed <= ops[0].at) && Monotone(ops[1..], ops[0].at))
  }

  /** What the cache answers, lookup by lookup. */
  function CacheAnswers(ops: seq<Op>, m: Misses, ttl: int): seq<bool> {
    if ops == [] then []
    else
      match ops[0]
      case Lookup(ip, at) => [Hit(m, ip, at)] + CacheAnswers(ops[1..], AfterLookup(m, ip, at), ttl)
      case Miss(ip, timed, _) => CacheAnswers(ops[1..], AfterMiss(m, ip, timed, ttl), ttl)
  }

  /** What a plain record of each address's last miss would answer. */
  function HistoryAnswers(ops: seq<Op>, last: map<Bytes, int>, ttl: int): seq<bool> {
    if ops == [] then []
    else
      match ops[0]
      case Lookup(ip, at) => [ip in last && at - last[ip] <= ttl] + HistoryAnswers(ops[1..], last, ttl)
      case Miss(ip, timed, _) => HistoryAnswers(ops[1..], last[ip := timed], ttl)
  }

  /** The cache has forgotten only what the clock has passed. */
  predicate Remembers(m: Misses, last: map<Bytes, int>, ttl: int, clock: int) {
    && (forall k :: k in m ==> k in last && m[k] == last[k] + ttl)
    && forall k :: k in last && k !in m ==> last[k] + ttl < clock
  }

  lemma {:induction false} RunsAgree(ops: seq<Op>, m: Misses, last: map<Bytes, int>, ttl: int, clock: int)
    requires Monotone(ops, clock) && Remembers(m, last, ttl, clock)
    ensures CacheAnswers(ops, m, ttl) == HistoryAnswers(ops, last, ttl)
  {
    if ops != [] {
      match ops[0] {
        case Lookup(ip, at) =>
          RunsAgree(ops[1..], AfterLookup(m, ip, at), last, ttl, at);
        case Miss(ip, timed, at) =>
          assert Remembers(AfterMiss(m, ip, timed, ttl), last[ip := timed], ttl, at);
          RunsAgree(ops[1..], AfterMiss(m, ip, timed, ttl), last[ip := timed], ttl, at);
      }
    }
  }

  /** Transparency: over every run with a clock that never goes back, the cache answers
      exactly as a record of each address's last miss would - true while that miss is no
      older than the TTL.  Sweeps and lazy deletes change no answer, hits extend nothing. */
  lemma NegativeCacheIsTransparent(ops: seq<Op>, ttl: int, start: int)
    requires Monotone(ops, start)
    ensures CacheAnswers(ops, map[], ttl) == HistoryAnswers(ops, map[], ttl)
  {
    RunsAgree(ops, map[], map[], ttl, start);
  }
}
