/** The leaf-certificate cache: an LRU of a map and a recency list, filled around a mint
    that runs with the lock released. */
module Issuer {
  import opened Text
  import opened HostMatch

  /** A parsed CA: which certificate it is, and which parse of it.  The cache compares
      parses (pointers), rotation compares certificates. */
  datatype CA = CA(cert: nat, load: nat)

  /** What SetBundle and NewIssuer are handed: possibly without a current CA. */
  datatype Bundle = Bundle(current: Option<CA>, next: Option<CA>)

  datatype Leaf = Leaf(host: Bytes, signer: CA, notAfter: int)

  datatype Entry = Entry(key: Bytes, leaf: Leaf, expires: int, signer: CA)

  const DEFAULT_VALIDITY: int := 24 * 3600 * 1_000_000_000
  const DEFAULT_SIZE: int := 1024

  // ----- the cache as one recency-ordered list, most recent first -----

  ghost predicate DistinctKeys(s: seq<Entry>) {
    forall i, j :: 0 <= i < j < |s| ==> s[i].key != s[j].key
  }

  function Find(s: seq<Entry>, host: Bytes): (r: Option<Entry>)
    ensures r.Some? ==> r.value in s && r.value.key == host
    ensures r.None? ==> forall k :: 0 <= k < |s| ==> s[k].key != host
  {
    if s == [] then None else if s[0].key == host then Some(s[0]) else Find(s[1..], host)
  }

  function Without(s: seq<Entry>, host: Bytes): seq<Entry> {
    if s == [] then []
    else (if s[0].key == host then [] else [s[0]]) + Without(s[1..], host)
  }

  predicate Fresh(e: Entry, ca: CA, now: int) {
    now < e.expires && e.signer == ca
  }

  function Touched(s: seq<Entry>, e: Entry): seq<Entry> {
    [e] + Without(s, e.key)
  }

  function Bounded(s: seq<Entry>, maxSize: nat): seq<Entry> {
    if |s| > maxSize then s[..maxSize] else s
  }

  /** The first locked section: serve a fresh entry, drop a stale one. */
  function Looked(s: seq<Entry>, host: Bytes, ca: CA, now: int): (seq<Entry>, Option<Leaf>) {
    match Find(s, host)
    case None => (s, None)
    case Some(e) => if Fresh(e, ca, now) then (Touched(s, e), Some(e.leaf)) else (Without(s, host), None)
  }

  /** The second locked section: prefer a fresh entry another caller left meanwhile. */
  function Stored(s: seq<Entry>, minted: Entry, now: int, maxSize: nat): (seq<Entry>, Leaf) {
    match Find(s, minted.key)
    case Some(e) =>
      if Fresh(e, minted.signer, now) then (Touched(s, e), e.leaf)
      else (Bounded(Touched(s, minted), maxSize), minted.leaf)
    case None => (Bounded(Touched(s, minted), maxSize), minted.leaf)
  }

  function NewEntry(host: Bytes, ca: CA, leaf: Leaf, validity: int): Entry {
    Entry(host, leaf, leaf.notAfter - validity / 2, ca)
  }

  /** Both sections in a row, around a mint at the time given (None when it fails). */
  function Issued(s: seq<Entry>, host: Bytes, ca: CA, now: int, minted: Option<int>, later: int,
                  validity: int, maxSize: nat): (seq<Entry>, Option<Leaf>)
  {
    if host == [] then (s, None)
    else
      var (looked, hit) := Looked(s, host, ca, now);
      if hit.Some? then (looked, hit)
      else if minted.None? then (looked, None)
      else
        var entry := NewEntry(host, ca, Leaf(host, ca, minted.value + validity), validity);
        var (stored, served) := Stored(looked, entry, later, maxSize);
        (stored, Some(served))
  }

  // ----- the cache as the issuer keeps it -----

  class Issuer {
    var bundle: Bundle
    const validity: int
    const maxSize: nat
    var entries: map<Bytes, Entry>
    var order: seq<Entry>

    /** The map and the list hold the same entries, one per host, and not too many. */
    ghost predicate Valid()
      reads this
    {
      && bundle.current.Some? && validity > 0 && maxSize > 0
      && Consistent()
      && |order| <= maxSize
    }

    ghost predicate Consistent()
      reads this
    {
      && DistinctKeys(order)
      && (forall k :: 0 <= k < |order| ==> order[k].key in entries && entries[order[k].key] == order[k])
      && (forall h :: h in entries ==> entries[h] in order && entries[h].key == h)
    }

    constructor (bundle: Bundle, validity: int, maxSize: int)
      requires bundle.current.Some?
      ensures Valid() && order == [] && this.bundle == bundle
      ensures this.validity == if validity <= 0 then DEFAULT_VALIDITY else validity
      ensures this.maxSize == if maxSize <= 0 then DEFAULT_SIZE else maxSize
      ensures validity <= 0 ==> this.validity == 86_400_000_000_000
      ensures maxSize <= 0 ==> this.maxSize == 1024
    {
      this.bundle := bundle;
      this.validity := if validity <= 0 then DEFAULT_VALIDITY else validity;
      this.maxSize := if maxSize <= 0 then DEFAULT_SIZE else maxSize;
      entries := map[];
      order := [];
    }

    /** SetBundle: a bundle without a current CA is ignored; nothing is evicted eagerly. */
    method SetBundle(b: Option<Bundle>)
      requires Valid()
      modifies `bundle
      ensures Valid()
      ensures bundle == if b.Some? && b.value.current.Some? then b.value else old(bundle)
    {
      if b.None? || b.value.current.None? {
        return;
      }
      bundle := b.value;
    }

    method RemoveLocked(e: Entry)
      requires Consistent() && e in order
      modifies `entries, `order
      ensures Consistent() && order == Without(old(order), e.key)
      ensures |order| == |old(order)| - 1
    {
      WithoutOne(order, e);
      entries := entries - {e.key};
      order := Without(order, e.key);
    }

    method MoveToFront(e: Entry)
      requires Valid() && e in order
      modifies `order
      ensures Valid() && order == Touched(old(order), e)
      ensures |order| == |old(order)|
    {
      WithoutOne(order, e);
      order := Touched(order, e);
    }

    /** The first locked section of Certificate. */
    method Lookup(host: Bytes, now: int) returns (ca: CA, hit: Option<Leaf>)
      requires Valid()
      modifies `entries, `order
      ensures Valid()
      ensures ca == bundle.current.value
      ensures (order, hit) == Looked(old(order), host, ca, now)
    {
      ca := bundle.current.value;
      hit := None;
      FindIsLookup(order, entries, host);
      if host in entries {
        var e := entries[host];
        if now < e.expires && e.signer == ca {
          MoveToFront(e);
          return ca, Some(e.leaf);
        }
        RemoveLocked(e);
      }
    }

    /** PushFront on the list, and the map entry that goes with it. */
    method Add(e: Entry)
      requires Consistent() && forall k :: 0 <= k < |order| ==> order[k].key != e.key
      modifies `entries, `order
      ensures Consistent() && order == [e] + old(order)
    {
      order := [e] + order;
      entries := entries[e.key := e];
    }

    method DropBack()
      requires Consistent() && order != []
      modifies `entries, `order
      ensures Consistent() && order == old(order)[..|old(order)| - 1]
    {
      WithoutLast(order);
      RemoveLocked(order[|order| - 1]);
    }

    /** The eviction loop: from the back, until the list fits. */
    method Evict()
      requires Consistent()
      modifies `entries, `order
      ensures Consistent() && order == Bounded(old(order), maxSize)
    {
      ghost var full := order;
      while |order| > maxSize
        invariant Consistent()
        invariant |order| <= |full| && order == full[..|order|]
        invariant |order| >= maxSize || order == full
        decreases |order|
      {
        DropBack();
      }
    }

    /** A new entry in front, and eviction from the back. */
    method Insert(e: Entry)
      requires Consistent() && forall k :: 0 <= k < |order| ==> order[k].key != e.key
      modifies `entries, `order
      ensures Consistent() && order == Bounded([e] + old(order), maxSize) && |order| <= maxSize
    {
      Add(e);
      Evict();
    }

    /** The entry for this host, if there is one, goes. */
    method Drop(host: Bytes)
      requires Consistent()
      modifies `entries, `order
      ensures Consistent() && order == Without(old(order), host)
      ensures forall k :: 0 <= k < |order| ==> order[k].key != host
    {
      FindIsLookup(order, entries, host);
      WithoutLacks(order, host);
      if host in entries {
        RemoveLocked(entries[host]);
      } else {
        WithoutAbsent(order, host);
      }
    }

    method Replace(minted: Entry)
      requires Valid()
      modifies `entries, `order
      ensures Valid() && order == Bounded(Touched(old(order), minted), maxSize)
    {
      Drop(minted.key);
      Insert(minted);
    }

    /** The second locked section of Certificate, after the mint. */
    method Store(host: Bytes, ca: CA, leaf: Leaf, now: int) returns (served: Leaf)
      requires Valid()
      modifies `entries, `order
      ensures Valid()
      ensures (order, served) == Stored(old(order), NewEntry(host, ca, leaf, validity), now, maxSize)
    {
      FindIsLookup(order, entries, host);
      if host in entries {
        var e := entries[host];
        if now < e.expires && e.signer == ca {
          MoveToFront(e);
          return e.leaf;
        }
      }
      Replace(Entry(host, leaf, leaf.notAfter - validity / 2, ca));
      return leaf;
    }

    /** Certificate with nobody else interleaving: now, minted and later are the three clock
        readings, mintable whether the mint succeeds. */
    method Certificate(rawHost: Bytes, now: int, minted: int, later: int, mintable: bool) returns (cert: Option<Leaf>)
      requires Valid()
      modifies `entries, `order
      ensures Valid()
      ensures (order, cert) == Issued(old(order), CanonicalHost(rawHost), bundle.current.value,
                                      now, if mintable then Some(minted) else None, later, validity, maxSize)
    {
      var host := CanonicalHost(rawHost);
      if host == "" {
        return None;
      }
      var ca, hit := Lookup(host, now);
      if hit.Some? {
        return hit;
      }
      if !mintable {
        return None;
      }
      var served := Store(host, ca, Leaf(host, ca, minted + validity), later);
      return Some(served);
    }
  }

  /** NewIssuer refuses to start without a current CA. */
  method NewIssuer(bundle: Option<Bundle>, validity: int, maxSize: int) returns (issuer: Issuer?)
    ensures issuer == null <==> bundle.None? || bundle.value.current.None?
    ensures issuer != null ==> fresh(issuer) && issuer.Valid() && issuer.bundle == bundle.value && issuer.order == []
  {
    if bundle.None? || bundle.value.current.None? {
      return null;
    }
    issuer := new Issuer(bundle.value, validity, maxSize);
  }

  // ----- facts about the recency list -----

  lemma {:induction false} WithoutLacks(s: seq<Entry>, host: Bytes)
    ensures forall k :: 0 <= k < |Without(s, host)| ==> Without(s, host)[k].key != host
    ensures forall e :: e in Without(s, host) <==> e in s && e.key != host
  {
    if s != [] {
      WithoutLacks(s[1..], host);
      assert s == [s[0]] + s[1..];
    }
  }

  lemma {:induction false} WithoutAbsent(s: seq<Entry>, host: Bytes)
    ensures (forall k :: 0 <= k < |s| ==> s[k].key != host) ==> Without(s, host) == s
  {
    if s != [] {
      WithoutAbsent(s[1..], host);
    }
  }

  /** In a list of distinct hosts, dropping one leaves the others where they were. */
  lemma {:induction false} WithoutAt(s: seq<Entry>, i: nat)
    requires i < |s| && DistinctKeys(s)
    ensures Without(s, s[i].key) == s[..i] + s[i + 1..]
  {
    if i == 0 {
      WithoutAbsent(s[1..], s[0].key);
      assert s[..0] + s[1..] == s[1..];
    } else {
      WithoutAt(s[1..], i - 1);
      assert s[..i] + s[i + 1..] == [s[0]] + (s[1..][..i - 1] + s[1..][i..]);
    }
  }

  lemma WithoutOne(s: seq<Entry>, e: Entry)
    requires e in s && DistinctKeys(s)
    ensures |Without(s, e.key)| == |s| - 1 && DistinctKeys(Without(s, e.key))
    ensures forall x :: x in Without(s, e.key) <==> x in s && x.key != e.key
  {
    var i :| 0 <= i < |s| && s[i] == e;
    WithoutAt(s, i);
    WithoutLacks(s, e.key);
  }

  lemma WithoutLast(s: seq<Entry>)
    requires s != [] && DistinctKeys(s)
    ensures Without(s, s[|s| - 1].key) == s[..|s| - 1]
  {
    WithoutAt(s, |s| - 1);
    assert s[..|s| - 1] + s[|s|..] == s[..|s| - 1];
  }

  lemma FindIsLookup(s: seq<Entry>, entries: map<Bytes, Entry>, host: Bytes)
    requires DistinctKeys(s)
    requires forall k :: 0 <= k < |s| ==> s[k].key in entries && entries[s[k].key] == s[k]
    requires forall h :: h in entries ==> entries[h] in s && entries[h].key == h
    ensures Find(s, host) == if host in entries then Some(entries[host]) else None
  {
  }
}
