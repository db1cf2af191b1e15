/** The order grants are tried in, and the stable sort that establishes it. */
module GrantOrder {
  import opened Text
  import opened Api

  /** One destination that applied to a connection, with the policy that granted it. */
  datatype Grant = Grant(policy: Bytes, upstream: Bytes, destination: Destination, specificity: int)

  /** Most specific host pattern first, then policy name. */
  predicate Before(a: Grant, b: Grant) {
    a.specificity > b.specificity || (a.specificity == b.specificity && LexLess(a.policy, b.policy))
  }

  predicate HasKey(g: Grant, specificity: int, policy: Bytes) {
    g.specificity == specificity && g.policy == policy
  }

  lemma BeforeIsTotal(a: Grant, b: Grant)
    ensures !(Before(a, b) && Before(b, a))
    ensures Before(a, b) || Before(b, a) || HasKey(a, b.specificity, b.policy)
    ensures HasKey(a, b.specificity, b.policy) ==> !Before(a, b)
  {
    LexTrichotomy(a.policy, b.policy);
    LexTrichotomy(b.policy, a.policy);
  }

  lemma NotBeforeTransitive(a: Grant, b: Grant, c: Grant)
    requires !Before(b, a) && !Before(c, b)
    ensures !Before(c, a)
  {
    BeforeIsTotal(a, b);
    BeforeIsTotal(b, c);
    BeforeIsTotal(a, c);
    if Before(a, b) && Before(b, c) && a.specificity == b.specificity == c.specificity {
      LexTransitive(a.policy, b.policy, c.policy);
    }
  }

  ghost predicate Sorted(gs: seq<Grant>) {
    forall i, j :: 0 <= i < j < |gs| ==> !Before(gs[j], gs[i])
  }

  /** The grants with one key, in the order they stand. */
  function WithKey(gs: seq<Grant>, specificity: int, policy: Bytes): seq<Grant> {
    if gs == [] then []
    else (if HasKey(gs[0], specificity, policy) then [gs[0]] else []) + WithKey(gs[1..], specificity, policy)
  }

  function Insert(g: Grant, gs: seq<Grant>): (r: seq<Grant>)
    ensures multiset(r) == multiset{g} + multiset(gs)
  {
    if gs == [] || !Before(gs[0], g) then [g] + gs
    else
      assert gs == [gs[0]] + gs[1..];
      [gs[0]] + Insert(g, gs[1..])
  }

  /** sort.SliceStable with the order above. */
  function StableSort(gs: seq<Grant>): (r: seq<Grant>)
    ensures multiset(r) == multiset(gs)
  {
    if gs == [] then []
    else
      assert gs == [gs[0]] + gs[1..];
      Insert(gs[0], StableSort(gs[1..]))
  }

  lemma {:induction false} InsertSorts(g: Grant, gs: seq<Grant>)
    requires Sorted(gs)
    ensures Sorted(Insert(g, gs))
  {
    var r := Insert(g, gs);
    if gs != [] && Before(gs[0], g) {
      InsertSorts(g, gs[1..]);
      BeforeIsTotal(gs[0], g);
      forall j | 0 < j < |r| ensures !Before(r[j], r[0]) {
        assert r[j] in multiset(r[1..]);
        assert r[j] == g || r[j] in gs[1..];
      }
    } else {
      forall j | 0 < j < |r| ensures !Before(r[j], r[0]) {
        if j > 1 { NotBeforeTransitive(g, gs[0], gs[j - 1]); }
      }
    }
  }

  lemma {:induction false} InsertKeepsKeyOrder(g: Grant, gs: seq<Grant>, specificity: int, policy: Bytes)
    ensures WithKey(Insert(g, gs), specificity, policy) == WithKey([g] + gs, specificity, policy)
  {
    if gs != [] && Before(gs[0], g) {
      InsertKeepsKeyOrder(g, gs[1..], specificity, policy);
      BeforeIsTotal(gs[0], g);
      assert ([g] + gs[1..])[1..] == gs[1..] && ([g] + gs)[1..] == gs;
      assert Insert(g, gs)[1..] == Insert(g, gs[1..]);
    }
  }

  /** The result is in order, and grants of equal key keep the order they came in. */
  lemma {:induction false} StableSortIsStable(gs: seq<Grant>, specificity: int, policy: Bytes)
    ensures Sorted(StableSort(gs))
    ensures WithKey(StableSort(gs), specificity, policy) == WithKey(gs, specificity, policy)
  {
    if gs != [] {
      StableSortIsStable(gs[1..], specificity, policy);
      InsertSorts(gs[0], StableSort(gs[1..]));
      InsertKeepsKeyOrder(gs[0], StableSort(gs[1..]), specificity, policy);
      assert ([gs[0]] + StableSort(gs[1..]))[1..] == StableSort(gs[1..]);
    }
  }

  ghost predicate SameByKey(a: seq<Grant>, b: seq<Grant>) {
    forall s: int, n: Bytes :: WithKey(a, s, n) == WithKey(b, s, n)
  }

  lemma {:induction false} WithKeyMembers(gs: seq<Grant>, s: int, n: Bytes)
    ensures forall g :: g in WithKey(gs, s, n) <==> g in gs && HasKey(g, s, n)
  {
    if gs != [] {
      WithKeyMembers(gs[1..], s, n);
      assert gs == [gs[0]] + gs[1..];
    }
  }

  lemma HeadHasKeyOf(a: seq<Grant>, b: seq<Grant>)
    requires a != [] && SameByKey(a, b) && Sorted(b)
    ensures b != [] && !Before(a[0], b[0])
  {
    var s, n := a[0].specificity, a[0].policy;
    WithKeyMembers(a, s, n);
    WithKeyMembers(b, s, n);
    assert a[0] in WithKey(a, s, n);
    var j :| 0 <= j < |b| && b[j] == a[0];
    BeforeIsTotal(a[0], b[0]);
  }

  lemma DropHead(gs: seq<Grant>, s: int, n: Bytes)
    requires gs != []
    ensures WithKey(gs[1..], s, n) ==
            if HasKey(gs[0], s, n) then WithKey(gs, s, n)[1..] else WithKey(gs, s, n)
  {
  }

  /** Two sorted lists that agree key by key are the same list. */
  lemma {:induction false} SortedIsDetermined(a: seq<Grant>, b: seq<Grant>)
    requires Sorted(a) && Sorted(b) && SameByKey(a, b)
    ensures a == b
  {
    if a == [] {
      if b != [] {
        HeadHasKeyOf(b, a);
      }
    } else {
      HeadHasKeyOf(a, b);
      HeadHasKeyOf(b, a);
      BeforeIsTotal(a[0], b[0]);
      var s, n := a[0].specificity, a[0].policy;
      assert WithKey(a, s, n)[0] == a[0] && WithKey(b, s, n)[0] == b[0];
      assert a[0] == b[0];
      forall s: int, n: Bytes ensures WithKey(a[1..], s, n) == WithKey(b[1..], s, n) {
        assert WithKey(a, s, n) == WithKey(b, s, n);
        DropHead(a, s, n);
        DropHead(b, s, n);
      }
      SortedIsDetermined(a[1..], b[1..]);
      assert a == [a[0]] + a[1..] && b == [b[0]] + b[1..];
    }
  }

  lemma SortOfSameByKey(a: seq<Grant>, b: seq<Grant>)
    requires SameByKey(a, b)
    ensures StableSort(a) == StableSort(b)
  {
    forall s: int, n: Bytes ensures WithKey(StableSort(a), s, n) == WithKey(StableSort(b), s, n) {
      StableSortIsStable(a, s, n);
      StableSortIsStable(b, s, n);
    }
    StableSortIsStable(a, 0, []);
    StableSortIsStable(b, 0, []);
    SortedIsDetermined(StableSort(a), StableSort(b));
  }

  lemma {:induction false} WithKeyAppend(a: seq<Grant>, b: seq<Grant>, s: int, n: Bytes)
    ensures WithKey(a + b, s, n) == WithKey(a, s, n) + WithKey(b, s, n)
  {
    if a == [] {
      assert a + b == b;
    } else {
      var head := if HasKey(a[0], s, n) then [a[0]] else [];
      assert (a + b)[1..] == a[1..] + b && (a + b)[0] == a[0];
      WithKeyAppend(a[1..], b, s, n);
      assert head + (WithKey(a[1..], s, n) + WithKey(b, s, n)) == head + WithKey(a[1..], s, n) + WithKey(b, s, n);
    }
  }
}
