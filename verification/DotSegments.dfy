/** The segment stack of NormalizePath, and its meaning: ".." is a closing bracket for
    the nearest name still open before it. */
module DotSegments {
  import opened Text

  /** RFC 3986 path parameters: everything from the first ";" on is dropped. */
  function StripParams(seg: Bytes): (name: Bytes)
    ensures name <= seg && ';' !in name
    ensures |name| < |seg| ==> seg[|name|] == ';'
  {
    if seg == [] || seg[0] == ';' then [] else [seg[0]] + StripParams(seg[1..])
  }

  datatype Kind = Skip | Up | Name

  function KindOf(name: Bytes): Kind {
    if name == "" || name == "." then Skip else if name == ".." then Up else Name
  }

  /** The remaining segments, pushed and popped on the stack out; None when ".." finds it empty. */
  function Resolve(segs: seq<Bytes>, out: seq<Bytes>): Option<seq<Bytes>> {
    if segs == [] then Some(out)
    else
      var name := StripParams(segs[0]);
      match KindOf(name)
      case Skip => Resolve(segs[1..], out)
      case Up => if out == [] then None else Resolve(segs[1..], out[..|out| - 1])
      case Name => Resolve(segs[1..], out + [name])
  }

  function Names(segs: seq<Bytes>): seq<Bytes> {
    seq(|segs|, k requires 0 <= k < |segs| => StripParams(segs[k]))
  }

  // ----- brackets -----

  /** A segment that stands for a name: not empty, not one dot, not two. */
  predicate Opens(name: Bytes) {
    name != [] && name != ['.'] && name != ['.', '.']
  }

  /** The parent segment: two dots. */
  predicate Closes(name: Bytes) {
    name == ['.', '.']
  }

  /** Names minus ".." among the first k segments. */
  ghost function Depth(names: seq<Bytes>, k: nat): int
    requires k <= |names|
  {
    if k == 0 then 0
    else Depth(names, k - 1) + if Opens(names[k - 1]) then 1 else if Closes(names[k - 1]) then -1 else 0
  }

  /** The ".." at j is the closing bracket of the name at i. */
  ghost predicate Cancels(names: seq<Bytes>, i: nat, j: nat) {
    && i < j < |names|
    && Opens(names[i]) && Closes(names[j])
    && Depth(names, j + 1) == Depth(names, i)
    && forall k :: i < k <= j ==> Depth(names, k) > Depth(names, i)
  }

  ghost predicate Uncancelled(names: seq<Bytes>, i: nat) {
    i < |names| && Opens(names[i]) && forall j: nat :: !Cancels(names, i, j)
  }

  ghost predicate Climbs(names: seq<Bytes>) {
    exists k: nat :: k <= |names| && Depth(names, k) < 0
  }

  ghost predicate Increasing(idx: seq<nat>) {
    forall a, b :: 0 <= a < b < |idx| ==> idx[a] < idx[b]
  }

  /** idx lists exactly the positions of the uncancelled names, in order. */
  ghost predicate ListsUncancelled(names: seq<Bytes>, idx: seq<nat>) {
    && Increasing(idx)
    && (forall m :: 0 <= m < |idx| ==> Uncancelled(names, idx[m]))
    && forall i: nat :: Uncancelled(names, i) ==> i in idx
  }

  ghost predicate PickedFrom(out: seq<Bytes>, names: seq<Bytes>, idx: seq<nat>) {
    |out| == |idx| && forall m :: 0 <= m < |idx| ==> idx[m] < |names| && out[m] == names[idx[m]]
  }

  // ----- the stack, as positions -----

  /** Still open after k segments: the depth has not come back down since. */
  ghost predicate OpenAfter(names: seq<Bytes>, k: nat, i: nat)
    requires k <= |names|
  {
    i < k && Opens(names[i]) && forall j :: i < j <= k ==> Depth(names, j) > Depth(names, i)
  }

  ghost predicate StackShape(names: seq<Bytes>, k: nat, idx: seq<nat>) {
    && k <= |names|
    && Increasing(idx)
    && Depth(names, k) == |idx|
    && (forall m :: 0 <= m < |idx| ==> OpenAfter(names, k, idx[m]) && Depth(names, idx[m]) == m)
    && forall i: nat :: OpenAfter(names, k, i) ==> i in idx
  }

  ghost function Push(names: seq<Bytes>, k: nat, idx: seq<nat>): seq<nat>
    requires k < |names| && (Closes(names[k]) ==> idx != [])
  {
    if Opens(names[k]) then idx + [k] else if Closes(names[k]) then idx[..|idx| - 1] else idx
  }

  lemma OpenStep(names: seq<Bytes>, k: nat, i: nat)
    requires k < |names|
    ensures OpenAfter(names, k + 1, i) <==>
            if i == k then Opens(names[k])
            else OpenAfter(names, k, i) && Depth(names, k + 1) > Depth(names, i)
  {
  }

  lemma PushKeepsShape(names: seq<Bytes>, k: nat, idx: seq<nat>)
    requires k < |names| && StackShape(names, k, idx) && (Closes(names[k]) ==> idx != [])
    ensures StackShape(names, k + 1, Push(names, k, idx))
  {
    var next := Push(names, k, idx);
    assert Depth(names, k + 1) == |next|;
    forall m | 0 <= m < |next|
      ensures OpenAfter(names, k + 1, next[m]) && Depth(names, next[m]) == m
    {
      assert m < |idx| ==> next[m] == idx[m] && OpenAfter(names, k, idx[m]);
      OpenStep(names, k, next[m]);
    }
    forall i: nat | OpenAfter(names, k + 1, i) ensures i in next {
      PushComplete(names, k, idx, i);
    }
  }

  lemma PushComplete(names: seq<Bytes>, k: nat, idx: seq<nat>, i: nat)
    requires k < |names| && StackShape(names, k, idx) && (Closes(names[k]) ==> idx != [])
    requires OpenAfter(names, k + 1, i)
    ensures i in Push(names, k, idx)
  {
    var next := Push(names, k, idx);
    OpenStep(names, k, i);
    if i == k {
      assert next[|idx|] == k;
    } else {
      var m :| 0 <= m < |idx| && idx[m] == i;
      assert Depth(names, i) == m;
      assert next[m] == i;
    }
  }

  lemma OpenMeansUncancelled(names: seq<Bytes>, i: nat)
    ensures OpenAfter(names, |names|, i) <==> Uncancelled(names, i)
  {
    var n := |names|;
    if OpenAfter(names, n, i) {
      forall j: nat ensures !Cancels(names, i, j) {
        if i < j < n { assert Depth(names, j + 1) > Depth(names, i); }
      }
    }
    if i < n && Opens(names[i]) && !OpenAfter(names, n, i) {
      var j := FirstReturn(names, i);
      assert Cancels(names, i, j);
    }
  }

  /** Where the depth first comes back down, the segment just passed is the matching "..". */
  lemma FirstReturn(names: seq<Bytes>, i: nat) returns (j: nat)
    requires i < |names| && Opens(names[i])
    requires exists k :: i < k <= |names| && Depth(names, k) <= Depth(names, i)
    ensures Cancels(names, i, j)
  {
    j := i + 1;
    while Depth(names, j + 1) > Depth(names, i)
      invariant i < j < |names|
      invariant forall k :: i < k <= j ==> Depth(names, k) > Depth(names, i)
      decreases |names| - j
    {
      j := j + 1;
    }
    assert Depth(names, j + 1) < Depth(names, j);
    assert Closes(names[j]);
  }

  /** One segment more on the stack. */
  function Pushed(out: seq<Bytes>, name: Bytes): seq<Bytes> {
    if Opens(name) then out + [name] else if Closes(name) && out != [] then out[..|out| - 1] else out
  }

  lemma ResolveStep(segs: seq<Bytes>, k: nat, out: seq<Bytes>)
    requires k < |segs|
    ensures var name := Names(segs)[k];
            Resolve(segs[k..], out) ==
            if Closes(name) && out == [] then None else Resolve(segs[k + 1..], Pushed(out, name))
  {
    assert segs[k..][0] == segs[k] && segs[k..][1..] == segs[k + 1..];
  }

  lemma PushedFrom(out: seq<Bytes>, names: seq<Bytes>, k: nat, idx: seq<nat>)
    requires k < |names| && PickedFrom(out, names, idx) && (Closes(names[k]) ==> idx != [])
    ensures PickedFrom(Pushed(out, names[k]), names, Push(names, k, idx))
  {
  }

  /** Running the stack over the first k segments. */
  lemma {:induction false} StackAfter(segs: seq<Bytes>, k: nat) returns (idx: seq<nat>, out: seq<Bytes>)
    requires k <= |segs|
    requires forall j: nat :: j <= k ==> Depth(Names(segs), j) >= 0
    ensures StackShape(Names(segs), k, idx) && PickedFrom(out, Names(segs), idx)
    ensures Resolve(segs, []) == Resolve(segs[k..], out)
  {
    var names := Names(segs);
    if k == 0 {
      idx, out := [], [];
      assert segs[0..] == segs;
    } else {
      idx, out := StackAfter(segs, k - 1);
      assert Depth(names, k) >= 0;
      assert Closes(names[k - 1]) ==> idx != [];
      PushKeepsShape(names, k - 1, idx);
      PushedFrom(out, names, k - 1, idx);
      ResolveStep(segs, k - 1, out);
      idx, out := Push(names, k - 1, idx), Pushed(out, names[k - 1]);
    }
  }

  lemma ClimbFails(segs: seq<Bytes>, k: nat)
    requires k < |segs|
    requires forall j: nat :: j <= k ==> Depth(Names(segs), j) >= 0
    requires Depth(Names(segs), k + 1) < 0
    ensures Resolve(segs, []).None?
  {
    var idx, out := StackAfter(segs, k);
  }

  /** Dot resolution is bracket matching: it fails exactly when some prefix holds more ".."
      than names, and otherwise leaves the uncancelled names, in order. */
  lemma ResolveMatchesBrackets(segs: seq<Bytes>)
    ensures Resolve(segs, []).None? <==> Climbs(Names(segs))
    ensures Resolve(segs, []).Some? ==>
              exists idx :: ListsUncancelled(Names(segs), idx) &&
                            PickedFrom(Resolve(segs, []).value, Names(segs), idx)
  {
    var names := Names(segs);
    if Climbs(names) {
      var k := 0;
      while Depth(names, k) >= 0
        invariant k <= |names|
        invariant forall j: nat :: j < k ==> Depth(names, j) >= 0
        decreases |names| - k
      {
        if k == |names| {
          assert false;
        }
        k := k + 1;
      }
      ClimbFails(segs, k - 1);
    } else {
      var idx, out := StackAfter(segs, |segs|);
      assert Resolve(segs, []) == Some(out);
      forall i: nat ensures OpenAfter(names, |names|, i) <==> Uncancelled(names, i) {
        OpenMeansUncancelled(names, i);
      }
      assert ListsUncancelled(names, idx);
    }
  }

  /** There is only one such list of positions, so the result is determined. */
  lemma UncancelledListIsUnique(names: seq<Bytes>, a: seq<nat>, b: seq<nat>)
    requires ListsUncancelled(names, a) && ListsUncancelled(names, b)
    ensures a == b
  {
    IncreasingDetermined(a, b);
  }

  lemma {:induction false} IncreasingDetermined(a: seq<nat>, b: seq<nat>)
    requires Increasing(a) && Increasing(b)
    requires forall i: nat :: i in a <==> i in b
    ensures a == b
  {
    assert b != [] ==> b[0] in b;
    if a != [] {
      assert a[0] in b && b != [];
      assert b[0] in a;
      assert a[0] == b[0];
      forall i: nat ensures i in a[1..] <==> i in b[1..] {
        assert i in a[1..] <==> i in a && i != a[0];
        assert i in b[1..] <==> i in b && i != b[0];
      }
      IncreasingDetermined(a[1..], b[1..]);
      assert a == [a[0]] + a[1..] && b == [b[0]] + b[1..];
    }
  }
}
