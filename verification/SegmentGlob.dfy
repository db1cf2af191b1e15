/** Globs inside one path segment ("*") and across segments ("**").
    The meaning of a pattern is given by a witness - the text each "*" stands for,
    the run of segments each element consumes - and the matchers are proved exact
    against it. */
module SegmentGlob {
  import opened Text

  // ----- one segment: "*" stands for any run of bytes -----

  /** parts[0] gaps[0] parts[1] gaps[1] ... parts[n]. */
  ghost function Weave(parts: seq<Bytes>, gaps: seq<Bytes>): Bytes
    requires |parts| == |gaps| + 1
  {
    if gaps == [] then parts[0]
    else parts[0] + gaps[0] + Weave(parts[1..], gaps[1..])
  }

  /** The segment is the pattern with some text put in place of every "*". */
  ghost predicate SegmentFits(pattern: Bytes, seg: Bytes) {
    PartsFit(Split(pattern, '*'), seg)
  }

  ghost predicate PartsFit(parts: seq<Bytes>, seg: Bytes) {
    exists gaps: seq<Bytes> :: |parts| == |gaps| + 1 && Weave(parts, gaps) == seg
  }

  ghost predicate OccursAt(s: Bytes, part: Bytes, k: nat) {
    k + |part| <= |s| && s[k..k + |part|] == part
  }

  /** Every part occurs in s, in order, each after an arbitrary gap; s ends with the last one. */
  ghost predicate TailFits(parts: seq<Bytes>, s: Bytes) {
    if parts == [] then s == []
    else exists k: nat :: OccursAt(s, parts[0], k) && TailFits(parts[1..], s[k + |parts[0]|..])
  }

  lemma HeadOff(a: Bytes, b: Bytes, c: Bytes, d: Bytes)
    requires a + b == c + d && |a| == |c|
    ensures a == c && b == d
  {
    assert a == (a + b)[..|a|] && c == (c + d)[..|a|];
    assert b == (a + b)[|a|..] && d == (c + d)[|a|..];
  }

  lemma Unweave(parts: seq<Bytes>, gaps: seq<Bytes>, s: Bytes)
    requires |parts| >= 2 && |parts| == |gaps| + 1
    requires Weave(parts, gaps) == parts[0] + s
    ensures |gaps[0]| <= |s| && Weave(parts[1..], gaps[1..]) == s[|gaps[0]|..]
  {
    var rest := Weave(parts[1..], gaps[1..]);
    assert parts[0] + gaps[0] + rest == parts[0] + (gaps[0] + rest);
    HeadOff(parts[0], s, parts[0], gaps[0] + rest);
  }

  lemma Reweave(parts: seq<Bytes>, gaps: seq<Bytes>, s: Bytes, k: nat)
    requires |parts| >= 2 && |parts| == |gaps| + 2 && k <= |s|
    requires Weave(parts[1..], gaps) == s[k..]
    ensures Weave(parts, [s[..k]] + gaps) == parts[0] + s
  {
  }

  /** One literal part, then a gap, then a pattern that starts where the gap ends. */
  lemma WeaveStep(parts: seq<Bytes>, s: Bytes)
    requires |parts| >= 2
    ensures PartsFit(parts, parts[0] + s) <==> exists k: nat :: k <= |s| && PartsFit(parts[1..], s[k..])
  {
    if PartsFit(parts, parts[0] + s) {
      var gaps: seq<Bytes> :| |parts| == |gaps| + 1 && Weave(parts, gaps) == parts[0] + s;
      Unweave(parts, gaps, s);
      assert PartsFit(parts[1..], s[|gaps[0]|..]);
    }
    if k: nat :| k <= |s| && PartsFit(parts[1..], s[k..]) {
      var gaps: seq<Bytes> :| |parts[1..]| == |gaps| + 1 && Weave(parts[1..], gaps) == s[k..];
      Reweave(parts, gaps, s, k);
    }
  }

  lemma FitsStartsWithHead(parts: seq<Bytes>, seg: Bytes)
    requires parts != [] && PartsFit(parts, seg)
    ensures parts[0] <= seg
  {
  }

  lemma OnePartFits(part: Bytes, seg: Bytes)
    ensures PartsFit([part], seg) <==> part == seg
  {
  }

  lemma {:induction false} HeadThenTail(parts: seq<Bytes>, s: Bytes)
    requires parts != []
    ensures PartsFit(parts, parts[0] + s) <==> TailFits(parts[1..], s)
    decreases |parts|, 0
  {
    if |parts| == 1 {
      OnePartFits(parts[0], parts[0] + s);
      assert parts == [parts[0]];
      if parts[0] + s == parts[0] {
        assert s == (parts[0] + s)[|parts[0]|..];
      }
    } else {
      forall k: nat | k <= |s| ensures GapThenFits(parts[1..], s, k) <==> PartsFit(parts[1..], s[k..]) {
        SuffixFits(parts[1..], s, k);
      }
      GapChoices(parts[1..], s);
      WeaveStep(parts, s);
    }
  }

  /** One way to go on: the next part right after a gap of k bytes. */
  ghost predicate GapThenFits(parts: seq<Bytes>, s: Bytes, k: nat)
    requires parts != []
  {
    OccursAt(s, parts[0], k) && TailFits(parts[1..], s[k + |parts[0]|..])
  }

  lemma GapChoices(parts: seq<Bytes>, s: Bytes)
    requires parts != []
    ensures TailFits(parts, s) <==> exists k: nat :: k <= |s| && GapThenFits(parts, s, k)
  {
    if TailFits(parts, s) {
      var k: nat :| OccursAt(s, parts[0], k) && TailFits(parts[1..], s[k + |parts[0]|..]);
      assert GapThenFits(parts, s, k);
    }
  }

  lemma {:induction false} SuffixFits(parts: seq<Bytes>, s: Bytes, k: nat)
    requires parts != [] && k <= |s|
    ensures PartsFit(parts, s[k..]) <==> GapThenFits(parts, s, k)
    decreases |parts|, 1
  {
    if PartsFit(parts, s[k..]) {
      FitsStartsWithHead(parts, s[k..]);
    }
    if k + |parts[0]| <= |s| {
      assert s[k..][..|parts[0]|] == s[k..k + |parts[0]|];
      if OccursAt(s, parts[0], k) {
        assert s[k..] == parts[0] + s[k + |parts[0]|..];
        HeadThenTail(parts, s[k + |parts[0]|..]);
      }
    }
  }

  lemma FitsIsHeadThenTail(parts: seq<Bytes>, seg: Bytes)
    requires parts != []
    ensures PartsFit(parts, seg) <==> parts[0] <= seg && TailFits(parts[1..], seg[|parts[0]|..])
  {
    if PartsFit(parts, seg) {
      FitsStartsWithHead(parts, seg);
    }
    if parts[0] <= seg {
      assert seg == parts[0] + seg[|parts[0]|..];
      HeadThenTail(parts, seg[|parts[0]|..]);
    }
  }

  /** The exchange step: whatever fits after a later start also fits after an earlier one. */
  lemma {:induction false} TailFitsMore(parts: seq<Bytes>, s: Bytes, from: nat)
    requires parts != [] && from <= |s| && TailFits(parts, s[from..])
    ensures TailFits(parts, s)
  {
    var t := s[from..];
    var k: nat :| OccursAt(t, parts[0], k) && TailFits(parts[1..], t[k + |parts[0]|..]);
    assert s[from + k..from + k + |parts[0]|] == t[k..k + |parts[0]|];
    assert OccursAt(s, parts[0], from + k);
    assert s[from + k + |parts[0]|..] == t[k + |parts[0]|..];
  }

  /** Taking the leftmost occurrence of a part never loses a match. */
  lemma LeftmostIsSafe(parts: seq<Bytes>, s: Bytes, i: nat)
    requires |parts| >= 2
    requires OccursAt(s, parts[0], i)
    requires forall k: nat :: OccursAt(s, parts[0], k) ==> i <= k
    ensures TailFits(parts, s) <==> TailFits(parts[1..], s[i + |parts[0]|..])
  {
    if TailFits(parts, s) {
      var k: nat :| OccursAt(s, parts[0], k) && TailFits(parts[1..], s[k + |parts[0]|..]);
      var t := s[i + |parts[0]|..];
      assert t[k - i..] == s[k + |parts[0]|..];
      TailFitsMore(parts[1..], t, k - i);
    }
  }

  lemma GreedyStep(parts: seq<Bytes>, j: nat, s: Bytes, i: nat)
    requires j + 1 < |parts|
    requires OccursAt(s, parts[j], i)
    requires forall k: nat :: OccursAt(s, parts[j], k) ==> i <= k
    ensures TailFits(parts[j..], s) <==> TailFits(parts[j + 1..], s[i + |parts[j]|..])
  {
    assert parts[j..][0] == parts[j] && parts[j..][1..] == parts[j + 1..];
    LeftmostIsSafe(parts[j..], s, i);
  }

  lemma MissingPart(parts: seq<Bytes>, j: nat, s: Bytes)
    requires j < |parts|
    requires forall k: nat :: !OccursAt(s, parts[j], k)
    ensures !TailFits(parts[j..], s)
  {
  }

  lemma LastPartIsSuffix(part: Bytes, s: Bytes)
    ensures TailFits([part], s) <==> HasSuffix(s, part)
  {
    if HasSuffix(s, part) {
      assert OccursAt(s, part, |s| - |part|);
      assert s[|s| - |part| + |part|..] == [];
      assert TailFits([part][1..], s[|s| - |part| + |part|..]);
    }
    if TailFits([part], s) {
      var k: nat :| OccursAt(s, part, k) && TailFits([part][1..], s[k + |part|..]);
      assert s[k..] == s[k..k + |part|];
    }
  }

  /** strings.Index: the leftmost occurrence of part in s, if any. */
  method IndexOf(s: Bytes, part: Bytes) returns (at: Option<nat>)
    ensures at.None? ==> forall k: nat :: !OccursAt(s, part, k)
    ensures at.Some? ==> OccursAt(s, part, at.value) && forall k: nat :: OccursAt(s, part, k) ==> at.value <= k
  {
    var i := 0;
    while i + |part| <= |s|
      invariant forall k: nat :: k < i ==> !OccursAt(s, part, k)
    {
      if s[i..i + |part|] == part {
        return Some(i);
      }
      i := i + 1;
    }
    return None;
  }

  lemma StarMeansSeveralParts(pattern: Bytes)
    ensures '*' in pattern <==> |Split(pattern, '*')| >= 2
  {
  }

  lemma LoneStarFits(seg: Bytes)
    ensures SegmentFits("*", seg)
  {
    assert Split("*", '*') == [[], []] by {
      assert Split("*"[1..], '*') == [[]];
    }
    var parts: seq<Bytes> := [[], []];
    var gaps: seq<Bytes> := [seg];
    assert parts[1..] == [[]] && gaps[1..] == [];
    assert Weave(parts, gaps) == seg;
  }

  lemma NoStarFits(pattern: Bytes, seg: Bytes)
    requires '*' !in pattern
    ensures SegmentFits(pattern, seg) <==> pattern == seg
  {
  }

  /** The loop of matchSegment over the parts after the first one. */
  method MatchTail(parts: seq<Bytes>, seg: Bytes) returns (matched: bool)
    requires parts != []
    ensures matched <==> TailFits(parts, seg)
  {
    var s := seg;
    var last := |parts| - 1;
    var j := 0;
    while j < last
      invariant 0 <= j <= last
      invariant TailFits(parts, seg) <==> TailFits(parts[j..], s)
    {
      var part := parts[j];
      if part == [] {
        GreedyStep(parts, j, s, 0);
        assert s[0 + |part|..] == s;
      } else {
        var i := IndexOf(s, part);
        if i.None? {
          MissingPart(parts, j, s);
          return false;
        }
        GreedyStep(parts, j, s, i.value);
        s := s[i.value + |part|..];
      }
      j := j + 1;
    }
    assert parts[last..] == [parts[last]];
    LastPartIsSuffix(parts[last], s);
    return HasSuffix(s, parts[last]);
  }

  /** matchSegment: greedy, leftmost, one pass - and exact. */
  method MatchSegment(pattern: Bytes, seg: Bytes) returns (matched: bool)
    ensures matched <==> SegmentFits(pattern, seg)
  {
    if pattern == "*" {
      LoneStarFits(seg);
      return true;
    }
    if '*' !in pattern {
      NoStarFits(pattern, seg);
      return pattern == seg;
    }
    var parts := Split(pattern, '*');
    StarMeansSeveralParts(pattern);
    FitsIsHeadThenTail(parts, seg);
    if !(parts[0] <= seg) {
      return false;
    }
    matched := MatchTail(parts[1..], seg[|parts[0]|..]);
  }

  // ----- several segments: "**" stands for any run of segments -----

  /** What one pattern element may consume. */
  ghost predicate RunFits(element: Bytes, run: seq<Bytes>) {
    element == "**" || (|run| == 1 && SegmentFits(element, run[0]))
  }

  ghost predicate RunsFit(pattern: seq<Bytes>, runs: seq<seq<Bytes>>) {
    |runs| == |pattern| && forall k :: 0 <= k < |pattern| ==> RunFits(pattern[k], runs[k])
  }

  /** The path is cut into one run per pattern element. */
  ghost predicate GlobFits(pattern: seq<Bytes>, path: seq<Bytes>) {
    exists runs :: RunsFit(pattern, runs) && Flatten(runs) == path
  }

  ghost predicate FirstRunFits(pattern: seq<Bytes>, path: seq<Bytes>, k: nat)
    requires pattern != []
  {
    k <= |path| && RunFits(pattern[0], path[..k]) && GlobFits(pattern[1..], path[k..])
  }

  lemma GlobFitsNil(path: seq<Bytes>)
    ensures GlobFits([], path) <==> path == []
  {
    assert RunsFit([], []) && Flatten<Bytes>([]) == [];
  }

  lemma GlobFitsCons(pattern: seq<Bytes>, path: seq<Bytes>)
    requires pattern != []
    ensures GlobFits(pattern, path) <==> exists k: nat :: FirstRunFits(pattern, path, k)
  {
    if GlobFits(pattern, path) {
      var runs :| RunsFit(pattern, runs) && Flatten(runs) == path;
      assert path[|runs[0]|..] == Flatten(runs[1..]);
      assert RunsFit(pattern[1..], runs[1..]);
      assert FirstRunFits(pattern, path, |runs[0]|);
    }
    if k: nat :| FirstRunFits(pattern, path, k) {
      var rest :| RunsFit(pattern[1..], rest) && Flatten(rest) == path[k..];
      var runs := [path[..k]] + rest;
      assert runs[1..] == rest;
      forall m | 0 <= m < |pattern| ensures RunFits(pattern[m], runs[m]) {
        if m > 0 { assert pattern[m] == pattern[1..][m - 1] && runs[m] == rest[m - 1]; }
      }
      assert RunsFit(pattern, runs) && Flatten(runs) == path;
    }
  }

  lemma TrailingStarsFit(path: seq<Bytes>)
    ensures GlobFits(["**"], path)
  {
    assert Flatten([path]) == path;
    assert RunsFit(["**"], [path]);
  }

  /** matchGlob: backtracking over "**", terminating and exact. */
  method MatchGlob(pattern: seq<Bytes>, path: seq<Bytes>) returns (matched: bool)
    ensures matched <==> GlobFits(pattern, path)
    decreases |pattern|
  {
    if |pattern| == 0 {
      GlobFitsNil(path);
      return |path| == 0;
    }
    GlobFitsCons(pattern, path);
    if pattern[0] == "**" {
      if |pattern| == 1 {
        TrailingStarsFit(path);
        assert pattern == ["**"];
        return true;
      }
      var i := 0;
      while i <= |path|
        invariant forall k: nat :: k < i ==> !FirstRunFits(pattern, path, k)
      {
        var rest := MatchGlob(pattern[1..], path[i..]);
        if rest {
          assert FirstRunFits(pattern, path, i);
          return true;
        }
        i := i + 1;
      }
      return false;
    }
    if |path| == 0 {
      return false;
    }
    var head := MatchSegment(pattern[0], path[0]);
    if !head {
      return false;
    }
    matched := MatchGlob(pattern[1..], path[1..]);
    assert FirstRunFits(pattern, path, 1) <==> matched;
  }

  /** Adjacent "**" elements say no more than one. */
  lemma {:induction false} AdjacentStarsCollapse(a: seq<Bytes>, b: seq<Bytes>, path: seq<Bytes>)
    ensures GlobFits(a + ["**", "**"] + b, path) <==> GlobFits(a + ["**"] + b, path)
    decreases |a|
  {
    var two := a + ["**", "**"] + b;
    var one := a + ["**"] + b;
    GlobFitsCons(two, path);
    GlobFitsCons(one, path);
    if a == [] {
      assert two[1..] == one && one[1..] == b;
      if k: nat :| FirstRunFits(two, path, k) {
        GlobFitsCons(one, path[k..]);
        var m: nat :| FirstRunFits(one, path[k..], m);
        assert path[k..][m..] == path[k + m..];
        assert FirstRunFits(one, path, k + m);
      }
      if k: nat :| FirstRunFits(one, path, k) {
        assert path[0..] == path;
        assert FirstRunFits(two, path, 0);
      }
    } else {
      assert two[1..] == a[1..] + ["**", "**"] + b;
      assert one[1..] == a[1..] + ["**"] + b;
      forall k: nat | k <= |path| ensures FirstRunFits(two, path, k) <==> FirstRunFits(one, path, k) {
        AdjacentStarsCollapse(a[1..], b, path[k..]);
      }
    }
  }
}
