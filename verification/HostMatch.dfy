/** Host patterns: canonical spelling and what MatchHost means on dot-separated labels. */
module HostMatch {
  import opened Text
  import opened PathMatch

  /** Space, tab, line feed, vertical tab, form feed and carriage return. */
  predicate IsSpace(c: byte) {
    c == ' ' || '\t' <= c <= '\r'
  }

  function CanonicalHost(h: Bytes): Bytes {
    DropEnd(Lower(Trim(h, IsSpace)), '.')
  }

  lemma CanonicalShape(h: Bytes)
    ensures var c := CanonicalHost(h); Lower(c) == c && (c != [] ==> !IsSpace(c[0]))
  {
    TrimEdges(h, IsSpace);
  }

  /** Canonicalizing strips one trailing dot and does not look again: the result is a fixed
      point exactly when it does not end in a dot or in white space. */
  lemma CanonicalIsStable(h: Bytes)
    ensures var c := CanonicalHost(h);
            CanonicalHost(c) == c <==> c == [] || (c[|c| - 1] != '.' && !IsSpace(c[|c| - 1]))
  {
    var c := CanonicalHost(h);
    CanonicalShape(h);
    if c != [] {
      if IsSpace(c[|c| - 1]) {
        TrimEdges(c, IsSpace);
        assert Trim(c, IsSpace) != c;
        ShorterStays(c);
      } else {
        TrimIs(c, IsSpace, 0, |c|);
        assert c[0..|c|] == c;
      }
    }
  }

  lemma ShorterStays(c: Bytes)
    requires Trim(c, IsSpace) != c
    ensures CanonicalHost(c) != c
  {
    assert |Trim(c, IsSpace)| == |c| ==> Trim(c, IsSpace) == c;
  }

  lemma {:induction false} KeepFromIgnoresCase(h: Bytes, i: nat)
    requires i <= |h|
    ensures KeepFrom(Lower(h), IsSpace, i) == KeepFrom(h, IsSpace, i)
    decreases |h| - i
  {
    if i < |h| {
      KeepFromIgnoresCase(h, i + 1);
    }
  }

  lemma {:induction false} KeepToIgnoresCase(h: Bytes, i: nat, j: nat)
    requires i <= j <= |h|
    ensures KeepTo(Lower(h), IsSpace, i, j) == KeepTo(h, IsSpace, i, j)
    decreases j
  {
    if i < j {
      KeepToIgnoresCase(h, i, j - 1);
    }
  }

  /** Letter case never matters to a host or a pattern: two spellings that agree letter by
      letter up to case have one canonical form, and no capital letter is in it. */
  lemma CaseNeverMatters(h: Bytes, other: Bytes)
    requires SameLetters(h, other)
    ensures CanonicalHost(h) == CanonicalHost(other)
    ensures forall c :: c in CanonicalHost(h) ==> !('A' <= c <= 'Z')
  {
    LowerMeansSameLetters(h, other);
    LowerFirst(h);
    LowerFirst(other);
    NoCapitals(Trim(h, IsSpace));
  }

  lemma NoCapitals(s: Bytes)
    ensures forall c :: c in Lower(s) ==> !('A' <= c <= 'Z')
  {
  }

  lemma LowerFirst(h: Bytes)
    ensures CanonicalHost(h) == CanonicalHost(Lower(h))
  {
    KeepFromIgnoresCase(h, 0);
    KeepToIgnoresCase(h, KeepFrom(h, IsSpace, 0), |h|);
    assert Lower(Trim(Lower(h), IsSpace)) == Lower(Trim(h, IsSpace));
  }

  /** Space, or one of the codes 9 to 13. */
  predicate Blank(s: Bytes) {
    forall k :: 0 <= k < |s| ==> s[k] as int == 32 || 9 <= s[k] as int <= 13
  }

  /** Nor does white space around it, nor one dot after it. */
  lemma PaddingNeverMatters(pad: Bytes, h: Bytes, more: Bytes)
    requires h != [] && !Blank(h[..1]) && !Blank(h[|h| - 1..]) && Blank(pad) && Blank(more)
    ensures CanonicalHost(pad + h + more) == CanonicalHost(h)
    ensures h[|h| - 1] != '.' ==> CanonicalHost(h + ".") == CanonicalHost(h) == Lower(h)
  {
    PaddedTrim(pad, h, more);
    PaddedTrim([], h, []);
    assert [] + h + [] == h;
    if h[|h| - 1] != '.' {
      var dotted := h + ".";
      TrimIs(dotted, IsSpace, 0, |dotted|);
      assert dotted[0..|dotted|] == dotted;
      LowerAppend(h, ".");
    }
  }

  lemma PaddedTrim(pad: Bytes, h: Bytes, more: Bytes)
    requires h != [] && !Blank(h[..1]) && !Blank(h[|h| - 1..]) && Blank(pad) && Blank(more)
    ensures Trim(pad + h + more, IsSpace) == h
  {
    var s := pad + h + more;
    forall m | 0 <= m < |s| && !(|pad| <= m < |pad| + |h|) ensures IsSpace(s[m]) {
      assert s[m] == if m < |pad| then pad[m] else more[m - |pad| - |h|];
    }
    assert s[|pad|] == h[0] && s[|pad| + |h| - 1] == h[|h| - 1];
    TrimIs(s, IsSpace, |pad|, |pad| + |h|);
    assert s[|pad|..|pad| + |h|] == h;
  }

  predicate MatchHost(pattern: Bytes, host: Bytes) {
    MatchCanonical(CanonicalHost(pattern), CanonicalHost(host))
  }

  /** MatchHost once both sides are canonical. */
  predicate MatchCanonical(p: Bytes, h: Bytes) {
    if p == [] || h == [] then false
    else if p == "*" || p == "**" then true
    else if "**." <= p then
      var suffix := p[2..];
      HasSuffix(h, suffix) && |h| > |suffix|
    else if "*." <= p then
      var suffix := p[1..];
      HasSuffix(h, suffix) && |h| > |suffix| &&
      var first := h[..|h| - |suffix|];
      first != [] && '.' !in first
    else p == h
  }

  // ----- what a pattern means on dot-separated labels -----

  function Labels(h: Bytes): seq<Bytes> {
    Split(h, '.')
  }

  /** The host's labels end with the suffix's, and what stands before them is not empty. */
  predicate ExtraLabels(host: Bytes, suffix: Bytes, extra: int) {
    && extra == |Labels(host)| - |Labels(suffix)| >= 1
    && Labels(host)[extra..] == Labels(suffix)
    && Labels(host)[..extra] != [[]]
  }

  lemma DottedSuffixGivesLabels(x: Bytes, suffix: Bytes)
    requires x != []
    ensures ExtraLabels(x + "." + suffix, suffix, |Labels(x)|)
  {
    SplitAppend(x, '.', suffix);
    var labels := Labels(x + ['.'] + suffix);
    assert labels[..|Labels(x)|] == Labels(x) && labels[|Labels(x)|..] == Labels(suffix);
    assert Join(Labels(x), '.') == x;
  }

  lemma LabelsGiveDottedSuffix(host: Bytes, suffix: Bytes, extra: int) returns (x: Bytes)
    requires ExtraLabels(host, suffix, extra)
    ensures x != [] && host == x + "." + suffix
  {
    var front := Labels(host)[..extra];
    assert Labels(host) == front + Labels(suffix);
    JoinAppend(front, Labels(suffix), '.');
    SplitJoin(front, '.');
    x := Join(front, '.');
  }

  lemma DottedSuffixMeansLabels(host: Bytes, suffix: Bytes)
    ensures HasSuffix(host, "." + suffix) && |host| > |suffix| + 1 <==>
            ExtraLabels(host, suffix, |Labels(host)| - |Labels(suffix)|)
  {
    var extra := |Labels(host)| - |Labels(suffix)|;
    if HasSuffix(host, "." + suffix) && |host| > |suffix| + 1 {
      DottedSuffixSplits(host, suffix);
    }
    if ExtraLabels(host, suffix, extra) {
      var x := LabelsGiveDottedSuffix(host, suffix, extra);
      assert host[|x|..] == "." + suffix;
    }
  }

  lemma DottedSuffixSplits(host: Bytes, suffix: Bytes)
    requires HasSuffix(host, "." + suffix) && |host| > |suffix| + 1
    ensures ExtraLabels(host, suffix, |Labels(host)| - |Labels(suffix)|)
  {
    var x := host[..|host| - |suffix| - 1];
    assert host == x + "." + suffix;
    DottedSuffixGivesLabels(x, suffix);
  }

  lemma LabelBeforeSuffix(host: Bytes, suffix: Bytes)
    requires HasSuffix(host, "." + suffix) && |host| > |suffix| + 1
    ensures '.' !in host[..|host| - |suffix| - 1] <==> |Labels(host)| == |Labels(suffix)| + 1
  {
    var x := host[..|host| - |suffix| - 1];
    assert host == x + ['.'] + suffix;
    SplitAppend(x, '.', suffix);
    if '.' !in x {
      SplitOfPiece(x, '.');
    }
    if |Labels(x)| == 1 {
      assert Join(Labels(x), '.') == Labels(x)[0];
    }
  }

  /** Spelling a pattern and a host in other letter case gives the same answer. */
  lemma MatchHostIgnoresCase(p: Bytes, h: Bytes, otherP: Bytes, otherH: Bytes)
    requires SameLetters(p, otherP) && SameLetters(h, otherH)
    ensures MatchHost(p, h) <==> MatchHost(otherP, otherH)
  {
    CaseNeverMatters(p, otherP);
    CaseNeverMatters(h, otherH);
  }

  /** MatchHost on every pattern and every host: "**." asks for one or more labels in
      front of the suffix, "*." for exactly one, anything else for equality. */
  lemma MatchHostMeansLabels(p: Bytes, h: Bytes)
    ensures MatchCanonical(p, h) <==>
            && p != [] && h != []
            && (|| p == "*" || p == "**"
                || ("**." <= p && ExtraLabels(h, p[3..], |Labels(h)| - |Labels(p[3..])|))
                || ("*." <= p && ExtraLabels(h, p[2..], 1))
                || (!("**." <= p) && !("*." <= p) && p == h))
  {
    if "**." <= p {
      DeepPattern(p, h);
    } else if "*." <= p {
      OneLabelPattern(p, h);
    }
  }

  lemma DeepPattern(p: Bytes, h: Bytes)
    requires "**." <= p
    ensures MatchCanonical(p, h) <==> h != [] && ExtraLabels(h, p[3..], |Labels(h)| - |Labels(p[3..])|)
  {
    assert p[2..] == "." + p[3..];
    DottedSuffixMeansLabels(h, p[3..]);
  }

  predicate OneLabelBefore(h: Bytes, suffix: Bytes) {
    HasSuffix(h, "." + suffix) && |h| > |suffix| + 1 && '.' !in h[..|h| - |suffix| - 1]
  }

  lemma OneLabelUnfolds(p: Bytes, h: Bytes)
    requires "*." <= p && !("**." <= p)
    ensures MatchCanonical(p, h) <==> OneLabelBefore(h, p[2..])
  {
    assert p[..2] == "*." && p[1] == '.' && p != "**";
    assert p[1..] == "." + p[2..];
  }

  lemma OneLabelMeansLabels(h: Bytes, suffix: Bytes)
    ensures OneLabelBefore(h, suffix) <==> ExtraLabels(h, suffix, 1)
  {
    DottedSuffixMeansLabels(h, suffix);
    if HasSuffix(h, "." + suffix) && |h| > |suffix| + 1 {
      LabelBeforeSuffix(h, suffix);
    } else {
      assert ExtraLabels(h, suffix, 1) ==> ExtraLabels(h, suffix, |Labels(h)| - |Labels(suffix)|);
    }
  }

  lemma OneLabelPattern(p: Bytes, h: Bytes)
    requires "*." <= p && !("**." <= p)
    ensures MatchCanonical(p, h) <==> ExtraLabels(h, p[2..], 1)
  {
    OneLabelUnfolds(p, h);
    OneLabelMeansLabels(h, p[2..]);
  }

  // ----- how specific a pattern is -----

  /** The engine's rank for a pattern, read off its spelling. */
  function HostSpecificity(pattern: Bytes): int {
    if pattern == "*" || pattern == "**" then 0
    else if "**." <= pattern then 1
    else if "*." <= pattern then 2
    else 3
  }

  /** The four ranks in order: a name, "*." and a suffix, "**." and a suffix, any host. */
  lemma RankOrder(name: Bytes, suffix: Bytes)
    requires !("*." <= name) && !("**." <= name) && name != "*" && name != "**"
    ensures HostSpecificity(name) > HostSpecificity("*." + suffix) > HostSpecificity("**." + suffix)
    ensures HostSpecificity("**." + suffix) > HostSpecificity("*") == HostSpecificity("**")
  {
    var one, deep := "*." + suffix, "**." + suffix;
    assert one[..2] == "*." && one[1] == '.' && deep[..3] == "**." && deep[2] == '.';
  }

  /** A higher rank is never the broader pattern: between two canonical patterns, some host
      matches the lower-ranked one and not the higher-ranked one. */
  lemma RankFollowsBreadth(p: Bytes, q: Bytes) returns (h: Bytes)
    requires p != [] && q != [] && HostSpecificity(p) > HostSpecificity(q)
    ensures MatchCanonical(q, h) && !MatchCanonical(p, h)
    ensures LikeSpelled(h, p, q)
  {
    if HostSpecificity(q) == 0 {
      h := OutsideNarrower(p);
    } else {
      var s := if HostSpecificity(q) == 1 then q[3..] else q[2..];
      assert q == if HostSpecificity(q) == 1 then "**." + s else "*." + s;
      h := BelowSuffix(p, q, s);
    }
  }

  /** The host starts with a visible byte and has upper-case letters only if a pattern has. */
  ghost predicate LikeSpelled(h: Bytes, p: Bytes, q: Bytes) {
    && h != [] && (h[0] == 'x' || h[0] == 'a' || h[0] == 'b' || (p != [] && h[0] == p[0]))
    && (Lower(p) == p && Lower(q) == q ==> Lower(h) == h)
  }

  lemma OutsideNarrower(p: Bytes) returns (h: Bytes)
    requires p != [] && HostSpecificity(p) > 0
    ensures h != [] && !MatchCanonical(p, h)
    ensures forall q :: LikeSpelled(h, p, q)
  {
    h := if HostSpecificity(p) == 3 then p + "x" else "x";
    LowerAppend(p, "x");
  }

  lemma LowerAppend(a: Bytes, b: Bytes)
    ensures Lower(a + b) == Lower(a) + Lower(b)
  {
  }

  lemma BelowSuffix(p: Bytes, q: Bytes, s: Bytes) returns (h: Bytes)
    requires p != [] && HostSpecificity(p) > HostSpecificity(q) > 0
    requires q == if HostSpecificity(q) == 1 then "**." + s else "*." + s
    ensures MatchCanonical(q, h) && !MatchCanonical(p, h)
    ensures LikeSpelled(h, p, q)
  {
    if HostSpecificity(p) == 3 {
      h := OtherThan(p, q, s);
    } else {
      h := BelowDeepSuffix(p, q, s);
    }
    LowerTail(q, h, s);
  }

  lemma OtherThan(p: Bytes, q: Bytes, s: Bytes) returns (h: Bytes)
    requires p != [] && HostSpecificity(p) == 3
    requires q == "**." + s || q == "*." + s
    ensures h == "a." + s || h == "b." + s
    ensures MatchCanonical(q, h) && !MatchCanonical(p, h)
  {
    var x: Bytes := if p == "a." + s then "b" else "a";
    SuffixMatches(q, s, x);
    h := x + "." + s;
    assert x == "a" ==> h == "a." + s;
    assert x == "b" ==> h == "b." + s;
  }

  lemma BelowDeepSuffix(p: Bytes, q: Bytes, s: Bytes) returns (h: Bytes)
    requires HostSpecificity(p) == 2 && q == "**." + s
    ensures h == "a." + s || h == "a.a." + s
    ensures MatchCanonical(q, h) && !MatchCanonical(p, h)
  {
    if MatchCanonical(p, "a." + s) {
      OneLabelOnly(p, s);
      DeepSuffixMatches(q, s);
      h := "a.a." + s;
    } else {
      SuffixMatches(q, s, "a");
      h := "a" + "." + s;
      assert h == "a." + s;
    }
  }

  lemma LowerTail(q: Bytes, h: Bytes, s: Bytes)
    requires q == "**." + s || q == "*." + s
    requires h == "a." + s || h == "b." + s || h == "a.a." + s
    ensures Lower(q) == q ==> Lower(h) == h
  {
    forall k | 0 <= k < |s| && Lower(q) == q ensures LowerByte(s[k]) == s[k] {
      assert q[|q| - |s| + k] == s[k];
    }
  }

  lemma SuffixMatches(q: Bytes, s: Bytes, x: Bytes)
    requires q == "**." + s || q == "*." + s
    requires x == "a" || x == "b"
    ensures MatchCanonical(q, x + "." + s)
  {
    var h := x + "." + s;
    assert h[|h| - |s| - 1..] == "." + s;
    assert h[..|h| - |s| - 1] == x;
    if q == "**." + s {
      assert q[2..] == "." + s;
    } else {
      assert q[1..] == "." + s;
    }
  }

  lemma DeepSuffixMatches(q: Bytes, s: Bytes)
    requires q == "**." + s
    ensures MatchCanonical(q, "a.a." + s)
  {
    var h := "a.a." + s;
    assert q[2..] == "." + s && h[3..] == "." + s;
  }

  /** A one-label pattern that takes "a.s" does not take "a.a.s". */
  lemma OneLabelOnly(p: Bytes, s: Bytes)
    requires HostSpecificity(p) == 2 && MatchCanonical(p, "a." + s)
    ensures !MatchCanonical(p, "a.a." + s)
  {
    var h, t := "a." + s, p[1..];
    var x := h[..|h| - |t|];
    assert h == x + t && t[0] == '.';
    assert h[1] == '.' && x == h[..|x|];
    assert |x| < 2;
    assert x == "a";
    assert t == h[1..] == "." + s;
    var deeper := "a.a." + s;
    assert deeper[..|deeper| - |t|] == "a.a";
  }

  lemma DottedCanonicalizesTo(h: Bytes)
    requires h != [] && Lower(h) == h && !IsSpace(h[0])
    ensures CanonicalHost(h + ".") == h
  {
    var dotted := h + ".";
    TrimIs(dotted, IsSpace, 0, |dotted|);
    assert dotted[0..|dotted|] == dotted;
    assert Lower(dotted) == dotted by {
      assert forall k :: 0 <= k < |h| ==> Lower(h)[k] == LowerByte(h[k]);
    }
  }

  /** So for patterns and hosts however they are written, ranked by their canonical form. */
  lemma HigherRankIsNarrower(p: Bytes, q: Bytes) returns (h: Bytes)
    requires CanonicalHost(p) != [] && CanonicalHost(q) != []
    requires HostSpecificity(CanonicalHost(p)) > HostSpecificity(CanonicalHost(q))
    ensures MatchHost(q, h) && !MatchHost(p, h)
  {
    CanonicalShape(p);
    CanonicalShape(q);
    var plain := RankFollowsBreadth(CanonicalHost(p), CanonicalHost(q));
    DottedCanonicalizesTo(plain);
    h := plain + ".";
  }

  /** The engine ranks a pattern as it is written, before it is canonicalized.  That is its
      canonical rank exactly when canonicalizing did not turn it into a match-all pattern and,
      if white space stands in front, its canonical form has no wildcard. */
  lemma RankIsOfTheSpelling(p: Bytes)
    ensures var c := CanonicalHost(p);
            HostSpecificity(p) == HostSpecificity(c) <==>
              && (HostSpecificity(c) == 0 ==> p == c)
              && (p != [] && IsSpace(p[0]) ==> HostSpecificity(c) == 3)
  {
    if p != [] && !IsSpace(p[0]) {
      CanonicalBegins(p);
    }
  }

  /** With no white space in front, the canonical form is the beginning of the lower-cased
      pattern. */
  lemma CanonicalBegins(p: Bytes)
    requires p != [] && !IsSpace(p[0])
    ensures CanonicalHost(p) <= Lower(p)
    ensures forall k :: |CanonicalHost(p)| < k < |p| ==> IsSpace(p[k])
    ensures |CanonicalHost(p)| < |p| ==> var c := p[|CanonicalHost(p)|]; c == '.' || IsSpace(c)
  {
    KeepFromIs(p, IsSpace, 0, 0);
    KeepToDrops(p, IsSpace, 0, |p|);
  }

  /** Patterns with a wildcard that are ranked above what they match: "*." and " *" match every
      host, yet outrank every "**." pattern. */
  lemma RankIgnoresCanonicalization(dotted: Bytes, spaced: Bytes, deep: Bytes, host: Bytes)
    requires dotted == "*." && spaced == " *" && "**." <= deep
    requires CanonicalHost(host) != []
    ensures MatchHost(dotted, host) && MatchHost(spaced, host)
    ensures HostSpecificity(spaced) > HostSpecificity(dotted) > HostSpecificity(deep)
  {
    TrimIs(spaced, IsSpace, 1, 2);
    assert Lower("*") == "*";
  }

  // ----- noProxy -----

  /** One canonical entry against the canonical host: a bare suffix needs something in front. */
  predicate EntryCovers(p: Bytes, h: Bytes) {
    p != [] && if p[0] == '.' then HasSuffix(h, p) && |h| > |p| else MatchHost(p, h)
  }

  predicate PatternCovers(pattern: Bytes, h: Bytes) {
    EntryCovers(CanonicalHost(pattern), h)
  }

  method CheckEntry(pattern: Bytes, h: Bytes) returns (covered: bool)
    ensures covered <==> PatternCovers(pattern, h)
  {
    var p := CanonicalHost(pattern);
    if p == "" {
      return false;
    }
    if p[0] == '.' {
      return HasSuffix(h, p) && |h| > |p|;
    }
    return MatchHost(p, h);
  }

  method SearchEntries(patterns: seq<Bytes>, h: Bytes, ghost covers: Bytes -> bool) returns (direct: bool)
    requires forall p {:trigger PatternCovers(p, h)} :: covers(p) <==> PatternCovers(p, h)
    ensures direct <==> exists k :: 0 <= k < |patterns| && covers(patterns[k])
  {
    for k := 0 to |patterns|
      invariant forall j :: 0 <= j < k ==> !covers(patterns[j])
    {
      var covered := CheckEntry(patterns[k], h);
      if covered {
        return true;
      }
    }
    return false;
  }

  ghost function CoverTest(h: Bytes): Bytes -> bool {
    p => PatternCovers(p, h)
  }

  method MatchesNoProxy(patterns: seq<Bytes>, host: Bytes) returns (direct: bool)
    ensures direct <==> exists k :: 0 <= k < |patterns| && CoverTest(CanonicalHost(host))(patterns[k])
  {
    var h := CanonicalHost(host);
    direct := SearchEntries(patterns, h, CoverTest(h));
  }

  /** Canonicalizing again looks no further back than the last dot that stands. */
  lemma CutsAt(x: Bytes, e: Bytes, end: nat, kept: Bytes)
    requires x != [] && !IsSpace(x[0]) && "." <= e && Lower(x + e) == x + e
    requires end == KeepTo(e, IsSpace, 0, |e|) && kept == DropEnd(e[..end], '.')
    ensures CanonicalHost(x + e) == x + kept
    ensures kept <= e && (kept == [] || "." <= kept)
  {
    TrimAppend(x, e, IsSpace, end);
    DropsDot(x, e, end);
  }

  lemma DropsDot(x: Bytes, e: Bytes, end: nat)
    requires "." <= e && Lower(x + e) == x + e && 0 < end <= |e|
    requires Trim(x + e, IsSpace) == (x + e)[..|x| + end] == x + e[..end]
    ensures var kept := DropEnd(e[..end], '.');
            CanonicalHost(x + e) == x + kept && kept <= e && (kept == [] || "." <= kept)
  {
    CanonicalOfTrimmed(x + e, |x| + end);
    DropEndAppend(x, e[..end], '.');
  }

  lemma CanonicalOfTrimmed(h: Bytes, n: nat)
    requires n <= |h| && Lower(h) == h && Trim(h, IsSpace) == h[..n]
    ensures CanonicalHost(h) == DropEnd(h[..n], '.')
  {
    assert Lower(h[..n]) == h[..n] by {
      assert forall k :: 0 <= k < n ==> Lower(h)[k] == LowerByte(h[k]);
    }
  }

  lemma DropEndAppend(x: Bytes, e: Bytes, c: byte)
    requires e != []
    ensures DropEnd(x + e, c) == x + DropEnd(e, c)
  {
  }

  /** What canonicalizing once more takes off the end. */
  function StrippedEnd(c: Bytes): Bytes {
    if |CanonicalHost(c)| <= |c| then c[|CanonicalHost(c)|..] else []
  }

  /** Whatever pattern and host are written: the bare suffix ".s" covers a host exactly when
      "**.s" does and canonicalizing once more - as MatchHost does with both sides, and nothing
      does with a bare suffix - takes the same bytes off the end of the host and of "**.s". */
  lemma BareSuffixIsAnyDepth(pattern: Bytes, host: Bytes)
    requires "." <= CanonicalHost(pattern)
    ensures var entry, h := CanonicalHost(pattern), CanonicalHost(host);
            EntryCovers(entry, h) <==>
            EntryCovers("**" + entry, h) && StrippedEnd(h) == StrippedEnd("**" + entry)
  {
    var entry, h := CanonicalHost(pattern), CanonicalHost(host);
    CanonicalShape(pattern);
    CanonicalShape(host);
    LowerAppend("**", entry);
    BareEntry("**", entry, KeepTo(entry, IsSpace, 0, |entry|), h);
  }

  /** The same, with the two stars as a parameter. */
  lemma BareEntry(stars: Bytes, entry: Bytes, end: nat, h: Bytes)
    requires stars == "**" && "." <= entry && Lower(stars + entry) == stars + entry
    requires Lower(h) == h && (h != [] ==> !IsSpace(h[0]))
    requires end == KeepTo(entry, IsSpace, 0, |entry|)
    ensures HasSuffix(h, entry) && |h| > |entry| <==>
            MatchHost(stars + entry, h) && StrippedEnd(h) == StrippedEnd(stars + entry)
  {
    var kept := DropEnd(entry[..end], '.');
    CutsAt(stars, entry, end, kept);
    SameEndStripped(stars, entry, kept);
    if HasSuffix(h, entry) && |h| > |entry| {
      BareIsDeep(stars, entry, h, end, kept);
    }
    if MatchCanonical(stars + kept, CanonicalHost(h)) && StrippedEnd(h) == entry[|kept|..] {
      var x := CoveredByDeep(stars, kept, CanonicalHost(h));
      DeepIsBare(entry, h, kept, x);
    }
  }

  lemma BareIsDeep(stars: Bytes, entry: Bytes, h: Bytes, end: nat, kept: Bytes)
    requires stars == "**" && "." <= entry && HasSuffix(h, entry) && |h| > |entry|
    requires Lower(h) == h && !IsSpace(h[0])
    requires end == KeepTo(entry, IsSpace, 0, |entry|) && kept == DropEnd(entry[..end], '.')
    ensures kept <= entry && MatchCanonical(stars + kept, CanonicalHost(h)) && StrippedEnd(h) == entry[|kept|..]
  {
    var x := h[..|h| - |entry|];
    assert h == x + entry && x[0] == h[0];
    CutsAt(x, entry, end, kept);
    DeepCovers(stars, x, kept);
    SameEndStripped(x, entry, kept);
  }

  lemma DeepIsBare(entry: Bytes, h: Bytes, kept: Bytes, x: Bytes)
    requires kept <= entry && x != [] && CanonicalHost(h) == x + kept
    requires StrippedEnd(h) == entry[|kept|..]
    requires Lower(h) == h && (h != [] ==> !IsSpace(h[0]))
    ensures HasSuffix(h, entry) && |h| > |entry|
  {
    if h == [] {
      TrimAll(h, IsSpace);
    } else {
      CanonicalBegins(h);
      assert h == CanonicalHost(h) + StrippedEnd(h);
      assert h == x + entry;
    }
  }

  lemma SameEndStripped(x: Bytes, entry: Bytes, kept: Bytes)
    requires kept <= entry && CanonicalHost(x + entry) == x + kept
    ensures StrippedEnd(x + entry) == entry[|kept|..]
  {
  }

  lemma DeepCovers(stars: Bytes, x: Bytes, kept: Bytes)
    requires stars == "**" && x != [] && (kept == [] || "." <= kept)
    ensures MatchCanonical(stars + kept, x + kept)
  {
    if kept != [] {
      var p, h := stars + kept, x + kept;
      assert p[2..] == kept && h[|h| - |kept|..] == kept;
    }
  }

  lemma CoveredByDeep(stars: Bytes, kept: Bytes, h: Bytes) returns (x: Bytes)
    requires stars == "**" && (kept == [] || "." <= kept)
    requires MatchCanonical(stars + kept, h)
    ensures x != [] && h == x + kept
  {
    assert (stars + kept)[2..] == kept;
    x := h[..|h| - |kept|];
  }

  /** Several trailing dots lose one at a time: "a.." is not canonical after one pass, and the
      noProxy list, which canonicalizes the host before MatchHost does so again, covers
      "x.corp.." by "**.corp" but not by ".corp". */
  lemma TrailingDotsDivideSpellings(host: Bytes, once: Bytes, twice: Bytes, entry: Bytes, deep: Bytes)
    requires host == "x.corp.." && once == "x.corp." && twice == "x.corp"
    requires entry == ".corp" && deep == "**.corp"
    ensures CanonicalHost(host) == once && CanonicalHost(once) == twice
    ensures !PatternCovers(entry, CanonicalHost(host)) && PatternCovers(deep, CanonicalHost(host))
  {
    DottedCanonicalizesTo(once);
    DottedCanonicalizesTo(twice);
    assert host == once + "." && once == twice + ".";
    IsCanonical(entry);
    IsCanonical(deep);
    DividesSpellings(once, twice, entry, deep);
  }

  lemma DividesSpellings(once: Bytes, twice: Bytes, entry: Bytes, deep: Bytes)
    requires once == twice + "." && twice == "x" + entry
    requires "." <= entry && entry[|entry| - 1] != '.' && deep == "**" + entry
    requires CanonicalHost(once) == twice && CanonicalHost(entry) == entry && CanonicalHost(deep) == deep
    ensures !PatternCovers(entry, once) && PatternCovers(deep, once)
  {
    assert !HasSuffix(once, entry);
    DeepCovers(deep[..2], twice[..1], entry);
  }

  lemma IsCanonical(h: Bytes)
    requires h != [] && Lower(h) == h && !IsSpace(h[0])
    requires h[|h| - 1] != '.' && !IsSpace(h[|h| - 1])
    ensures CanonicalHost(h) == h
  {
    DottedCanonicalizesTo(h);
    CanonicalIsStable(h + ".");
  }
}
