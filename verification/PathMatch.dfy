/** MatchPath: rule patterns against normalized paths.  The byte-level tests the code
    performs are proved to be tests on lists of segments. */
module PathMatch {
  import opened Text
  import opened SegmentGlob

  predicate IsSlash(c: byte) {
    c == '/'
  }

  function SplitSegments(p: Bytes): seq<Bytes> {
    var t := Trim(p, IsSlash);
    if t == [] then [] else Split(t, '/')
  }

  function Rooted(pattern: Bytes): Bytes {
    if pattern == [] then "/"
    else if pattern[0] == '/' then pattern
    else "/" + pattern
  }

  /** The three byte comparisons MatchPath makes when the pattern has no wildcard. */
  predicate LiteralMatches(pattern: Bytes, exact: bool, path: Bytes) {
    if exact then
      path == pattern || DropEnd(path, '/') == DropEnd(pattern, '/')
    else if EndsWith(pattern, '/') then
      pattern <= path || DropEnd(path, '/') == DropEnd(pattern, '/')
    else
      path == pattern || pattern + "/" <= path
  }

  ghost predicate PathMatches(pattern: Bytes, exact: bool, path: Bytes) {
    var p := Rooted(pattern);
    if '*' in p then GlobFits(SplitSegments(p), SplitSegments(path))
    else LiteralMatches(p, exact, path)
  }

  method MatchPath(pattern: Bytes, exact: bool, path: Bytes) returns (matched: bool)
    ensures matched <==> PathMatches(pattern, exact, path)
    ensures '*' in pattern ==>
              (matched <==> exists runs :: RunsFit(SplitSegments(pattern), runs) &&
                                           Flatten(runs) == SplitSegments(path))
  {
    if pattern != [] {
      TrimOfRooted(pattern);
    }
    var p := pattern;
    if p == "" {
      p := "/";
    }
    if p[0] != '/' {
      p := "/" + p;
    }
    if '*' in p {
      matched := MatchGlob(SplitSegments(p), SplitSegments(path));
      return;
    }
    if exact {
      return path == p || DropEnd(path, '/') == DropEnd(p, '/');
    }
    if EndsWith(p, '/') {
      return p <= path || DropEnd(path, '/') == DropEnd(p, '/');
    }
    return path == p || p + "/" <= path;
  }

  // ----- lists of segments and the paths that spell them -----

  /** Segments a normalized path can have: non-empty and free of separators. */
  predicate Proper(segs: seq<Bytes>) {
    forall k :: 0 <= k < |segs| ==> segs[k] != [] && '/' !in segs[k]
  }

  /** "/a/b/c" */
  function Flat(segs: seq<Bytes>): Bytes {
    if segs == [] then [] else "/" + segs[0] + Flat(segs[1..])
  }

  predicate DoubleSlashAt(p: Bytes, i: nat) {
    i + 2 <= |p| && p[i] == '/' && p[i + 1] == '/'
  }

  ghost predicate NoDoubleSlash(p: Bytes) {
    forall i: nat :: !DoubleSlashAt(p, i)
  }

  /** What every normalized path looks like (see NormalForm). */
  ghost predicate CleanPath(p: Bytes) {
    "/" <= p && NoDoubleSlash(p)
  }

  /** The path is its segments, each behind a slash, and perhaps one more slash. */
  predicate Spells(p: Bytes, segs: seq<Bytes>) {
    Proper(segs) && (p == Flat(segs) + "/" || (segs != [] && p == Flat(segs)))
  }

  lemma {:induction false} FlatAppend(a: seq<Bytes>, b: seq<Bytes>)
    ensures Flat(a + b) == Flat(a) + Flat(b)
  {
    if a == [] {
      assert a + b == b;
    } else {
      assert (a + b)[1..] == a[1..] + b;
      FlatAppend(a[1..], b);
    }
  }

  lemma {:induction false} FlatIsJoin(segs: seq<Bytes>)
    requires segs != []
    ensures Flat(segs) == "/" + Join(segs, '/')
  {
    if |segs| > 1 {
      FlatIsJoin(segs[1..]);
    }
  }

  lemma {:induction false} FlatLast(segs: seq<Bytes>)
    requires segs != [] && Proper(segs)
    ensures |Flat(segs)| >= 2 && Flat(segs)[0] == '/' && Flat(segs)[1] != '/'
    ensures Flat(segs)[|Flat(segs)| - 1] != '/'
  {
    if |segs| > 1 {
      FlatLast(segs[1..]);
    }
  }

  lemma CleanPathShape(p: Bytes) returns (segs: seq<Bytes>)
    requires CleanPath(p)
    ensures Spells(p, segs)
  {
    var pieces := Split(p[1..], '/');
    FlatIsJoin(pieces);
    assert p == Flat(pieces);
    var last := |pieces| - 1;
    forall k | 0 <= k < last ensures pieces[k] != [] {
      var before, after := pieces[..k], pieces[k + 1..];
      assert pieces == before + ([pieces[k]] + after);
      FlatAppend(before, [pieces[k]] + after);
      assert ([pieces[k]] + after)[1..] == after;
      if pieces[k] == [] {
        assert Flat(after)[0] == '/';
        assert DoubleSlashAt(p, |Flat(before)|);
      }
    }
    if pieces[last] == [] {
      segs := pieces[..last];
      assert pieces == segs + [pieces[last]];
      FlatAppend(segs, [pieces[last]]);
      assert Flat([pieces[last]]) == "/";
    } else {
      segs := pieces;
    }
  }

  lemma TrimOuterSlashes(body: Bytes)
    requires body != [] && body[0] != '/' && body[|body| - 1] != '/'
    ensures Trim("/" + body, IsSlash) == body && Trim("/" + (body + "/"), IsSlash) == body
  {
    TrimIs("/" + body, IsSlash, 1, |body| + 1);
    TrimIs("/" + (body + "/"), IsSlash, 1, |body| + 1);
  }

  lemma JoinEdges(segs: seq<Bytes>)
    requires segs != [] && Proper(segs)
    ensures var body := Join(segs, '/'); body != [] && body[0] != '/' && body[|body| - 1] != '/'
  {
  }

  /** SplitSegments reads back the segments, with or without a trailing slash. */
  lemma SegmentsOfFlat(segs: seq<Bytes>)
    requires Proper(segs)
    ensures SplitSegments(Flat(segs)) == segs
    ensures SplitSegments(Flat(segs) + "/") == segs
  {
    if segs == [] {
      TrimAll(Flat(segs), IsSlash);
      TrimAll(Flat(segs) + "/", IsSlash);
    } else {
      var body := Join(segs, '/');
      FlatIsJoin(segs);
      JoinEdges(segs);
      assert Flat(segs) + "/" == "/" + (body + "/");
      TrimOuterSlashes(body);
      SplitJoin(segs, '/');
    }
  }

  lemma {:induction false} FlatPrefix(a: seq<Bytes>, b: seq<Bytes>)
    requires Proper(a) && Proper(b)
    ensures Flat(a) + "/" <= Flat(b) + "/" <==> a <= b
  {
    if a == [] {
      if b != [] { FlatLast(b); }
    } else if b == [] {
      FlatLast(a);
    } else {
      FlatPrefix(a[1..], b[1..]);
      FlatUnfolds(a);
      FlatUnfolds(b);
      HeadThenRest(a[0], Flat(a[1..]) + "/", b[0], Flat(b[1..]) + "/");
      ConsPrefix(a, b);
    }
  }

  lemma ConsPrefix(a: seq<Bytes>, b: seq<Bytes>)
    requires a != [] && b != []
    ensures a <= b <==> a[0] == b[0] && a[1..] <= b[1..]
  {
    assert a == [a[0]] + a[1..] && b == [b[0]] + b[1..];
  }

  lemma HeadThenRest(x: Bytes, s: Bytes, y: Bytes, t: Bytes)
    requires '/' !in x && '/' !in y
    requires "/" <= s && "/" <= t
    ensures "/" + (x + s) <= "/" + (y + t) <==> x == y && s <= t
  {
    SlashedPrefix(x, s, y, t);
    SameFirstByte(x + s, y + t);
  }

  lemma FlatUnfolds(a: seq<Bytes>)
    requires a != []
    ensures Flat(a) + "/" == "/" + (a[0] + (Flat(a[1..]) + "/"))
  {
  }

  lemma SameFirstByte(s: Bytes, t: Bytes)
    ensures "/" + s <= "/" + t <==> s <= t
  {
    assert ("/" + s)[1..] == s && ("/" + t)[1..] == t;
  }

  lemma SlashedPrefix(x: Bytes, s: Bytes, y: Bytes, t: Bytes)
    requires '/' !in x && '/' !in y
    requires "/" <= s && "/" <= t
    ensures x + s <= y + t <==> x == y && s <= t
  {
    if |x| < |y| {
      assert (x + s)[|x|] == '/' && (y + t)[|x|] == y[|x|];
    } else if |x| > |y| {
      assert (x + s)[|y|] == x[|y|] && (|y + t| > |y| && (y + t)[|y|] == '/');
    } else {
      assert x == (x + s)[..|x|] && y == (y + t)[..|y|];
      assert s == (x + s)[|x|..];
      assert x + s <= y + t ==> (x + s)[..|x|] == (y + t)[..|x|];
    }
  }

  lemma FlatInjective(a: seq<Bytes>, b: seq<Bytes>)
    requires Proper(a) && Proper(b)
    ensures Flat(a) == Flat(b) <==> a == b
  {
    if Flat(a) == Flat(b) {
      FlatPrefix(a, b);
      FlatPrefix(b, a);
    }
  }

  lemma TrimOfFlat(segs: seq<Bytes>)
    requires Proper(segs)
    ensures DropEnd(Flat(segs), '/') == Flat(segs)
    ensures DropEnd(Flat(segs) + "/", '/') == Flat(segs)
  {
  }

  // ----- the refinement -----

  lemma {:induction false} FlatHasNoDoubleSlash(segs: seq<Bytes>)
    requires Proper(segs)
    ensures NoDoubleSlash(Flat(segs) + "/")
  {
    if segs != [] {
      FlatHasNoDoubleSlash(segs[1..]);
      var rest := Flat(segs[1..]) + "/";
      var p := "/" + segs[0] + rest;
      assert Flat(segs) + "/" == p;
      forall i: nat ensures !DoubleSlashAt(p, i) {
        if i >= 1 + |segs[0]| {
          assert !DoubleSlashAt(rest, i - 1 - |segs[0]|);
        } else if i >= 1 {
          assert p[i] == segs[0][i - 1];
        } else {
          assert p[1] == segs[0][0];
        }
      }
    }
  }

  lemma PrefixHasNoDoubleSlash(p: Bytes, q: Bytes)
    requires p <= q && NoDoubleSlash(q)
    ensures NoDoubleSlash(p)
  {
    forall i: nat ensures !DoubleSlashAt(p, i) {
      assert !DoubleSlashAt(q, i);
    }
  }

  /** A pattern that matches any clean path is itself clean. */
  lemma MatchingPatternIsClean(p: Bytes, exact: bool, path: Bytes)
    requires "/" <= p && CleanPath(path) && LiteralMatches(p, exact, path)
    ensures NoDoubleSlash(p)
  {
    var segs := CleanPathShape(path);
    FlatHasNoDoubleSlash(segs);
    TrimOfFlat(segs);
    if p <= path {
      PrefixHasNoDoubleSlash(p, path);
    } else {
      assert DropEnd(p, '/') == Flat(segs);
      if EndsWith(p, '/') {
        assert p == DropEnd(p, '/') + "/" by { assert p[..|p| - 1] + p[|p| - 1..] == p; }
      }
      assert p <= Flat(segs) + "/";
      PrefixHasNoDoubleSlash(p, Flat(segs) + "/");
    }
  }

  lemma CleanPatternMatches(ps: seq<Bytes>, p: Bytes, exact: bool, segs: seq<Bytes>, path: Bytes)
    requires Spells(p, ps) && Spells(path, segs)
    ensures LiteralMatches(p, exact, path) <==> if exact then ps == segs else ps <= segs
  {
    TrimOfFlat(ps);
    TrimOfFlat(segs);
    FlatInjective(ps, segs);
    FlatPrefix(ps, segs);
    if p == Flat(ps) + "/" {
      assert EndsWith(p, '/') by { assert p[|p| - 1..] == "/"; }
      SlashOrEnd(Flat(ps), Flat(segs), path);
    } else {
      FlatLast(ps);
      assert !EndsWith(p, '/');
      SlashOrEnd(Flat(ps), Flat(segs), path);
    }
  }

  /** Dropping the last slash of a path only loses the prefix that is the whole of it. */
  lemma SlashOrEnd(a: Bytes, b: Bytes, path: Bytes)
    requires path == b || path == b + "/"
    ensures a + "/" <= b + "/" <==> a == b || a + "/" <= path
    ensures path == a ==> a + "/" <= b + "/" || (path == b + "/" && a == b + "/")
  {
    if a + "/" <= b + "/" && path == b {
      if |a| == |b| {
        assert a == (a + "/")[..|a|] == (b + "/")[..|a|] == b;
      } else {
        assert (b + "/")[..|a| + 1] == b[..|a| + 1];
      }
    }
    if a + "/" <= b {
      assert (b + "/")[..|a| + 1] == b[..|a| + 1];
    }
  }

  lemma SegmentsOf(p: Bytes, segs: seq<Bytes>)
    requires Spells(p, segs)
    ensures SplitSegments(p) == segs
  {
    SegmentsOfFlat(segs);
  }

  lemma SpelledIsClean(p: Bytes, segs: seq<Bytes>)
    requires Spells(p, segs)
    ensures CleanPath(p)
  {
    FlatHasNoDoubleSlash(segs);
    PrefixHasNoDoubleSlash(p, Flat(segs) + "/");
    if segs != [] { FlatLast(segs); }
  }

  predicate SegmentsMatch(ps: seq<Bytes>, exact: bool, segs: seq<Bytes>) {
    if exact then ps == segs else ps <= segs
  }

  /** MatchPath without wildcards, on every pattern and every clean path: prefix mode is
      "the pattern's segments begin the path's", exact mode is "they are the path's".
      A pattern holding two slashes in a row never matches. */
  lemma LiteralPatternMeansSegments(pattern: Bytes, exact: bool, path: Bytes)
    requires '*' !in pattern && CleanPath(path)
    ensures PathMatches(pattern, exact, path) <==>
            && NoDoubleSlash(Rooted(pattern))
            && SegmentsMatch(SplitSegments(Rooted(pattern)), exact, SplitSegments(path))
  {
    var p := Rooted(pattern);
    assert '*' !in p && "/" <= p;
    assert PathMatches(pattern, exact, path) <==> LiteralMatches(p, exact, path);
    RootedPatternMeansSegments(p, exact, path);
  }

  lemma RootedPatternMeansSegments(p: Bytes, exact: bool, path: Bytes)
    requires "/" <= p && CleanPath(path)
    ensures LiteralMatches(p, exact, path) <==>
            NoDoubleSlash(p) && SegmentsMatch(SplitSegments(p), exact, SplitSegments(path))
  {
    if LiteralMatches(p, exact, path) {
      MatchingPatternIsClean(p, exact, path);
    }
    if CleanPath(p) {
      var ps := CleanPathShape(p);
      var segs := CleanPathShape(path);
      SegmentsOf(p, ps);
      SegmentsOf(path, segs);
      CleanPatternMatches(ps, p, exact, segs, path);
    }
  }

  lemma {:induction false} LiteralGlobIsPrefix(ps: seq<Bytes>, segs: seq<Bytes>)
    requires forall k :: 0 <= k < |ps| ==> '*' !in ps[k]
    ensures GlobFits(ps + ["**"], segs) <==> ps <= segs
  {
    if ps == [] {
      assert ps + ["**"] == ["**"];
      TrailingStarsFit(segs);
    } else {
      var pattern := ps + ["**"];
      GlobFitsCons(pattern, segs);
      assert pattern[0] == ps[0] && pattern[1..] == ps[1..] + ["**"];
      if segs != [] {
        LiteralGlobIsPrefix(ps[1..], segs[1..]);
        NoStarFits(ps[0], segs[0]);
        assert FirstRunFits(pattern, segs, 1) <==> ps[0] == segs[0] && ps[1..] <= segs[1..];
        assert segs == [segs[0]] + segs[1..] && ps == [ps[0]] + ps[1..];
      }
    }
  }

  lemma {:induction false} FlatContains(segs: seq<Bytes>, k: nat, c: byte)
    requires k < |segs| && c in segs[k]
    ensures c in Flat(segs)
  {
    if k > 0 {
      FlatContains(segs[1..], k - 1, c);
    }
  }

  lemma RootedKeepsEnd(pattern: Bytes, more: Bytes)
    requires pattern != []
    ensures Rooted(pattern + more) == Rooted(pattern) + more
    ensures EndsWith(Rooted(pattern), '/') <==> EndsWith(pattern, '/')
  {
    assert (pattern + more)[0] == pattern[0];
    assert "/" + (pattern + more) == "/" + pattern + more;
  }

  lemma UnslashedIsFlat(p: Bytes, ps: seq<Bytes>)
    requires Spells(p, ps) && !EndsWith(p, '/')
    ensures p == Flat(ps)
  {
    assert EndsWith(Flat(ps) + "/", '/');
  }

  lemma RootIsNoSegments(ps: seq<Bytes>)
    requires Spells("/", ps)
    ensures ps == []
  {
    if ps != [] {
      FlatLast(ps);
    }
  }

  /** A clean pattern without its trailing slash is exactly its flattened segments. */
  lemma UnslashedPattern(pattern: Bytes) returns (ps: seq<Bytes>)
    requires NoDoubleSlash(Rooted(pattern))
    ensures Spells(Rooted(pattern), ps)
    ensures Rooted(DropEnd(pattern, '/') + "/**") == Flat(ps) + "/**"
    ensures EndsWith(pattern, '/') ==> Rooted(pattern) == Flat(ps) + "/"
  {
    ps := CleanPathShape(Rooted(pattern));
    var bare := DropEnd(pattern, '/');
    if bare == [] {
      RootIsNoSegments(ps);
    } else {
      RootedKeepsEnd(bare, "/**");
      if EndsWith(pattern, '/') {
        SlashedPattern(pattern, bare, ps);
      } else {
        RootedKeepsEnd(pattern, "");
        UnslashedIsFlat(Rooted(pattern), ps);
      }
    }
  }

  lemma SlashedPattern(pattern: Bytes, bare: Bytes, ps: seq<Bytes>)
    requires bare != [] && pattern == bare + "/" && Spells(Rooted(pattern), ps)
    ensures Rooted(bare) == Flat(ps) && Rooted(pattern) == Flat(ps) + "/"
  {
    RootedKeepsEnd(bare, "/");
    SlashedIsFlat(Rooted(bare), ps);
  }

  lemma SlashedIsFlat(bare: Bytes, ps: seq<Bytes>)
    requires Spells(bare + "/", ps)
    ensures bare == Flat(ps)
  {
    if ps != [] {
      FlatLast(ps);
    }
    assert (bare + "/")[|bare|] == '/';
    assert bare + "/" == Flat(ps) + "/";
    assert bare == (bare + "/")[..|bare|] == (Flat(ps) + "/")[..|bare|];
  }

  // Prefix mode on a clean pattern grants the paths the pattern grants with "/**" in place of
  // its trailing slash, or after it if there is none.
  lemma PrefixModeIsTrailingStars(pattern: Bytes, exact: bool, path: Bytes)
    requires '*' !in pattern && CleanPath(path) && NoDoubleSlash(Rooted(pattern))
    ensures PathMatches(pattern, false, path) <==> PathMatches(DropEnd(pattern, '/') + "/**", exact, path)
  {
    var ps := UnslashedPattern(pattern);
    SegmentsOf(Rooted(pattern), ps);
    assert PathMatches(pattern, false, path) <==> ps <= SplitSegments(path) by {
      LiteralPatternMeansSegments(pattern, false, path);
    }
    StarsAfterSegments(ps, Rooted(pattern), SplitSegments(path));
    EndsInStars(DropEnd(pattern, '/') + "/**", exact, path, Flat(ps) + "/**");
  }

  ghost predicate SameOnCleanPaths(pattern: Bytes, other: Bytes, exact: bool) {
    forall path :: CleanPath(path) ==> (PathMatches(pattern, false, path) <==> PathMatches(other, exact, path))
  }

  // Written after the pattern as it is, "/**" grants the same paths exactly when the pattern
  // does not end in a slash, or is nothing else: "/a/" grants "/a", "/a//**" grants nothing.
  lemma AppendedStarsAgree(pattern: Bytes, exact: bool)
    requires '*' !in pattern && NoDoubleSlash(Rooted(pattern))
    ensures SameOnCleanPaths(pattern, pattern + "/**", exact) <==> pattern == "/" || !EndsWith(pattern, '/')
  {
    if pattern == "/" || !EndsWith(pattern, '/') {
      forall path | CleanPath(path)
        ensures PathMatches(pattern, false, path) <==> PathMatches(pattern + "/**", exact, path)
      {
        StarsAgree(pattern, pattern + "/**", exact, path);
      }
    } else {
      var path := MatchesItself(pattern);
      DoubleSlashThenStars(pattern, "/**", exact, path);
    }
  }

  lemma StarsAgree(pattern: Bytes, starred: Bytes, exact: bool, path: Bytes)
    requires '*' !in pattern && NoDoubleSlash(Rooted(pattern)) && CleanPath(path)
    requires starred == pattern + "/**" && (pattern == "/" || !EndsWith(pattern, '/'))
    ensures PathMatches(pattern, false, path) <==> PathMatches(starred, exact, path)
  {
    if pattern == "/" {
      StarsAfterRoot(pattern, DropEnd(pattern, '/') + "/**", starred, exact, path);
    } else {
      assert DropEnd(pattern, '/') == pattern;
      PrefixModeIsTrailingStars(pattern, exact, path);
    }
  }

  lemma StarsAfterRoot(pattern: Bytes, stars: Bytes, starred: Bytes, exact: bool, path: Bytes)
    requires pattern == "/" && stars == "/**" && starred == pattern + stars && CleanPath(path)
    ensures PathMatches(pattern, false, path) <==> PathMatches(starred, exact, path)
  {
    RootStars(pattern, stars, exact, path);
    assert DropEnd(pattern, '/') + "/**" == stars;
    PrefixModeIsTrailingStars(pattern, exact, path);
  }

  lemma MatchesItself(pattern: Bytes) returns (path: Bytes)
    requires '*' !in pattern && NoDoubleSlash(Rooted(pattern)) && pattern != []
    ensures CleanPath(path) && PathMatches(pattern, false, path)
  {
    path := Rooted(pattern);
  }

  lemma RootStars(root: Bytes, stars: Bytes, exact: bool, path: Bytes)
    requires root == "/" && stars == "/**"
    ensures PathMatches(root + stars, exact, path) <==> PathMatches(stars, exact, path)
  {
    var bare := stars[1..];
    TrimIs(root + stars, IsSlash, 2, 4);
    TrimIs(stars, IsSlash, 1, 3);
    assert (root + stars)[2..4] == bare == stars[1..3];
    EndsInStars(stars, exact, path, stars);
    EndsInStars(root + stars, exact, path, root + stars);
  }

  /** An empty segment in front of the stars: no clean path has one. */
  lemma DoubleSlashThenStars(pattern: Bytes, stars: Bytes, exact: bool, path: Bytes)
    requires stars == "/**" && CleanPath(path)
    requires NoDoubleSlash(Rooted(pattern)) && EndsWith(pattern, '/') && pattern != "/"
    ensures !PathMatches(pattern + stars, exact, path)
  {
    var ps := UnslashedPattern(pattern);
    RootedKeepsEnd(pattern, stars);
    assert ps != [];
    EndsInStars(pattern + stars, exact, path, Flat(ps) + "/" + stars);
    EmptySegmentThenStars(ps, stars);
    var segs := CleanPathShape(path);
    SegmentsOf(path, segs);
    EmptyElementFitsNothing(ps + [[], stars[1..]], |ps|, segs);
  }

  lemma EmptyElementFitsNothing(pattern: seq<Bytes>, k: nat, segs: seq<Bytes>)
    requires k < |pattern| && pattern[k] == [] && Proper(segs)
    ensures !GlobFits(pattern, segs)
  {
    forall runs | RunsFit(pattern, runs) ensures Flatten(runs) != segs {
      assert RunFits(pattern[k], runs[k]);
      NoStarFits([], runs[k][0]);
      RunIsInside(runs, k);
      assert runs[k][0] in Flatten(runs);
    }
  }

  lemma EmptySegmentThenStars(ps: seq<Bytes>, stars: Bytes)
    requires Proper(ps) && ps != [] && stars == "/**"
    ensures SplitSegments(Flat(ps) + "/" + stars) == ps + [[], stars[1..]]
  {
    var body := Join(ps, '/');
    FlatIsJoin(ps);
    JoinEdges(ps);
    SplitJoin(ps, '/');
    SplitTwice(body, stars[1..]);
    var all := body + ['/'] + (['/'] + stars[1..]);
    assert Flat(ps) + "/" + stars == "/" + all;
    SlashedSegments(all, ps + [[], stars[1..]]);
  }

  lemma SplitTwice(body: Bytes, rest: Bytes)
    requires '/' !in rest
    ensures Split(body + ['/'] + (['/'] + rest), '/') == Split(body, '/') + [[], rest]
  {
    SplitAppend(body, '/', ['/'] + rest);
    SlashThenPiece(rest);
  }

  lemma SlashThenPiece(rest: Bytes)
    requires '/' !in rest
    ensures Split(['/'] + rest, '/') == [[], rest]
  {
    assert ['/'] + rest == [] + ['/'] + rest;
    SplitAppend([], '/', rest);
    SplitOfPiece(rest, '/');
  }

  lemma SlashedSegments(body: Bytes, segs: seq<Bytes>)
    requires body != [] && body[0] != '/' && body[|body| - 1] != '/' && Split(body, '/') == segs
    ensures SplitSegments("/" + body) == segs
  {
    TrimOuterSlashes(body);
  }

  lemma {:induction false} RunIsInside(runs: seq<seq<Bytes>>, k: nat)
    requires k < |runs|
    ensures forall x :: x in runs[k] ==> x in Flatten(runs)
  {
    if k > 0 {
      RunIsInside(runs[1..], k - 1);
    }
  }

  lemma EndsInStars(pattern: Bytes, exact: bool, path: Bytes, p: Bytes)
    requires Rooted(pattern) == p && p != [] && p[|p| - 1] == '*'
    ensures PathMatches(pattern, exact, path) <==> GlobFits(SplitSegments(p), SplitSegments(path))
  {
  }

  lemma StarsAfterSegments(ps: seq<Bytes>, p: Bytes, segs: seq<Bytes>)
    requires Spells(p, ps) && '*' !in p
    ensures GlobFits(SplitSegments(Flat(ps) + "/**"), segs) <==> ps <= segs
  {
    var all := ps + ["**"];
    FlatAppend(ps, ["**"]);
    assert Flat(["**"]) == "/**";
    SegmentsOfFlat(all);
    forall k | 0 <= k < |ps| ensures '*' !in ps[k] {
      if '*' in ps[k] { FlatContains(ps, k, '*'); }
    }
    LiteralGlobIsPrefix(ps, segs);
  }

  // ----- every pattern, read as a list of elements -----

  /** The pattern is these elements, each behind a slash; the first slash may be missing, and
      one more may end it. */
  predicate Writes(pattern: Bytes, es: seq<Bytes>) {
    && Proper(es)
    && (|| pattern == Flat(es) || pattern == Flat(es) + "/"
        || (es != [] && (pattern == Flat(es)[1..] || pattern == Flat(es)[1..] + "/")))
  }

  lemma WritesRooted(pattern: Bytes, es: seq<Bytes>)
    requires Writes(pattern, es)
    ensures Spells(Rooted(pattern), es)
  {
    if es != [] {
      FlatLast(es);
      var bare := Flat(es)[1..];
      assert "/" + bare == Flat(es);
      assert "/" + (bare + "/") == Flat(es) + "/";
    }
  }

  lemma {:induction false} StarInFlat(es: seq<Bytes>)
    ensures '*' in Flat(es) <==> exists k :: 0 <= k < |es| && '*' in es[k]
  {
    if es != [] {
      StarInFlat(es[1..]);
      assert Flat(es) == "/" + es[0] + Flat(es[1..]);
      if k :| 0 <= k < |es| && '*' in es[k] {
        assert k > 0 ==> es[1..][k - 1] == es[k];
      }
      if k :| 0 <= k < |es[1..]| && '*' in es[1..][k] {
        assert es[k + 1] == es[1..][k];
      }
    }
  }

  /** MatchPath on every pattern and every clean path, in either spelling of both.  A pattern
      with a star anywhere matches when the path's segments fall into one run for each of its
      elements, and exact changes nothing; without one, its elements are the path's segments,
      or in prefix mode begin them. */
  lemma PatternMeansElements(pattern: Bytes, es: seq<Bytes>, exact: bool, path: Bytes, segs: seq<Bytes>)
    requires Writes(pattern, es) && Spells(path, segs)
    ensures PathMatches(pattern, exact, path) <==>
            if exists k :: 0 <= k < |es| && '*' in es[k]
            then exists runs :: RunsFit(es, runs) && Flatten(runs) == segs
            else if exact then es == segs
            else |es| <= |segs| && segs[..|es|] == es
  {
    var p := Rooted(pattern);
    WritesRooted(pattern, es);
    StarInFlat(es);
    SegmentsOf(p, es);
    SegmentsOf(path, segs);
    assert '*' in p <==> '*' in Flat(es);
    if '*' !in p {
      SpelledIsClean(p, es);
      SpelledIsClean(path, segs);
      RootedPatternMeansSegments(p, exact, path);
      assert es <= segs <==> |es| <= |segs| && segs[..|es|] == es;
    }
  }

  /** Also where the pattern holds empty elements, which no clean path has. */
  lemma WildcardMeansRuns(pattern: Bytes, exact: bool, path: Bytes)
    requires '*' in pattern
    ensures PathMatches(pattern, exact, path) <==>
            exists runs :: RunsFit(SplitSegments(pattern), runs) && Flatten(runs) == SplitSegments(path)
  {
    TrimOfRooted(pattern);
  }

  lemma TrimOfRooted(pattern: Bytes)
    requires pattern != []
    ensures SplitSegments(Rooted(pattern)) == SplitSegments(pattern)
    ensures '*' in Rooted(pattern) <==> '*' in pattern
  {
    if pattern[0] != '/' {
      var k := KeepTo(pattern, IsSlash, 0, |pattern|);
      KeepToDrops(pattern, IsSlash, 0, |pattern|);
      KeepToStops(pattern, IsSlash, 0, |pattern|);
      TrimTo(pattern, IsSlash, k);
      TrimIs("/" + pattern, IsSlash, 1, k + 1);
      assert ("/" + pattern)[1..k + 1] == pattern[..k];
    }
  }

  /** A lone star takes exactly one segment wherever it stands, in either mode. */
  lemma StarTakesOneSegment(a: seq<Bytes>, b: seq<Bytes>, pattern: Bytes, exact: bool, path: Bytes, segs: seq<Bytes>)
    requires Writes(pattern, a + ["*"] + b) && Spells(path, segs)
    requires forall k :: 0 <= k < |a| ==> '*' !in a[k]
    requires forall k :: 0 <= k < |b| ==> '*' !in b[k]
    ensures PathMatches(pattern, exact, path) <==>
            && |segs| == |a| + 1 + |b|
            && segs[..|a|] == a && segs[|a| + 1..] == b
  {
    var es := a + ["*"] + b;
    assert es[|a|] == "*" && '*' in es[|a|];
    PatternMeansElements(pattern, es, exact, path, segs);
    OneSegmentEach(a, b, segs);
  }

  lemma {:induction false} OneSegmentEach(a: seq<Bytes>, b: seq<Bytes>, segs: seq<Bytes>)
    requires forall k :: 0 <= k < |a| ==> '*' !in a[k]
    requires forall k :: 0 <= k < |b| ==> '*' !in b[k]
    ensures GlobFits(a + ["*"] + b, segs) <==>
            && |segs| == |a| + 1 + |b|
            && segs[..|a|] == a && segs[|a| + 1..] == b
    decreases |a|
  {
    var es := a + ["*"] + b;
    if a == [] {
      assert es[0] == "*" && es[1..] == b;
      OneSegmentFirst(es, segs);
      if segs != [] {
        LoneStarFits(segs[0]);
        LiteralsFit(b, segs[1..]);
      }
    } else {
      assert es[0] == a[0] && es[1..] == a[1..] + ["*"] + b;
      LiteralFirst(es, segs);
      if segs != [] {
        OneSegmentEach(a[1..], b, segs[1..]);
        OneMoreSegment(a, b, segs);
      }
    }
  }

  /** An element other than "**" takes the first segment. */
  lemma OneSegmentFirst(es: seq<Bytes>, segs: seq<Bytes>)
    requires es != [] && es[0] != "**"
    ensures GlobFits(es, segs) <==> segs != [] && SegmentFits(es[0], segs[0]) && GlobFits(es[1..], segs[1..])
  {
    GlobFitsCons(es, segs);
    if segs != [] {
      assert FirstRunFits(es, segs, 1) <==> SegmentFits(es[0], segs[0]) && GlobFits(es[1..], segs[1..]);
    }
  }

  lemma LiteralFirst(es: seq<Bytes>, segs: seq<Bytes>)
    requires es != [] && '*' !in es[0]
    ensures GlobFits(es, segs) <==> segs != [] && es[0] == segs[0] && GlobFits(es[1..], segs[1..])
  {
    OneSegmentFirst(es, segs);
    if segs != [] {
      NoStarFits(es[0], segs[0]);
    }
  }

  lemma OneMoreSegment(a: seq<Bytes>, b: seq<Bytes>, segs: seq<Bytes>)
    requires a != [] && segs != []
    ensures |segs| == |a| + 1 + |b| && segs[..|a|] == a && segs[|a| + 1..] == b <==>
            && a[0] == segs[0] && |segs[1..]| == |a[1..]| + 1 + |b|
            && segs[1..][..|a[1..]|] == a[1..] && segs[1..][|a[1..]| + 1..] == b
  {
    if |segs| == |a| + 1 + |b| {
      assert segs[..|a|] == [segs[0]] + segs[1..][..|a| - 1] && a == [a[0]] + a[1..];
      assert segs[|a| + 1..] == segs[1..][|a|..];
    }
  }

  lemma LoneStarFits(seg: Bytes)
    ensures SegmentFits("*", seg)
  {
    assert "*" == [] + ['*'] + [];
    SplitAppend([], '*', []);
    assert Split([], '*') == [[]];
    assert Weave([[], []], [seg]) == [] + seg + Weave([[]], []);
  }

  lemma {:induction false} LiteralsFit(es: seq<Bytes>, segs: seq<Bytes>)
    requires forall k :: 0 <= k < |es| ==> '*' !in es[k]
    ensures GlobFits(es, segs) <==> es == segs
  {
    if es == [] {
      GlobFitsNil(segs);
    } else {
      LiteralFirst(es, segs);
      if segs != [] {
        LiteralsFit(es[1..], segs[1..]);
        assert segs == [segs[0]] + segs[1..] && es == [es[0]] + es[1..];
      }
    }
  }

  // ----- ports and methods -----

  const DEFAULT_PORTS: seq<int> := [80, 443]

  predicate PortAllowed(ports: seq<int>, port: int) {
    port in (if ports == [] then DEFAULT_PORTS else ports)
  }

  method MatchPort(ports: seq<int>, port: int) returns (matched: bool)
    ensures matched <==> PortAllowed(ports, port)
    ensures matched <==> port in ports || (ports == [] && (port == 80 || port == 443))
  {
    var list := ports;
    if |list| == 0 {
      list := DEFAULT_PORTS;
    }
    for k := 0 to |list|
      invariant port !in list[..k]
    {
      if list[k] == port {
        return true;
      }
    }
    return false;
  }

  function LowerByte(c: byte): byte {
    if 'A' <= c <= 'Z' then (c as int + 32) as char else c
  }

  function Lower(s: Bytes): Bytes {
    seq(|s|, k requires 0 <= k < |s| => LowerByte(s[k]))
  }

  /** The same byte, or the k-th capital letter and the k-th small one. */
  ghost predicate SameLetter(a: byte, b: byte) {
    a == b || exists k: nat :: k < 26 && CasePair(a, b, k)
  }

  predicate CasePair(a: byte, b: byte, k: nat) {
    || (a as int == 'A' as int + k && b as int == 'a' as int + k)
    || (b as int == 'A' as int + k && a as int == 'a' as int + k)
  }

  ghost predicate SameLetters(s: Bytes, t: Bytes) {
    |s| == |t| && forall i :: 0 <= i < |s| ==> SameLetter(s[i], t[i])
  }

  lemma LowerOfByte(a: byte, b: byte)
    ensures LowerByte(a) == LowerByte(b) <==> SameLetter(a, b)
  {
    if LowerByte(a) == LowerByte(b) && a != b {
      var k := LowerByte(a) as int - 'a' as int;
      assert CasePair(a, b, k);
    }
  }

  /** Lower-casing identifies exactly the strings that agree letter by letter up to case. */
  lemma LowerMeansSameLetters(s: Bytes, t: Bytes)
    ensures Lower(s) == Lower(t) <==> SameLetters(s, t)
  {
    forall i | 0 <= i < |s| && |s| == |t| ensures Lower(s)[i] == Lower(t)[i] <==> SameLetter(s[i], t[i]) {
      LowerOfByte(s[i], t[i]);
    }
  }

  /** The two letters outside ASCII that case folding identifies with ASCII ones, in UTF-8: the
      long s (U+017F) and the Kelvin sign (U+212A). */
  const LONG_S: Bytes := ['\U{C5}', '\U{BF}']
  const KELVIN: Bytes := ['\U{E2}', '\U{84}', '\U{AA}']

  /** Two strings, one of them ASCII, are equal under strings.EqualFold when these are equal. */
  function Folded(s: Bytes): Bytes {
    if s == [] then []
    else if LONG_S <= s then "s" + Folded(s[2..])
    else if KELVIN <= s then "k" + Folded(s[3..])
    else [LowerByte(s[0])] + Folded(s[1..])
  }

  /** Between ASCII strings that is equality up to letter case. */
  lemma {:induction false} AsciiFolds(s: Bytes)
    requires forall k :: 0 <= k < |s| ==> s[k] as int < 128
    ensures Folded(s) == Lower(s)
  {
    if s != [] {
      AsciiFolds(s[1..]);
      assert Lower(s) == [LowerByte(s[0])] + Lower(s[1..]);
    }
  }

  predicate LongSAt(s: Bytes) {
    |s| >= 2 && s[0] as int == 0xc5 && s[1] as int == 0xbf
  }

  predicate KelvinAt(s: Bytes) {
    |s| >= 3 && s[0] as int == 0xe2 && s[1] as int == 0x84 && s[2] as int == 0xaa
  }

  /** And of what is outside ASCII, exactly those two letters are read as others. */
  lemma FoldsBeyondAscii(s: Bytes)
    requires s != [] && s[0] as int >= 128
    ensures Folded(s) == if LongSAt(s) then "s" + Folded(s[2..])
                         else if KelvinAt(s) then "k" + Folded(s[3..])
                         else s[..1] + Folded(s[1..])
  {
    assert LONG_S <= s <==> LongSAt(s);
    assert KELVIN <= s <==> KelvinAt(s);
    assert s[..1] == [s[0]];
  }

  predicate MethodAllowed(methods: seq<Bytes>, m: Bytes) {
    methods == [] || exists k :: 0 <= k < |methods| && Folded(methods[k]) == Folded(m)
  }

  /** For a rule written in ASCII, and any request's method. */
  lemma AsciiMethods(methods: seq<Bytes>, m: Bytes)
    requires forall k :: 0 <= k < |m| ==> m[k] as int < 128
    requires forall j, k :: 0 <= j < |methods| && 0 <= k < |methods[j]| ==> methods[j][k] as int < 128
    ensures MethodAllowed(methods, m) <==>
            methods == [] || exists k :: 0 <= k < |methods| && SameLetters(methods[k], m)
  {
    AsciiFolds(m);
    forall k | 0 <= k < |methods| ensures Folded(methods[k]) == Folded(m) <==> SameLetters(methods[k], m) {
      AsciiFolds(methods[k]);
      LowerMeansSameLetters(methods[k], m);
    }
  }

  method MatchMethod(methods: seq<Bytes>, m: Bytes) returns (matched: bool)
    ensures matched <==> MethodAllowed(methods, m)
  {
    if |methods| == 0 {
      return true;
    }
    for k := 0 to |methods|
      invariant forall j :: 0 <= j < k ==> Folded(methods[j]) != Folded(m)
    {
      if Folded(methods[k]) == Folded(m) {
        return true;
      }
    }
    return false;
  }
}
