/** What a normalized path looks like, when normalizing is idempotent, and why a request
    below a prefix stays below it. */
module NormalForm {
  import opened Text
  import opened Decode
  import opened DotSegments
  import opened PathMatch
  import opened Normalize

  /** A segment that can appear in a normalized path. */
  predicate GoodName(n: Bytes) {
    n != "" && n != "." && n != ".." && '/' !in n && ';' !in n && '%' !in n && '\\' !in n
  }

  predicate GoodNames(segs: seq<Bytes>) {
    forall k :: 0 <= k < |segs| ==> GoodName(segs[k])
  }

  predicate LacksByte(segs: seq<Bytes>, c: byte) {
    forall k :: 0 <= k < |segs| ==> c !in segs[k]
  }

  /** Resolution invents no bytes, and keeps only stripped names. */
  lemma {:induction false} ResolveKeeps(segs: seq<Bytes>, out: seq<Bytes>, c: byte)
    requires Resolve(segs, out).Some?
    requires LacksByte(segs, c) && LacksByte(out, c)
    ensures LacksByte(Resolve(segs, out).value, c)
  {
    if segs != [] {
      var name := StripParams(segs[0]);
      assert c !in segs[0];
      match KindOf(name) {
        case Skip => ResolveKeeps(segs[1..], out, c);
        case Up => ResolveKeeps(segs[1..], out[..|out| - 1], c);
        case Name => ResolveKeeps(segs[1..], out + [name], c);
      }
    }
  }

  predicate StrippedNames(segs: seq<Bytes>) {
    forall k :: 0 <= k < |segs| ==> KindOf(segs[k]).Name? && ';' !in segs[k]
  }

  lemma {:induction false} ResolveStrips(segs: seq<Bytes>, out: seq<Bytes>)
    requires Resolve(segs, out).Some? && StrippedNames(out)
    ensures StrippedNames(Resolve(segs, out).value)
  {
    if segs != [] {
      var name := StripParams(segs[0]);
      match KindOf(name) {
        case Skip => ResolveStrips(segs[1..], out);
        case Up => ResolveStrips(segs[1..], out[..|out| - 1]);
        case Name => ResolveStrips(segs[1..], out + [name]);
      }
    }
  }

  lemma {:induction false} JoinLacks(segs: seq<Bytes>, c: byte)
    requires c != '/'
    ensures LacksByte(segs, c) <==> c !in Join(segs, '/')
  {
    if |segs| == 1 {
    } else if |segs| > 1 {
      JoinLacks(segs[1..], c);
      assert Join(segs, '/') == segs[0] + ['/'] + Join(segs[1..], '/');
      if c !in Join(segs, '/') {
        assert c !in segs[0] && c !in Join(segs[1..], '/');
        assert LacksByte(segs[1..], c);
        forall k | 0 <= k < |segs| ensures c !in segs[k] {
          if k > 0 { assert segs[k] == segs[1..][k - 1]; }
        }
      }
    }
  }

  lemma SplitLacks(d: Bytes, c: byte)
    requires c != '/' && c !in d
    ensures LacksByte(Split(d, '/'), c)
  {
  }

  lemma RenderSpells(segs: seq<Bytes>, trailing: bool)
    requires Proper(segs)
    ensures Spells(Render(segs, trailing), segs)
    ensures SplitSegments(Render(segs, trailing)) == segs
  {
    if segs != [] {
      FlatIsJoin(segs);
    }
    SegmentsOf(Render(segs, trailing), segs);
  }

  lemma ResolvedNames(d: Bytes)
    requires '%' !in d && '\\' !in d && Resolve(Split(d, '/'), []).Some?
    ensures GoodNames(Resolve(Split(d, '/'), []).value)
  {
    var segs := Split(d, '/');
    SplitLacks(d, '%');
    SplitLacks(d, '\\');
    ResolveKeeps(segs, [], '%');
    ResolveKeeps(segs, [], '\\');
    assert LacksByte(segs, '/');
    ResolveKeeps(segs, [], '/');
    ResolveStrips(segs, []);
  }

  /** The pieces of a successful normalization. */
  lemma Anatomy(target: Bytes, path: Bytes) returns (d: Bytes, out: seq<Bytes>)
    requires Normalized(target) == Ok(path) && Cut(target) != []
    ensures Decoded(Cut(target)) == Ok(d) && '%' !in d && '\\' !in d
    ensures Resolve(Split(Rooted(d), '/'), []) == Some(out)
    ensures path == Render(out, EndsWith(Rooted(d), '/'))
    ensures GoodNames(out)
  {
    d := Decoded(Cut(target)).value;
    out := Resolve(Split(Rooted(d), '/'), []).value;
    ResolvedNames(Rooted(d));
  }

  /** The other way round: the stages, put together. */
  lemma Assemble(target: Bytes, d: Bytes, out: seq<Bytes>)
    requires Cut(target) != [] && NoControls(Cut(target)) && Decoded(Cut(target)) == Ok(d)
    requires '%' !in d && '\\' !in d
    requires Resolve(Split(Rooted(d), '/'), []) == Some(out)
    ensures Normalized(target) == Ok(Render(out, EndsWith(Rooted(d), '/')))
  {
  }

  lemma GoodIsProper(segs: seq<Bytes>)
    requires GoodNames(segs)
    ensures Proper(segs)
  {
  }

  /** Every normalized path is clean, and its segments are plain names: none empty, ".",
      "..", none carrying a parameter, an escape or a separator. */
  lemma NormalizedIsNormalForm(target: Bytes, path: Bytes)
    requires Normalized(target) == Ok(path)
    ensures CleanPath(path)
    ensures GoodNames(SplitSegments(path))
    ensures Spells(path, SplitSegments(path))
  {
    if Cut(target) == [] {
      RenderSpells([], false);
      SpelledIsClean(path, []);
    } else {
      var d, out := Anatomy(target, path);
      GoodIsProper(out);
      RenderSpells(out, EndsWith(Rooted(d), '/'));
      SpelledIsClean(path, out);
    }
  }

  /** NormalizePath accepts exactly the targets that survive the character checks and never
      climb above the root, and then returns the names no later ".." cancels. */
  lemma NormalizeMatchesBrackets(target: Bytes)
    requires Cut(target) != [] && NoControls(Cut(target)) && Decoded(Cut(target)).Ok?
    requires '%' !in Decoded(Cut(target)).value && '\\' !in Decoded(Cut(target)).value
    ensures var names := Names(Split(Rooted(Decoded(Cut(target)).value), '/'));
            && (Normalized(target).Err? <==> Climbs(names))
            && (Normalized(target).Err? ==> Normalized(target).error == EscapesRoot)
            && (Normalized(target).Ok? ==>
                  exists idx :: ListsUncancelled(names, idx) &&
                                PickedFrom(SplitSegments(Normalized(target).value), names, idx))
  {
    var d := Rooted(Decoded(Cut(target)).value);
    ResolveMatchesBrackets(Split(d, '/'));
    if Normalized(target).Ok? {
      ResolvedNames(d);
      var out := Resolve(Split(d, '/'), []).value;
      GoodIsProper(out);
      RenderSpells(out, EndsWith(d, '/'));
    }
  }

  /** A trailing slash is kept exactly when the decoded target had one, or nothing is left. */
  lemma NormalizeKeepsTrailingSlash(target: Bytes, path: Bytes)
    requires Normalized(target) == Ok(path) && Cut(target) != []
    ensures EndsWith(path, '/') <==>
            SplitSegments(path) == [] || EndsWith(Decoded(Cut(target)).value, '/')
  {
    var d, out := Anatomy(target, path);
    DecodedNotEmpty(Cut(target));
    RenderedEnd(d, out, path);
  }

  lemma RenderedEnd(d: Bytes, out: seq<Bytes>, path: Bytes)
    requires d != [] && GoodNames(out) && path == Render(out, EndsWith(Rooted(d), '/'))
    ensures EndsWith(path, '/') <==> SplitSegments(path) == [] || EndsWith(d, '/')
  {
    GoodIsProper(out);
    RenderSpells(out, EndsWith(Rooted(d), '/'));
    RenderEnds(out, EndsWith(Rooted(d), '/'));
    RootedKeepsEnd(d, []);
  }

  lemma RenderEnds(segs: seq<Bytes>, trailing: bool)
    requires Proper(segs)
    ensures EndsWith(Render(segs, trailing), '/') <==> segs == [] || trailing
  {
    if segs != [] {
      JoinEdges(segs);
    }
  }

  lemma DecodedNotEmpty(t: Bytes)
    requires t != [] && Decoded(t).Ok?
    ensures Decoded(t).value != []
  {
  }

  /** Nothing accepted is encoded twice: decoding the result once more changes nothing. */
  lemma AcceptedIsFullyDecoded(target: Bytes, path: Bytes)
    requires Normalized(target) == Ok(path)
    ensures Decoded(path) == Ok(path)
  {
    NormalizedIsNormalForm(target, path);
    SpelledLacks(path, SplitSegments(path));
    PlainIsUnchanged(path);
  }

  // ----- idempotence -----

  lemma {:induction false} ResolveNames(segs: seq<Bytes>, out: seq<Bytes>)
    requires GoodNames(segs)
    ensures Resolve(segs, out) == Some(out + segs)
  {
    if segs == [] {
      assert out + segs == out;
    } else {
      KeepsWholeName(segs[0]);
      ResolveNames(segs[1..], out + [segs[0]]);
      assert out + [segs[0]] + segs[1..] == out + segs;
    }
  }

  lemma KeepsWholeName(n: Bytes)
    requires ';' !in n
    ensures StripParams(n) == n
  {
  }

  lemma {:induction false} ResolveAppend(a: seq<Bytes>, b: seq<Bytes>, out: seq<Bytes>)
    ensures Resolve(a + b, out) ==
            match Resolve(a, out) { case None => None case Some(mid) => Resolve(b, mid) }
  {
    if a == [] {
      assert a + b == b;
    } else {
      assert (a + b)[1..] == a[1..] + b;
      var name := StripParams(a[0]);
      match KindOf(name) {
        case Skip => ResolveAppend(a[1..], b, out);
        case Up => if out != [] { ResolveAppend(a[1..], b, out[..|out| - 1]); }
        case Name => ResolveAppend(a[1..], b, out + [name]);
      }
    }
  }

  lemma ResolveEmptyPiece(out: seq<Bytes>)
    ensures Resolve([[]], out) == Some(out)
  {
  }

  lemma SplitOfFlat(segs: seq<Bytes>)
    requires Proper(segs)
    ensures Split(Flat(segs), '/') == [[]] + segs
  {
    if segs == [] {
      assert [[]] + segs == [[]];
    } else {
      FlatIsJoin(segs);
      SplitAppend([], '/', Join(segs, '/'));
      SplitJoin(segs, '/');
      assert [] + ['/'] + Join(segs, '/') == Flat(segs);
      assert Split([], '/') == [[]];
    }
  }

  lemma ResolveFlat(segs: seq<Bytes>)
    requires GoodNames(segs)
    ensures Resolve(Split(Flat(segs), '/'), []) == Some(segs)
    ensures Resolve(Split(Flat(segs) + "/", '/'), []) == Some(segs)
  {
    GoodIsProper(segs);
    SplitOfFlat(segs);
    ResolveEmptyPiece([]);
    ResolveNames(segs, []);
    assert [] + segs == segs;
    ResolveAppend([[]], segs, []);
    SplitAppend(Flat(segs), '/', []);
    assert Flat(segs) + ['/'] + [] == Flat(segs) + "/";
    assert Split([], '/') == [[]];
    ResolveAppend([[]] + segs, [[]], []);
    ResolveEmptyPiece(segs);
  }

  predicate ReadsAsPath(p: Bytes) {
    forall k :: 0 <= k < |p| ==> p[k] != '?' && p[k] != '#' && 0x20 <= p[k] as int != 0x7f
  }

  lemma CutIsWhole(p: Bytes)
    requires '?' !in p && '#' !in p
    ensures Cut(p) == p
  {
  }

  /** Query and fragment play no part: what follows the first "?" or "#" is not looked at. */
  lemma QueryIsDropped(a: Bytes, b: Bytes)
    ensures Normalized(a + "?" + b) == Normalized(a) == Normalized(a + "#" + b)
    ensures '?' !in a && '#' !in a ==> Cut(a) == a
  {
    CutStops(a, '?', b);
    CutStops(a, '#', b);
    if '?' !in a && '#' !in a {
      CutIsWhole(a);
    }
  }

  lemma {:induction false} CutStops(a: Bytes, mark: byte, b: Bytes)
    requires mark == '?' || mark == '#'
    ensures Cut(a + [mark] + b) == Cut(a)
  {
    if a != [] {
      assert (a + [mark] + b)[1..] == a[1..] + [mark] + b;
      CutStops(a[1..], mark, b);
    }
  }

  /** The first byte below 0x20, or 0x7f, stands at i. */
  predicate ControlAt(t: Bytes, i: nat) {
    && i < |t| && (t[i] as int < 0x20 || t[i] as int == 0x7f)
    && forall j :: 0 <= j < i ==> 0x20 <= t[j] as int != 0x7f
  }

  predicate Printable(t: Bytes) {
    forall k :: 0 <= k < |t| ==> 0x20 <= t[k] as int != 0x7f
  }

  /** What is refused, in order: a control byte, the first one named; a bad escape; an escape
      left after decoding; a backslash; climbing above the root. */
  lemma RefusalsInOrder(t: Bytes, i: nat)
    requires t != [] && '?' !in t && '#' !in t
    ensures Normalized(t) == Err(ControlByte(i)) <==> ControlAt(t, i)
    ensures Printable(t) ==>
              match Decoded(t)
              case Err(e) => Normalized(t) == Err(e)
              case Ok(d) =>
                if '%' in d then Normalized(t) == Err(DoubleEncoded)
                else if '\\' in d then Normalized(t) == Err(Backslash)
                else Normalized(t) == Err(EscapesRoot) || Normalized(t).Ok?
  {
    CutIsWhole(t);
    ControlAtMeans(t, i);
    if NoControls(t) {
      EscapesAreNoControls(t);
      StagesAfterControls(t);
    }
  }

  lemma ControlAtMeans(t: Bytes, i: nat)
    ensures ControlAt(t, i) <==> !NoControls(t) && FirstControl(t) == i
    ensures Printable(t) <==> NoControls(t)
  {
    if !NoControls(t) {
      var first := FirstControl(t);
      assert forall j :: 0 <= j < first ==> t[..first][j] == t[j];
    }
  }

  lemma StagesAfterControls(t: Bytes)
    requires t != [] && Cut(t) == t && NoControls(t)
    ensures Decoded(t).Err? ==> Normalized(t) == Err(Decoded(t).error)
    ensures Decoded(t).Ok? ==>
              var d := Decoded(t).value;
              if '%' in d then Normalized(t) == Err(DoubleEncoded)
              else if '\\' in d then Normalized(t) == Err(Backslash)
              else Normalized(t) == Err(EscapesRoot) || Normalized(t).Ok?
  {
  }

  lemma {:induction false} EscapesAreNoControls(t: Bytes)
    ensures Decoded(t).Err? ==> !Decoded(t).error.ControlByte?
  {
    if t != [] {
      if t[0] != '%' {
        EscapesAreNoControls(t[1..]);
      } else if |t| >= 3 {
        EscapesAreNoControls(t[3..]);
      }
    }
  }

  // ----- parameters -----

  /** Nothing a stage before dot resolution acts on. */
  predicate PlainText(t: Bytes) {
    Printable(t) && '?' !in t && '#' !in t && '%' !in t && '\\' !in t
  }

  lemma {:induction false} ResolveByNames(a: seq<Bytes>, b: seq<Bytes>, out: seq<Bytes>)
    requires Names(a) == Names(b)
    ensures Resolve(a, out) == Resolve(b, out)
  {
    assert |Names(a)| == |a| && |Names(b)| == |b|;
    if a != [] {
      assert Names(a)[0] == StripParams(a[0]) && Names(b)[0] == StripParams(b[0]);
      assert Names(a[1..]) == Names(a)[1..] == Names(b)[1..] == Names(b[1..]);
      match KindOf(StripParams(a[0])) {
        case Skip => ResolveByNames(a[1..], b[1..], out);
        case Up => if out != [] { ResolveByNames(a[1..], b[1..], out[..|out| - 1]); }
        case Name => ResolveByNames(a[1..], b[1..], out + [StripParams(a[0])]);
      }
    }
  }

  /** Text without a slash goes to the end of the last piece. */
  lemma SplitExtend(x: Bytes, w: Bytes) returns (front: seq<Bytes>, last: Bytes)
    requires '/' !in w
    ensures Split(x, '/') == front + [last] && Split(x + w, '/') == front + [last + w]
  {
    var pieces := Split(x, '/');
    front, last := pieces[..|pieces| - 1], pieces[|pieces| - 1];
    assert pieces == front + [last];
    if front == [] {
      assert Join(pieces, '/') == last;
      SplitOfPiece(last + w, '/');
    } else {
      JoinAppend(front, [last], '/');
      LastPieceGrows(front, last, w);
    }
  }

  lemma LastPieceGrows(front: seq<Bytes>, last: Bytes, w: Bytes)
    requires front != [] && '/' !in last + w
    requires forall k :: 0 <= k < |front| ==> '/' !in front[k]
    ensures Split(Join(front, '/') + ['/'] + last + w, '/') == front + [last + w]
  {
    assert Join(front, '/') + ['/'] + last + w == Join(front, '/') + ['/'] + (last + w);
    SplitAppend(Join(front, '/'), '/', last + w);
    SplitJoin(front, '/');
    SplitOfPiece(last + w, '/');
  }

  lemma {:induction false} StripStops(name: Bytes, p: Bytes)
    ensures StripParams(name + [';'] + p) == StripParams(name)
  {
    if name != [] {
      assert (name + [';'] + p)[1..] == name[1..] + [';'] + p;
      StripStops(name[1..], p);
    }
  }

  lemma NamesAppend(a: seq<Bytes>, b: seq<Bytes>)
    ensures Names(a + b) == Names(a) + Names(b)
  {
  }

  lemma NamesOfOne(name: Bytes)
    ensures Names([name]) == [StripParams(name)]
  {
  }

  lemma SameNames(x: Bytes, w: Bytes)
    requires w != [] && w[0] == ';' && '/' !in w
    ensures Names(Split(x + w, '/')) == Names(Split(x, '/'))
  {
    var front, last := SplitExtend(x, w);
    SameLastName(front, last, w);
  }

  lemma SameLastName(front: seq<Bytes>, last: Bytes, w: Bytes)
    requires w != [] && w[0] == ';'
    ensures Names(front + [last + w]) == Names(front + [last])
  {
    StripStops(last, w[1..]);
    assert last + w == last + [';'] + w[1..];
    NamesAppend(front, [last]);
    NamesAppend(front, [last + w]);
    NamesOfOne(last);
    NamesOfOne(last + w);
  }

  lemma SameNamesBefore(x: Bytes, w: Bytes, rest: Bytes)
    requires Names(Split(x + w, '/')) == Names(Split(x, '/'))
    ensures Names(Split(x + w + ['/'] + rest, '/')) == Names(Split(x + ['/'] + rest, '/'))
  {
    SplitAppend(x + w, '/', rest);
    SplitAppend(x, '/', rest);
    NamesAppend(Split(x + w, '/'), Split(rest, '/'));
    NamesAppend(Split(x, '/'), Split(rest, '/'));
  }

  /** A path parameter is dropped from its own segment, and nothing else changes: the dot
      segments, the names and the trailing slash stay as they were. */
  lemma ParameterIsDropped(x: Bytes, p: Bytes, y: Bytes)
    requires "/" <= x && PlainText(x) && PlainText(p) && PlainText(y) && '/' !in p
    requires "/" <= y || (y == [] && !EndsWith(x, '/'))
    ensures Normalized(x + (";" + p) + y) == Normalized(x + y)
  {
    var w := ";" + p;
    PlainAppend(";", p);
    SameNames(x, w);
    PlainInside(x, w, y);
    DropInside(x, w, y);
  }

  lemma PlainInside(x: Bytes, w: Bytes, y: Bytes)
    requires "/" <= x && PlainText(x) && PlainText(w) && PlainText(y)
    ensures Normalized(x + w + y) == Resolved(x + w + y)
    ensures Normalized(x + y) == Resolved(x + y)
  {
    PlainAppend(x, w);
    PlainAppend(x + w, y);
    PlainAppend(x, y);
    PlainResolves(x + w + y);
    PlainResolves(x + y);
  }

  lemma PlainAppend(a: Bytes, b: Bytes)
    requires PlainText(a) && PlainText(b)
    ensures PlainText(a + b)
  {
  }

  lemma DropInside(x: Bytes, w: Bytes, y: Bytes)
    requires Names(Split(x + w, '/')) == Names(Split(x, '/')) && w != [] && '/' !in w
    requires "/" <= y || (y == [] && !EndsWith(x, '/'))
    ensures Resolved(x + w + y) == Resolved(x + y)
  {
    if y == [] {
      DropAtEnd(x, w);
      assert x + w + y == x + w && x + y == x;
    } else {
      assert x + w + y == x + w + ['/'] + y[1..] && x + y == x + ['/'] + y[1..];
      SameNamesBefore(x, w, y[1..]);
      DropBefore(x + w, x, y[1..]);
    }
  }

  lemma DropAtEnd(x: Bytes, w: Bytes)
    requires Names(Split(x + w, '/')) == Names(Split(x, '/')) && w != [] && '/' !in w && !EndsWith(x, '/')
    ensures Resolved(x + w) == Resolved(x)
  {
    assert (x + w)[|x + w| - 1] == w[|w| - 1];
    SameResolved(x + w, x);
  }

  lemma DropBefore(a: Bytes, b: Bytes, rest: Bytes)
    requires Names(Split(a + ['/'] + rest, '/')) == Names(Split(b + ['/'] + rest, '/'))
    ensures Resolved(a + ['/'] + rest) == Resolved(b + ['/'] + rest)
  {
    SameEnd(a, b, rest);
    SameResolved(a + ['/'] + rest, b + ['/'] + rest);
  }

  lemma SameResolved(a: Bytes, b: Bytes)
    requires Names(Split(a, '/')) == Names(Split(b, '/'))
    requires EndsWith(a, '/') <==> EndsWith(b, '/')
    ensures Resolved(a) == Resolved(b)
  {
    ResolveByNames(Split(a, '/'), Split(b, '/'), []);
  }

  lemma SameEnd(a: Bytes, b: Bytes, rest: Bytes)
    ensures EndsWith(a + ['/'] + rest, '/') <==> EndsWith(b + ['/'] + rest, '/')
  {
    EndOfSum(a + ['/'], rest);
    EndOfSum(b + ['/'], rest);
  }

  lemma EndOfSum(a: Bytes, b: Bytes)
    requires EndsWith(a, '/')
    ensures EndsWith(a + b, '/') <==> b == [] || EndsWith(b, '/')
  {
  }

  lemma PlainResolves(t: Bytes)
    requires "/" <= t && PlainText(t)
    ensures Normalized(t) == Resolved(t)
  {
    CutIsWhole(t);
    PlainIsUnchanged(t);
    assert NoControls(t);
    assert Rooted(t) == t;
  }

  lemma FlatLacks(segs: seq<Bytes>, c: byte)
    requires c != '/' && LacksByte(segs, c)
    ensures c !in Flat(segs)
  {
  }

  lemma SpelledLacks(p: Bytes, segs: seq<Bytes>)
    requires Spells(p, segs) && GoodNames(segs)
    ensures '%' !in p && '\\' !in p
  {
    FlatLacks(segs, '%');
    FlatLacks(segs, '\\');
  }

  lemma RenderAgain(p: Bytes, segs: seq<Bytes>)
    requires Spells(p, segs) && Proper(segs)
    ensures p == Render(segs, EndsWith(p, '/'))
  {
    if segs != [] {
      FlatIsJoin(segs);
      FlatLast(segs);
    }
    assert p == Flat(segs) + "/" ==> p[|p| - 1..] == "/";
  }

  lemma RenormalizeSpelled(p: Bytes, segs: seq<Bytes>)
    requires Spells(p, segs) && GoodNames(segs) && ReadsAsPath(p)
    ensures Normalized(p) == Ok(p)
  {
    CutIsWhole(p);
    SpelledLacks(p, segs);
    PlainIsUnchanged(p);
    SpelledIsClean(p, segs);
    assert Rooted(p) == p;
    ResolveFlat(segs);
    Assemble(p, p, segs);
    RenderAgain(p, segs);
  }

  /** Without escapes, no byte other than "/" appears in the result that was not in the cut target. */
  lemma NormalizedBytes(target: Bytes, path: Bytes, c: byte)
    requires Normalized(target) == Ok(path) && '%' !in target
    requires c != '/' && c !in Cut(target)
    ensures c !in path
  {
    if Cut(target) != [] {
      var d, out := Anatomy(target, path);
      PlainIsUnchanged(Cut(target));
      SplitLacks(Rooted(d), c);
      ResolveKeeps(Split(Rooted(d), '/'), [], c);
      JoinLacks(out, c);
    }
  }

  /** Normalizing a normalized path changes nothing exactly when it holds no "?", "#" or
      control byte - which it can, since escapes may decode to them. */
  lemma NormalizeIdempotent(target: Bytes, path: Bytes)
    requires Normalized(target) == Ok(path)
    ensures Normalized(path) == Ok(path) <==> ReadsAsPath(path)
  {
    NormalizedIsNormalForm(target, path);
    var segs := SplitSegments(path);
    if ReadsAsPath(path) {
      RenormalizeSpelled(path, segs);
    }
    if Normalized(path) == Ok(path) {
      SpelledLacks(path, segs);
      if '?' in path { NormalizedBytes(path, path, '?'); }
      if '#' in path { NormalizedBytes(path, path, '#'); }
      CutIsWhole(path);
    }
  }

  /** Such paths exist: "/a%3Fb" normalizes to "/a?b", which does not normalize to itself. */
  lemma EscapedQueryIsNotStable(target: Bytes, path: Bytes)
    requires target == "/a%3Fb" && path == "/a?b"
    ensures Normalized(target) == Ok(path) && Normalized(path) != Ok(path)
  {
    EscapedQueryDecodes(target, path);
    CutIsWhole(target);
    OneNamePath(target, path, path[1..]);
    assert path[2] == '?';
    NormalizeIdempotent(target, path);
  }

  lemma OneNamePath(target: Bytes, path: Bytes, name: Bytes)
    requires target != [] && Cut(target) == target && NoControls(target) && Decoded(target) == Ok(path)
    requires path == "/" + name && GoodName(name)
    ensures Normalized(target) == Ok(path)
  {
    var segs := [name];
    assert Flat(segs) == path;
    SpelledLacks(path, segs);
    ResolveFlat(segs);
    Assemble(target, path, segs);
    RenderAgain(path, segs);
  }

  lemma EscapedQueryDecodes(coded: Bytes, s: Bytes)
    requires coded == "/a%3Fb" && s == "/a?b"
    ensures Decoded(coded) == Ok(s)
  {
    var how := [Literal, Literal, Escape(true, true), Literal];
    assert Encode(s[3..], how[3..]) == "b";
    assert Encode(s[2..], how[2..]) == "%3Fb";
    assert Encode(s[1..], how[1..]) == "a%3Fb";
    assert Encode(s, how) == coded;
    DecodeUndoesEncode(s, how);
  }

  // ----- confinement -----

  predicate SafeNames(segs: seq<Bytes>) {
    GoodNames(segs) && forall k :: 0 <= k < |segs| ==> ReadsAsPath(segs[k])
  }

  lemma {:induction false} ResolveOnTop(segs: seq<Bytes>, base: seq<Bytes>, out: seq<Bytes>)
    requires Resolve(segs, out).Some?
    ensures Resolve(segs, base + out) == Some(base + Resolve(segs, out).value)
  {
    if segs != [] {
      var name := StripParams(segs[0]);
      match KindOf(name) {
        case Skip => ResolveOnTop(segs[1..], base, out);
        case Up =>
          assert (base + out)[..|base + out| - 1] == base + out[..|out| - 1];
          ResolveOnTop(segs[1..], base, out[..|out| - 1]);
        case Name =>
          assert base + out + [name] == base + (out + [name]);
          ResolveOnTop(segs[1..], base, out + [name]);
      }
    }
  }

  lemma {:induction false} CutAppend(a: Bytes, b: Bytes)
    requires '?' !in a && '#' !in a
    ensures Cut(a + b) == a + Cut(b)
  {
    if a == [] {
      assert a + b == b;
    } else {
      assert (a + b)[1..] == a[1..] + b;
      CutAppend(a[1..], b);
    }
  }

  lemma {:induction false} DecodeAfterPlain(a: Bytes, b: Bytes)
    requires '%' !in a
    ensures Decoded(a + b) == Prepend(a, Decoded(b))
  {
    if a == [] {
      assert a + b == b;
      PrependTwice([], [], Decoded(b));
    } else {
      assert (a + b)[1..] == a[1..] + b;
      DecodeAfterPlain(a[1..], b);
      PrependTwice([a[0]], a[1..], Decoded(b));
      assert a == [a[0]] + a[1..];
    }
  }

  lemma {:induction false} FlatReadsAsPath(segs: seq<Bytes>)
    requires SafeNames(segs)
    ensures ReadsAsPath(Flat(segs))
  {
    if segs != [] {
      FlatReadsAsPath(segs[1..]);
      assert ReadsAsPath(segs[0]);
    }
  }

  /** Resolving below a base adds the base in front. */
  lemma ResolveBelow(base: seq<Bytes>, d: Bytes, out: seq<Bytes>)
    requires GoodNames(base)
    requires Resolve(Split(Rooted(d), '/'), []) == Some(out)
    ensures Resolve(Split(Flat(base) + "/" + d, '/'), []) == Some(base + out)
  {
    var front := Split(Flat(base), '/');
    assert Flat(base) + ['/'] + d == Flat(base) + "/" + d;
    SplitAppend(Flat(base), '/', d);
    ResolveFlat(base);
    ResolveAppend(front, Split(d, '/'), []);
    assert Resolve(Split(d, '/'), []) == Some(out) by {
      if d == [] || d[0] != '/' {
        assert Rooted(d) == [] + ['/'] + d;
        SplitAppend([], '/', d);
        assert Split([], '/') == [[]];
        ResolveEmptyPiece([]);
        ResolveAppend([[]], Split(d, '/'), []);
      }
    }
    ResolveOnTop(Split(d, '/'), base, []);
    assert base + [] == base;
  }

  /** What r decodes and resolves to, also when nothing is left of it before its query. */
  lemma AnatomyOrRoot(r: Bytes, path: Bytes) returns (d: Bytes, out: seq<Bytes>)
    requires Normalized(r) == Ok(path)
    ensures NoControls(Cut(r)) && Decoded(Cut(r)) == Ok(d) && '%' !in d && '\\' !in d
    ensures Resolve(Split(Rooted(d), '/'), []) == Some(out)
    ensures GoodNames(out) && SplitSegments(path) == out
  {
    if Cut(r) == [] {
      d, out := [], [];
      SplitAppend([], '/', []);
      assert [] + ['/'] + [] == Rooted(d);
      assert Split([], '/') == [[]];
      ResolveAppend([[]], [[]], []);
      ResolveEmptyPiece([]);
      RenderSpells([], false);
    } else {
      d, out := Anatomy(r, path);
      RenderSpells(out, EndsWith(Rooted(d), '/'));
    }
  }

  lemma StagesBelow(base: seq<Bytes>, r: Bytes, d: Bytes, out: seq<Bytes>) returns (below: Bytes)
    requires SafeNames(base) && NoControls(Cut(r))
    requires Decoded(Cut(r)) == Ok(d) && '%' !in d && '\\' !in d
    requires Resolve(Split(Rooted(d), '/'), []) == Some(out) && GoodNames(out)
    ensures Normalized(Flat(base) + "/" + r) == Ok(below)
    ensures SplitSegments(below) == base + out
  {
    var whole := Flat(base) + "/" + d;
    BelowStages(base, r, d);
    ResolveBelow(base, d, out);
    RootedFlat(base, d);
    Assemble(Flat(base) + "/" + r, whole, base + out);
    below := Render(base + out, EndsWith(whole, '/'));
    RenderSpells(base + out, EndsWith(whole, '/'));
  }

  /** A target that normalizes by itself, appended below a clean prefix, normalizes to the
      prefix's segments followed by its own: it cannot leave the prefix. */
  lemma NormalizeStaysBelow(base: seq<Bytes>, r: Bytes, path: Bytes) returns (below: Bytes)
    requires SafeNames(base) && Normalized(r) == Ok(path)
    ensures Normalized(Flat(base) + "/" + r) == Ok(below)
    ensures SplitSegments(below) == base + SplitSegments(path)
  {
    var d, out := AnatomyOrRoot(r, path);
    below := StagesBelow(base, r, d, out);
  }

  lemma RootedFlat(base: seq<Bytes>, d: Bytes)
    ensures Rooted(Flat(base) + "/" + d) == Flat(base) + "/" + d
  {
  }

  /** The stages before dot resolution pass a clean prefix through. */
  lemma BelowStages(base: seq<Bytes>, r: Bytes, d: Bytes)
    requires SafeNames(base) && NoControls(Cut(r))
    requires Decoded(Cut(r)) == Ok(d) && '%' !in d && '\\' !in d
    ensures var t := Cut(Flat(base) + "/" + r);
            && t != [] && NoControls(t) && Decoded(t) == Ok(Flat(base) + "/" + d)
    ensures '%' !in Flat(base) + "/" + d && '\\' !in Flat(base) + "/" + d
  {
    var front := Flat(base) + "/";
    FlatReadsAsPath(base);
    FlatLacks(base, '%');
    FlatLacks(base, '\\');
    CutAppend(front, r);
    DecodeAfterPlain(front, Cut(r));
  }

  /** So a prefix rule on the base grants it: every request that normalizes to the base's
      segments followed by anything, whatever dots and escapes spelled it. */
  lemma PrefixRuleStillMatches(base: seq<Bytes>, rest: seq<Bytes>, target: Bytes, path: Bytes)
    requires GoodNames(base) && LacksByte(base, '*')
    requires Normalized(target) == Ok(path) && SplitSegments(path) == base + rest
    ensures PathMatches(Flat(base), false, path)
  {
    NormalizedIsNormalForm(target, path);
    RuleOnBase(base, rest, path);
  }

  lemma RuleOnBase(base: seq<Bytes>, rest: seq<Bytes>, path: Bytes)
    requires GoodNames(base) && LacksByte(base, '*')
    requires CleanPath(path) && SplitSegments(path) == base + rest
    ensures PathMatches(Flat(base), false, path)
  {
    FlatLacks(base, '*');
    GoodIsProper(base);
    var p := Rooted(Flat(base));
    assert base != [] ==> p == Flat(base);
    SegmentsOf(p, base);
    SpelledIsClean(p, base);
    LiteralPatternMeansSegments(Flat(base), false, path);
  }
}
