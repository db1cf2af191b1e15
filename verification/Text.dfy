/** Byte strings and the handful of string operations the relay's policy code is
    written in.  A Go string is a sequence of bytes; a byte is written here as the
    character with that code, so that literals stay readable. */
module Text {

  type byte = c: char | c as int < 256 witness 'a'
  type Bytes = seq<byte>

  datatype Option<+T> = None | Some(value: T)

  predicate HasSuffix(s: Bytes, suffix: Bytes) {
    |suffix| <= |s| && s[|s| - |suffix|..] == suffix
  }

  predicate EndsWith(s: Bytes, c: byte) {
    s != [] && s[|s| - 1] == c
  }

  /** strings.TrimSuffix with a one-byte suffix: at most one byte goes. */
  function DropEnd(s: Bytes, c: byte): Bytes {
    if EndsWith(s, c) then s[..|s| - 1] else s
  }

  /** The first position at or after i that holds no byte of cut. */
  function KeepFrom(s: Bytes, cut: byte -> bool, i: nat): (k: nat)
    requires i <= |s|
    ensures i <= k <= |s|
    decreases |s| - i
  {
    if i < |s| && cut(s[i]) then KeepFrom(s, cut, i + 1) else i
  }

  /** The end of what is left between i and j once trailing bytes of cut are dropped. */
  function KeepTo(s: Bytes, cut: byte -> bool, i: nat, j: nat): (k: nat)
    requires i <= j <= |s|
    ensures i <= k <= j
    decreases j
  {
    if i < j && cut(s[j - 1]) then KeepTo(s, cut, i, j - 1) else j
  }

  function Trim(s: Bytes, cut: byte -> bool): Bytes {
    var i := KeepFrom(s, cut, 0);
    s[i..KeepTo(s, cut, i, |s|)]
  }

  lemma {:induction false} KeepFromIs(s: Bytes, cut: byte -> bool, i: nat, k: nat)
    requires i <= k <= |s|
    requires forall m :: i <= m < k ==> cut(s[m])
    requires k < |s| ==> !cut(s[k])
    ensures KeepFrom(s, cut, i) == k
    decreases k - i
  {
    if i < k {
      KeepFromIs(s, cut, i + 1, k);
    }
  }

  lemma {:induction false} KeepToIs(s: Bytes, cut: byte -> bool, i: nat, j: nat, k: nat)
    requires i <= k <= j <= |s|
    requires forall m :: k <= m < j ==> cut(s[m])
    requires i < k ==> !cut(s[k - 1])
    ensures KeepTo(s, cut, i, j) == k
    decreases j
  {
    if k < j {
      KeepToIs(s, cut, i, j - 1, k);
    }
  }

  lemma {:induction false} KeepFromStops(s: Bytes, cut: byte -> bool, i: nat)
    requires i <= |s|
    ensures KeepFrom(s, cut, i) < |s| ==> !cut(s[KeepFrom(s, cut, i)])
    decreases |s| - i
  {
    if i < |s| && cut(s[i]) {
      KeepFromStops(s, cut, i + 1);
    }
  }

  lemma {:induction false} KeepToStops(s: Bytes, cut: byte -> bool, i: nat, j: nat)
    requires i <= j <= |s|
    ensures i < KeepTo(s, cut, i, j) ==> !cut(s[KeepTo(s, cut, i, j) - 1])
    decreases j
  {
    if i < j && cut(s[j - 1]) {
      KeepToStops(s, cut, i, j - 1);
    }
  }

  lemma {:induction false} KeepToDrops(s: Bytes, cut: byte -> bool, i: nat, j: nat)
    requires i <= j <= |s|
    ensures forall m :: KeepTo(s, cut, i, j) <= m < j ==> cut(s[m])
    decreases j
  {
    if i < j && cut(s[j - 1]) {
      KeepToDrops(s, cut, i, j - 1);
    }
  }

  lemma TrimEdges(s: Bytes, cut: byte -> bool)
    ensures var t := Trim(s, cut); t != [] ==> !cut(t[0]) && !cut(t[|t| - 1])
  {
    KeepFromStops(s, cut, 0);
    KeepToStops(s, cut, KeepFrom(s, cut, 0), |s|);
  }

  /** Trim keeps exactly what stands between the outermost bytes not in cut. */
  lemma TrimIs(s: Bytes, cut: byte -> bool, i: nat, j: nat)
    requires i < j <= |s| && !cut(s[i]) && !cut(s[j - 1])
    requires forall m :: 0 <= m < |s| && !(i <= m < j) ==> cut(s[m])
    ensures Trim(s, cut) == s[i..j]
  {
    KeepFromIs(s, cut, 0, i);
    KeepToIs(s, cut, i, |s|, j);
  }

  lemma TrimAll(s: Bytes, cut: byte -> bool)
    requires forall m :: 0 <= m < |s| ==> cut(s[m])
    ensures Trim(s, cut) == []
  {
    KeepFromIs(s, cut, 0, |s|);
  }

  lemma {:induction false} KeepToAppend(x: Bytes, e: Bytes, cut: byte -> bool, j: nat)
    requires e != [] && !cut(e[0]) && 0 < j <= |e|
    ensures KeepTo(x + e, cut, 0, |x| + j) == |x| + KeepTo(e, cut, 0, j)
    ensures 0 < KeepTo(e, cut, 0, j)
    decreases j
  {
    assert (x + e)[|x| + j - 1] == e[j - 1];
    if cut(e[j - 1]) {
      KeepToAppend(x, e, cut, j - 1);
    }
  }

  lemma TakeOfAppend(x: Bytes, e: Bytes, n: nat)
    requires n <= |e|
    ensures (x + e)[..|x| + n] == x + e[..n]
  {
  }

  /** Trimming looks no further back than the last byte that stands. */
  lemma TrimAppend(x: Bytes, e: Bytes, cut: byte -> bool, end: nat)
    requires x != [] && !cut(x[0]) && e != [] && !cut(e[0])
    requires end == KeepTo(e, cut, 0, |e|)
    ensures 0 < end <= |e| && Trim(x + e, cut) == (x + e)[..|x| + end] == x + e[..end]
  {
    KeepToAppend(x, e, cut, |e|);
    TrimTo(x + e, cut, |x| + end);
    TakeOfAppend(x, e, end);
  }

  lemma TrimTo(s: Bytes, cut: byte -> bool, j: nat)
    requires s != [] && !cut(s[0]) && j == KeepTo(s, cut, 0, |s|)
    ensures Trim(s, cut) == s[..j]
  {
  }

  /** The pieces of s between occurrences of sep; always at least one piece. */
  function Split(s: Bytes, sep: byte): (pieces: seq<Bytes>)
    ensures |pieces| >= 1
    ensures forall k :: 0 <= k < |pieces| ==> sep !in pieces[k]
    ensures Join(pieces, sep) == s
  {
    if s == [] then [[]]
    else
      var rest := Split(s[1..], sep);
      if s[0] == sep then
        [[]] + rest
      else
        assert ([[s[0]] + rest[0]] + rest[1..])[1..] == rest[1..];
        [[s[0]] + rest[0]] + rest[1..]
  }

  function Join(pieces: seq<Bytes>, sep: byte): Bytes {
    if pieces == [] then []
    else if |pieces| == 1 then pieces[0]
    else pieces[0] + [sep] + Join(pieces[1..], sep)
  }

  lemma SplitOfPiece(s: Bytes, sep: byte)
    requires sep !in s
    ensures Split(s, sep) == [s]
  {
  }

  lemma {:induction false} SplitAppend(a: Bytes, sep: byte, b: Bytes)
    ensures Split(a + [sep] + b, sep) == Split(a, sep) + Split(b, sep)
  {
    if a == [] {
      assert a + [sep] + b == [sep] + b;
      assert ([sep] + b)[1..] == b;
    } else {
      assert (a + [sep] + b)[1..] == a[1..] + [sep] + b;
      SplitAppend(a[1..], sep, b);
      LongerFirst(a[0], Split(a[1..], sep), Split(b, sep));
    }
  }

  lemma LongerFirst(c: byte, a: seq<Bytes>, b: seq<Bytes>)
    requires a != []
    ensures [[c] + (a + b)[0]] + (a + b)[1..] == [[c] + a[0]] + a[1..] + b
    ensures [[]] + (a + b) == [[]] + a + b
  {
    assert (a + b)[1..] == a[1..] + b;
  }

  /** Split undoes Join on any non-empty list of separator-free pieces. */
  lemma {:induction false} SplitJoin(pieces: seq<Bytes>, sep: byte)
    requires pieces != []
    requires forall k :: 0 <= k < |pieces| ==> sep !in pieces[k]
    ensures Split(Join(pieces, sep), sep) == pieces
  {
    if |pieces| == 1 {
      SplitOfPiece(pieces[0], sep);
    } else {
      SplitAppend(pieces[0], sep, Join(pieces[1..], sep));
      SplitOfPiece(pieces[0], sep);
      SplitJoin(pieces[1..], sep);
      assert pieces == [pieces[0]] + pieces[1..];
    }
  }

  lemma {:induction false} JoinAppend(a: seq<Bytes>, b: seq<Bytes>, sep: byte)
    requires a != [] && b != []
    ensures Join(a + b, sep) == Join(a, sep) + [sep] + Join(b, sep)
  {
    if |a| == 1 {
      assert (a + b)[1..] == b;
    } else {
      assert (a + b)[1..] == a[1..] + b;
      JoinAppend(a[1..], b, sep);
    }
  }

  function Flatten<T>(runs: seq<seq<T>>): seq<T> {
    if runs == [] then [] else runs[0] + Flatten(runs[1..])
  }

  lemma {:induction false} FlattenSnoc<T>(runs: seq<seq<T>>, run: seq<T>)
    ensures Flatten(runs + [run]) == Flatten(runs) + run
  {
    if runs == [] {
      assert runs + [run] == [run] && [run][1..] == [];
    } else {
      assert (runs + [run])[1..] == runs[1..] + [run];
      FlattenSnoc(runs[1..], run);
    }
  }

  /** Byte order on strings, as Go's < on strings. */
  predicate LexLess(a: Bytes, b: Bytes) {
    b != [] && (a == [] || a[0] < b[0] || (a[0] == b[0] && LexLess(a[1..], b[1..])))
  }

  /** a and b agree on their first k bytes, and there a ends or has the smaller byte. */
  predicate EarlierAt(a: Bytes, b: Bytes, k: nat) {
    k <= |a| && k < |b| && a[..k] == b[..k] && (k == |a| || a[k] as int < b[k] as int)
  }

  ghost predicate EarlierName(a: Bytes, b: Bytes) {
    exists k: nat :: EarlierAt(a, b, k)
  }

  /** Byte order is decided by the first byte that differs, a shorter string coming before
      its continuations. */
  lemma {:induction false} LexLessMeans(a: Bytes, b: Bytes)
    ensures LexLess(a, b) <==> EarlierName(a, b)
  {
    if a != [] && b != [] && a[0] == b[0] {
      LexLessMeans(a[1..], b[1..]);
      if k: nat :| EarlierAt(a[1..], b[1..], k) {
        assert a[..k + 1] == [a[0]] + a[1..][..k] && b[..k + 1] == [b[0]] + b[1..][..k];
        assert EarlierAt(a, b, k + 1);
      }
      if k: nat :| EarlierAt(a, b, k) {
        assert k > 0;
        assert a[1..][..k - 1] == a[..k][1..] && b[1..][..k - 1] == b[..k][1..];
        assert EarlierAt(a[1..], b[1..], k - 1);
      }
    } else if LexLess(a, b) {
      assert EarlierAt(a, b, 0);
    } else {
      forall k: nat ensures !EarlierAt(a, b, k) {
        if k > 0 && k <= |a| && k < |b| { assert a[..k][0] == a[0] && b[..k][0] == b[0]; }
      }
    }
  }

  lemma {:induction false} LexTrichotomy(a: Bytes, b: Bytes)
    ensures a == b ==> !LexLess(a, b)
    ensures a != b ==> (LexLess(a, b) <==> !LexLess(b, a))
  {
    if a != [] && b != [] && a[0] == b[0] {
      LexTrichotomy(a[1..], b[1..]);
      assert a == [a[0]] + a[1..] && b == [b[0]] + b[1..];
    }
  }

  lemma {:induction false} LexTransitive(a: Bytes, b: Bytes, c: Bytes)
    requires LexLess(a, b) && LexLess(b, c)
    ensures LexLess(a, c)
  {
    if a != [] && a[0] == b[0] == c[0] {
      LexTransitive(a[1..], b[1..], c[1..]);
    }
  }
}
