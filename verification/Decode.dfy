/** decodeOnce: one percent-decoding pass, its inverse encoders, and why decoding and
    splitting at "/" can be done in either order. */
module Decode {
  import opened Text

  /** Why a request target is refused; every one is ErrMalformedPath to the caller. */
  datatype PathError =
    | ControlByte(offset: nat)
    | TruncatedEscape
    | InvalidEscape
    | EncodedSeparator
    | EncodedNul
    | DoubleEncoded
    | Backslash
    | EscapesRoot

  datatype Result<+T> = Ok(value: T) | Err(error: PathError)

  function Unhex(c: byte): Option<nat> {
    if '0' <= c <= '9' then Some(c as int - '0' as int)
    else if 'a' <= c <= 'f' then Some(c as int - 'a' as int + 10)
    else if 'A' <= c <= 'F' then Some(c as int - 'A' as int + 10)
    else None
  }

  /** The byte written by the two characters after a "%". */
  function EscapedByte(hi: byte, lo: byte): Result<byte> {
    match (Unhex(hi), Unhex(lo))
    case (Some(h), Some(l)) =>
      var c := h * 16 + l;
      if c == '/' as int || c == '\\' as int then Err(EncodedSeparator)
      else if c == 0 then Err(EncodedNul)
      else Ok(c as char)
    case (_, _) => Err(InvalidEscape)
  }

  function Prepend(b: Bytes, r: Result<Bytes>): Result<Bytes> {
    match r
    case Ok(v) => Ok(b + v)
    case Err(_) => r
  }

  function Decoded(s: Bytes): Result<Bytes> {
    if s == [] then Ok([])
    else if s[0] != '%' then Prepend([s[0]], Decoded(s[1..]))
    else if |s| < 3 then Err(TruncatedEscape)
    else
      match EscapedByte(s[1], s[2])
      case Ok(c) => Prepend([c], Decoded(s[3..]))
      case Err(e) => Err(e)
  }

  lemma {:induction false} PlainIsUnchanged(s: Bytes)
    requires '%' !in s
    ensures Decoded(s) == Ok(s)
  {
    if s != [] {
      PlainIsUnchanged(s[1..]);
      assert [s[0]] + s[1..] == s;
    }
  }

  lemma PrependTwice(a: Bytes, b: Bytes, r: Result<Bytes>)
    ensures Prepend(a, Prepend(b, r)) == Prepend(a + b, r)
    ensures Prepend([], r) == r
  {
    if r.Ok? {
      assert a + (b + r.value) == a + b + r.value;
      assert [] + r.value == r.value;
    }
  }

  method DecodeOnce(s: Bytes) returns (r: Result<Bytes>)
    ensures r == Decoded(s)
  {
    if '%' !in s {
      PlainIsUnchanged(s);
      return Ok(s);
    }
    var b: Bytes := [];
    var i := 0;
    assert s[0..] == s;
    PrependTwice([], [], Decoded(s));
    while i < |s|
      invariant 0 <= i <= |s|
      invariant Decoded(s) == Prepend(b, Decoded(s[i..]))
    {
      var rest := s[i..];
      if s[i] != '%' {
        assert rest[1..] == s[i + 1..];
        PrependTwice(b, [s[i]], Decoded(s[i + 1..]));
        b := b + [s[i]];
      } else {
        if i + 2 >= |s| {
          return Err(TruncatedEscape);
        }
        var escaped := EscapedByte(s[i + 1], s[i + 2]);
        if escaped.Err? {
          return Err(escaped.error);
        }
        assert rest[3..] == s[i + 3..];
        PrependTwice(b, [escaped.value], Decoded(s[i + 3..]));
        b := b + [escaped.value];
        i := i + 2;
      }
      i := i + 1;
    }
    assert s[i..] == [] && b + [] == b;
    return Ok(b);
  }

  lemma {:induction false} DecodeAppend(a: Bytes, b: Bytes)
    requires Decoded(a).Ok?
    ensures Decoded(a + b) == Prepend(Decoded(a).value, Decoded(b))
  {
    if a == [] {
      assert a + b == b;
      PrependTwice([], [], Decoded(b));
    } else if a[0] != '%' {
      assert (a + b)[1..] == a[1..] + b;
      DecodeAppend(a[1..], b);
      PrependTwice([a[0]], Decoded(a[1..]).value, Decoded(b));
    } else {
      assert (a + b)[3..] == a[3..] + b && (a + b)[1] == a[1] && (a + b)[2] == a[2];
      DecodeAppend(a[3..], b);
      PrependTwice([EscapedByte(a[1], a[2]).value], Decoded(a[3..]).value, Decoded(b));
    }
  }

  predicate IsHex(c: byte) {
    c in "0123456789abcdefABCDEF"
  }

  /** The first escape that cannot be decoded is the one reported, by what is wrong with it. */
  lemma FirstBadEscape(a: Bytes, rest: Bytes)
    requires Decoded(a).Ok?
    ensures |rest| < 2 ==> Decoded(a + "%" + rest) == Err(TruncatedEscape)
    ensures |rest| >= 2 && !(IsHex(rest[0]) && IsHex(rest[1])) ==> Decoded(a + "%" + rest) == Err(InvalidEscape)
    ensures "2f" <= rest || "2F" <= rest || "5c" <= rest || "5C" <= rest ==>
              Decoded(a + "%" + rest) == Err(EncodedSeparator)
    ensures "00" <= rest ==> Decoded(a + "%" + rest) == Err(EncodedNul)
  {
    var escape := "%" + rest;
    assert a + "%" + rest == a + escape;
    DecodeAppend(a, escape);
    BadEscape(escape, rest);
  }

  lemma BadEscape(s: Bytes, rest: Bytes)
    requires s == "%" + rest
    ensures |rest| < 2 ==> Decoded(s) == Err(TruncatedEscape)
    ensures |rest| >= 2 && !(IsHex(rest[0]) && IsHex(rest[1])) ==> Decoded(s) == Err(InvalidEscape)
    ensures "2f" <= rest || "2F" <= rest || "5c" <= rest || "5C" <= rest ==> Decoded(s) == Err(EncodedSeparator)
    ensures "00" <= rest ==> Decoded(s) == Err(EncodedNul)
  {
    if |rest| >= 2 {
      assert s[1] == rest[0] && s[2] == rest[1];
      HexIsRead(rest[0], "0123456789abcdefABCDEF");
      HexIsRead(rest[1], "0123456789abcdefABCDEF");
    }
  }

  lemma HexIsRead(c: byte, digits: Bytes)
    requires digits == "0123456789abcdefABCDEF"
    ensures Unhex(c).Some? <==> c in digits
  {
    if Unhex(c).Some? {
      var v := Unhex(c).value;
      assert digits[if '0' <= c <= '9' then v else if 'a' <= c <= 'f' then v else v + 6] == c;
    }
  }

  // ----- decoding inverts exactly the percent encoders -----

  /** How an encoder may write one byte: as itself, or as an escape in either hex case. */
  datatype Spelling = Literal | Escape(upperHi: bool, upperLo: bool)

  function HexDigit(v: nat, upper: bool): byte
    requires v < 16
  {
    if v < 10 then ('0' as int + v) as char
    else if upper then ('A' as int + v - 10) as char
    else ('a' as int + v - 10) as char
  }

  function EncodeByte(c: byte, how: Spelling): Bytes {
    match how
    case Literal => [c]
    case Escape(hi, lo) => ['%', HexDigit(c as int / 16, hi), HexDigit(c as int % 16, lo)]
  }

  /** "%" must be escaped; separators and NUL must not be. */
  predicate MayWrite(c: byte, how: Spelling) {
    if how.Literal? then c != '%' else c != '/' && c != '\\' && c as int != 0
  }

  function Encode(s: Bytes, how: seq<Spelling>): Bytes
    requires |how| == |s|
  {
    if s == [] then [] else EncodeByte(s[0], how[0]) + Encode(s[1..], how[1..])
  }

  predicate Faithful(s: Bytes, how: seq<Spelling>) {
    |how| == |s| && forall k :: 0 <= k < |s| ==> MayWrite(s[k], how[k])
  }

  lemma EscapeRoundTrip(c: byte, how: Spelling)
    requires how.Escape? && MayWrite(c, how)
    ensures EscapedByte(EncodeByte(c, how)[1], EncodeByte(c, how)[2]) == Ok(c)
  {
  }

  /** Whatever encoder wrote it, decodeOnce gives the original back. */
  lemma {:induction false} DecodeUndoesEncode(s: Bytes, how: seq<Spelling>)
    requires Faithful(s, how)
    ensures Decoded(Encode(s, how)) == Ok(s)
  {
    if s != [] {
      DecodeUndoesEncode(s[1..], how[1..]);
      var head, rest := EncodeByte(s[0], how[0]), Encode(s[1..], how[1..]);
      assert MayWrite(s[0], how[0]);
      assert (head + rest)[|head|..] == rest;
      assert s == [s[0]] + s[1..];
      if how[0].Escape? {
        EscapeRoundTrip(s[0], how[0]);
      }
    }
  }

  lemma DigitSpelling(c: byte, v: nat) returns (upper: bool)
    requires Unhex(c) == Some(v)
    ensures v < 16 && HexDigit(v, upper) == c
  {
    upper := 'A' <= c <= 'F';
  }

  lemma EscapeSpelling(hi: byte, lo: byte, c: byte) returns (how: Spelling)
    requires EscapedByte(hi, lo) == Ok(c)
    ensures how.Escape? && MayWrite(c, how) && EncodeByte(c, how) == ['%', hi, lo]
  {
    var h, l := Unhex(hi).value, Unhex(lo).value;
    var upperHi := DigitSpelling(hi, h);
    var upperLo := DigitSpelling(lo, l);
    assert c as int / 16 == h && c as int % 16 == l;
    how := Escape(upperHi, upperLo);
  }

  lemma {:induction false} SpellingOf(coded: Bytes, s: Bytes) returns (how: seq<Spelling>)
    requires Decoded(coded) == Ok(s)
    ensures Faithful(s, how) && Encode(s, how) == coded
  {
    if coded == [] {
      how := [];
    } else if coded[0] != '%' {
      var rest := SpellingOf(coded[1..], s[1..]);
      how := [Literal] + rest;
      assert how[1..] == rest;
    } else {
      var first := EscapeSpelling(coded[1], coded[2], s[0]);
      var rest := SpellingOf(coded[3..], s[1..]);
      how := [first] + rest;
      assert how[1..] == rest;
      assert coded == ['%', coded[1], coded[2]] + coded[3..];
    }
  }

  /** decodeOnce accepts a string as a spelling of s exactly when some faithful percent
      encoding of s produces it. */
  lemma DecodesToIffEncodes(coded: Bytes, s: Bytes)
    ensures Decoded(coded) == Ok(s) <==> exists how :: Faithful(s, how) && Encode(s, how) == coded
  {
    if Decoded(coded) == Ok(s) {
      var how := SpellingOf(coded, s);
    }
    if how :| Faithful(s, how) && Encode(s, how) == coded {
      DecodeUndoesEncode(s, how);
    }
  }

  // ----- decoding and splitting commute -----

  predicate AllDecode(pieces: seq<Bytes>) {
    forall k :: 0 <= k < |pieces| ==> Decoded(pieces[k]).Ok?
  }

  function DecodeEach(pieces: seq<Bytes>): seq<Bytes>
    requires AllDecode(pieces)
  {
    seq(|pieces|, k requires 0 <= k < |pieces| => Decoded(pieces[k]).value)
  }

  predicate Commutes(s: Bytes) {
    && (Decoded(s).Ok? <==> AllDecode(Split(s, '/')))
    && (Decoded(s).Ok? ==> Split(Decoded(s).value, '/') == DecodeEach(Split(s, '/')))
  }

  /** An escape never adds, removes or moves a separator. */
  lemma {:induction false} DecodeCommutesWithSplit(s: Bytes)
    ensures Decoded(s).Ok? <==> AllDecode(Split(s, '/'))
    ensures Decoded(s).Ok? ==> Split(Decoded(s).value, '/') == DecodeEach(Split(s, '/'))
  {
    SplitCommutes(s);
  }

  lemma {:induction false} SplitCommutes(s: Bytes)
    ensures Commutes(s)
  {
    if s == [] {
      assert DecodeEach(Split(s, '/')) == [[]];
    } else if s[0] == '/' {
      SplitCommutes(s[1..]);
      SeparatorCommutes(s);
    } else if s[0] != '%' {
      SplitCommutes(s[1..]);
      PlainByteCommutes(s);
    } else if |s| < 3 || EscapedByte(s[1], s[2]).Err? {
      BadEscapeStaysInPiece(s);
    } else {
      SplitCommutes(s[3..]);
      EscapeIsOnePiece(s);
      ConsCommutes(s, 3, EscapedByte(s[1], s[2]).value);
    }
  }

  lemma PlainByteCommutes(s: Bytes)
    requires s != [] && s[0] != '/' && s[0] != '%' && Commutes(s[1..])
    ensures Commutes(s)
  {
    assert s[..1] == [s[0]];
    assert ([s[0]] + Split(s[1..], '/')[0])[1..] == Split(s[1..], '/')[0];
    ConsCommutes(s, 1, s[0]);
  }

  lemma SeparatorCommutes(s: Bytes)
    requires s != [] && s[0] == '/' && Commutes(s[1..])
    ensures Commutes(s)
  {
  }

  /** The first w bytes of s spell the byte c and hold no separator. */
  lemma ConsCommutes(s: Bytes, w: nat, c: byte)
    requires 1 <= w <= |s| && c != '/' && Commutes(s[w..])
    requires Decoded(s) == Prepend([c], Decoded(s[w..]))
    requires Split(s, '/') == [s[..w] + Split(s[w..], '/')[0]] + Split(s[w..], '/')[1..]
    requires Decoded(s[..w] + Split(s[w..], '/')[0]) == Prepend([c], Decoded(Split(s[w..], '/')[0]))
    ensures Commutes(s)
  {
    var pieces, rest := Split(s, '/'), Split(s[w..], '/');
    SameButFirst(pieces, rest, c);
    if Decoded(s).Ok? {
      var tail := Decoded(s[w..]).value;
      assert ([c] + tail)[1..] == tail;
      var split := Split(tail, '/');
      assert Split([c] + tail, '/') == [[c] + split[0]] + split[1..];
    }
  }

  /** Decoding piece by piece, when only the first piece differs and it differs by one byte. */
  lemma SameButFirst(pieces: seq<Bytes>, rest: seq<Bytes>, c: byte)
    requires pieces != [] && rest != [] && pieces[1..] == rest[1..]
    requires Decoded(pieces[0]) == Prepend([c], Decoded(rest[0]))
    ensures AllDecode(pieces) <==> AllDecode(rest)
    ensures AllDecode(rest) ==>
              var each := DecodeEach(rest); DecodeEach(pieces) == [[c] + each[0]] + each[1..]
  {
  }

  lemma EscapeIsOnePiece(s: Bytes)
    requires |s| >= 3 && s[0] == '%' && EscapedByte(s[1], s[2]).Ok?
    ensures Split(s, '/') == [s[..3] + Split(s[3..], '/')[0]] + Split(s[3..], '/')[1..]
    ensures var first := s[..3] + Split(s[3..], '/')[0];
            Decoded(first) == Prepend([EscapedByte(s[1], s[2]).value], Decoded(Split(s[3..], '/')[0]))
  {
    var rest := Split(s[3..], '/');
    assert s[1] != '/' && s[2] != '/';
    assert s[1..][1..] == s[2..] && s[2..][1..] == s[3..];
    assert Split(s[2..], '/') == [[s[2]] + rest[0]] + rest[1..];
    assert Split(s[1..], '/') == [[s[1]] + ([s[2]] + rest[0])] + rest[1..];
    assert Split(s, '/') == [[s[0]] + ([s[1]] + ([s[2]] + rest[0]))] + rest[1..];
    assert [s[0]] + ([s[1]] + ([s[2]] + rest[0])) == s[..3] + rest[0];
    assert (s[..3] + rest[0])[3..] == rest[0];
  }

  /** A bad escape is bad in its own piece: either the piece ends inside it, or it shows
      the same two bytes. */
  lemma BadEscapeStaysInPiece(s: Bytes)
    requires s != [] && s[0] == '%' && (|s| < 3 || EscapedByte(s[1], s[2]).Err?)
    ensures Decoded(s).Err? && Decoded(Split(s, '/')[0]).Err?
    ensures !AllDecode(Split(s, '/'))
  {
  }
}
