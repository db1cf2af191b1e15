/** NormalizePath: the loop form, proved against a composition of its stages. */
module Normalize {
  import opened Text
  import opened Decode
  import opened DotSegments
  import opened PathMatch

  predicate EndsTarget(c: byte) {
    c == '?' || c == '#'
  }

  predicate IsControl(c: byte) {
    c as int < 0x20 || c as int == 0x7f
  }

  /** The target without query and fragment. */
  function Cut(target: Bytes): (t: Bytes)
    ensures t <= target
    ensures '?' !in t && '#' !in t
    ensures |t| < |target| ==> target[|t|] == '?' || target[|t|] == '#'
  {
    if target == [] || EndsTarget(target[0]) then [] else [target[0]] + Cut(target[1..])
  }

  predicate NoControls(t: Bytes) {
    forall k :: 0 <= k < |t| ==> !IsControl(t[k])
  }

  /** The offset of the first control byte. */
  function FirstControl(t: Bytes): (i: nat)
    requires !NoControls(t)
    ensures i < |t| && IsControl(t[i]) && NoControls(t[..i])
  {
    if IsControl(t[0]) then 0 else
      assert !NoControls(t[1..]) by {
        var k :| 0 <= k < |t| && IsControl(t[k]);
        assert t[1..][k - 1] == t[k];
      }
      1 + FirstControl(t[1..])
  }

  function Render(segs: seq<Bytes>, trailing: bool): Bytes {
    "/" + Join(segs, '/') + if segs != [] && trailing then "/" else ""
  }

  /** Dot resolution of a decoded path that starts with "/". */
  function Resolved(d: Bytes): Result<Bytes> {
    match Resolve(Split(d, '/'), [])
    case None => Err(EscapesRoot)
    case Some(out) => Ok(Render(out, EndsWith(d, '/')))
  }

  function AfterDecoding(d: Bytes): Result<Bytes> {
    if '%' in d then Err(DoubleEncoded)
    else if '\\' in d then Err(Backslash)
    else Resolved(Rooted(d))
  }

  function Normalized(target: Bytes): Result<Bytes> {
    var t := Cut(target);
    if t == [] then Ok("/")
    else if !NoControls(t) then Err(ControlByte(FirstControl(t)))
    else
      match Decoded(t)
      case Err(e) => Err(e)
      case Ok(d) => AfterDecoding(d)
  }

  method NormalizePath(target: Bytes) returns (r: Result<Bytes>)
    ensures r == Normalized(target)
  {
    if target == "" {
      return Ok("/");
    }
    var t := Cut(target);
    if t == "" {
      return Ok("/");
    }
    for i := 0 to |t|
      invariant NoControls(t[..i])
    {
      if IsControl(t[i]) {
        SameFirstControl(t, i);
        return Err(ControlByte(i));
      }
    }
    assert t[..|t|] == t;
    var decoded := DecodeOnce(t);
    if decoded.Err? {
      return decoded;
    }
    var d := decoded.value;
    if '%' in d {
      return Err(DoubleEncoded);
    }
    if '\\' in d {
      return Err(Backslash);
    }
    if !("/" <= d) {
      d := "/" + d;
    }
    assert d == Rooted(decoded.value);
    r := ResolveDots(d);
  }

  lemma SameFirstControl(t: Bytes, i: nat)
    requires i < |t| && IsControl(t[i]) && NoControls(t[..i])
    ensures !NoControls(t) && FirstControl(t) == i
  {
  }

  /** The segment loop of NormalizePath: out is pushed and popped in place. */
  method ResolveDots(d: Bytes) returns (r: Result<Bytes>)
    ensures r == Resolved(d)
  {
    var segs := Split(d, '/');
    var out: seq<Bytes> := [];
    assert segs[0..] == segs;
    for k := 0 to |segs|
      invariant Resolve(segs, []) == Resolve(segs[k..], out)
    {
      var seg := segs[k];
      assert segs[k..][0] == seg && segs[k..][1..] == segs[k + 1..];
      if ';' in seg {
        seg := StripParams(seg);
      }
      assert seg == StripParams(segs[k]);
      if seg == "" || seg == "." {
        continue;
      }
      if seg == ".." {
        if |out| == 0 {
          return Err(EscapesRoot);
        }
        out := out[..|out| - 1];
      } else {
        out := out + [seg];
      }
    }
    assert segs[|segs|..] == [];
    var normalized := "/" + Join(out, '/');
    assert normalized + "" == normalized;
    if |out| > 0 && EndsWith(d, '/') {
      normalized := normalized + "/";
    }
    return Ok(normalized);
  }
}
