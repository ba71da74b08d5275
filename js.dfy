/** The few ECMAScript built-ins the helper layer relies on: the whitespace class shared by
    `String.prototype.trim` and the regular-expression escape `\s`, `trim` itself,
    truthiness of a value, and `Array.prototype.join` over strings. */
module Js {

  /** ECMAScript WhiteSpace and LineTerminator code points. `trim` strips exactly these,
      and `\s` in a regular expression matches exactly these. */
  predicate IsWhitespace(c: char) {
    || c == '\t' || c == '\n' || c == '\U{000B}' || c == '\U{000C}' || c == '\r' || c == ' '
    || c == '\U{00A0}' || c == '\U{1680}' || ('\U{2000}' <= c <= '\U{200A}')
    || c == '\U{2028}' || c == '\U{2029}' || c == '\U{202F}' || c == '\U{205F}'
    || c == '\U{3000}' || c == '\U{FEFF}'
  }

  predicate AllWhitespace(s: string) {
    forall i :: 0 <= i < |s| ==> IsWhitespace(s[i])
  }

  /** Drops leading whitespace: the result is the suffix of `s` that starts at its first
      non-whitespace character. */
  function TrimStart(s: string): (r: string)
    ensures |r| <= |s| && r == s[|s| - |r|..]
    ensures AllWhitespace(s[..|s| - |r|])
    ensures r != [] ==> !IsWhitespace(r[0])
  {
    if s != [] && IsWhitespace(s[0]) then TrimStart(s[1..]) else s
  }

  /** Drops trailing whitespace: the result is the prefix of `s` that ends at its last
      non-whitespace character. */
  function TrimEnd(s: string): (r: string)
    ensures |r| <= |s| && r == s[..|r|]
    ensures AllWhitespace(s[|r|..])
    ensures r != [] ==> !IsWhitespace(r[|r| - 1])
  {
    if s != [] && IsWhitespace(s[|s| - 1]) then
      var p := s[..|s| - 1];
      var r := TrimEnd(p);
      assert r == s[..|r|] && s[|r|..] == p[|r|..] + [s[|s| - 1]];
      r
    else s
  }

  /** `r` is what is left of `s` once the whitespace-only prefix `s[..i]` and a
      whitespace-only suffix are cut off, and `r` neither starts nor ends with whitespace. */
  ghost predicate IsTrimOf(s: string, r: string, i: int) {
    && 0 <= i && i + |r| <= |s|
    && r == s[i..i + |r|]
    && AllWhitespace(s[..i])
    && AllWhitespace(s[i + |r|..])
    && (r != [] ==> !IsWhitespace(r[0]) && !IsWhitespace(r[|r| - 1]))
  }

  /** `String.prototype.trim`. */
  function Trim(s: string): (r: string)
    ensures exists i :: IsTrimOf(s, r, i)
  {
    var t := TrimStart(s);
    var r := TrimEnd(t);
    assert s[|s| - |t|..][|r|..] == s[|s| - |t| + |r|..];
    assert IsTrimOf(s, r, |s| - |t|);
    r
  }

  /** The margins cut off by an `IsTrimOf` split are whitespace, character by character,
      and a non-empty result starts and ends on non-whitespace characters of `s`. */
  lemma TrimMargins(s: string, r: string, i: int)
    requires IsTrimOf(s, r, i)
    ensures forall k :: 0 <= k < i ==> IsWhitespace(s[k])
    ensures forall k :: i + |r| <= k < |s| ==> IsWhitespace(s[k])
    ensures r != [] ==> !IsWhitespace(s[i]) && !IsWhitespace(s[i + |r| - 1])
  {
    assert forall k :: 0 <= k < i ==> s[..i][k] == s[k];
    assert forall k :: i + |r| <= k < |s| ==> s[i + |r|..][k - i - |r|] == s[k];
  }

  /** Trimming has exactly one possible outcome: any infix of `s` with whitespace-only
      margins and non-whitespace ends is `Trim(s)`. */
  lemma TrimUnique(s: string, r: string, i: int)
    requires IsTrimOf(s, r, i)
    ensures Trim(s) == r
  {
    var t := Trim(s);
    var j :| IsTrimOf(s, t, j);
    TrimMargins(s, r, i);
    TrimMargins(s, t, j);
    assert r == [] <==> t == [];
    assert r != [] ==> i == j && i + |r| == j + |t|;
  }

  /** Whitespace, then a run that starts and ends with other characters, then whitespace: the
      run is what trimming keeps. */
  lemma TrimPadded(pre: string, core: string, post: string)
    requires AllWhitespace(pre) && AllWhitespace(post)
    requires core != [] && !IsWhitespace(core[0]) && !IsWhitespace(core[|core| - 1])
    ensures Trim(pre + core + post) == core
  {
    var s := pre + core + post;
    assert s[..|pre|] == pre && s[|pre|..|pre| + |core|] == core && s[|pre| + |core|..] == post;
    TrimUnique(s, core, |pre|);
  }

  /** A string that neither starts nor ends with whitespace trims to itself. */
  lemma TrimUnpadded(s: string)
    requires s != [] && !IsWhitespace(s[0]) && !IsWhitespace(s[|s| - 1])
    ensures Trim(s) == s
  {
    assert s[0..0 + |s|] == s && s[..0] == [] && s[0 + |s|..] == [];
    TrimUnique(s, s, 0);
  }

  /** Trimming twice is the same as trimming once. */
  lemma TrimIdempotent(s: string)
    ensures Trim(Trim(s)) == Trim(s)
  {
    var t := Trim(s);
    assert t[0..0 + |t|] == t && t[..0] == [] && t[0 + |t|..] == [];
    TrimUnique(t, t, 0);
  }

  /** A string trims to nothing exactly when it is all whitespace. */
  lemma TrimEmptyIff(s: string)
    ensures Trim(s) == [] <==> AllWhitespace(s)
  {
    if Trim(s) == [] {
      var i :| IsTrimOf(s, [], i);
      TrimMargins(s, [], i);
    }
    if AllWhitespace(s) {
      assert s[..0] == [] && s[0..0] == [] && s[0..] == s;
      TrimUnique(s, [], 0);
    }
  }

  /** A JavaScript value, as far as truthiness and `typeof v === 'string'` can tell values apart. */
  datatype JsValue =
    | Undefined
    | Null
    | Bool(b: bool)
    | Num(n: real)        // a finite number; 0 and -0 are both 0.0 here
    | NaN
    | BigInt(i: int)
    | Str(s: string)
    | Other               // an object, array, function, symbol or infinite number

  /** ECMAScript ToBoolean. */
  predicate IsTruthy(v: JsValue) {
    match v
    case Undefined => false
    case Null => false
    case Bool(b) => b
    case Num(n) => n != 0.0
    case NaN => false
    case BigInt(i) => i != 0
    case Str(s) => s != []
    case Other => true
  }

  /** The total length of a list of strings. */
  function SumLengths(xs: seq<string>): nat {
    if xs == [] then 0 else |xs[0]| + SumLengths(xs[1..])
  }

  /** `Array.prototype.join` over strings: the elements in order, `sep` between neighbours. So
      the result is as long as the elements together plus one `sep` per pair of neighbours, starts
      with the first element, and is the element itself for a one-element list. */
  function Join(xs: seq<string>, sep: string): (r: string)
    ensures |r| == SumLengths(xs) + (if xs == [] then 0 else (|xs| - 1) * |sep|)
    ensures xs != [] ==> r[..|xs[0]|] == xs[0]
    ensures |xs| == 1 ==> r == xs[0]
  {
    if xs == [] then []
    else if |xs| == 1 then
      assert xs[1..] == [];
      xs[0]
    else
      var rest := Join(xs[1..], sep);
      assert (|xs| - 1) * |sep| == |sep| + (|xs| - 2) * |sep|;
      xs[0] + sep + rest
  }

  /** Joining a concatenation joins each part and puts one `sep` between them. With the
      one-element case of `Join`, this fixes the joined string for every list: each element in
      order, `sep` between neighbours and nowhere else. */
  lemma {:induction false} JoinAppend(xs: seq<string>, ys: seq<string>, sep: string)
    requires xs != [] && ys != []
    ensures Join(xs + ys, sep) == Join(xs, sep) + sep + Join(ys, sep)
  {
    assert (xs + ys)[0] == xs[0] && (xs + ys)[1..] == xs[1..] + ys;
    if |xs| == 1 {
      assert xs[1..] + ys == ys;
    } else {
      JoinAppend(xs[1..], ys, sep);
    }
  }

  /** Two elements join as the first, `sep`, the second. */
  lemma JoinPair(x: string, y: string, sep: string)
    ensures Join([x, y], sep) == x + sep + y
  {
    assert [x, y] == [x] + [y];
    JoinAppend([x], [y], sep);
  }
}
