/** The JavaScript string built-ins the authentication code relies on:
    `String.prototype.trim`, `toLowerCase` and `endsWith`, plus the truthiness
    test `!x` applied to a request field that holds a string or nothing. */
module JsString {
  import opened Wrappers

  /** A field is truthy when it is present and not the empty string. */
  predicate Truthy(v: Option<string>) {
    v.Some? && v.value != ""
  }

  /** ECMAScript WhiteSpace and LineTerminator code points: what `trim` removes. */
  predicate IsSpace(c: char) {
    c == '\t' || c == '\n' || c == '\U{B}' || c == '\U{C}' || c == '\r' || c == ' ' ||
    c == '\U{A0}' || c == '\U{1680}' || ('\U{2000}' <= c <= '\U{200A}') ||
    c == '\U{2028}' || c == '\U{2029}' || c == '\U{202F}' || c == '\U{205F}' ||
    c == '\U{3000}' || c == '\U{FEFF}'
  }

  /** No white space at either end. */
  predicate IsTrimmed(s: string) {
    s == [] || (!IsSpace(s[0]) && !IsSpace(s[|s| - 1]))
  }

  /** Drops the leading white space: the result is a suffix of `s`, everything
      dropped is white space, and the result does not start with white space. */
  function TrimStart(s: string): (r: string)
    ensures |r| <= |s| && r == s[|s| - |r|..]
    ensures forall k :: 0 <= k < |s| - |r| ==> IsSpace(s[k])
    ensures r == [] || !IsSpace(r[0])
  {
    if |s| > 0 && IsSpace(s[0]) then
      var r := TrimStart(s[1..]);
      assert s[1..][|s| - 1 - |r|..] == s[|s| - |r|..];
      r
    else s
  }

  /** Drops the trailing white space: the result is a prefix of `s`, everything
      dropped is white space, and the result does not end with white space. */
  function TrimEnd(s: string): (r: string)
    ensures |r| <= |s| && r == s[..|r|]
    ensures forall k :: |r| <= k < |s| ==> IsSpace(s[k])
    ensures r == [] || !IsSpace(r[|r| - 1])
  {
    if |s| > 0 && IsSpace(s[|s| - 1]) then TrimEnd(s[..|s| - 1]) else s
  }

  /** `s` is `r` starting at offset `i`, with nothing but white space before and after it. */
  predicate SpaceAround(s: string, i: int, r: string) {
    0 <= i <= |s| - |r| && r == s[i..i + |r|] &&
    (forall k :: 0 <= k < i ==> IsSpace(s[k])) &&
    (forall k :: i + |r| <= k < |s| ==> IsSpace(s[k]))
  }

  /** `s.trim()`. */
  function Trim(s: string): (r: string)
    ensures IsTrimmed(r)
    ensures |r| <= |s|
  {
    TrimEnd(TrimStart(s))
  }

  /** What `trim` returns is what is left of `s` once the white space at both
      ends is dropped: a slice of `s` with only white space around it and none
      at its own ends. */
  lemma TrimDropsEdgeSpace(s: string)
    ensures exists i :: SpaceAround(s, i, Trim(s))
    ensures IsTrimmed(Trim(s))
  {
    var t := TrimStart(s);
    TrimStartIsSlice(s);
    TrimEndIsSlice(t);
    SpaceAroundCompose(s, |s| - |t|, t, 0, TrimEnd(t));
    assert SpaceAround(s, |s| - |t|, Trim(s));
  }

  /** The leading white space `TrimStart` drops is all that lies before its result. */
  lemma TrimStartIsSlice(s: string)
    ensures SpaceAround(s, |s| - |TrimStart(s)|, TrimStart(s))
  {
    var r := TrimStart(s);
    assert s[|s| - |r|..|s| - |r| + |r|] == s[|s| - |r|..];
  }

  /** The trailing white space `TrimEnd` drops is all that lies after its result. */
  lemma TrimEndIsSlice(t: string)
    ensures SpaceAround(t, 0, TrimEnd(t))
  {
    assert t[0..0 + |TrimEnd(t)|] == t[..|TrimEnd(t)|];
  }

  /** A slice of a slice, each with only white space around it, is a slice of
      the whole with only white space around it. */
  lemma SpaceAroundCompose(s: string, i: int, t: string, j: int, r: string)
    requires SpaceAround(s, i, t) && SpaceAround(t, j, r)
    ensures SpaceAround(s, i + j, r)
  {
    assert r == s[i + j..i + j + |r|] by {
      forall m | 0 <= m < |r|
        ensures r[m] == s[i + j + m]
      {
        assert r[m] == t[j + m];
        assert t[j + m] == s[i + j + m];
      }
    }
    forall k | 0 <= k < i + j
      ensures IsSpace(s[k])
    {
      if k >= i {
        assert s[k] == t[k - i];
      }
    }
    forall k | i + j + |r| <= k < |s|
      ensures IsSpace(s[k])
    {
      if k < i + |t| {
        assert s[k] == t[k - i];
      }
    }
  }

  /** Two slices of `s`, each with only white space around it and none at its
      own ends, are the same string. */
  lemma SpaceAroundUnique(s: string, i: int, r: string, j: int, t: string)
    requires SpaceAround(s, i, r) && IsTrimmed(r)
    requires SpaceAround(s, j, t) && IsTrimmed(t)
    ensures r == t
  {
    if r != [] { EdgesNotSpace(s, i, r); }
    if t != [] { EdgesNotSpace(s, j, t); }
  }

  /** The first and last characters of a non-empty trimmed slice are not white space in `s`. */
  lemma EdgesNotSpace(s: string, i: int, r: string)
    requires SpaceAround(s, i, r) && IsTrimmed(r) && r != []
    ensures !IsSpace(s[i]) && !IsSpace(s[i + |r| - 1])
  {
    assert s[i] == r[0] && s[i + |r| - 1] == r[|r| - 1];
  }

  /** The slice property pins `trim` down: any slice of `s` with only white
      space around it and none at its own ends is `Trim(s)`. */
  lemma TrimUnique(s: string, i: int, r: string)
    requires SpaceAround(s, i, r) && IsTrimmed(r)
    ensures r == Trim(s)
  {
    TrimDropsEdgeSpace(s);
    var j :| SpaceAround(s, j, Trim(s));
    SpaceAroundUnique(s, i, r, j, Trim(s));
  }

  /** A string without white space at either end is its own trim. */
  lemma TrimOfTrimmed(s: string)
    requires IsTrimmed(s)
    ensures Trim(s) == s
  {
  }

  /** Trimming twice is trimming once. */
  lemma TrimIdempotent(s: string)
    ensures Trim(Trim(s)) == Trim(s)
  {
    TrimOfTrimmed(Trim(s));
  }

  /** `toLowerCase` on one code point; only the ASCII letters are mapped. */
  function LowerChar(c: char): (d: char)
    ensures !('A' <= d <= 'Z')
    ensures 'a' <= d <= 'z' <==> ('a' <= c <= 'z' || 'A' <= c <= 'Z')
    ensures IsSpace(d) <==> IsSpace(c)
    ensures !('A' <= c <= 'Z') ==> d == c
    ensures 'A' <= c <= 'Z' ==> d as int - 'a' as int == c as int - 'A' as int
  {
    if 'A' <= c <= 'Z' then (c as int - 'A' as int + 'a' as int) as char else c
  }

  /** `s.toLowerCase()`, code point by code point. */
  function Lower(s: string): (r: string)
    ensures |r| == |s|
    ensures forall k :: 0 <= k < |s| ==> r[k] == LowerChar(s[k])
  {
    seq(|s|, k requires 0 <= k < |s| => LowerChar(s[k]))
  }

  /** `s.trim().toLowerCase()`: the normal form of an email address throughout the routes. */
  function Normalize(s: string): (r: string)
    ensures IsTrimmed(r)
    ensures forall k :: 0 <= k < |r| ==> !('A' <= r[k] <= 'Z')
    ensures |r| == |Trim(s)| && forall k :: 0 <= k < |r| ==> r[k] == LowerChar(Trim(s)[k])
  {
    var t := Trim(s);
    var r := Lower(t);
    assert t != [] ==> r[0] == LowerChar(t[0]) && r[|r| - 1] == LowerChar(t[|t| - 1]);
    r
  }

  /** Normalizing an already normalized address changes nothing, so every
      lookup by a normalized address finds what normalizing again would find. */
  lemma {:induction false} NormalizeIdempotent(s: string)
    ensures Normalize(Normalize(s)) == Normalize(s)
  {
    var n := Normalize(s);
    TrimOfTrimmed(n);
    assert Lower(n) == n by {
      forall k | 0 <= k < |n| ensures Lower(n)[k] == n[k] {
        var t := Trim(s);
        assert n[k] == LowerChar(t[k]);
      }
    }
  }

  /** A string in normal form: no white space at either end and no upper-case ASCII letter. */
  predicate IsNormalized(s: string) {
    IsTrimmed(s) && forall k :: 0 <= k < |s| ==> !('A' <= s[k] <= 'Z')
  }

  /** The normal forms are exactly the strings that normalizing leaves unchanged. */
  lemma {:induction false} NormalizedIffFixedPoint(s: string)
    ensures IsNormalized(s) <==> Normalize(s) == s
  {
    if IsNormalized(s) {
      TrimOfTrimmed(s);
      var l := Lower(s);
      forall k | 0 <= k < |s|
        ensures l[k] == s[k]
      {
        assert !('A' <= s[k] <= 'Z');
      }
      assert l == s;
    }
  }

  /** A single space normalizes to the empty string. */
  lemma BlankNormalizesToEmpty()
    ensures Normalize(" ") == ""
  {
    assert " "[1..] == "";
    assert TrimStart(" ") == "";
  }

  /** `s.endsWith(suffix)`. */
  predicate EndsWith(s: string, suffix: string) {
    |suffix| <= |s| && s[|s| - |suffix|..] == suffix
  }
}
