/** String helpers the manifest builder relies on: Python's str.replace of
    backslashes, str.strip, str.startswith and the substring test `p in s`. */
module Text {

  /** One character of `s.replace("\\", "/")`. */
  function Slash(c: char): char {
    if c == '\\' then '/' else c
  }

  /** `s.replace("\\", "/")`: every backslash becomes a forward slash. */
  function Replace(s: string): (r: string)
    ensures |r| == |s|
    ensures forall i :: 0 <= i < |s| ==> r[i] == Slash(s[i])
    ensures '\\' !in r
  {
    if s == [] then [] else [Slash(s[0])] + Replace(s[1..])
  }

  lemma {:induction false} ReplaceAppend(a: string, b: string)
    ensures Replace(a + b) == Replace(a) + Replace(b)
  {
    var r := Replace(a + b);
    assert forall i :: 0 <= i < |r| ==> r[i] == (Replace(a) + Replace(b))[i];
  }

  /** Replacing twice is replacing once (create_file_entry replaces a path
      that the walk has already replaced). */
  lemma ReplaceIdempotent(s: string)
    ensures Replace(Replace(s)) == Replace(s)
  {
    var r := Replace(Replace(s));
    assert forall i :: 0 <= i < |r| ==> r[i] == Replace(s)[i];
  }

  /** A string without backslashes is left as it is. */
  lemma ReplaceIdentity(s: string)
    requires '\\' !in s
    ensures Replace(s) == s
  {
    var r := Replace(s);
    assert forall i :: 0 <= i < |r| ==> r[i] == s[i];
  }

  /** The characters Python's str.isspace accepts; str.strip() with no
      argument removes exactly these from both ends. */
  predicate IsSpace(c: char) {
    ('\t' <= c <= '\r') || ('\U{1C}' <= c <= '\U{1F}') || c == ' '
    || c == '\U{85}' || c == '\U{A0}' || c == '\U{1680}'
    || ('\U{2000}' <= c <= '\U{200A}') || c == '\U{2028}' || c == '\U{2029}'
    || c == '\U{202F}' || c == '\U{205F}' || c == '\U{3000}'
  }

  /** `s.lstrip()`: the suffix left after dropping leading whitespace. */
  function StripLeft(s: string): (r: string)
    ensures |r| <= |s| && r == s[|s| - |r|..]
    ensures forall k :: 0 <= k < |s| - |r| ==> IsSpace(s[k])
    ensures r != [] ==> !IsSpace(r[0])
  {
    if s != [] && IsSpace(s[0]) then StripLeft(s[1..]) else s
  }

  /** `s.rstrip()`: the prefix left after dropping trailing whitespace. */
  function StripRight(s: string): (r: string)
    ensures |r| <= |s| && r == s[..|r|]
    ensures forall k :: |r| <= k < |s| ==> IsSpace(s[k])
    ensures r != [] ==> !IsSpace(r[|r| - 1])
  {
    if s != [] && IsSpace(s[|s| - 1]) then StripRight(s[..|s| - 1]) else s
  }

  /** `s.strip()`: the slice s[i..i + |r|] with only whitespace around it. */
  function Strip(s: string): (r: string)
    ensures r != [] ==> !IsSpace(r[0]) && !IsSpace(r[|r| - 1])
    ensures |r| <= |s|
    ensures exists i :: PaddedSlice(s, r, i)
  {
    var l := StripLeft(s);
    var r := StripRight(l);
    var i := |s| - |l|;
    assert PaddedSlice(s, r, i);
    r
  }

  /** `r` is s[i..i + |r|] and everything outside that slice is whitespace. */
  predicate PaddedSlice(s: string, r: string, i: int) {
    && 0 <= i <= |s| - |r|
    && r == s[i..i + |r|]
    && (forall k :: 0 <= k < i ==> IsSpace(s[k]))
    && (forall k :: i + |r| <= k < |s| ==> IsSpace(s[k]))
  }

  /** Stripping a stripped string changes nothing. */
  lemma StripIdempotent(s: string)
    ensures Strip(Strip(s)) == Strip(s)
  {
    var t := Strip(s);
    if t != [] {
      assert StripLeft(t) == t;
      assert StripRight(t) == t;
    }
  }

  /** `s.startswith(p)`. */
  predicate StartsWith(s: string, p: string) {
    |p| <= |s| && s[..|p|] == p
  }

  /** Python's `p in s` on strings: `p` occurs in `s` as a substring. */
  predicate IsSubstring(p: string, s: string) {
    exists i | 0 <= i <= |s| - |p| :: OccursAt(p, s, i)
  }

  predicate OccursAt(p: string, s: string, i: int) {
    0 <= i <= |s| - |p| && s[i..i + |p|] == p
  }

  lemma SubstringOfItself(s: string)
    ensures IsSubstring(s, s)
  {
    assert OccursAt(s, s, 0);
  }

  lemma EmptyIsSubstring(s: string)
    ensures IsSubstring("", s)
  {
    assert OccursAt("", s, 0);
  }

  /** `sep.join(segs)`, the shape of the relative path os.path.relpath
      returns for a directory reached through the names `segs`
      ("" for the root itself). */
  function JoinPath(segs: seq<string>, sep: char): (r: string)
    ensures (r == []) == (segs == [] || segs == [[]])
  {
    if segs == [] then ""
    else if |segs| == 1 then segs[0]
    else JoinPath(segs[..|segs| - 1], sep) + [sep] + segs[|segs| - 1]
  }

  /** `s.rsplit("/", 1)[-1]`: what follows the last forward slash. */
  function LastSegment(s: string): (r: string)
    ensures '/' !in r
    ensures |r| <= |s| && r == s[|s| - |r|..]
    ensures |r| < |s| ==> s[|s| - |r| - 1] == '/'
  {
    if s == [] || s[|s| - 1] == '/' then []
    else LastSegment(s[..|s| - 1]) + [s[|s| - 1]]
  }

  /** The part after the last '/' of `x + "/" + y` is `y`, when `y` has no '/'. */
  lemma {:induction false} LastSegmentAfterSlash(x: string, y: string)
    requires '/' !in y
    ensures LastSegment(x + "/" + y) == y
  {
    if y == [] {
    } else {
      var y' := y[..|y| - 1];
      assert (x + "/" + y)[..|x + "/" + y| - 1] == x + "/" + y';
      LastSegmentAfterSlash(x, y');
      assert y == y' + [y[|y| - 1]];
    }
  }

  lemma LastSegmentNoSlash(y: string)
    requires '/' !in y
    ensures LastSegment(y) == y
  {
  }
}
