/** The ignore-file loader: the comprehension of load_ignore_list over the
    lines already read from the file. */
module IgnoreList {
  import opened Text
  import opened Wrappers

  /** The filter of the comprehension. The emptiness test is made on the
      stripped line, the comment test on the raw line. */
  predicate Keeps(line: string) {
    Strip(line) != "" && !StartsWith(line, "#")
  }

  /** A returned entry: non-empty and without surrounding whitespace. */
  predicate IsPattern(x: string) {
    x != "" && !IsSpace(x[0]) && !IsSpace(x[|x| - 1])
  }

  /** The stripped lines that survive the filter, in file order. */
  function Entries(lines: seq<string>): (r: seq<string>)
    ensures |r| <= |lines|
  {
    if lines == [] then []
    else Head(lines[0]) + Entries(lines[1..])
  }

  /** What one line contributes. */
  function Head(line: string): seq<string> {
    if Keeps(line) then [Strip(line)] else []
  }

  /** Every entry is non-empty and has no whitespace at either end. */
  lemma {:induction false} EntriesArePatterns(lines: seq<string>)
    ensures forall k :: 0 <= k < |Entries(lines)| ==> IsPattern(Entries(lines)[k])
  {
    if lines != [] {
      EntriesArePatterns(lines[1..]);
      var h, t := Head(lines[0]), Entries(lines[1..]);
      assert Entries(lines) == h + t;
      HeadIsPattern(lines[0]);
      AppendPatterns(h, t);
    }
  }

  lemma HeadIsPattern(line: string)
    ensures forall k :: 0 <= k < |Head(line)| ==> IsPattern(Head(line)[k])
  {
  }

  lemma AppendPatterns(a: seq<string>, b: seq<string>)
    requires forall k :: 0 <= k < |a| ==> IsPattern(a[k])
    requires forall k :: 0 <= k < |b| ==> IsPattern(b[k])
    ensures forall k :: 0 <= k < |a + b| ==> IsPattern((a + b)[k])
  {
    forall k | 0 <= k < |a + b| ensures IsPattern((a + b)[k]) {
      if k >= |a| {
        assert (a + b)[k] == b[k - |a|];
      }
    }
  }

  /** load_ignore_list: `contents` is the list of lines of the ignore file,
      including their line terminators, or None when the file does not exist. */
  function LoadIgnoreList(contents: Option<seq<string>>): (r: seq<string>)
    ensures contents.None? ==> r == []
    ensures contents.Some? ==> r == Entries(contents.value)
    ensures forall k :: 0 <= k < |r| ==> IsPattern(r[k]) && Strip(r[k]) == r[k]
  {
    match contents
    case None => []
    case Some(lines) =>
      var r := Entries(lines);
      EntriesArePatterns(lines);
      forall k | 0 <= k < |r| ensures Strip(r[k]) == r[k] {
        StripPattern(r[k]);
      }
      r
  }

  lemma StripPattern(x: string)
    requires IsPattern(x)
    ensures Strip(x) == x
  {
    assert StripLeft(x) == x;
    assert StripRight(x) == x;
  }

  /** The filter works line by line: the entries of two blocks of lines are
      the entries of each, in the same order. */
  lemma {:induction false} EntriesAppend(a: seq<string>, b: seq<string>)
    ensures Entries(a + b) == Entries(a) + Entries(b)
  {
    if a != [] {
      assert (a + b)[0] == a[0] && (a + b)[1..] == a[1..] + b;
      EntriesAppend(a[1..], b);
    } else {
      assert a + b == b;
    }
  }

  /** The line passes the filter and strips to `x`. */
  predicate Yields(line: string, x: string) {
    Keeps(line) && Strip(line) == x
  }

  /** An entry is returned if and only if some line that passes the filter
      strips to it. */
  lemma {:induction false} EntriesMembership(lines: seq<string>, x: string)
    ensures x in Entries(lines) <==> exists k :: 0 <= k < |lines| && Yields(lines[k], x)
  {
    if lines != [] {
      EntriesMembership(lines[1..], x);
      assert Entries(lines) == Head(lines[0]) + Entries(lines[1..]);
      assert x in Head(lines[0]) <==> Yields(lines[0], x);
      YieldsSplit(lines, x);
    }
  }

  lemma YieldsSplit(lines: seq<string>, x: string)
    requires lines != []
    ensures (exists k :: 0 <= k < |lines| && Yields(lines[k], x))
            <==> Yields(lines[0], x) || exists k :: 0 <= k < |lines[1..]| && Yields(lines[1..][k], x)
  {
    if exists k :: 0 <= k < |lines| && Yields(lines[k], x) {
      var k :| 0 <= k < |lines| && Yields(lines[k], x);
      if k > 0 {
        assert lines[1..][k - 1] == lines[k];
      }
    }
    if exists k :: 0 <= k < |lines[1..]| && Yields(lines[1..][k], x) {
      var k :| 0 <= k < |lines[1..]| && Yields(lines[1..][k], x);
      assert lines[k + 1] == lines[1..][k];
    }
  }

  /** A raw line that begins with '#' contributes nothing. */
  lemma CommentLineDropped(line: string)
    requires StartsWith(line, "#")
    ensures Entries([line]) == []
  {
    assert |[line][1..]| == 0;
  }

  /** Leading whitespace is ignored by strip. */
  lemma {:induction false} StripLeftAfterSpaces(ws: string, t: string)
    requires forall k :: 0 <= k < |ws| ==> IsSpace(ws[k])
    ensures StripLeft(ws + t) == StripLeft(t)
  {
    if ws != [] {
      assert (ws + t)[1..] == ws[1..] + t;
      StripLeftAfterSpaces(ws[1..], t);
    } else {
      assert ws + t == t;
    }
  }

  /** Strip of a line made of whitespace, '#' and a rest. */
  lemma StripIndentedHash(ws: string, rest: string)
    requires ws != [] && forall k :: 0 <= k < |ws| ==> IsSpace(ws[k])
    ensures Strip(ws + "#" + rest) == Strip("#" + rest)
    ensures !StartsWith(ws + "#" + rest, "#")
  {
    var hashed: string := "#" + rest;
    assert hashed[0] == '#';
    assert ws + "#" + rest == ws + hashed;
    StripLeftAfterSpaces(ws, hashed);
    assert StripLeft(hashed) == hashed;
  }

  /** A line that begins with '#' strips to a text that begins with '#'. */
  lemma StripHash(rest: string)
    ensures StartsWith(Strip("#" + rest), "#")
  {
    var hashed: string := "#" + rest;
    assert hashed[0] == '#';
    assert StripLeft(hashed) == hashed;
  }

  /** The comment test looks at the raw line: a '#' preceded by whitespace is
      not a comment, and the line yields its stripped text, '#' included. */
  lemma IndentedHashKept(ws: string, rest: string)
    requires ws != [] && forall k :: 0 <= k < |ws| ==> IsSpace(ws[k])
    ensures Entries([ws + "#" + rest]) == [Strip("#" + rest)]
    ensures StartsWith(Strip(ws + "#" + rest), "#")
  {
    StripIndentedHash(ws, rest);
    StripHash(rest);
    SingleLine(ws + "#" + rest);
  }

  lemma SingleLine(line: string)
    ensures Entries([line]) == if Keeps(line) then [Strip(line)] else []
  {
    var single: seq<string> := [line];
    assert single[1..] == [];
  }
}
