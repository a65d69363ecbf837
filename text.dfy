/**
 * The three pieces of Python string handling the pipeline relies on, restricted to ASCII:
 * `str.strip()` with no argument, `str.splitlines()` on '\n', and the `in` test of
 * `text.lower() in uid.lower()`.
 */
module Text {

  /** Python's `str.isspace()` on the ASCII range: space, \t, \n, \v, \f, \r and \x1c-\x1f. */
  predicate IsSpace(c: char) {
    c == ' ' || ('\t' <= c <= '\r') || ('\U{1C}' <= c <= '\U{1F}')
  }

  ghost predicate AllSpace(s: string) {
    forall k :: 0 <= k < |s| ==> IsSpace(s[k])
  }

  /** s without its trailing whitespace: `s.rstrip()`. */
  function TrimRight(s: string): (r: string)
    ensures |r| <= |s| && r == s[..|r|]
    ensures AllSpace(s[|r|..])
    ensures r != [] ==> !IsSpace(r[|r| - 1])
  {
    if s != [] && IsSpace(s[|s| - 1]) then
      var r := TrimRight(s[..|s| - 1]);
      assert s[|r|..] == s[..|s| - 1][|r|..] + [s[|s| - 1]];
      r
    else s
  }

  /** Python's `s.strip()`: leading whitespace dropped one character at a time, then trailing. */
  function Strip(s: string): (r: string)
    ensures |r| <= |s|
    ensures r != [] ==> !IsSpace(r[0]) && !IsSpace(r[|r| - 1])
  {
    if s != [] && IsSpace(s[0]) then Strip(s[1..]) else TrimRight(s)
  }

  /** r is s without its leading and trailing whitespace: the reference meaning of `strip`. */
  ghost predicate StrippedOf(r: string, s: string) {
    && (exists i, j :: 0 <= i <= j <= |s| && s[i..j] == r && AllSpace(s[..i]) && AllSpace(s[j..]))
    && (r != [] ==> !IsSpace(r[0]) && !IsSpace(r[|r| - 1]))
  }

  /** Strip(s) is s[i..j] for all-blank margins s[..i] and s[j..]. */
  lemma {:induction false} StripBounds(s: string) returns (i: nat, j: nat)
    ensures i <= j <= |s| && s[i..j] == Strip(s) && AllSpace(s[..i]) && AllSpace(s[j..])
  {
    if s != [] && IsSpace(s[0]) {
      var i', j' := StripBounds(s[1..]);
      ShiftBounds(s, i', j');
      i, j := i' + 1, j' + 1;
    } else {
      i, j := 0, |TrimRight(s)|;
    }
  }

  /** Blank margins of s[1..] become blank margins of s when s starts with a blank. */
  lemma ShiftBounds(s: string, i: nat, j: nat)
    requires s != [] && IsSpace(s[0]) && i <= j <= |s| - 1
    requires AllSpace(s[1..][..i]) && AllSpace(s[1..][j..])
    ensures s[i + 1..j + 1] == s[1..][i..j] && AllSpace(s[..i + 1]) && AllSpace(s[j + 1..])
  {
    assert s[j + 1..] == s[1..][j..];
    assert s[..i + 1] == [s[0]] + s[1..][..i];
    SpaceCons(s[0], s[1..][..i]);
  }

  lemma SpaceCons(c: char, t: string)
    requires IsSpace(c) && AllSpace(t)
    ensures AllSpace([c] + t)
  {
  }

  /** Strip meets its reference meaning ... */
  lemma StripMeaning(s: string)
    ensures StrippedOf(Strip(s), s)
  {
    var i, j := StripBounds(s);
  }

  /** ... and nothing else does: StrippedOf pins Strip down completely. */
  lemma StrippedOfUnique(r: string, s: string)
    requires StrippedOf(r, s)
    ensures r == Strip(s)
  {
    var i, j :| 0 <= i <= j <= |s| && s[i..j] == r && AllSpace(s[..i]) && AllSpace(s[j..]);
    BlankMarginsGiveStrip(s, i, j);
  }

  lemma BlankMarginsGiveStrip(s: string, i: nat, j: nat)
    requires i <= j <= |s| && AllSpace(s[..i]) && AllSpace(s[j..])
    requires s[i..j] != [] ==> !IsSpace(s[i..j][0]) && !IsSpace(s[i..j][j - i - 1])
    ensures s[i..j] == Strip(s)
  {
    var i', j' := StripBounds(s);
    SameSlice(s, i, j, i', j');
  }

  /** Two slices with all-blank margins and non-blank ends are the same slice. */
  lemma SameSlice(s: string, i: nat, j: nat, i': nat, j': nat)
    requires i <= j <= |s| && i' <= j' <= |s|
    requires AllSpace(s[..i]) && AllSpace(s[j..]) && AllSpace(s[..i']) && AllSpace(s[j'..])
    requires s[i..j] != [] ==> !IsSpace(s[i..j][0]) && !IsSpace(s[i..j][j - i - 1])
    requires s[i'..j'] != [] ==> !IsSpace(s[i'..j'][0]) && !IsSpace(s[i'..j'][j' - i' - 1])
    ensures s[i..j] == s[i'..j']
  {
    assert i < j ==> s[i] == s[i..j][0] && s[j - 1] == s[i..j][j - i - 1];
    assert i' < j' ==> s[i'] == s[i'..j'][0] && s[j' - 1] == s[i'..j'][j' - i' - 1];
    MarginsMeet(s, i, j, i', j');
    MarginsMeet(s, i', j', i, j);
    if i < j {
      SameStart(s, i, j, i', j');
      SameStart(s, i', j', i, j);
      SameEnd(s, i, j, i', j');
      SameEnd(s, i', j', i, j);
    }
  }

  /** A non-empty stripped slice sits inside any other slice whose margins are all blank. */
  lemma MarginsMeet(s: string, i: nat, j: nat, i': nat, j': nat)
    requires i <= j <= |s| && i' <= j' <= |s|
    requires AllSpace(s[..i']) && AllSpace(s[j'..])
    requires i < j ==> !IsSpace(s[i])
    ensures i < j ==> i' < j'
  {
  }

  lemma SameStart(s: string, i: nat, j: nat, i': nat, j': nat)
    requires i < j <= |s| && i' < j' <= |s|
    requires AllSpace(s[..i']) && !IsSpace(s[i])
    ensures i' <= i
  {
  }

  lemma SameEnd(s: string, i: nat, j: nat, i': nat, j': nat)
    requires i < j <= |s| && i' < j' <= |s|
    requires AllSpace(s[j'..]) && !IsSpace(s[j - 1])
    ensures j <= j'
  {
  }

  /** A string with no surrounding whitespace is its own strip. */
  lemma StripOfStripped(s: string)
    requires s != [] ==> !IsSpace(s[0]) && !IsSpace(s[|s| - 1])
    ensures Strip(s) == s
  {
  }

  /** Stripping twice is stripping once. */
  lemma StripIdempotent(s: string)
    ensures Strip(Strip(s)) == Strip(s)
  {
    StripOfStripped(Strip(s));
  }

  /** Index of the first '\n' in s, or |s| when there is none. */
  function LineEnd(s: string): (k: nat)
    ensures k <= |s|
    ensures '\n' !in s[..k]
    ensures k < |s| ==> s[k] == '\n'
  {
    if |s| == 0 || s[0] == '\n' then 0
    else
      var k := 1 + LineEnd(s[1..]);
      assert s[..k] == [s[0]] + s[1..][..k - 1];
      k
  }

  /** The lines of s joined by '\n' (the inverse of SplitOnNewline). */
  function JoinLines(lines: seq<string>): string {
    if |lines| == 0 then ""
    else if |lines| == 1 then lines[0]
    else lines[0] + "\n" + JoinLines(lines[1..])
  }

  /** s cut at every '\n': one more piece than there are newlines, none holding a '\n'. */
  function SplitOnNewline(s: string): (pieces: seq<string>)
    ensures |pieces| >= 1
    ensures forall p :: p in pieces ==> '\n' !in p
    ensures JoinLines(pieces) == s
    decreases |s|
  {
    var k := LineEnd(s);
    if k == |s| then
      assert s[..k] == s;
      [s]
    else
      var rest := SplitOnNewline(s[k + 1..]);
      var pieces := [s[..k]] + rest;
      assert pieces[1..] == rest;
      assert JoinLines(pieces) == s[..k] + "\n" + JoinLines(rest);
      assert s == s[..k] + "\n" + s[k + 1..];
      assert forall p :: p in pieces ==> p == s[..k] || p in rest;
      pieces
  }

  /**
   * Python's `s.splitlines()` with '\n' as the only line boundary: like cutting at every
   * '\n', except that a final '\n' does not start an empty last line ("" has no lines).
   */
  function SplitLines(s: string): (lines: seq<string>)
    ensures forall l :: l in lines ==> '\n' !in l
    ensures if s != [] && s[|s| - 1] == '\n' then s == JoinLines(lines) + "\n" else s == JoinLines(lines)
  {
    var pieces := SplitOnNewline(s);
    if pieces[|pieces| - 1] == "" then
      var lines := pieces[..|pieces| - 1];
      JoinDropEmptyLast(pieces);
      lines
    else
      LastPieceEnd(pieces);
      pieces
  }

  lemma JoinDropEmptyLast(pieces: seq<string>)
    requires |pieces| >= 1 && pieces[|pieces| - 1] == ""
    ensures |pieces| >= 2 ==> JoinLines(pieces) == JoinLines(pieces[..|pieces| - 1]) + "\n"
    ensures |pieces| == 1 ==> JoinLines(pieces) == ""
    ensures JoinLines(pieces) != [] ==> JoinLines(pieces)[|JoinLines(pieces)| - 1] == '\n'
  {
    if |pieces| > 2 {
      JoinDropEmptyLast(pieces[1..]);
      assert pieces[1..][..|pieces| - 2] == pieces[..|pieces| - 1][1..];
    }
  }

  lemma LastPieceEnd(pieces: seq<string>)
    requires |pieces| >= 1 && pieces[|pieces| - 1] != ""
    requires forall p :: p in pieces ==> '\n' !in p
    ensures JoinLines(pieces) != [] && JoinLines(pieces)[|JoinLines(pieces)| - 1] != '\n'
  {
    var last := pieces[|pieces| - 1];
    assert last in pieces;
    assert last[|last| - 1] in last;
    if |pieces| > 1 {
      LastPieceEnd(pieces[1..]);
    }
  }

  lemma LineEndOfJoin(a: string, b: string)
    requires '\n' !in a
    ensures LineEnd(a + "\n" + b) == |a|
    ensures LineEnd(a) == |a|
  {
    if a != [] {
      assert (a + "\n" + b)[1..] == a[1..] + "\n" + b;
      assert a[0] in a;
      assert forall c :: c in a[1..] ==> c in a;
      LineEndOfJoin(a[1..], b);
    }
  }

  /** Cutting joined pieces at their newlines gives the pieces back. */
  lemma {:induction false} SplitOnNewlineOfJoin(pieces: seq<string>)
    requires |pieces| >= 1
    requires forall p :: p in pieces ==> '\n' !in p
    ensures SplitOnNewline(JoinLines(pieces)) == pieces
  {
    var a := pieces[0];
    assert a in pieces;
    if |pieces| == 1 {
      LineEndOfJoin(a, "");
    } else {
      var b := JoinLines(pieces[1..]);
      var s := a + "\n" + b;
      LineEndOfJoin(a, b);
      assert s[..|a|] == a && s[|a| + 1..] == b;
      assert forall p :: p in pieces[1..] ==> p in pieces;
      SplitOnNewlineOfJoin(pieces[1..]);
      assert [a] + pieces[1..] == pieces;
    }
  }

  /**
   * `"\n".join(lines).splitlines() == lines` for lines without '\n' whose last line is not
   * empty: together with the ensures of SplitLines, the two are inverse.
   */
  lemma SplitLinesOfJoin(lines: seq<string>)
    requires forall l :: l in lines ==> '\n' !in l
    requires lines != [] ==> lines[|lines| - 1] != ""
    ensures SplitLines(JoinLines(lines)) == lines
  {
    if lines != [] {
      SplitOnNewlineOfJoin(lines);
    }
  }

  /** ASCII `str.lower()` on one character. */
  function LowerChar(c: char): (d: char)
    ensures 'A' <= c <= 'Z' ==> d as int == c as int + 32
    ensures !('A' <= c <= 'Z') ==> d == c
  {
    if 'A' <= c <= 'Z' then (c as int + 32) as char else c
  }

  /** Two characters lower to the same one exactly when they are equal or the same ASCII letter in the two cases. */
  lemma LowerCharSameLetter(c: char, d: char)
    ensures LowerChar(c) == LowerChar(d) <==>
      c == d || ('A' <= c <= 'Z' && d as int == c as int + 32) || ('A' <= d <= 'Z' && c as int == d as int + 32)
  {
  }

  /** ASCII `str.lower()`. */
  function Lower(s: string): (r: string)
    ensures |r| == |s|
    ensures forall k :: 0 <= k < |s| ==> r[k] == LowerChar(s[k])
  {
    if s == [] then [] else [LowerChar(s[0])] + Lower(s[1..])
  }

  /** Python's `needle in hay` on strings: needle occurs in hay as a contiguous slice. */
  predicate Contains(hay: string, needle: string) {
    exists i | 0 <= i <= |hay| - |needle| :: OccursAt(hay, needle, i)
  }

  predicate OccursAt(hay: string, needle: string, i: nat) {
    i + |needle| <= |hay| && hay[i..i + |needle|] == needle
  }

  /** The empty string is in every string, which is why an empty search text keeps every row. */
  lemma EmptyContained(hay: string)
    ensures Contains(hay, "")
  {
    assert OccursAt(hay, "", 0);
  }
}
