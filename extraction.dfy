/**
 * Template extraction from the capture executable's standard output: the output is
 * stripped and cut into lines, and the lines are scanned from the last one backwards for
 * the first stripped line longer than 100 characters written only in the base64 alphabet.
 */
module Extraction {
  import opened Wrappers
  import Text

  /**
   * Table 1 of section 4 of RFC 4648: value 0-25 is 'A'-'Z', 26-51 is 'a'-'z', 52-61 is
   * '0'-'9', 62 is '+' and 63 is '/'.
   */
  function Base64Digit(v: nat): char
    requires v < 64
  {
    if v < 26 then ('A' as int + v) as char
    else if v < 52 then ('a' as int + (v - 26)) as char
    else if v < 62 then ('0' as int + (v - 52)) as char
    else if v == 62 then '+'
    else '/'
  }

  /** The base64 alphabet in value order, "ABC...XYZabc...xyz0...9+/". */
  function Base64Alphabet(): string {
    seq(64, v requires 0 <= v < 64 => Base64Digit(v))
  }

  /** The regular-expression class `[A-Za-z0-9+/=]`. */
  predicate IsBase64Char(c: char) {
    ('A' <= c <= 'Z') || ('a' <= c <= 'z') || ('0' <= c <= '9') || c == '+' || c == '/' || c == '='
  }

  /** The character class is exactly the RFC 4648 alphabet plus its pad character '='. */
  lemma Base64CharIsAlphabet(c: char)
    ensures IsBase64Char(c) <==> c in Base64Alphabet() || c == '='
  {
    var a := Base64Alphabet();
    if IsBase64Char(c) && c != '=' {
      var v := if 'A' <= c <= 'Z' then c as int - 'A' as int
               else if 'a' <= c <= 'z' then 26 + c as int - 'a' as int
               else if '0' <= c <= '9' then 52 + c as int - '0' as int
               else if c == '+' then 62 else 63;
      assert a[v] == c;
    }
    if c in a {
      var v :| 0 <= v < 64 && a[v] == c;
      assert IsBase64Char(Base64Digit(v));
    }
  }

  /**
   * `is_base64(s)`: `re.fullmatch(r'[A-Za-z0-9+/=]+', s)` succeeds, i.e. s is non-empty and
   * every character is in the class. Padding placement and length modulo 4 are not checked.
   */
  predicate IsBase64(s: string) {
    |s| > 0 && forall k :: 0 <= k < |s| ==> IsBase64Char(s[k])
  }

  /** The test applied to each (already stripped) line: `len(l) > 100 and is_base64(l)`. */
  predicate IsTemplateText(l: string) {
    |l| > 100 && IsBase64(l)
  }

  /** A raw line qualifies when its stripped form passes the test. */
  predicate Qualifies(line: string) {
    IsTemplateText(Text.Strip(line))
  }

  /** i is the last qualifying line: it qualifies and no line after it does. */
  ghost predicate LastQualifying(lines: seq<string>, i: int) {
    && 0 <= i < |lines|
    && Qualifies(lines[i])
    && forall j :: i < j < |lines| ==> !Qualifies(lines[j])
  }

  /** The index of the last qualifying line among lines[..n], looking from n - 1 down to 0. */
  function FindLast(lines: seq<string>, n: nat): (r: Option<nat>)
    requires n <= |lines|
    ensures r.None? ==> forall i :: 0 <= i < n ==> !Qualifies(lines[i])
    ensures r.Some? ==> r.value < n && Qualifies(lines[r.value])
    ensures r.Some? ==> forall j :: r.value < j < n ==> !Qualifies(lines[j])
  {
    if n == 0 then None
    else if Qualifies(lines[n - 1]) then Some(n - 1)
    else FindLast(lines, n - 1)
  }

  /** The reverse scan over lines as a search: the stripped last qualifying line, or None. */
  function ExtractFromLines(lines: seq<string>): (r: Option<string>)
    ensures r.None? <==> forall i :: 0 <= i < |lines| ==> !Qualifies(lines[i])
    ensures r.Some? ==> exists i :: LastQualifying(lines, i) && r.value == Text.Strip(lines[i])
  {
    match FindLast(lines, |lines|)
    case None => None
    case Some(i) =>
      assert LastQualifying(lines, i);
      Some(Text.Strip(lines[i]))
  }

  /** `extract_template(output)`: the lines of the stripped output, scanned from the end. */
  function ExtractTemplate(output: string): Option<string> {
    ExtractFromLines(Text.SplitLines(Text.Strip(output)))
  }

  /** Whatever is extracted is a template text: base64 only, at least 101 characters, no surrounding blanks. */
  lemma ExtractedIsTemplate(output: string)
    requires ExtractTemplate(output).Some?
    ensures IsTemplateText(ExtractTemplate(output).value)
    ensures |ExtractTemplate(output).value| >= 101
    ensures Text.Strip(ExtractTemplate(output).value) == ExtractTemplate(output).value
  {
    var t := ExtractTemplate(output).value;
    assert t[0] in t && t[|t| - 1] in t;
    Text.StripOfStripped(t);
  }

  /** A line of at most 100 characters never qualifies, however it is written. */
  lemma ShortLineNeverQualifies(line: string)
    requires |line| <= 100
    ensures !Qualifies(line)
  {
  }

  /** The scan picks the LAST qualifying line, not the longest: a later shorter template wins. */
  lemma LastWinsOverLongest(earlier: string, later: string, noise: seq<string>)
    requires IsTemplateText(earlier) && IsTemplateText(later)
    requires forall k :: 0 <= k < |noise| ==> |noise[k]| <= 100
    ensures ExtractFromLines([earlier, later] + noise) == Some(later)
  {
    var lines := [earlier, later] + noise;
    TemplateTextQualifies(later);
    forall j | 1 < j < |lines| ensures !Qualifies(lines[j]) {
      assert lines[j] == noise[j - 2];
      ShortLineNeverQualifies(lines[j]);
    }
    var r := FindLast(lines, |lines|);
    assert Qualifies(lines[1]);
    assert r.Some? && r.value == 1;
  }

  /** The engine's usual output: log lines, then the template line last. */
  lemma TemplateAfterLogLines(x: string)
    requires IsTemplateText(x)
    ensures ExtractFromLines(["junk", "SDK_LOG: ready", x]) == Some(x)
  {
    var lines := ["junk", "SDK_LOG: ready", x];
    TemplateTextQualifies(x);
    var r := FindLast(lines, 3);
    assert lines[2] == x;
    assert r.Some? && r.value == 2;
  }

  /** The same output as the text the executable prints. */
  lemma TemplateAfterLogText(x: string)
    requires IsTemplateText(x)
    ensures ExtractTemplate("junk\nSDK_LOG: ready\n" + x) == Some(x)
  {
    LogTextLines(x);
    TemplateAfterLogLines(x);
  }

  lemma LogTextLines(x: string)
    requires IsTemplateText(x)
    ensures Text.SplitLines(Text.Strip("junk\nSDK_LOG: ready\n" + x)) == ["junk", "SDK_LOG: ready", x]
  {
    var lines := ["junk", "SDK_LOG: ready", x];
    var out := "junk\nSDK_LOG: ready\n" + x;
    JoinLogLines(x);
    StripLogText(x);
    assert '\n' !in x by {
      assert forall k :: 0 <= k < |x| ==> IsBase64Char(x[k]);
    }
    Text.SplitLinesOfJoin(lines);
  }

  lemma JoinLogLines(x: string)
    ensures Text.JoinLines(["junk", "SDK_LOG: ready", x]) == "junk\nSDK_LOG: ready\n" + x
  {
    var lines := ["junk", "SDK_LOG: ready", x];
    assert lines[1..][1..] == [x];
    assert Text.JoinLines(lines[1..]) == "SDK_LOG: ready" + "\n" + x;
    assert "junk" + "\n" + ("SDK_LOG: ready" + "\n" + x) == "junk\nSDK_LOG: ready\n" + x;
  }

  lemma StripLogText(x: string)
    requires IsTemplateText(x)
    ensures Text.Strip("junk\nSDK_LOG: ready\n" + x) == "junk\nSDK_LOG: ready\n" + x
  {
    var out := "junk\nSDK_LOG: ready\n" + x;
    assert x[|x| - 1] in x;
    assert out[|out| - 1] == x[|x| - 1];
    Text.StripOfStripped(out);
  }

  /** A template text on its own is extracted as itself. */
  lemma ExtractOfTemplate(x: string)
    requires IsTemplateText(x)
    ensures ExtractTemplate(x) == Some(x)
  {
    TemplateTextQualifies(x);
    assert '\n' !in x by {
      assert forall k :: 0 <= k < |x| ==> IsBase64Char(x[k]);
    }
    Text.SplitLinesOfJoin([x]);
    assert Text.SplitLines(Text.Strip(x)) == [x];
  }

  /** Extracting again from an extracted template changes nothing. */
  lemma ExtractIdempotent(output: string)
    requires ExtractTemplate(output).Some?
    ensures ExtractTemplate(ExtractTemplate(output).value) == ExtractTemplate(output)
  {
    ExtractedIsTemplate(output);
    ExtractOfTemplate(ExtractTemplate(output).value);
  }

  lemma TemplateTextQualifies(t: string)
    requires IsTemplateText(t)
    ensures Qualifies(t) && Text.Strip(t) == t
  {
    assert t[0] in t && t[|t| - 1] in t;
    Text.StripOfStripped(t);
  }

  /**
   * The reversed `for` loop with `break` (`template_base64 = None; for line in
   * reversed(lines): ...`) and, equally, `extract_template` written as a loop with an early
   * `return`: it computes exactly ExtractTemplate.
   */
  method ScanForTemplate(output: string) returns (t: Option<string>)
    ensures t == ExtractTemplate(output)
  {
    var lines := Text.SplitLines(Text.Strip(output));
    t := None;
    var i := |lines|;
    while i > 0
      invariant 0 <= i <= |lines|
      invariant FindLast(lines, i) == FindLast(lines, |lines|)
      invariant t == None
    {
      i := i - 1;
      var line := Text.Strip(lines[i]);
      if IsTemplateText(line) {
        t := Some(line);
        break;
      }
    }
  }
}
